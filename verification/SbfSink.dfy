/** The per-antenna output files: opened late, with the common frames replayed on opening. */
module SbfSink {
  import opened Bytes

  /** A frame for one antenna, or for all of them. */
  datatype Event<T> = Own(ant: int, frame: T) | Common(frame: T)

  /** What belongs in an antenna's file: all common frames and its own, in order of arrival. */
  function FileOf<T>(log: seq<Event<T>>, ant: int): seq<T> {
    if log == [] then []
    else
      var e := log[|log| - 1];
      FileOf(log[..|log| - 1], ant) + if e.Common? || e.ant == ant then [e.frame] else []
  }

  function Commons<T>(log: seq<Event<T>>): seq<T> {
    if log == [] then []
    else
      var e := log[|log| - 1];
      Commons(log[..|log| - 1]) + if e.Common? then [e.frame] else []
  }

  /** The antenna has had a frame of its own. */
  ghost predicate Opened<T>(log: seq<Event<T>>, ant: int) {
    exists k :: 0 <= k < |log| && log[k].Own? && log[k].ant == ant
  }

  lemma LogPush<T>(log: seq<Event<T>>, e: Event<T>, ant: int)
    ensures FileOf(log + [e], ant) == FileOf(log, ant) + if e.Common? || e.ant == ant then [e.frame] else []
    ensures Commons(log + [e]) == Commons(log) + if e.Common? then [e.frame] else []
    ensures Opened(log + [e], ant) <==> Opened(log, ant) || (e.Own? && e.ant == ant)
  {
    assert (log + [e])[..|log|] == log;
    if Opened(log, ant) {
      var k :| 0 <= k < |log| && log[k].Own? && log[k].ant == ant;
      assert (log + [e])[k] == log[k];
    }
    if e.Own? && e.ant == ant { assert (log + [e])[|log|] == e; }
  }

  /** Before its first own frame an antenna's share is the common frames: replaying them misses nothing. */
  lemma {:induction false} UnopenedFile<T>(log: seq<Event<T>>, ant: int)
    requires !Opened(log, ant)
    ensures FileOf(log, ant) == Commons(log)
  {
    if log != [] {
      var init, e := log[..|log| - 1], log[|log| - 1];
      assert init + [e] == log;
      LogPush(init, e, ant);
      UnopenedFile(init, ant);
    }
  }

  /** The file on disk and its counters agree with the frames that belong in it. */
  ghost predicate Holds(file: seq<byte>, frames: nat, bytes: nat, want: seq<seq<byte>>) {
    file == Concat(want) && frames == |want| && bytes == |file|
  }

  lemma HoldsPush(file: seq<byte>, frames: nat, bytes: nat, want: seq<seq<byte>>, frame: seq<byte>)
    requires Holds(file, frames, bytes, want)
    ensures Holds(file + frame, frames + 1, bytes + |frame|, want + [frame])
  {
    ConcatPush(want, frame);
  }

  /** Every open file holds what `want` gives for its antenna. */
  ghost predicate AllHold(files: map<int, seq<byte>>, frames: map<int, nat>, bytes: map<int, nat>,
                          want: map<int, seq<seq<byte>>>) {
    && files.Keys == frames.Keys == bytes.Keys == want.Keys
    && forall ant :: ant in files ==> Holds(files[ant], frames[ant], bytes[ant], want[ant])
  }

  /** The share of each of these antennas in the log. */
  ghost function Shares(log: seq<Event<seq<byte>>>, ants: set<int>): map<int, seq<seq<byte>>> {
    map ant | ant in ants :: FileOf(log, ant)
  }

  /** Appending a frame to one file adds it to that antenna's share. */
  lemma AppendHolds(files: map<int, seq<byte>>, frames: map<int, nat>, bytes: map<int, nat>,
                    want: map<int, seq<seq<byte>>>, ant: int, frame: seq<byte>)
    requires AllHold(files, frames, bytes, want) && ant in files
    ensures AllHold(files[ant := files[ant] + frame], frames[ant := frames[ant] + 1],
                    bytes[ant := bytes[ant] + |frame|], want[ant := want[ant] + [frame]])
  {
    HoldsPush(files[ant], frames[ant], bytes[ant], want[ant], frame);
    hide Holds;
  }

  lemma OpenHolds(files: map<int, seq<byte>>, frames: map<int, nat>, bytes: map<int, nat>,
                  want: map<int, seq<seq<byte>>>, ant: int)
    requires AllHold(files, frames, bytes, want)
    ensures AllHold(files[ant := []], frames[ant := 0], bytes[ant := 0], want[ant := []])
  {
  }

  ghost predicate KeysOpened(keys: set<int>, log: seq<Event<seq<byte>>>) {
    forall ant :: ant in keys <==> Opened(log, ant)
  }

  lemma StillClosed(keys: set<int>, log: seq<Event<seq<byte>>>, ant: int)
    requires KeysOpened(keys, log) && ant !in keys
    ensures !Opened(log, ant)
  {
  }

  lemma KeysPush(keys: set<int>, log: seq<Event<seq<byte>>>, e: Event<seq<byte>>)
    requires KeysOpened(keys, log)
    ensures KeysOpened(if e.Own? then keys + {e.ant} else keys, log + [e])
    ensures Commons(log + [e]) == Commons(log) + if e.Common? then [e.frame] else []
  {
    hide Opened, Commons;
    LogPush(log, e, 0);
    forall ant ensures Opened(log + [e], ant) <==> Opened(log, ant) || (e.Own? && e.ant == ant) {
      LogPush(log, e, ant);
    }
  }

  lemma SharesOwn(log: seq<Event<seq<byte>>>, ant: int, frame: seq<byte>, ants: set<int>)
    requires ant in ants
    ensures ant in Shares(log, ants)
    ensures Shares(log + [Own(ant, frame)], ants) == Shares(log, ants)[ant := Shares(log, ants)[ant] + [frame]]
  {
    hide FileOf;
    forall a ensures FileOf(log + [Own(ant, frame)], a) == FileOf(log, a) + if a == ant then [frame] else [] {
      LogPush(log, Own(ant, frame), a);
    }
    assert forall a :: FileOf(log, a) + [] == FileOf(log, a);
  }

  lemma SharesCommon(log: seq<Event<seq<byte>>>, frame: seq<byte>, ants: set<int>, want: map<int, seq<seq<byte>>>)
    requires want.Keys == ants && forall a :: a in ants ==> want[a] == FileOf(log, a) + [frame]
    ensures want == Shares(log + [Common(frame)], ants)
  {
    hide FileOf;
    forall a ensures FileOf(log + [Common(frame)], a) == FileOf(log, a) + [frame] {
      LogPush(log, Common(frame), a);
    }
  }

  lemma SharesReplayed(log: seq<Event<seq<byte>>>, ants: set<int>, ant: int)
    requires !Opened(log, ant)
    ensures Shares(log, ants)[ant := Commons(log)] == Shares(log, ants + {ant})
  {
    UnopenedFile(log, ant);
  }

  lemma UpdateTwice(want: map<int, seq<seq<byte>>>, ant: int, history: seq<seq<byte>>, k: nat)
    requires k < |history|
    ensures want[ant := history[..k]][ant := history[..k] + [history[k]]] == want[ant := history[..k + 1]]
  {
    assert history[..k] + [history[k]] == history[..k + 1];
  }

  class Sink {
    var files: map<int, seq<byte>>
    var frames: map<int, nat>
    var bytes: map<int, nat>
    var commonHistory: seq<seq<byte>>
    var commonFrames: nat
    ghost var log: seq<Event<seq<byte>>>

    ghost predicate Valid()
      reads this
    {
      && commonHistory == Commons(log) && commonFrames == |commonHistory|
      && KeysOpened(files.Keys, log)
      && AllHold(files, frames, bytes, Shares(log, files.Keys))
    }

    constructor ()
      ensures Valid() && log == []
    {
      files, frames, bytes, commonHistory, commonFrames, log := map[], map[], map[], [], 0, [];
    }

    method WriteOpen(ant: int, frame: seq<byte>, ghost want: map<int, seq<seq<byte>>>)
      requires AllHold(files, frames, bytes, want) && ant in files && ant in want
      modifies this`files, this`frames, this`bytes
      ensures AllHold(files, frames, bytes, want[ant := want[ant] + [frame]])
      ensures files.Keys == old(files.Keys)
    {
      assert ant in frames && ant in bytes;
      hide AllHold, Holds;
      AppendHolds(files, frames, bytes, want, ant, frame);
      files := files[ant := files[ant] + frame];
      frames := frames[ant := frames[ant] + 1];
      bytes := bytes[ant := bytes[ant] + |frame|];
    }

    /** Opens the antenna's file and replays the common frames seen so far. */
    method Open(ant: int)
      requires Valid() && ant !in files
      modifies this`files, this`frames, this`bytes
      ensures AllHold(files, frames, bytes, Shares(log, files.Keys)) && files.Keys == old(files.Keys) + {ant}
    {
      hide FileOf, Commons, KeysOpened, Opened, AllHold;
      StillClosed(files.Keys, log, ant);
      ghost var want := Shares(log, files.Keys);
      hide Shares;
      OpenHolds(files, frames, bytes, want, ant);
      files, frames, bytes := files[ant := []], frames[ant := 0], bytes[ant := 0];
      ReplayCommon(ant, want);
      assert files.Keys == old(files.Keys) + {ant};
      SharesReplayed(log, old(files.Keys), ant);
    }

    method ReplayCommon(ant: int, ghost want: map<int, seq<seq<byte>>>)
      requires ant in files && AllHold(files, frames, bytes, want[ant := []])
      modifies this`files, this`frames, this`bytes
      ensures AllHold(files, frames, bytes, want[ant := commonHistory]) && files.Keys == old(files.Keys)
    {
      hide AllHold;
      for k := 0 to |commonHistory|
        invariant files.Keys == old(files.Keys)
        invariant AllHold(files, frames, bytes, want[ant := commonHistory[..k]])
      {
        WriteOpen(ant, commonHistory[k], want[ant := commonHistory[..k]]);
        UpdateTwice(want, ant, commonHistory, k);
      }
      assert commonHistory[..|commonHistory|] == commonHistory;
    }

    method Write(ant: int, frame: seq<byte>)
      requires Valid()
      modifies this
      ensures Valid() && log == old(log) + [Own(ant, frame)]
      ensures files.Keys == old(files.Keys) + {ant} && commonHistory == old(commonHistory)
    {
      hide FileOf, Commons, Opened, AllHold, KeysOpened, Shares;
      KeysPush(files.Keys, log, Own(ant, frame));
      if ant !in files {
        Open(ant);
      }
      assert files.Keys == old(files.Keys) + {ant};
      SharesOwn(log, ant, frame, files.Keys);
      WriteOpen(ant, frame, Shares(log, files.Keys));
      assert Commons(log) + [] == Commons(log);
      log := log + [Own(ant, frame)];
    }

    method WriteCommon(frame: seq<byte>)
      requires Valid()
      modifies this
      ensures Valid() && log == old(log) + [Common(frame)]
      ensures files.Keys == old(files.Keys) && commonHistory == old(commonHistory) + [frame]
    {
      hide FileOf, Commons, Opened, KeysOpened, AllHold;
      KeysPush(files.Keys, log, Common(frame));
      commonHistory := commonHistory + [frame];
      commonFrames := commonFrames + 1;
      var todo := files.Keys;
      ghost var want := Shares(log, files.Keys);
      while todo != {}
        invariant todo <= files.Keys == old(files.Keys) && log == old(log)
        invariant commonHistory == old(commonHistory) + [frame] && commonFrames == |commonHistory|
        invariant AllHold(files, frames, bytes, want) && want.Keys == files.Keys
        invariant forall a :: a in want ==> want[a] == FileOf(log, a) + if a in todo then [] else [frame]
      {
        var ant :| ant in todo;
        WriteOpen(ant, frame, want);
        want := want[ant := want[ant] + [frame]];
        todo := todo - {ant};
      }
      SharesCommon(log, frame, files.Keys, want);
      log := log + [Common(frame)];
    }
  }

  /**
   For every sequence of writes, each opened file is the eager filter of the whole sequence, and
   exactly the antennas with a frame of their own have one.
   */
  method Replay(events: seq<Event<seq<byte>>>)
    returns (files: map<int, seq<byte>>, frames: map<int, nat>, bytes: map<int, nat>)
    ensures files.Keys == frames.Keys == bytes.Keys
    ensures forall ant :: ant in files <==> Opened(events, ant)
    ensures forall ant :: ant in files ==> Holds(files[ant], frames[ant], bytes[ant], FileOf(events, ant))
  {
    hide FileOf, Commons, Opened, Holds;
    var sink := new Sink();
    for i := 0 to |events|
      invariant fresh(sink) && sink.Valid() && sink.log == events[..i]
    {
      assert events[..i + 1] == events[..i] + [events[i]];
      match events[i]
      case Own(ant, frame) => sink.Write(ant, frame);
      case Common(frame) => sink.WriteCommon(frame);
    }
    assert events[..|events|] == events;
    files, frames, bytes := sink.files, sink.frames, sink.bytes;
  }
}
