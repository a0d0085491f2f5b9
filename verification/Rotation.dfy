/** When the recorder turns to a new file, over whole runs. */
module Rotation {
  import opened Bytes
  import opened Framing
  import opened Recorder
  import opened RecorderRuns

  /**
   A frame on its way to disk: the file it goes to, its bytes, and what the check after it finds,
   the size of that file, its age, and the time of the check.
   */
  datatype Write = Write(file: nat, bytes: seq<byte>, size: nat, age: int, at: int)

  predicate Due(cfg: Config, w: Write) { TurnDue(cfg, w.size, w.age) }

  function WriteTo(d: Disk, bytes: seq<byte>, now: int): Write {
    Write(if d.files == [] then 0 else |d.files| - 1, bytes, d.size + |bytes|, now - d.start, now)
  }

  /** The writes of a call, as `Stored` carries them out. */
  function WritesOf(cfg: Config, d: Disk, frames: seq<Frame>, clock: nat -> int): seq<Write> {
    if frames == [] then []
    else
      var n := |frames| - 1;
      WritesOf(cfg, d, frames[..n], clock)
      + [WriteTo(Stored(cfg, d, frames[..n], clock), frames[n].Wire(), clock(2 * n + 1))]
  }

  function ActWrites(cfg: Config, d: Disk, h: seq<byte>, action: Action): seq<Write> {
    match action
    case Receive(bytes, clock) =>
      WritesOf(cfg, if d.open then d else Opened(d, clock(0)), NewFrames(h, bytes), clock)
    case CloseFile => []
  }

  /** All the writes of a run. */
  function RunWrites(cfg: Config, actions: seq<Action>): seq<Write> {
    if actions == [] then []
    else
      var init := actions[..|actions| - 1];
      RunWrites(cfg, init) + ActWrites(cfg, DiskAfter(cfg, init), Concat(Chunks(init)), actions[|actions| - 1])
  }

  /** The bytes that went to one file. */
  function Written(ws: seq<Write>, file: nat): seq<byte> {
    if ws == [] then []
    else
      var w := ws[|ws| - 1];
      Written(ws[..|ws| - 1], file) + if w.file == file then w.bytes else []
  }

  function BytesOf(ws: seq<Write>): seq<seq<byte>> {
    seq(|ws|, k requires 0 <= k < |ws| => ws[k].bytes)
  }

  /** The file that the next frame goes to. */
  function Target(d: Disk): int { if d.open then |d.files| - 1 else |d.files| }

  /** Files are filled one after the other, and left for good once a check found them due. */
  ghost predicate Ordered(cfg: Config, ws: seq<Write>) {
    forall j, k :: 0 <= j < k < |ws| ==> ws[j].file <= ws[k].file && (Due(cfg, ws[j]) ==> ws[j].file < ws[k].file)
  }

  ghost predicate Behind(cfg: Config, ws: seq<Write>, target: int) {
    forall j :: 0 <= j < |ws| ==> ws[j].file <= target && (Due(cfg, ws[j]) ==> ws[j].file < target)
  }

  ghost predicate Holding(files: seq<seq<byte>>, ws: seq<Write>) {
    && (forall j :: 0 <= j < |ws| ==> ws[j].file < |files|)
    && forall f :: 0 <= f < |files| ==> files[f] == Written(ws, f)
  }

  ghost predicate Fits(cfg: Config, d: Disk, ws: seq<Write>) {
    && Ordered(cfg, ws) && Behind(cfg, ws, Target(d)) && Holding(d.files, ws) && (d.open ==> d.files != [])
  }

  // --- One write -----------------------------------------------------------------

  lemma WrittenPush(ws: seq<Write>, w: Write, f: nat)
    ensures Written(ws + [w], f) == Written(ws, f) + if w.file == f then w.bytes else []
  {
    assert (ws + [w])[..|ws|] == ws;
  }

  lemma {:induction false} NotWritten(ws: seq<Write>, f: nat)
    requires forall j :: 0 <= j < |ws| ==> ws[j].file < f
    ensures Written(ws, f) == []
  {
    if ws != [] { NotWritten(ws[..|ws| - 1], f); }
  }

  lemma HoldingOpened(files: seq<seq<byte>>, ws: seq<Write>)
    requires Holding(files, ws)
    ensures Holding(files + [[]], ws)
  {
    NotWritten(ws, |files|);
    hide Written;
  }

  lemma HoldingPut(files: seq<seq<byte>>, ws: seq<Write>, w: Write)
    requires Holding(files, ws) && files != [] && w.file == |files| - 1
    ensures Holding(files[w.file := files[w.file] + w.bytes], ws + [w])
  {
    hide Written;
    var files' := files[w.file := files[w.file] + w.bytes];
    forall f | 0 <= f < |files'| ensures files'[f] == Written(ws + [w], f) {
      WrittenPush(ws, w, f);
    }
  }

  lemma OrderedPush(cfg: Config, ws: seq<Write>, w: Write)
    requires Ordered(cfg, ws) && Behind(cfg, ws, w.file)
    ensures Ordered(cfg, ws + [w])
  {
    hide Due;
  }

  lemma FitsOpened(cfg: Config, d: Disk, ws: seq<Write>, now: int)
    requires Fits(cfg, d, ws) && !d.open
    ensures Fits(cfg, Opened(d, now), ws)
  {
    hide Due, Written, Ordered;
    HoldingOpened(d.files, ws);
  }

  lemma FitsPut(cfg: Config, d: Disk, ws: seq<Write>, bytes: seq<byte>, now: int, restart: int)
    requires Fits(cfg, d, ws) && d.open
    ensures Checked(cfg, Put(d, bytes), now, restart).open
    ensures Fits(cfg, Checked(cfg, Put(d, bytes), now, restart), ws + [WriteTo(d, bytes, now)])
  {
    hide Written, Ordered, Holding;
    var w := WriteTo(d, bytes, now);
    OrderedPush(cfg, ws, w);
    HoldingPut(d.files, ws, w);
    if Due(cfg, w) { HoldingOpened(Put(d, bytes).files, ws + [w]); }
  }

  lemma {:induction false} FitsStored(cfg: Config, d: Disk, ws: seq<Write>, frames: seq<Frame>, clock: nat -> int)
    requires Fits(cfg, d, ws) && d.open
    ensures Stored(cfg, d, frames, clock).open
    ensures Fits(cfg, Stored(cfg, d, frames, clock), ws + WritesOf(cfg, d, frames, clock))
  {
    hide Fits, Checked, Put, WriteTo, Frame.Wire;
    if frames == [] {
      assert ws + [] == ws;
    } else {
      var n := |frames| - 1;
      var init, wire := frames[..n], frames[n].Wire();
      FitsStored(cfg, d, ws, init, clock);
      var before, earlier := Stored(cfg, d, init, clock), WritesOf(cfg, d, init, clock);
      var w := WriteTo(before, wire, clock(2 * n + 1));
      FitsPut(cfg, before, ws + earlier, wire, clock(2 * n + 1), clock(2 * n + 2));
      assert WritesOf(cfg, d, frames, clock) == earlier + [w];
      assert ws + (earlier + [w]) == ws + earlier + [w];
    }
  }

  // --- Whole runs ------------------------------------------------------------------

  lemma FitsAct(cfg: Config, d: Disk, ws: seq<Write>, h: seq<byte>, action: Action)
    requires Fits(cfg, d, ws)
    ensures Fits(cfg, Act(cfg, d, h, action), ws + ActWrites(cfg, d, h, action))
  {
    hide Stored, WritesOf, NewFrames, Written, Ordered;
    match action
    case Receive(bytes, clock) =>
      if !d.open { FitsOpened(cfg, d, ws, clock(0)); }
      hide Fits;
      FitsStored(cfg, if d.open then d else Opened(d, clock(0)), ws, NewFrames(h, bytes), clock);
    case CloseFile =>
      assert ws + [] == ws;
  }

  lemma {:induction false} FitsRun(cfg: Config, actions: seq<Action>)
    ensures Fits(cfg, DiskAfter(cfg, actions), RunWrites(cfg, actions))
  {
    hide Fits, Act, ActWrites, Concat;
    if actions == [] {
      FitsNothing(cfg);
    } else {
      var init := actions[..|actions| - 1];
      FitsRun(cfg, init);
      FitsAct(cfg, DiskAfter(cfg, init), RunWrites(cfg, init), Concat(Chunks(init)), actions[|actions| - 1]);
    }
  }

  lemma FitsNothing(cfg: Config)
    ensures Fits(cfg, Disk([], false, 0, 0), [])
  {
  }

  lemma {:induction false} WritesAreFrames(cfg: Config, d: Disk, frames: seq<Frame>, clock: nat -> int)
    ensures BytesOf(WritesOf(cfg, d, frames, clock)) == Wires(frames)
  {
    hide Stored, Frame.Wire;
    if frames != [] {
      var init, f := frames[..|frames| - 1], frames[|frames| - 1];
      WritesAreFrames(cfg, d, init, clock);
      assert BytesOf(WritesOf(cfg, d, frames, clock)) == BytesOf(WritesOf(cfg, d, init, clock)) + [f.Wire()];
      assert Wires(frames) == Wires(init) + [f.Wire()];
    }
  }

  lemma {:induction false} RunWritesAreFrames(cfg: Config, actions: seq<Action>)
    ensures BytesOf(RunWrites(cfg, actions)) == Wires(StreamFrames(Concat(Chunks(actions))))
  {
    hide Act, WritesOf, Frame.Wire, DiskAfter, Concat, StreamFrames, NewFrames;
    if actions == [] {
      NoFrames();
    } else {
      var init, action := actions[..|actions| - 1], actions[|actions| - 1];
      var d, h := DiskAfter(cfg, init), Concat(Chunks(init));
      RunWritesAreFrames(cfg, init);
      assert init + [action] == actions;
      NextAction(cfg, init, action);
      match action
      case Receive(bytes, clock) =>
        ConcatPush(Chunks(init), bytes);
        NewFramesAdded(h, bytes);
        WritesAreFrames(cfg, if d.open then d else Opened(d, clock(0)), NewFrames(h, bytes), clock);
        assert Wires(StreamFrames(h) + NewFrames(h, bytes)) == Wires(StreamFrames(h)) + Wires(NewFrames(h, bytes));
      case CloseFile =>
        assert Chunks(init) + [] == Chunks(init);
    }
  }

  lemma NoFrames()
    ensures Concat([]) == [] && StreamFrames([]) == []
  {
  }

  /**
   Over any run, with any clock: the frames of the stream are written in order, each file holds what
   was written to it, files are filled one after the other, and no frame is added to a file whose
   last check found it large enough or old enough.
   */
  lemma LeftWhenDue(cfg: Config, actions: seq<Action>)
    ensures var files, ws := DiskAfter(cfg, actions).files, RunWrites(cfg, actions);
            && BytesOf(ws) == Wires(StreamFrames(Concat(Chunks(actions))))
            && Holding(files, ws) && Ordered(cfg, ws)
  {
    hide DiskAfter, RunWrites, Concat, StreamFrames, Wires, BytesOf, Holding, Ordered;
    FitsRun(cfg, actions);
    RunWritesAreFrames(cfg, actions);
  }

  /** Within a call the next frame goes to the same file exactly when the check finds that file not due. */
  lemma SameFileUntilDue(cfg: Config, d: Disk, frames: seq<Frame>, clock: nat -> int, j: nat)
    requires d.open && d.files != [] && j + 1 < |frames|
    ensures |WritesOf(cfg, d, frames, clock)| == |frames|
    ensures var ws := WritesOf(cfg, d, frames, clock);
            ws[j + 1].file == ws[j].file + if Due(cfg, ws[j]) then 1 else 0
  {
    hide Frame.Wire;
    WriteAt(cfg, d, frames, clock, j);
    WriteAt(cfg, d, frames, clock, j + 1);
    StoredNext(cfg, d, frames, clock, j);
    StoredOpen(cfg, d, frames[..j], clock);
  }

  lemma {:induction false} StoredOpen(cfg: Config, d: Disk, frames: seq<Frame>, clock: nat -> int)
    requires d.open && d.files != []
    ensures Stored(cfg, d, frames, clock).open && Stored(cfg, d, frames, clock).files != []
  {
    hide Frame.Wire;
    if frames != [] { StoredOpen(cfg, d, frames[..|frames| - 1], clock); }
  }

  lemma {:induction false} WriteAt(cfg: Config, d: Disk, frames: seq<Frame>, clock: nat -> int, j: nat)
    requires j < |frames|
    ensures |WritesOf(cfg, d, frames, clock)| == |frames|
    ensures WritesOf(cfg, d, frames, clock)[j]
         == WriteTo(Stored(cfg, d, frames[..j], clock), frames[j].Wire(), clock(2 * j + 1))
  {
    hide Frame.Wire, Stored, WriteTo;
    var n := |frames| - 1;
    if j < n {
      WriteAt(cfg, d, frames[..n], clock, j);
      assert frames[..n][..j] == frames[..j];
    } else if n > 0 {
      WriteAt(cfg, d, frames[..n], clock, 0);
    }
  }

  // --- When files are opened -------------------------------------------------------

  /** The clock readings at which a call opens files behind its frames: where there is a file more. */
  function OpeningsOf(cfg: Config, d: Disk, frames: seq<Frame>, clock: nat -> int): seq<int> {
    if frames == [] then []
    else
      var n := |frames| - 1;
      OpeningsOf(cfg, d, frames[..n], clock)
      + if |Stored(cfg, d, frames, clock).files| > |Stored(cfg, d, frames[..n], clock).files| then [clock(2 * n + 2)]
        else []
  }

  /** A call opens a file at its first reading when none is open. */
  function ActOpenings(cfg: Config, d: Disk, h: seq<byte>, action: Action): seq<int> {
    match action
    case Receive(bytes, clock) =>
      (if d.open then [] else [clock(0)])
      + OpeningsOf(cfg, if d.open then d else Opened(d, clock(0)), NewFrames(h, bytes), clock)
    case CloseFile => []
  }

  /** When each file of a run was opened. */
  function RunOpenings(cfg: Config, actions: seq<Action>): seq<int> {
    if actions == [] then []
    else
      var init := actions[..|actions| - 1];
      RunOpenings(cfg, init) + ActOpenings(cfg, DiskAfter(cfg, init), Concat(Chunks(init)), actions[|actions| - 1])
  }

  /** The files that were ended by a close. */
  function ClosedFiles(cfg: Config, actions: seq<Action>): set<int> {
    if actions == [] then {}
    else
      var init := actions[..|actions| - 1];
      ClosedFiles(cfg, init)
      + if actions[|actions| - 1].CloseFile? && DiskAfter(cfg, init).open then {|DiskAfter(cfg, init).files| - 1}
        else {}
  }

  ghost predicate Steady(clock: nat -> int) {
    forall i: nat, j: nat :: i <= j ==> clock(i) <= clock(j)
  }

  /** No call sees the clock go back. */
  ghost predicate SteadyClocks(actions: seq<Action>) {
    forall k :: 0 <= k < |actions| && actions[k].Receive? ==> Steady(actions[k].clock)
  }

  /** The age that a check finds is the time since its file was opened. */
  ghost predicate Aged(ws: seq<Write>, os: seq<int>) {
    forall j :: 0 <= j < |ws| ==> ws[j].file < |os| && ws[j].age == ws[j].at - os[ws[j].file]
  }

  ghost predicate Dated(d: Disk, ws: seq<Write>, os: seq<int>) {
    && |os| == |d.files| && Aged(ws, os)
    && (d.open ==> d.files != [] && d.start == os[|os| - 1] && d.size == |d.files[|d.files| - 1]|)
  }

  lemma AgedMore(ws: seq<Write>, os: seq<int>, o: int)
    requires Aged(ws, os)
    ensures Aged(ws, os + [o])
  {
  }

  lemma DatedOpened(d: Disk, ws: seq<Write>, os: seq<int>, now: int)
    requires Dated(d, ws, os)
    ensures Dated(Opened(d, now), ws, os + [now])
  {
    AgedMore(ws, os, now);
    hide Aged;
  }

  lemma DatedPut(d: Disk, ws: seq<Write>, os: seq<int>, bytes: seq<byte>, now: int)
    requires Dated(d, ws, os) && d.open
    ensures Dated(Put(d, bytes), ws + [WriteTo(d, bytes, now)], os)
  {
  }

  /** A file ended by a check is large enough, or the next one is opened late enough. */
  ghost predicate SpacedAt(cfg: Config, d: Disk, os: seq<int>, closed: set<int>, f: nat)
    requires f + 1 < |d.files| && |os| == |d.files|
  {
    f in closed || |d.files[f]| >= cfg.rotateBytes || os[f + 1] - os[f] >= cfg.rotateInterval
  }

  ghost predicate Spaced(cfg: Config, d: Disk, os: seq<int>, closed: set<int>) {
    && |os| == |d.files|
    && (!d.open && d.files != [] ==> |d.files| - 1 in closed)
    && forall f: nat :: f + 1 < |d.files| ==> SpacedAt(cfg, d, os, closed, f)
  }

  lemma SpacedOpened(cfg: Config, d: Disk, os: seq<int>, closed: set<int>, now: int)
    requires Spaced(cfg, d, os, closed)
    requires d.open ==> d.files != [] && (|d.files[|d.files| - 1]| >= cfg.rotateBytes
                                          || now - os[|os| - 1] >= cfg.rotateInterval)
    ensures Spaced(cfg, Opened(d, now), os + [now], closed)
  {
    forall f: nat | f + 1 < |d.files| + 1 ensures SpacedAt(cfg, Opened(d, now), os + [now], closed, f) {
      if f + 1 < |d.files| { assert SpacedAt(cfg, d, os, closed, f); }
    }
  }

  lemma SpacedPut(cfg: Config, d: Disk, os: seq<int>, closed: set<int>, bytes: seq<byte>)
    requires Spaced(cfg, d, os, closed) && d.open && d.files != []
    ensures Spaced(cfg, Put(d, bytes), os, closed)
  {
    forall f: nat | f + 1 < |d.files| ensures SpacedAt(cfg, Put(d, bytes), os, closed, f) {
      assert SpacedAt(cfg, d, os, closed, f);
    }
  }

  /** One frame and the check behind it. */
  lemma DatedStep(cfg: Config, d: Disk, ws: seq<Write>, os: seq<int>, bytes: seq<byte>, now: int, restart: int)
    requires Dated(d, ws, os) && d.open
    ensures var d' := Checked(cfg, Put(d, bytes), now, restart);
            var os' := os + if |d'.files| > |d.files| then [restart] else [];
            && d'.open && Dated(d', ws + [WriteTo(d, bytes, now)], os')
            && forall closed: set<int> :: now <= restart && Spaced(cfg, d, os, closed) ==> Spaced(cfg, d', os', closed)
  {
    hide Aged, Spaced;
    var p, ws' := Put(d, bytes), ws + [WriteTo(d, bytes, now)];
    DatedPut(d, ws, os, bytes, now);
    var d' := Checked(cfg, p, now, restart);
    var os' := os + if |d'.files| > |d.files| then [restart] else [];
    if TurnDue(cfg, p.size, now - p.start) {
      DatedOpened(p, ws', os, restart);
    } else {
      assert os' == os;
    }
    forall closed: set<int> | now <= restart && Spaced(cfg, d, os, closed) ensures Spaced(cfg, d', os', closed) {
      SpacedPut(cfg, d, os, closed, bytes);
      if TurnDue(cfg, p.size, now - p.start) { SpacedOpened(cfg, p, os, closed, restart); }
    }
  }

  lemma {:induction false} DatedStored(cfg: Config, d: Disk, ws: seq<Write>, os: seq<int>, closed: set<int>,
                                       frames: seq<Frame>, clock: nat -> int)
    requires Dated(d, ws, os) && d.open
    ensures var d', os' := Stored(cfg, d, frames, clock), os + OpeningsOf(cfg, d, frames, clock);
            && d'.open && Dated(d', ws + WritesOf(cfg, d, frames, clock), os')
            && (Steady(clock) && Spaced(cfg, d, os, closed) ==> Spaced(cfg, d', os', closed))
  {
    hide Dated, Spaced, Checked, Put, WriteTo, Frame.Wire;
    if frames == [] {
      assert ws + [] == ws && os + [] == os;
    } else {
      var n := |frames| - 1;
      var init, wire := frames[..n], frames[n].Wire();
      DatedStored(cfg, d, ws, os, closed, init, clock);
      var before, earlier := Stored(cfg, d, init, clock), WritesOf(cfg, d, init, clock);
      var dates := OpeningsOf(cfg, d, init, clock);
      DatedStep(cfg, before, ws + earlier, os + dates, wire, clock(2 * n + 1), clock(2 * n + 2));
      var w := WriteTo(before, wire, clock(2 * n + 1));
      assert ws + (earlier + [w]) == ws + earlier + [w];
      var more := if |Stored(cfg, d, frames, clock).files| > |before.files| then [clock(2 * n + 2)] else [];
      assert os + (dates + more) == os + dates + more;
    }
  }

  lemma DatedAct(cfg: Config, d: Disk, ws: seq<Write>, os: seq<int>, closed: set<int>, h: seq<byte>, action: Action)
    requires Dated(d, ws, os)
    ensures var d', os' := Act(cfg, d, h, action), os + ActOpenings(cfg, d, h, action);
            var closed' := closed + if action.CloseFile? && d.open then {|d.files| - 1} else {};
            && Dated(d', ws + ActWrites(cfg, d, h, action), os')
            && ((action.Receive? ==> Steady(action.clock)) && Spaced(cfg, d, os, closed) ==>
                  Spaced(cfg, d', os', closed'))
  {
    hide Stored, WritesOf, OpeningsOf, NewFrames, Aged, SpacedAt;
    match action
    case Receive(bytes, clock) =>
      assert closed + {} == closed;
      var d1 := if d.open then d else Opened(d, clock(0));
      var os1 := os + if d.open then [] else [clock(0)];
      if d.open {
        assert os1 == os;
      } else {
        DatedOpened(d, ws, os, clock(0));
        if Spaced(cfg, d, os, closed) { SpacedOpened(cfg, d, os, closed, clock(0)); }
      }
      hide Dated, Spaced;
      var frames := NewFrames(h, bytes);
      DatedStored(cfg, d1, ws, os1, closed, frames, clock);
      assert os1 + OpeningsOf(cfg, d1, frames, clock)
          == os + ((if d.open then [] else [clock(0)]) + OpeningsOf(cfg, d1, frames, clock));
    case CloseFile =>
      assert ws + [] == ws && os + [] == os;
      if Spaced(cfg, d, os, closed) { SpacedClosed(cfg, d, os, closed); }
  }

  lemma SpacedClosed(cfg: Config, d: Disk, os: seq<int>, closed: set<int>)
    requires Spaced(cfg, d, os, closed) && (d.open ==> d.files != [])
    ensures Spaced(cfg, Closed(d), os, closed + if d.open then {|d.files| - 1} else {})
  {
    var closed' := closed + if d.open then {|d.files| - 1} else {};
    forall f: nat | f + 1 < |d.files| ensures SpacedAt(cfg, Closed(d), os, closed', f) {
      assert SpacedAt(cfg, d, os, closed, f);
    }
  }

  lemma {:induction false} DatedRun(cfg: Config, actions: seq<Action>)
    ensures var d, os := DiskAfter(cfg, actions), RunOpenings(cfg, actions);
            && Dated(d, RunWrites(cfg, actions), os)
            && (SteadyClocks(actions) ==> Spaced(cfg, d, os, ClosedFiles(cfg, actions)))
  {
    hide Dated, Spaced, Act, ActWrites, ActOpenings, Concat, Steady;
    if actions == [] {
      DatedNothing(cfg);
    } else {
      var n := |actions| - 1;
      var init := actions[..n];
      DatedRun(cfg, init);
      assert forall k :: 0 <= k < n ==> init[k] == actions[k];
      DatedAct(cfg, DiskAfter(cfg, init), RunWrites(cfg, init), RunOpenings(cfg, init), ClosedFiles(cfg, init),
               Concat(Chunks(init)), actions[n]);
    }
  }

  lemma DatedNothing(cfg: Config)
    ensures Dated(Disk([], false, 0, 0), [], []) && Spaced(cfg, Disk([], false, 0, 0), [], {})
  {
  }

  /** Over any run the age that a check finds is its own time less the time its file was opened. */
  lemma AgesExact(cfg: Config, actions: seq<Action>)
    ensures var ws, os := RunWrites(cfg, actions), RunOpenings(cfg, actions);
            && |os| == |DiskAfter(cfg, actions).files|
            && forall j :: 0 <= j < |ws| ==> ws[j].file < |os| && ws[j].age == ws[j].at - os[ws[j].file]
  {
    hide DiskAfter, RunWrites, RunOpenings;
    DatedRun(cfg, actions);
  }

  /**
   Over any run in which no call sees the clock go back: between the openings of two consecutive
   files there is at least the rotation interval, unless the first was closed or has the rotation size.
   */
  lemma OpeningsSpaced(cfg: Config, actions: seq<Action>, f: nat)
    requires SteadyClocks(actions) && f + 1 < |DiskAfter(cfg, actions).files|
    ensures var files, os := DiskAfter(cfg, actions).files, RunOpenings(cfg, actions);
            && |os| == |files|
            && (f in ClosedFiles(cfg, actions) || |files[f]| >= cfg.rotateBytes
                || os[f + 1] - os[f] >= cfg.rotateInterval)
  {
    hide DiskAfter, RunOpenings, ClosedFiles;
    DatedRun(cfg, actions);
    assert SpacedAt(cfg, DiskAfter(cfg, actions), RunOpenings(cfg, actions), ClosedFiles(cfg, actions), f);
  }
}
