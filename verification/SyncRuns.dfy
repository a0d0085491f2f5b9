/** What the synchronizer delivers over whole runs. */
module SyncRuns {
  import opened Bytes
  import opened Crc16
  import opened Framing
  import opened FrameSync

  // --- What the calls look at twice, from the chunks alone ----------------------

  /** What is still to be looked at after a call that looked at `w`. */
  function HeldOf(w: seq<byte>): seq<byte> {
    var r := Scan(w, 0);
    if r.rest < |w| then w[r.rest..]
    else if r.frames == [] then []
    else
      LastFrameBeforeRest(w);
      w[EndOfLast(r.frames)..]
  }

  /** What a fresh synchronizer still holds after these chunks. */
  function HeldAfter(chunks: seq<seq<byte>>): seq<byte> {
    if chunks == [] then []
    else HeldOf(HeldAfter(chunks[..|chunks| - 1]) + chunks[|chunks| - 1])
  }

  /** The CRC failures in what the calls found already there, and so counted once more. */
  function CrcTwice(chunks: seq<seq<byte>>): nat {
    if chunks == [] then 0
    else
      var init := chunks[..|chunks| - 1];
      CrcTwice(init) + Scan(HeldAfter(init), 0).crcFailed
  }

  /** The invalid lengths in what the calls found already there. */
  function LengthTwice(chunks: seq<seq<byte>>): nat {
    if chunks == [] then 0
    else
      var init := chunks[..|chunks| - 1];
      LengthTwice(init) + Scan(HeldAfter(init), 0).lengthInvalid
  }

  /** The call after these chunks finds a rejected candidate among the bytes already there. */
  ghost predicate CrcHeld(chunks: seq<seq<byte>>) { Scan(HeldAfter(chunks), 0).crcFailed > 0 }

  ghost predicate LengthHeld(chunks: seq<seq<byte>>) { Scan(HeldAfter(chunks), 0).lengthInvalid > 0 }

  /** Nothing is counted twice exactly when no call finds a rejected candidate already there. */
  lemma {:induction false} TwiceZero(chunks: seq<seq<byte>>)
    ensures CrcTwice(chunks) == 0 <==> forall k :: 0 <= k < |chunks| ==> !CrcHeld(chunks[..k])
    ensures LengthTwice(chunks) == 0 <==> forall k :: 0 <= k < |chunks| ==> !LengthHeld(chunks[..k])
  {
    hide HeldAfter, Scan;
    if chunks != [] {
      var n := |chunks| - 1;
      var init := chunks[..n];
      TwiceZero(init);
      assert forall k :: 0 <= k < n ==> init[..k] == chunks[..k];
      assert CrcTwice(chunks) == CrcTwice(init) + Scan(HeldAfter(init), 0).crcFailed;
      assert LengthTwice(chunks) == LengthTwice(init) + Scan(HeldAfter(init), 0).lengthInvalid;
      hide CrcTwice, LengthTwice;
      assert init == chunks[..n];
    }
  }

  lemma KeptIsHeld(w: seq<byte>, buf: seq<byte>, drain: nat, state: State)
    requires Kept(w, buf, drain, state)
    ensures drain <= |buf| && buf[drain..] == HeldOf(w)
  {
    hide Scan, Judge, Frames;
    LastFrameBeforeRest(w);
    assert Frames(Scan(w, 0).frames) == [] <==> Scan(w, 0).frames == [] by { FramesLength(Scan(w, 0).frames); }
  }

  // --- Runs ----------------------------------------------------------------------

  /** The pure scan's count and the counter that the synchronizer keeps for it. */
  ghost predicate AtMostTwice(counted: int, pure: nat) {
    pure <= counted <= 2 * pure
  }

  /** The counters of a run are those of the pure scan plus what the calls counted once more. */
  ghost predicate Exactly(stats: Stats, all: Found, chunks: seq<seq<byte>>) {
    && stats.crcFailed == all.crcFailed + CrcTwice(chunks)
    && stats.lengthInvalid == all.lengthInvalid + LengthTwice(chunks)
  }

  lemma ExactlyNext(stats: Stats, stats': Stats, all: Found, all': Found, chunks: seq<seq<byte>>, chunk: seq<byte>)
    requires Exactly(stats, all, chunks)
    requires Recounts(stats, stats', all, all', Scan(HeldAfter(chunks), 0))
    ensures Exactly(stats', all', chunks + [chunk])
    ensures HeldAfter(chunks + [chunk]) == HeldOf(HeldAfter(chunks) + chunk)
  {
    hide Scan, HeldOf;
    assert (chunks + [chunk])[..|chunks|] == chunks;
  }

  /**
   A fresh synchronizer fed the stream in any chunks emits the frames of the whole stream. Each
   failure counter is the pure scan's plus the rejections that the calls found among the bytes
   already there; so it is exact if and only if no call finds one there, never more than doubled,
   and zero when the stream is made of valid frames only.
   */
  method FeedAll(chunks: seq<seq<byte>>) returns (out: seq<Frame>, stats: Stats)
    ensures out == StreamFrames(Concat(chunks))
    ensures stats.bytesConsumed == |Concat(chunks)| && stats.framesEmitted == |out|
    ensures stats.resyncs == stats.crcFailed + stats.lengthInvalid
    ensures stats.crcFailed == Scan(Concat(chunks), 0).crcFailed + CrcTwice(chunks)
    ensures stats.lengthInvalid == Scan(Concat(chunks), 0).lengthInvalid + LengthTwice(chunks)
    ensures stats.crcFailed == Scan(Concat(chunks), 0).crcFailed
            <==> forall k :: 0 <= k < |chunks| ==> !CrcHeld(chunks[..k])
    ensures stats.lengthInvalid == Scan(Concat(chunks), 0).lengthInvalid
            <==> forall k :: 0 <= k < |chunks| ==> !LengthHeld(chunks[..k])
    ensures AtMostTwice(stats.crcFailed, Scan(Concat(chunks), 0).crcFailed)
    ensures AtMostTwice(stats.lengthInvalid, Scan(Concat(chunks), 0).lengthInvalid)
    ensures |chunks| == 1 ==> stats.crcFailed == Scan(Concat(chunks), 0).crcFailed
                              && stats.lengthInvalid == Scan(Concat(chunks), 0).lengthInvalid
    ensures forall fs :: AllValid(fs) && Stream(fs) == Concat(chunks) ==>
                           out == fs && stats.resyncs == 0
  {
    hide Scan, Retained, Frames, Counted, Exactly, AtMostTwice, StreamFrames, CrcHeld, LengthHeld, CrcTwice,
      LengthTwice;
    var sync := new SbfFrameSync();
    out := FeedEach(sync, chunks);
    stats := sync.stats;
    ghost var s := Concat(chunks);
    RunCounted(stats, Scan(s, 0), Scan(sync.Undrained(), 0));
    RunExact(stats, chunks, Scan(s, 0));
    EmittedCount(s);
    ValidStreams(s, stats, Scan(sync.Undrained(), 0));
  }

  /** Feeds the chunks in turn. */
  method FeedEach(sync: SbfFrameSync, chunks: seq<seq<byte>>) returns (out: seq<Frame>)
    requires sync.Valid() && sync.history == [] && sync.emitted == []
    requires sync.since == sync.stats == Stats(0, 0, 0, 0, 0)
    modifies sync
    ensures sync.Valid() && sync.history == Concat(chunks) && out == sync.emitted
    ensures sync.since == Stats(0, 0, 0, 0, 0)
    ensures Exactly(sync.stats, Scan(Concat(chunks), 0), chunks)
  {
    hide Scan, Retained, Frames, Recounts, HeldAfter, HeldOf, Exactly, Kept, Plus, Counted, StreamFrames;
    FreshHolds(sync.history, sync.buf, sync.frameDrain, sync.state);
    NothingCounted();
    out := [];
    assert chunks[..0] == [];
    for i := 0 to |chunks|
      invariant sync.Valid() && sync.since == Stats(0, 0, 0, 0, 0)
      invariant sync.history == Concat(chunks[..i]) && out == sync.emitted
      invariant sync.Undrained() == HeldAfter(chunks[..i])
      invariant Exactly(sync.stats, Scan(sync.history, 0), chunks[..i])
    {
      assert chunks[..i + 1] == chunks[..i] + [chunks[i]];
      ConcatPush(chunks[..i], chunks[i]);
      ghost var before, all := sync.stats, Scan(sync.history, 0);
      var more := sync.Feed(chunks[i]);
      KeptIsHeld(HeldAfter(chunks[..i]) + chunks[i], sync.buf, sync.frameDrain, sync.state);
      ExactlyNext(before, sync.stats, all, Scan(sync.history, 0), chunks[..i], chunks[i]);
      out := out + more;
    }
    assert chunks[..|chunks|] == chunks;
  }

  lemma RunCounted(stats: Stats, all: Found, again: Found)
    requires Counted(stats, Stats(0, 0, 0, 0, 0), all, again)
    ensures stats.framesEmitted == |all.frames| && stats.resyncs == stats.crcFailed + stats.lengthInvalid
    ensures AtMostTwice(stats.crcFailed, all.crcFailed) && AtMostTwice(stats.lengthInvalid, all.lengthInvalid)
  {
  }

  lemma RunExact(stats: Stats, chunks: seq<seq<byte>>, all: Found)
    requires Exactly(stats, all, chunks)
    ensures stats.crcFailed == all.crcFailed + CrcTwice(chunks)
    ensures stats.lengthInvalid == all.lengthInvalid + LengthTwice(chunks)
    ensures stats.crcFailed == all.crcFailed <==> forall k :: 0 <= k < |chunks| ==> !CrcHeld(chunks[..k])
    ensures stats.lengthInvalid == all.lengthInvalid <==> forall k :: 0 <= k < |chunks| ==> !LengthHeld(chunks[..k])
    ensures |chunks| == 1 ==> stats.crcFailed == all.crcFailed && stats.lengthInvalid == all.lengthInvalid
  {
    TwiceZero(chunks);
    if |chunks| == 1 { OneChunk(chunks); }
    hide CrcHeld, LengthHeld, CrcTwice, LengthTwice;
  }

  lemma OneChunk(chunks: seq<seq<byte>>)
    requires |chunks| == 1
    ensures CrcTwice(chunks) == 0 && LengthTwice(chunks) == 0
  {
    hide HeldAfter, Scan;
    assert chunks[..0] == [];
    NothingCounted();
  }

  lemma EmittedCount(s: seq<byte>)
    ensures |StreamFrames(s)| == |Scan(s, 0).frames|
  {
  }

  lemma ValidStreams(s: seq<byte>, stats: Stats, again: Found)
    requires Counted(stats, Stats(0, 0, 0, 0, 0), Scan(s, 0), again)
    ensures forall fs :: AllValid(fs) && Stream(fs) == s ==> StreamFrames(s) == fs && stats.resyncs == 0
  {
    hide Scan, Stream;
    forall fs | AllValid(fs) && Stream(fs) == s ensures StreamFrames(s) == fs && stats.resyncs == 0 {
      ScanStream(fs);
      ContiguousFrames(fs);
    }
  }

  lemma NothingCounted()
    ensures Scan(HeldAfter([]), 0) == Nothing(0)
    ensures Exactly(Stats(0, 0, 0, 0, 0), Scan([], 0), [])
  {
  }

  lemma FramesLength(l: seq<Located>)
    ensures |Frames(l)| == |l|
  {
  }

  lemma FreshHolds(h: seq<byte>, buf: seq<byte>, drain: nat, state: State)
    requires h == [] && Retained(h, buf, drain, state)
    ensures buf[drain..] == HeldAfter([])
  {
  }

  /** Eight bytes that look like a header with Length zero. */
  const BAD_HEADER: seq<byte> := [DOLLAR, AT, 0, 0, 0, 0, 0, 0]

  lemma BadHeaderScan()
    ensures Scan(BAD_HEADER, 0) == Found([], 0, 1, 8)
  {
    assert U16(BAD_HEADER, 6) == 0;
    assert Judge(BAD_HEADER, 0) == BadLength;
    Zeros(8);
    Zeros(7);
    Zeros(6);
    Zeros(5);
    Zeros(4);
    Zeros(3);
    Zeros(2);
    Zeros(1);
  }

  lemma Zeros(i: nat)
    requires 1 <= i <= 8
    requires i < 8 ==> Scan(BAD_HEADER, i + 1) == Nothing(8)
    ensures Scan(BAD_HEADER, i) == Nothing(8)
  {
  }

  /**
   The failure counters do depend on chunking: in this stream, a frame and then one header that the
   scan rejects, nothing is counted twice if it comes in one chunk, and the header is if an empty
   chunk follows.
   */
  lemma CountersDependOnChunking()
    ensures var s := Sealed(0, []).Wire() + BAD_HEADER;
            && Concat([s]) == Concat([s, []]) == s
            && Scan(s, 0).lengthInvalid == 1 && Scan(s, 0).crcFailed == 0
            && LengthTwice([s]) == 0 && LengthTwice([s, []]) == 1
            && CrcTwice([s]) == CrcTwice([s, []]) == 0
  {
    hide Crc, Judge, Frame.Wire, Scan, HeldAfter, HeldOf, CrcTwice, LengthTwice, Concat, Sealed;
    var f := Sealed(0, []);
    SealedValid(0, []);
    var s := f.Wire() + BAD_HEADER;
    WireThenBadHeader(f);
    OneChunk([s]);
    NothingHeld();
    NextChunk([], s);
    NextChunk([s], []);
    assert [] + [s] == [s] && [s] + [[]] == [s, []] && [] + s == s + [] == s;
    HeldBehind(s, [Located(0, f)], BAD_HEADER);
    BadHeaderScan();
  }

  /** What one more chunk adds. */
  lemma NextChunk(chunks: seq<seq<byte>>, chunk: seq<byte>)
    ensures Concat(chunks + [chunk]) == Concat(chunks) + chunk
    ensures HeldAfter(chunks + [chunk]) == HeldOf(HeldAfter(chunks) + chunk)
    ensures CrcTwice(chunks + [chunk]) == CrcTwice(chunks) + Scan(HeldAfter(chunks), 0).crcFailed
    ensures LengthTwice(chunks + [chunk]) == LengthTwice(chunks) + Scan(HeldAfter(chunks), 0).lengthInvalid
  {
    hide Scan, HeldOf;
    assert (chunks + [chunk])[..|chunks|] == chunks;
  }

  lemma NothingHeld()
    ensures HeldAfter([]) == [] && Concat([]) == []
  {
  }

  lemma HeldBehind(s: seq<byte>, found: seq<Located>, tail: seq<byte>)
    requires Scan(s, 0).frames == found && found != [] && Scan(s, 0).rest == |s|
    requires EndOfLast(found) <= |s| && s[EndOfLast(found)..] == tail
    ensures HeldOf(s) == tail
  {
    hide Scan;
  }

  lemma WireThenBadHeader(f: Frame)
    requires f.Valid()
    ensures |f.Wire()| == f.length
    ensures Scan(f.Wire() + BAD_HEADER, 0) == Found([Located(0, f)], 0, 1, |f.Wire()| + 8)
  {
    hide Judge, Frame.Wire, Scan, FrameAt;
    var w := f.Wire();
    var s := w + BAD_HEADER;
    BadHeaderScan();
    WireAccepted(f, BAD_HEADER);
    ScanStep(s, 0);
    assert s[|w|..] == BAD_HEADER;
    ScanShift(s, |w|, 0);
  }
}
