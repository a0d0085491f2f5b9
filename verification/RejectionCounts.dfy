/** How often each single offset of a stream is counted as rejected over a run of calls. */
module RejectionCounts {
  import opened Bytes
  import opened Framing
  import opened FrameSync
  import opened SyncRuns

  // --- The offsets that a scan rejects -------------------------------------------

  predicate Rejected(s: seq<byte>, i: nat)
    requires i < |s|
  {
    Judge(s, i) == BadLength || Judge(s, i) == BadCrc
  }

  /** The offsets that the scan from `i` rejects. */
  function Rejections(s: seq<byte>, i: nat): (r: set<int>)
    requires i <= |s|
    ensures forall x :: x in r ==> i <= x < Scan(s, i).rest
    decreases |s| - i
  {
    if i == |s| || Judge(s, i) == Pending then {}
    else (if Rejected(s, i) then {i} else {}) + Rejections(s, Visit(s, i).rest)
  }

  /** The scan of `s` rejects this offset. */
  predicate Rejects(s: seq<byte>, x: int) { x in Rejections(s, 0) }

  function HowMany(s: seq<byte>): nat { |Rejections(s, 0)| }

  lemma HowManyCounted(s: seq<byte>)
    ensures HowMany(s) == Scan(s, 0).crcFailed + Scan(s, 0).lengthInvalid
  {
    RejectionsCounted(s, 0);
  }

  /** The scan's failure counters count these offsets, each once. */
  lemma {:induction false} RejectionsCounted(s: seq<byte>, i: nat)
    requires i <= |s|
    ensures |Rejections(s, i)| == Scan(s, i).crcFailed + Scan(s, i).lengthInvalid
    decreases |s| - i
  {
    hide Judge;
    if i < |s| && Judge(s, i) != Pending {
      var more := Rejections(s, Visit(s, i).rest);
      RejectionsCounted(s, Visit(s, i).rest);
      assert i !in more;
      assert Rejections(s, i) == (if Rejected(s, i) then {i} else {}) + more;
      ScanStep(s, i);
    }
  }

  /** More bytes do not change what was rejected. */
  lemma {:induction false} RejectionsExtend(s: seq<byte>, t: seq<byte>, i: nat)
    requires i <= |s|
    ensures Rejections(s + t, i) == Rejections(s, i) + Rejections(s + t, Scan(s, i).rest)
    decreases |s| - i
  {
    hide Judge;
    if i < |s| && Judge(s, i) != Pending {
      JudgeStable(s, t, i);
      var v := Visit(s, i);
      assert Visit(s + t, i) == v;
      ScanStep(s, i);
      RejectionsExtend(s, t, v.rest);
    }
  }

  lemma {:induction false} RejectionsShift(s: seq<byte>, base: nat, i: nat, x: int)
    requires base + i <= |s|
    ensures x in Rejections(s, base + i) <==> x - base in Rejections(s[base..], i)
    decreases |s| - i
  {
    hide Judge, Visit;
    if base + i < |s| {
      JudgeShift(s, base, i);
      if Judge(s, base + i) != Pending {
        VisitShift(s, base, i);
        RejectionsShift(s, base, Visit(s[base..], i).rest, x);
      }
    }
  }

  /** What is rejected behind the last frame is among all that is rejected. */
  lemma {:induction false} RejectionsAfterLast(s: seq<byte>, i: nat)
    requires i <= |s| && Scan(s, i).frames != [] && EndOfLast(Scan(s, i).frames) <= |s|
    ensures Rejections(s, EndOfLast(Scan(s, i).frames)) <= Rejections(s, i)
    decreases |s| - i
  {
    hide Judge, Rejections, Visit;
    var v := Visit(s, i);
    var t := Scan(s, v.rest);
    ScanStep(s, i);
    VisitRejections(s, i);
    if t.frames == [] {
      assert Scan(s, i).frames == v.frames;
    } else {
      assert EndOfLast(Scan(s, i).frames) == EndOfLast(t.frames);
      RejectionsAfterLast(s, v.rest);
    }
  }

  lemma VisitRejections(s: seq<byte>, i: nat)
    requires i < |s| && Judge(s, i) != Pending
    ensures Rejections(s, Visit(s, i).rest) <= Rejections(s, i)
    ensures Visit(s, i).frames != [] ==> EndOfLast(Visit(s, i).frames) == Visit(s, i).rest
  {
  }

  // --- What the calls look at ------------------------------------------------------

  /** The offset in the stream of the first byte that a call after these chunks looks at. */
  function Base(chunks: seq<seq<byte>>): int { |Concat(chunks)| - |HeldAfter(chunks)| }

  /** What is held is the end of the stream, holds no frame, and is decided as far as the stream is. */
  ghost predicate HeldOk(h: seq<byte>, u: seq<byte>) {
    && |u| <= |h| && u == h[|h| - |u|..] && Held(u)
    && |h| - |u| + Scan(u, 0).rest == Scan(h, 0).rest
  }

  lemma HeldOkNext(h: seq<byte>, u: seq<byte>, bytes: seq<byte>)
    requires HeldOk(h, u)
    ensures HeldOk(h + bytes, HeldOf(u + bytes))
  {
    hide Scan, Judge;
    var w, base := u + bytes, |h| - |u|;
    var r := Scan(w, 0);
    Resume(h, base, bytes);
    assert w == (h + bytes)[base..];
    if r.rest < |w| {
      ScanRest(w, 0);
      ScanShift(w, r.rest, 0);
      assert Scan(w[r.rest..], 0) == Nothing(0);
    } else if r.frames == [] {
      ScanUndecided([]);
    } else {
      TailCounts(u, bytes);
    }
  }

  lemma {:induction false} HeldOkAfter(chunks: seq<seq<byte>>)
    ensures HeldOk(Concat(chunks), HeldAfter(chunks)) && Base(chunks) >= 0
  {
    hide HeldOf, HeldOk;
    if chunks == [] {
      NothingHeldOk();
    } else {
      var init := chunks[..|chunks| - 1];
      HeldOkAfter(init);
      HeldOkNext(Concat(init), HeldAfter(init), chunks[|chunks| - 1]);
    }
    HeldIsShorter(Concat(chunks), HeldAfter(chunks));
  }

  lemma NothingHeldOk()
    ensures HeldOk([], [])
  {
  }

  lemma HeldIsShorter(h: seq<byte>, u: seq<byte>)
    requires HeldOk(h, u)
    ensures |u| <= |h|
  {
  }

  // --- How often an offset is counted ----------------------------------------------

  /** The last of these calls counts a rejection at this offset of the stream. */
  predicate CountsAt(init: seq<seq<byte>>, chunk: seq<byte>, x: int) {
    Rejects(HeldAfter(init) + chunk, x - Base(init))
  }

  /** How many of the calls count a rejection at this offset. */
  function TimesCounted(chunks: seq<seq<byte>>, x: int): nat {
    if chunks == [] then 0
    else
      var init := chunks[..|chunks| - 1];
      TimesCounted(init, x) + if CountsAt(init, chunks[|chunks| - 1], x) then 1 else 0
  }

  /** How much the calls count together. */
  function AllCounted(chunks: seq<seq<byte>>): nat {
    if chunks == [] then 0
    else
      var init := chunks[..|chunks| - 1];
      AllCounted(init) + HowMany(HeldAfter(init) + chunks[|chunks| - 1])
  }

  /** One call, on values: what it counts, and what it leaves to be counted again. */
  lemma CallCounts(h: seq<byte>, u: seq<byte>, bytes: seq<byte>, x: int)
    requires HeldOk(h, u)
    requires Rejects(u, x - (|h| - |u|)) ==> Rejects(h, x)
    ensures var w, base := u + bytes, |h| - |u|;
            var base' := |h + bytes| - |HeldOf(w)|;
            && (Rejects(h + bytes, x) <==> Rejects(h, x) || Rejects(w, x - base))
            && (Rejects(w, x - base) && Rejects(h, x) <==> Rejects(u, x - base))
            && (Rejects(HeldOf(w), x - base') ==>
                  Rejects(w, x - base) && !Rejects(u, x - base))
  {
    hide Scan, Judge, Rejections, HeldOf;
    var w, base := u + bytes, |h| - |u|;
    var rest := Scan(u, 0).rest;
    RejectionsExtend(h, bytes, 0);
    RejectionsExtend(u, bytes, 0);
    assert (h + bytes)[base..] == w;
    RejectionsShift(h + bytes, base, rest, x);
    LeftToCount(u, bytes, x - base);
  }

  lemma LeftToCount(u: seq<byte>, bytes: seq<byte>, x: int)
    requires Held(u)
    ensures var w := u + bytes;
            Rejects(HeldOf(w), x - (|w| - |HeldOf(w)|)) ==> Rejects(w, x) && !Rejects(u, x)
  {
    hide Scan, Judge, Rejections;
    var w := u + bytes;
    var r := Scan(w, 0);
    if r.rest < |w| {
      ScanRest(w, 0);
      ScanShift(w, r.rest, 0);
    } else if r.frames != [] {
      TailCounts(u, bytes);
      var end := EndOfLast(r.frames);
      RejectionsShift(w, end, 0, x);
      RejectionsAfterLast(w, 0);
    }
  }

  /**
   No single rejection is counted more than twice: an offset is counted at all exactly when the
   pure scan of the whole stream rejects it, and at most once so far if it is to be looked at again.
   */
  lemma {:induction false} CountedAtMostTwice(chunks: seq<seq<byte>>, x: int)
    ensures TimesCounted(chunks, x) <= 2
    ensures TimesCounted(chunks, x) > 0 <==> Rejects(Concat(chunks), x)
    ensures Rejects(HeldAfter(chunks), x - Base(chunks)) ==> TimesCounted(chunks, x) == 1
  {
    hide Rejects, HeldOf, HeldOk, HeldAfter, Concat, CountsAt, TimesCounted;
    if chunks == [] {
      NothingHeld();
      NothingRejected();
      assert TimesCounted([], x) == 0 by { NeverCounted(x); }
    } else {
      var init, chunk := chunks[..|chunks| - 1], chunks[|chunks| - 1];
      assert init + [chunk] == chunks;
      CountedAtMostTwice(init, x);
      HeldOkAfter(init);
      HeldIsShorter(Concat(init), HeldAfter(init));
      CallCounts(Concat(init), HeldAfter(init), chunk, x);
      NextChunk(init, chunk);
      NextCount(init, chunk, x);
    }
  }

  lemma NeverCounted(x: int)
    ensures TimesCounted([], x) == 0
  {
  }

  lemma NextCount(chunks: seq<seq<byte>>, chunk: seq<byte>, x: int)
    ensures TimesCounted(chunks + [chunk], x)
         == TimesCounted(chunks, x) + if Rejects(HeldAfter(chunks) + chunk, x - Base(chunks)) then 1 else 0
  {
    hide Rejects, HeldAfter, Concat, Base;
    assert (chunks + [chunk])[..|chunks|] == chunks;
  }

  lemma NothingRejected()
    ensures forall x :: !Rejects([], x)
  {
  }

  /** What a run of calls counts is the pure scan's count and what the calls counted again. */
  ghost predicate AddsUp(chunks: seq<seq<byte>>) {
    AllCounted(chunks)
    == Scan(Concat(chunks), 0).crcFailed + CrcTwice(chunks)
       + Scan(Concat(chunks), 0).lengthInvalid + LengthTwice(chunks)
  }

  /** The calls' counts add up to the failure counters of the run. */
  lemma {:induction false} CountsAddUp(chunks: seq<seq<byte>>)
    ensures AddsUp(chunks)
  {
    hide AddsUp;
    if chunks == [] {
      NothingAdds();
    } else {
      var init, chunk := chunks[..|chunks| - 1], chunks[|chunks| - 1];
      CountsAddUp(init);
      AddsUpNext(init, chunk);
      assert init + [chunk] == chunks;
    }
  }

  lemma NothingAdds()
    ensures AddsUp([])
  {
    hide Scan, HeldAfter, Concat, AllCounted, CrcTwice, LengthTwice, Exactly;
    NothingHeld();
    NothingCounted();
    NothingTwice();
  }

  lemma NothingTwice()
    ensures AllCounted([]) == CrcTwice([]) == LengthTwice([]) == 0
  {
    hide HeldAfter, HowMany, Scan;
  }

  lemma AddsUpNext(chunks: seq<seq<byte>>, chunk: seq<byte>)
    requires AddsUp(chunks)
    ensures AddsUp(chunks + [chunk])
  {
    hide Scan, HowMany, HeldOf, HeldOk, HeldAfter, CrcTwice, LengthTwice, Concat;
    var h, u := Concat(chunks), HeldAfter(chunks);
    HeldOkAfter(chunks);
    NextChunk(chunks, chunk);
    HeldResumes(h, u, chunk);
    HowManyCounted(u + chunk);
    assert (chunks + [chunk])[..|chunks|] == chunks;
  }

  lemma HeldResumes(h: seq<byte>, u: seq<byte>, bytes: seq<byte>)
    requires HeldOk(h, u)
    ensures Scan(u + bytes, 0).crcFailed == Scan(h + bytes, 0).crcFailed - Scan(h, 0).crcFailed + Scan(u, 0).crcFailed
    ensures Scan(u + bytes, 0).lengthInvalid
         == Scan(h + bytes, 0).lengthInvalid - Scan(h, 0).lengthInvalid + Scan(u, 0).lengthInvalid
  {
    hide Scan;
    Resume(h, |h| - |u|, bytes);
  }
}
