/** The streaming frame synchronizer: a byte machine over a retained buffer. */
module FrameSync {
  import opened Bytes
  import opened Crc16
  import opened Framing

  datatype State = Idle | GotDollar | ReadingHeader | ReadingBody

  datatype Stats = Stats(bytesConsumed: nat, framesEmitted: nat, crcFailed: nat,
                         lengthInvalid: nat, resyncs: nat)

  /** What a non-idle state asserts about the candidate starting at `p`. */
  ghost predicate Candidate(state: State, s: seq<byte>, p: nat) {
    && p < |s| && s[p] == DOLLAR
    && (state.ReadingHeader? || state.ReadingBody? ==> p + 1 < |s| && s[p + 1] == AT)
    && (state.ReadingBody? ==> p + 8 <= |s| && GoodLength(U16(s, p + 6)))
  }

  /** The candidate at `p` needs more bytes before it can be decided. */
  ghost predicate Undecided(s: seq<byte>, p: nat) {
    p < |s| < p + MAX_SBF_LENGTH && Judge(s, p) == Pending
  }

  /** Order of the states within one candidate, for termination. */
  function Rank(state: State): nat {
    match state
    case Idle => 3
    case GotDollar => 2
    case ReadingHeader => 1
    case ReadingBody => 0
  }

  // --- Turns --------------------------------------------------------------------

  /** Where a turn of the loop leaves the machine, its cursor and its candidate. */
  datatype Turn = Turn(state: State, pos: nat, start: nat)

  /** The first '$' from `pos` on, or the end. */
  function NextDollar(s: seq<byte>, pos: nat): (p: nat)
    requires pos <= |s|
    ensures pos <= p <= |s| && (forall i :: pos <= i < p ==> s[i] != DOLLAR) && (p < |s| ==> s[p] == DOLLAR)
    decreases |s| - pos
  {
    if pos == |s| || s[pos] == DOLLAR then pos else NextDollar(s, pos + 1)
  }

  /** A turn, by the verdict on the candidate as far as the state has got with it. */
  function TurnOf(state: State, s: seq<byte>, pos: nat, start: nat): Turn
    requires if state == Idle then pos <= |s| else start < |s|
  {
    match state
    case Idle =>
      var p := NextDollar(s, pos);
      if p < |s| then Turn(GotDollar, p, p) else Turn(Idle, p, 0)
    case GotDollar =>
      if start + 1 >= |s| then Turn(GotDollar, pos, start)
      else if s[start + 1] == AT then Turn(ReadingHeader, start + 2, start)
      else if s[start + 1] == DOLLAR then Turn(GotDollar, start + 1, start + 1)
      else Turn(Idle, start + 1, 0)
    case ReadingHeader =>
      if start + 8 > |s| then Turn(ReadingHeader, pos, start)
      else if Judge(s, start) == BadLength then Turn(Idle, start + 1, 0)
      else Turn(ReadingBody, start + 8, start)
    case ReadingBody =>
      match Judge(s, start) {
        case Accept(n) => Turn(Idle, start + n, 0)
        case BadCrc => Turn(Idle, start + 1, 0)
        case _ => Turn(ReadingBody, pos, start)
      }
  }

  /** Two turns: the '@', then the header. */
  function HeaderTurn(s: seq<byte>, pos: nat, start: nat): Turn
    requires start < |s| && Judge(s, start) != Pending && Judge(s, start) != Skip
  {
    var sync := TurnOf(GotDollar, s, pos, start);
    TurnOf(sync.state, s, sync.pos, sync.start)
  }

  /**
   The cursor does not only move forward: an unacceptable Length takes it from behind the sync
   bytes, a CRC failure from behind the header, back to the second byte of the candidate.
   */
  lemma CursorMovesBack(s: seq<byte>, pos: nat, start: nat)
    requires start < |s|
    ensures Judge(s, start) == BadLength ==>
              && TurnOf(GotDollar, s, pos, start) == Turn(ReadingHeader, start + 2, start)
              && HeaderTurn(s, pos, start) == Turn(Idle, start + 1, 0)
    ensures Judge(s, start) == BadCrc ==>
              && HeaderTurn(s, pos, start) == Turn(ReadingBody, start + 8, start)
              && TurnOf(ReadingBody, s, start + 8, start) == Turn(Idle, start + 1, 0)
  {
    hide Crc;
  }

  lemma BodyJudged(s: seq<byte>, i: nat)
    requires Candidate(ReadingBody, s, i) && i + U16(s, i + 6) <= |s|
    ensures var n := U16(s, i + 6);
            Judge(s, i) == if Crc(s[i + 4..i + n]) != U16(s, i + 2) then BadCrc else Accept(n)
  {
    hide Crc;
  }

  lemma HeaderJudged(s: seq<byte>, i: nat)
    requires Candidate(ReadingHeader, s, i) && i + 8 <= |s|
    ensures Judge(s, i) == BadLength <==> !GoodLength(U16(s, i + 6))
  {
    hide Crc;
  }

  // --- Moving the scan anchor ---------------------------------------------------

  /** The scan of `s` has found `found` before `anchor`; the rest is the scan from there. */
  ghost predicate Reached(s: seq<byte>, found: Found, anchor: nat) {
    anchor <= |s| && Scan(s, 0) == Then(found, Scan(s, anchor))
  }

  lemma Advance(s: seq<byte>, found: Found, i: nat)
    requires Reached(s, found, i) && i < |s| && Judge(s, i) != Pending
    ensures Reached(s, Then(found, Visit(s, i)), Visit(s, i).rest)
  {
    hide Judge, Visit;
    ThenAssoc(found, Visit(s, i), Scan(s, Visit(s, i).rest));
  }

  /** The byte at `i` cannot start a frame. */
  lemma AdvanceSkip(s: seq<byte>, found: Found, i: nat)
    requires Reached(s, found, i) && i < |s|
    requires s[i] != DOLLAR || (i + 1 < |s| && s[i + 1] != AT)
    ensures Reached(s, found, i + 1)
  {
    hide Scan;
    assert Judge(s, i) == Skip;
    hide Judge;
    Advance(s, found, i);
  }

  lemma AdvanceBadLength(s: seq<byte>, found: Found, i: nat)
    requires Reached(s, found, i) && Candidate(ReadingHeader, s, i)
    requires i + 8 <= |s| && !GoodLength(U16(s, i + 6))
    ensures Reached(s, Then(found, Found([], 0, 1, i + 1)), i + 1)
  {
    hide Scan, Crc;
    Advance(s, found, i);
  }

  lemma AdvanceBody(s: seq<byte>, found: Found, i: nat)
    requires Reached(s, found, i) && Candidate(ReadingBody, s, i)
    requires i + U16(s, i + 6) <= |s|
    ensures var n := U16(s, i + 6);
            if Crc(s[i + 4..i + n]) != U16(s, i + 2)
            then Reached(s, Then(found, Found([], 1, 0, i + 1)), i + 1)
            else Reached(s, Then(found, Found([Located(i, FrameAt(s, i))], 0, 0, i + n)), i + n)
  {
    hide Scan, Crc;
    Advance(s, found, i);
  }

  /** Where the machine stalls nothing more can be decided. */
  lemma Stalled(s: seq<byte>, found: Found, i: nat)
    requires Reached(s, found, i)
    requires i == |s| || Judge(s, i) == Pending
    ensures Scan(s, 0) == found.(rest := i)
  {
    hide Judge, Visit;
    assert Scan(s, i) == Nothing(i);
  }

  /** The counters after a scan. */
  function Plus(s: Stats, r: Found): Stats {
    Stats(s.bytesConsumed, s.framesEmitted + |r.frames|, s.crcFailed + r.crcFailed,
          s.lengthInvalid + r.lengthInvalid, s.resyncs + r.crcFailed + r.lengthInvalid)
  }

  lemma EmptyScan(s: Stats)
    ensures Plus(s, Nothing(0)) == s && Frames(Nothing(0).frames) == []
  {
  }

  lemma PlusRest(s: Stats, r: Found, rest: nat)
    ensures Plus(s, r.(rest := rest)) == Plus(s, r)
  {
  }

  /** The offset before which everything is decided. */
  function Anchor(state: State, pos: nat, frameStart: nat): nat {
    if state == Idle then pos else frameStart
  }

  /** The loop invariant of the machine. */
  ghost predicate Running(state: State, s: seq<byte>, anchor: nat, found: Found, out: seq<Frame>, drain: nat) {
    && anchor <= |s| && Reached(s, found, anchor)
    && (state != Idle ==> Candidate(state, s, anchor))
    && out == Frames(found.frames) && drain == EndOfLast(found.frames)
  }

  /** The machine cannot go on without more bytes. */
  ghost predicate Stopped(state: State, s: seq<byte>, anchor: nat) {
    if state == Idle then anchor == |s| else Undecided(s, anchor)
  }

  // --- How one call's scan fits into the scan of the whole stream ---------------

  /** After the last frame found nothing more is found, and no rejection is counted twice. */
  lemma {:induction false} AfterLast(s: seq<byte>, i: nat)
    requires i <= |s| && Scan(s, i).frames != []
    ensures var r := Scan(s, i);
            var end := EndOfLast(r.frames);
            && i <= end <= r.rest
            && Scan(s, end).frames == [] && Scan(s, end).rest == r.rest
            && Scan(s, end).crcFailed <= r.crcFailed && Scan(s, end).lengthInvalid <= r.lengthInvalid
    decreases |s| - i
  {
    hide Judge;
    var v := Visit(s, i);
    var t := Scan(s, v.rest);
    if t.frames == [] {
      assert Scan(s, i).frames == v.frames;
    } else {
      AfterLast(s, v.rest);
      assert EndOfLast(Scan(s, i).frames) == EndOfLast(t.frames);
    }
  }

  function EndOfLast(located: seq<Located>): nat {
    if located == [] then 0
    else located[|located| - 1].offset + located[|located| - 1].frame.length
  }

  /**
   When the bytes from `base` on hold no frame yet, scanning them together with new bytes gives
   exactly what the new bytes add to the scan of the whole stream.
   */
  lemma Resume(h: seq<byte>, base: nat, bytes: seq<byte>)
    requires base <= |h|
    requires Scan(h[base..], 0).frames == []
    requires base + Scan(h[base..], 0).rest == Scan(h, 0).rest
    ensures var all, more := Scan(h + bytes, 0), Scan(h[base..] + bytes, 0);
            var before, again := Scan(h, 0), Scan(h[base..], 0);
            && Frames(all.frames) == Frames(before.frames) + Frames(more.frames)
            && all.crcFailed == before.crcFailed + more.crcFailed - again.crcFailed
            && all.lengthInvalid == before.lengthInvalid + more.lengthInvalid - again.lengthInvalid
            && all.rest == base + more.rest
            && again.crcFailed <= more.crcFailed && again.lengthInvalid <= more.lengthInvalid
  {
    hide Scan;
    var u := h[base..];
    var before, again := Scan(h, 0), Scan(u, 0);
    var r := before.rest;
    ScanExtend(h, bytes, 0);
    ScanExtend(u, bytes, 0);
    assert (h + bytes)[base..] == u + bytes;
    ScanShift(h + bytes, base, r - base);
    FramesThen(before, Scan(h + bytes, r));
    FramesThen(again, Scan(u + bytes, r - base));
  }

  lemma ScanUndecided(s: seq<byte>)
    requires s == [] || Judge(s, 0) == Pending
    ensures Scan(s, 0) == Nothing(0)
  {
  }

  lemma ResumeCount(h: seq<byte>, base: nat, bytes: seq<byte>)
    requires base <= |h|
    requires Scan(h[base..], 0).frames == []
    requires base + Scan(h[base..], 0).rest == Scan(h, 0).rest
    ensures |Scan(h + bytes, 0).frames| == |Scan(h, 0).frames| + |Scan(h[base..] + bytes, 0).frames|
  {
    hide Scan;
    Resume(h, base, bytes);
    assert forall l :: |Frames(l)| == |l|;
  }

  /** What is known of the bytes held at the start of a call: no frame, and one undecided offset at most. */
  ghost predicate Held(u: seq<byte>) {
    Scan(u, 0).frames == [] && (Scan(u, 0).rest == |u| || Scan(u, 0) == Nothing(0))
  }

  /**
   The bytes after the last frame of a call hold no further frame, and the rejections among them
   are not those that the call counted for the bytes it started with.
   */
  lemma TailCounts(u: seq<byte>, bytes: seq<byte>)
    requires Held(u) && Scan(u + bytes, 0).frames != []
    ensures var w := u + bytes;
            var r := Scan(w, 0);
            var end := EndOfLast(r.frames);
            && end <= r.rest <= |w|
            && (Scan(u, 0).rest == |u| ==> |u| <= end)
            && Scan(w[end..], 0).frames == [] && end + Scan(w[end..], 0).rest == r.rest
            && Scan(w[end..], 0).crcFailed + Scan(u, 0).crcFailed <= r.crcFailed
            && Scan(w[end..], 0).lengthInvalid + Scan(u, 0).lengthInvalid <= r.lengthInvalid
  {
    hide Scan;
    var w := u + bytes;
    var end := EndOfLast(Scan(w, 0).frames);
    ScanExtend(u, bytes, 0);
    AfterLast(w, Scan(u, 0).rest);
    assert Scan(w, 0).frames == Scan(w, Scan(u, 0).rest).frames;
    ScanShift(w, end, 0);
  }

  /** What the synchronizer keeps of the stream `h` between calls. */
  ghost predicate Retained(h: seq<byte>, buf: seq<byte>, drain: nat, state: State) {
    && drain <= |buf| <= |h| && buf == h[|h| - |buf|..]
    && (state != Idle ==>
          // A pending candidate: the buffer starts at its '$', and nothing is left to drain.
          && drain == 0
          && |h| - |buf| == Scan(h, 0).rest
          && Candidate(state, buf, 0) && Undecided(buf, 0))
    && (state == Idle ==>
          // Everything is decided; the undrained bytes hold neither a frame nor a possible start.
          && Scan(h, 0).rest == |h|
          && Scan(buf[drain..], 0).frames == []
          && Scan(buf[drain..], 0).rest == |buf| - drain
          && (drain == 0 ==> buf == []))
  }

  /**
   The counters, from `since` on, against the pure scan `all` of the stream, where `again` is the
   scan of the bytes that the next call will look at once more: no rejection is counted more than
   twice.
   */
  ghost predicate Counted(stats: Stats, since: Stats, all: Found, again: Found)
  {
    && stats.framesEmitted == since.framesEmitted + |all.frames|
    && all.crcFailed <= stats.crcFailed - since.crcFailed <= 2 * all.crcFailed - again.crcFailed
    && all.lengthInvalid <= stats.lengthInvalid - since.lengthInvalid
         <= 2 * all.lengthInvalid - again.lengthInvalid
    && stats.resyncs - since.resyncs
         == (stats.crcFailed - since.crcFailed) + (stats.lengthInvalid - since.lengthInvalid)
  }

  /** A call counts the new rejections and, once more, those in the bytes it was still holding. */
  ghost predicate Recounts(stats: Stats, stats': Stats, all: Found, all': Found, again: Found) {
    && stats'.crcFailed - stats.crcFailed == all'.crcFailed - all.crcFailed + again.crcFailed
    && stats'.lengthInvalid - stats.lengthInvalid
         == all'.lengthInvalid - all.lengthInvalid + again.lengthInvalid
  }

  lemma RetainedIsHeld(h: seq<byte>, buf: seq<byte>, drain: nat, state: State)
    requires Retained(h, buf, drain, state)
    ensures var base, u := |h| - |buf| + drain, buf[drain..];
            u == h[base..] && Held(u) && base + Scan(u, 0).rest == Scan(h, 0).rest
  {
    hide Judge, Candidate, Scan;
    if state != Idle { ScanUndecided(buf[drain..]); }
  }

  /** What a call keeps is again what the next call may rely on. */
  lemma RetainedAgain(h: seq<byte>, buf: seq<byte>, drain: nat, state: State, bytes: seq<byte>,
                      buf': seq<byte>, drain': nat, state': State)
    requires Retained(h, buf, drain, state)
    requires Kept(buf[drain..] + bytes, buf', drain', state')
    ensures Retained(h + bytes, buf', drain', state')
    ensures drain' <= |buf'| <= |h + bytes| && |buf'| - drain' < MAX_SBF_LENGTH + |bytes|
  {
    hide Scan, Kept, Candidate, Undecided;
    assert drain <= |buf| <= |h| && (Scan(buf[drain..], 0) == Nothing(0) ==> |buf[drain..]| < MAX_SBF_LENGTH) by {
      if Scan(buf[drain..], 0) == Nothing(0) { UndecidedIsShort(buf[drain..]); }
    }
    var base, u := |h| - |buf| + drain, buf[drain..];
    RetainedIsHeld(h, buf, drain, state);
    hide Retained;
    Resume(h, base, bytes);
    assert u + bytes == (h + bytes)[base..];
    KeptIsRetained(h + bytes, base, u, bytes, buf', drain', state');
    KeptIsShort(u, bytes, buf', drain', state');
  }

  lemma UndecidedIsShort(u: seq<byte>)
    requires Scan(u, 0) == Nothing(0)
    ensures |u| < MAX_SBF_LENGTH
  {
    hide Judge;
    if MAX_SBF_LENGTH <= |u| { DecidedInTime(u, 0); }
  }

  lemma KeptIsRetained(h: seq<byte>, base: nat, u: seq<byte>, bytes: seq<byte>,
                       buf: seq<byte>, drain: nat, state: State)
    requires base <= |h| && u + bytes == h[base..] && Held(u)
    requires Scan(h, 0).rest == base + Scan(u + bytes, 0).rest
    requires Kept(u + bytes, buf, drain, state)
    ensures Retained(h, buf, drain, state) && drain <= |buf| <= |h|
  {
    hide Judge, Candidate, Scan, Held;
    var w := u + bytes;
    LastFrameBeforeRest(w);
    if state != Idle {
      CandidateShift(state, w, Scan(w, 0).rest);
    } else if drain > 0 {
      TailCounts(u, bytes);
    } else {
      ScanUndecided([]);
    }
  }

  /** What is left to look at again is shorter than the longest frame, the new bytes apart. */
  lemma KeptIsShort(u: seq<byte>, bytes: seq<byte>, buf: seq<byte>, drain: nat, state: State)
    requires Held(u) && Kept(u + bytes, buf, drain, state)
    requires Scan(u, 0) == Nothing(0) ==> |u| < MAX_SBF_LENGTH
    ensures drain <= |buf| && |buf| - drain < MAX_SBF_LENGTH + |bytes|
  {
    hide Judge, Candidate, Scan;
    LastFrameBeforeRest(u + bytes);
    if state == Idle && drain > 0 { TailCounts(u, bytes); }
  }

  /** What is kept of the buffer `w` of a call. */
  ghost predicate Kept(w: seq<byte>, buf: seq<byte>, drain: nat, state: State) {
    var r := Scan(w, 0);
    if state != Idle then
      Candidate(state, w, r.rest) && Undecided(w, r.rest) && buf == w[r.rest..] && drain == 0
    else
      r.rest == |w| && drain == EndOfLast(r.frames) && buf == if drain == 0 then [] else w
  }

  /** The frames of a call are those that its bytes add to the stream. */
  lemma FramesAgain(h: seq<byte>, buf: seq<byte>, drain: nat, state: State, bytes: seq<byte>)
    requires Retained(h, buf, drain, state)
    ensures StreamFrames(h + bytes) == StreamFrames(h) + Frames(Scan(buf[drain..] + bytes, 0).frames)
  {
    hide Candidate, Scan, Frames;
    RetainedIsHeld(h, buf, drain, state);
    Resume(h, |h| - |buf| + drain, bytes);
  }

  lemma RecountedAgain(h: seq<byte>, buf: seq<byte>, drain: nat, state: State, bytes: seq<byte>, stats: Stats, n: nat)
    requires Retained(h, buf, drain, state)
    ensures Recounts(stats, Plus(stats.(bytesConsumed := n), Scan(buf[drain..] + bytes, 0)),
                     Scan(h, 0), Scan(h + bytes, 0), Scan(buf[drain..], 0))
  {
    hide Candidate, Scan, Frames;
    RetainedIsHeld(h, buf, drain, state);
    Resume(h, |h| - |buf| + drain, bytes);
  }

  lemma CountedAgain(h: seq<byte>, buf: seq<byte>, drain: nat, state: State, bytes: seq<byte>,
                     buf': seq<byte>, drain': nat, state': State, stats: Stats, since: Stats)
    requires Retained(h, buf, drain, state)
    requires Kept(buf[drain..] + bytes, buf', drain', state') && drain' <= |buf'|
    requires Counted(stats, since, Scan(h, 0), Scan(buf[drain..], 0))
    ensures Counted(Plus(stats, Scan(buf[drain..] + bytes, 0)), since,
                    Scan(h + bytes, 0), Scan(buf'[drain'..], 0))
  {
    hide Judge, Candidate, Scan, Frames;
    var base, u := |h| - |buf| + drain, buf[drain..];
    var w := u + bytes;
    RetainedIsHeld(h, buf, drain, state);
    Resume(h, base, bytes);
    ResumeCount(h, base, bytes);
    if state' != Idle {
      CandidateShift(state', w, Scan(w, 0).rest);
      ScanUndecided(buf');
      assert buf'[0..] == buf';
    } else if drain' > 0 {
      TailCounts(u, bytes);
    } else {
      ScanUndecided([]);
    }
  }

  /** Everything a call establishes, on values. */
  lemma FeedOutcome(h: seq<byte>, buf: seq<byte>, drain: nat, state: State, bytes: seq<byte>,
                    buf': seq<byte>, drain': nat, state': State, stats: Stats, since: Stats)
    requires Retained(h, buf, drain, state) && drain <= |buf|
    requires Kept(buf[drain..] + bytes, buf', drain', state')
    requires Counted(stats, since, Scan(h, 0), Scan(buf[drain..], 0))
    ensures drain' <= |buf'| && |buf'| - drain' < MAX_SBF_LENGTH + |bytes|
    ensures Retained(h + bytes, buf', drain', state')
    ensures StreamFrames(h + bytes) == StreamFrames(h) + Frames(Scan(buf[drain..] + bytes, 0).frames)
    ensures var stats' := Plus(stats.(bytesConsumed := stats.bytesConsumed + |bytes|),
                               Scan(buf[drain..] + bytes, 0));
            && Recounts(stats, stats', Scan(h, 0), Scan(h + bytes, 0), Scan(buf[drain..], 0))
            && Counted(stats', since, Scan(h + bytes, 0), Scan(buf'[drain'..], 0))
  {
    hide Scan, Kept, StreamFrames, Frames, Plus, Retained, Recounts;
    var before := stats.(bytesConsumed := stats.bytesConsumed + |bytes|);
    assert Counted(before, since, Scan(h, 0), Scan(buf[drain..], 0));
    hide Counted;
    RetainedAgain(h, buf, drain, state, bytes, buf', drain', state');
    FramesAgain(h, buf, drain, state, bytes);
    RecountedAgain(h, buf, drain, state, bytes, stats, before.bytesConsumed);
    CountedAgain(h, buf, drain, state, bytes, buf', drain', state', before, since);
  }

  /** The frames found end before the point where the scan stopped. */
  lemma LastFrameBeforeRest(w: seq<byte>)
    ensures EndOfLast(Scan(w, 0).frames) <= Scan(w, 0).rest
    ensures EndOfLast(Scan(w, 0).frames) == 0 <==> Frames(Scan(w, 0).frames) == []
  {
    hide Scan, Judge;
    if Scan(w, 0).frames != [] {
      AfterLast(w, 0);
      ScanSlices(w, 0);
      var last := |Scan(w, 0).frames| - 1;
      assert SliceOk(w, Scan(w, 0).frames[last], 0, Scan(w, 0).rest);
    }
  }

  lemma PlusBytes(s: Stats, r: Found)
    ensures Plus(s, r).bytesConsumed == s.bytesConsumed
  {
  }

  lemma CandidateGrows(state: State, s: seq<byte>, bytes: seq<byte>)
    ensures Candidate(state, s, 0) ==> Candidate(state, s + bytes, 0)
  {
  }

  lemma CandidateShift(state: State, s: seq<byte>, p: nat)
    requires Candidate(state, s, p) && Undecided(s, p)
    ensures Candidate(state, s[p..], 0) && Undecided(s[p..], 0)
  {
    JudgeShift(s, p, 0);
  }

  class SbfFrameSync {
    var buf: seq<byte>
    var state: State
    var stats: Stats
    var frameDrain: nat

    // All bytes fed, and all frames emitted, since construction or the last reset; and the
    // counters at that time.
    ghost var history: seq<byte>
    ghost var emitted: seq<Frame>
    ghost var since: Stats

    /** The retained bytes that are still to be scanned. */
    ghost function Undrained(): seq<byte>
      requires frameDrain <= |buf|
      reads this
    {
      buf[frameDrain..]
    }

    /** What holds between calls. */
    ghost predicate Valid()
      reads this
    {
      && Retained(history, buf, frameDrain, state) && frameDrain <= |buf|
      && emitted == StreamFrames(history)
      && stats.bytesConsumed == since.bytesConsumed + |history|
      && Counted(stats, since, Scan(history, 0), Scan(Undrained(), 0))
    }

    constructor ()
      ensures Valid()
      ensures history == [] && emitted == [] && stats == since == Stats(0, 0, 0, 0, 0)
    {
      buf, state, frameDrain := [], Idle, 0;
      stats, since := Stats(0, 0, 0, 0, 0), Stats(0, 0, 0, 0, 0);
      history, emitted := [], [];
    }

    /** Forget the bytes held; the counters go on. */
    method Reset()
      requires Valid()
      modifies this
      ensures Valid()
      ensures history == [] && emitted == [] && since == stats == old(stats)
    {
      buf, state, frameDrain := [], Idle, 0;
      history, emitted, since := [], [], stats;
    }

    // --- One step of the machine in each state ---------------------------------
    //
    // Each takes the cursor and the candidate start, and returns them with the progress flag.
    // `found` is what the scan of the buffer has found before the anchor.

    method StepIdle(pos: nat, ghost found: Found) returns (pos': nat, frameStart: nat, progress: bool)
      requires state == Idle && Reached(buf, found, pos)
      modifies this`state
      ensures pos <= pos' <= |buf| && Reached(buf, found, pos')
      ensures progress ==> state == GotDollar && frameStart == pos' && Candidate(state, buf, frameStart)
      ensures !progress ==> state == Idle && pos' == |buf|
      ensures Turn(state, pos', frameStart) == TurnOf(Idle, buf, pos, 0)
    {
      hide Scan, Crc, Judge;
      pos', frameStart, progress := pos, 0, false;
      while pos' < |buf| && buf[pos'] != DOLLAR
        invariant state == Idle && pos <= pos' <= |buf| && Reached(buf, found, pos')
        invariant NextDollar(buf, pos) == NextDollar(buf, pos')
      {
        AdvanceSkip(buf, found, pos');
        pos' := pos' + 1;
      }
      if pos' < |buf| {
        frameStart := pos';
        state := GotDollar;
        progress := true;
      }
    }

    method StepGotDollar(pos: nat, start: nat, ghost found: Found)
      returns (pos': nat, frameStart: nat, progress: bool)
      requires state == GotDollar && Reached(buf, found, start) && Candidate(state, buf, start)
      modifies this`state
      ensures !progress ==> state == GotDollar && frameStart == start && Undecided(buf, start)
      ensures progress && state == ReadingHeader ==> frameStart == start && Candidate(state, buf, start)
      ensures progress && state == GotDollar ==>
                frameStart == start + 1 < |buf| && Reached(buf, found, frameStart) && Candidate(state, buf, frameStart)
      ensures progress && state == Idle ==> pos' == start + 1 <= |buf| && Reached(buf, found, pos')
      ensures state != ReadingBody
      ensures Turn(state, pos', frameStart) == TurnOf(GotDollar, buf, pos, start)
    {
      hide Scan, Reached, Crc;
      pos', frameStart, progress := pos, start, false;
      if frameStart + 1 >= |buf| {
        return;
      }
      var next := buf[frameStart + 1];
      if next == AT {
        pos' := frameStart + 2;
        state := ReadingHeader;
        progress := true;
      } else {
        AdvanceSkip(buf, found, start);
        if next == DOLLAR {
          frameStart := frameStart + 1;
          pos' := frameStart;
          progress := true;
        } else {
          pos' := frameStart + 1;
          frameStart := 0;
          state := Idle;
          progress := true;
        }
      }
    }

    method StepReadingHeader(pos: nat, start: nat, ghost found: Found)
      returns (pos': nat, frameStart: nat, progress: bool, ghost found': Found)
      requires state == ReadingHeader && Reached(buf, found, start) && Candidate(state, buf, start)
      modifies this`state, this`stats
      ensures !progress ==> state == ReadingHeader && frameStart == start && Undecided(buf, start)
      ensures progress && state != Idle ==>
                state == ReadingBody && frameStart == start && Candidate(state, buf, start)
      ensures progress && state == Idle ==> pos' == start + 1 <= |buf| && Reached(buf, found', pos')
      ensures found' == if progress && state == Idle then Then(found, Found([], 0, 1, start + 1)) else found
      ensures found'.frames == found.frames
      ensures stats == if progress && state == Idle
                       then old(stats).(lengthInvalid := old(stats).lengthInvalid + 1,
                                        resyncs := old(stats).resyncs + 1)
                       else old(stats)
      ensures Turn(state, pos', frameStart) == TurnOf(ReadingHeader, buf, pos, start)
    {
      hide Scan, Reached, Crc;
      pos', frameStart, progress, found' := pos, start, false, found;
      if frameStart + 8 > |buf| {
        return;
      }
      HeaderJudged(buf, start);
      pos' := frameStart + 8;
      var lenField := U16(buf, frameStart + 6);
      if lenField % 4 != 0 || lenField < 8 || lenField > MAX_SBF_LENGTH {
        AdvanceBadLength(buf, found, start);
        found' := Then(found, Found([], 0, 1, start + 1));
        stats := stats.(lengthInvalid := stats.lengthInvalid + 1, resyncs := stats.resyncs + 1);
        pos' := frameStart + 1;
        frameStart := 0;
        state := Idle;
        progress := true;
        return;
      }
      state := ReadingBody;
      progress := true;
    }

    method StepReadingBody(pos: nat, start: nat, out: seq<Frame>, ghost found: Found)
      returns (pos': nat, frameStart: nat, progress: bool, out': seq<Frame>, ghost found': Found)
      requires state == ReadingBody && Reached(buf, found, start) && Candidate(state, buf, start)
      requires out == Frames(found.frames)
      modifies this`state, this`stats, this`frameDrain
      ensures out' == Frames(found'.frames)
      ensures !progress ==>
                && state == ReadingBody && frameStart == start && Undecided(buf, start)
                && stats == old(stats) && frameDrain == old(frameDrain) && found' == found
      ensures progress ==> state == Idle && start < pos' <= |buf| && Reached(buf, found', pos')
      ensures progress && out' == out ==>
                && found' == Then(found, Found([], 1, 0, pos')) && found'.frames == found.frames
                && frameDrain == old(frameDrain)
                && stats == old(stats).(crcFailed := old(stats).crcFailed + 1,
                                        resyncs := old(stats).resyncs + 1)
      ensures progress && out' != out ==>
                && |found'.frames| == |found.frames| + 1 && frameDrain == pos' == EndOfLast(found'.frames)
                && found'.crcFailed == found.crcFailed && found'.lengthInvalid == found.lengthInvalid
                && stats == old(stats).(framesEmitted := old(stats).framesEmitted + 1)
      ensures Turn(state, pos', frameStart) == TurnOf(ReadingBody, buf, pos, start)
    {
      hide Scan, Reached, Crc;
      pos', frameStart, progress, out', found' := pos, start, false, out, found;
      var lenField := U16(buf, frameStart + 6);
      var total := lenField;
      if frameStart + total > |buf| {
        return;
      }
      AdvanceBody(buf, found, start);
      BodyJudged(buf, start);
      var computedCrc := TableCrc(buf[frameStart + 4..frameStart + total]);
      var headerCrc := U16(buf, frameStart + 2);
      var idField := U16(buf, frameStart + 4);
      if computedCrc != headerCrc {
        found' := Then(found, Found([], 1, 0, start + 1));
        stats := stats.(crcFailed := stats.crcFailed + 1, resyncs := stats.resyncs + 1);
        pos' := frameStart + 1;
        frameStart := 0;
        state := Idle;
        progress := true;
        return;
      }
      ghost var one := Found([Located(start, FrameAt(buf, start))], 0, 0, start + total);
      found' := Then(found, one);
      FramesThen(found, one);
      var body := buf[frameStart + 8..frameStart + total];
      out' := out + [Frame(headerCrc, idField, lenField, body)];
      stats := stats.(framesEmitted := stats.framesEmitted + 1);
      frameDrain := frameStart + total;
      pos' := frameStart + total;
      frameStart := 0;
      state := Idle;
      progress := true;
    }

    /** One turn of the progress loop. */
    method Step(pos: nat, start: nat, out: seq<Frame>, ghost before: Stats, ghost found: Found)
      returns (pos': nat, frameStart: nat, progress: bool, out': seq<Frame>, ghost found': Found)
      requires Running(state, buf, Anchor(state, pos, start), found, out, frameDrain)
      requires stats == Plus(before, found)
      modifies this`state, this`stats, this`frameDrain
      ensures Running(state, buf, Anchor(state, pos', frameStart), found', out', frameDrain)
      ensures stats == Plus(before, found')
      ensures !progress ==> state == old(state) && Stopped(state, buf, Anchor(state, pos', frameStart))
      ensures Anchor(old(state), pos, start) <= Anchor(state, pos', frameStart)
      ensures progress && Anchor(old(state), pos, start) == Anchor(state, pos', frameStart) ==>
                Rank(state) < Rank(old(state))
      ensures Turn(state, pos', frameStart) == TurnOf(old(state), buf, pos, start)
    {
      hide Scan, Reached, Candidate, Judge, Frames, Undecided;
      out', found' := out, found;
      match state
      case Idle =>
        pos', frameStart, progress := StepIdle(pos, found);
      case GotDollar =>
        pos', frameStart, progress := StepGotDollar(pos, start, found);
      case ReadingHeader =>
        pos', frameStart, progress, found' := StepReadingHeader(pos, start, found);
      case ReadingBody =>
        pos', frameStart, progress, out', found' := StepReadingBody(pos, start, out, found);
    }

    /**
     Runs the machine over the buffer until it stalls. Everything before the returned candidate
     (or the whole buffer, when idle) is decided.
     */
    method Run() returns (pos: nat, frameStart: nat, out: seq<Frame>)
      requires frameDrain == 0 && (state != Idle ==> Candidate(state, buf, 0))
      modifies this`state, this`stats, this`frameDrain
      ensures out == Frames(Scan(buf, 0).frames)
      ensures frameDrain == EndOfLast(Scan(buf, 0).frames)
      ensures state == Idle ==> pos == |buf| == Scan(buf, 0).rest
      ensures state != Idle ==>
                && frameStart == Scan(buf, 0).rest
                && Candidate(state, buf, frameStart) && Undecided(buf, frameStart)
      ensures stats == Plus(old(stats), Scan(buf, 0))
    {
      hide Scan, Crc;
      assert Reached(buf, Nothing(0), 0);
      hide Reached, Candidate, Judge, Frames, Plus;
      pos, frameStart, out := 0, 0, [];
      ghost var found := Nothing(0);
      assert stats == Plus(stats, found) && out == Frames(found.frames) by { EmptyScan(stats); }
      var progress := true;
      while progress
        invariant Running(state, buf, Anchor(state, pos, frameStart), found, out, frameDrain)
        invariant stats == Plus(old(stats), found)
        invariant !progress ==> Stopped(state, buf, Anchor(state, pos, frameStart))
        decreases |buf| - Anchor(state, pos, frameStart), Rank(state), progress
      {
        pos, frameStart, progress, out, found := Step(pos, frameStart, out, old(stats), found);
      }
      Stalled(buf, found, Anchor(state, pos, frameStart));
      PlusRest(old(stats), found, Anchor(state, pos, frameStart));
    }

    /** Keeps only what the next call needs. */
    method Trim(pos: nat, frameStart: nat)
      requires if state == Idle then pos <= |buf| else frameDrain <= frameStart <= |buf|
      modifies this`buf, this`frameDrain
      ensures state != Idle ==>
                buf == old(buf)[frameStart..]
                && frameDrain == if frameStart > 0 then 0 else old(frameDrain)
      ensures state == Idle && old(frameDrain) == 0 ==> buf == old(buf)[pos..] && frameDrain == 0
      ensures state == Idle && old(frameDrain) > 0 ==> buf == old(buf) && frameDrain == old(frameDrain)
    {
      if state != Idle {
        if frameStart > 0 {
          buf := buf[frameStart..];
          frameDrain := 0;
        }
      } else {
        if frameDrain == 0 {
          if pos > 0 && pos <= |buf| {
            buf := buf[pos..];
          }
        }
      }
    }

    /** Drops what earlier calls emitted and appends the new bytes. */
    method Load(bytes: seq<byte>)
      requires Retained(history, buf, frameDrain, state)
      modifies this`buf, this`stats, this`frameDrain
      ensures buf == old(Undrained()) + bytes && frameDrain == 0
      ensures state != Idle ==> Candidate(state, buf, 0)
      ensures stats == old(stats).(bytesConsumed := old(stats).bytesConsumed + |bytes|)
    {
      hide Scan, Judge, Candidate;
      if frameDrain > 0 {
        buf := buf[frameDrain..];
        frameDrain := 0;
      }
      stats := stats.(bytesConsumed := stats.bytesConsumed + |bytes|);
      CandidateGrows(state, buf, bytes);
      buf := buf + bytes;
    }

    /** Drains, appends, runs the machine and trims. */
    method Ingest(bytes: seq<byte>) returns (out: seq<Frame>)
      requires Retained(history, buf, frameDrain, state)
      modifies this`buf, this`state, this`stats, this`frameDrain
      ensures Kept(old(Undrained()) + bytes, buf, frameDrain, state)
      ensures out == Frames(Scan(old(Undrained()) + bytes, 0).frames)
      ensures stats == Plus(old(stats).(bytesConsumed := old(stats).bytesConsumed + |bytes|),
                            Scan(old(Undrained()) + bytes, 0))
      ensures stats.bytesConsumed == old(stats).bytesConsumed + |bytes|
      ensures out == [] && state == Idle ==> frameDrain == 0
    {
      ghost var u := Undrained();
      hide Scan, Judge, Candidate, Frames, Plus, GoodLength;
      Load(bytes);
      var pos, frameStart;
      pos, frameStart, out := Run();
      LastFrameBeforeRest(buf);
      PlusBytes(old(stats).(bytesConsumed := old(stats).bytesConsumed + |bytes|), Scan(buf, 0));
      Trim(pos, frameStart);
    }

    /** Takes the next chunk of the stream and returns the frames it completes. */
    method Feed(bytes: seq<byte>) returns (out: seq<Frame>)
      requires Valid()
      modifies this
      ensures Valid()
      ensures history == old(history) + bytes && since == old(since)
      ensures emitted == old(emitted) + out
      ensures stats == Plus(old(stats).(bytesConsumed := old(stats).bytesConsumed + |bytes|),
                            Scan(old(Undrained()) + bytes, 0))
      ensures Recounts(old(stats), stats, Scan(old(history), 0), Scan(history, 0),
                       Scan(old(Undrained()), 0))
      ensures Kept(old(Undrained()) + bytes, buf, frameDrain, state)
      ensures |Undrained()| < MAX_SBF_LENGTH + |bytes|
      ensures state == Idle ==> frameDrain == 0 || out != []
    {
      hide Scan, Kept, StreamFrames, Frames, Plus, Retained, Recounts, Counted;
      ghost var b, d, st, h := buf, frameDrain, state, history;
      out := Ingest(bytes);
      FeedOutcome(h, b, d, st, bytes, buf, frameDrain, state, old(stats), since);
      history, emitted := history + bytes, emitted + out;
    }
  }
}
