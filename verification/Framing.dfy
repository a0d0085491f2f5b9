/**
 The SBF frame format and the greedy scan that defines which frames a byte stream holds.

 A frame is "$@", CRC, ID and Length (16 bits each, little-endian), then Length - 8 body bytes.
 The CRC covers everything from the ID on.
 */
module Framing {
  import opened Bytes
  import opened Crc16

  const DOLLAR: byte := 0x24
  const AT: byte := 0x40
  const MAX_SBF_LENGTH: word := 8188

  datatype Frame = Frame(crc: word, rawId: word, length: word, body: seq<byte>) {
    function BlockId(): nat { rawId % 0x2000 }

    /** The header-complete on-wire bytes. */
    function Wire(): seq<byte> {
      [DOLLAR, AT] + Le16(crc) + Le16(rawId) + Le16(length) + body
    }

    /** The bytes the CRC covers. */
    function Covered(): seq<byte> { Le16(rawId) + Le16(length) + body }

    ghost predicate Valid() {
      && GoodLength(length)
      && |body| == length - 8
      && crc == Crc(Covered())
    }
  }

  predicate GoodLength(n: word) {
    n % 4 == 0 && 8 <= n <= MAX_SBF_LENGTH
  }

  /** The frame with this ID and body, its Length and CRC filled in. */
  function Sealed(rawId: word, body: seq<byte>): Frame
    requires |body| <= MAX_SBF_LENGTH - 8
  {
    var n := 8 + |body|;
    Frame(Crc(Le16(rawId) + Le16(n) + body), rawId, n, body)
  }

  /** A valid frame is determined by its ID and body. */
  lemma SealedValid(rawId: word, body: seq<byte>)
    requires |body| <= MAX_SBF_LENGTH - 8 && |body| % 4 == 0
    ensures Sealed(rawId, body).Valid()
    ensures forall f: Frame :: f.Valid() && f.rawId == rawId && f.body == body ==> f == Sealed(rawId, body)
  {
    hide Crc;
  }

  lemma AlreadySealed(f: Frame)
    requires f.Valid()
    ensures |f.body| <= MAX_SBF_LENGTH - 8 && |f.body| % 4 == 0
    ensures Sealed(f.rawId, f.body) == f
  {
    hide Crc, Frame.Covered, Sealed;
    SealedValid(f.rawId, f.body);
  }

  // --- One position ------------------------------------------------------------

  /** What can be said about a frame starting at a given offset, from the bytes seen so far. */
  datatype Verdict =
    | Skip                 // no "$@" here
    | Pending              // not decided: more bytes are needed
    | BadLength            // "$@" with an unacceptable Length field
    | BadCrc               // complete, but the CRC does not match
    | Accept(length: word) // a complete valid frame

  function Judge(s: seq<byte>, i: nat): (v: Verdict)
    requires i < |s|
    ensures v.Accept? ==>
              i + 8 <= |s| && v.length == U16(s, i + 6) && GoodLength(v.length) && i + v.length <= |s|
  {
    if s[i] != DOLLAR then Skip
    else if i + 1 >= |s| then Pending
    else if s[i + 1] != AT then Skip
    else if i + 8 > |s| then Pending
    else
      var n := U16(s, i + 6);
      if !GoodLength(n) then BadLength
      else if i + n > |s| then Pending
      else if Crc(s[i + 4..i + n]) != U16(s, i + 2) then BadCrc
      else Accept(n)
  }

  /** The frame whose header is at offset `i`. */
  function FrameAt(s: seq<byte>, i: nat): (f: Frame)
    requires i + 8 <= |s| && GoodLength(U16(s, i + 6)) && i + U16(s, i + 6) <= |s|
  {
    var n := U16(s, i + 6);
    Frame(U16(s, i + 2), U16(s, i + 4), n, s[i + 8..i + n])
  }

  /** A verdict, once reached, is not changed by later bytes. */
  lemma JudgeStable(s: seq<byte>, t: seq<byte>, i: nat)
    requires i < |s| && Judge(s, i) != Pending
    ensures Judge(s + t, i) == Judge(s, i)
    ensures Judge(s, i).Accept? ==> FrameAt(s + t, i) == FrameAt(s, i)
  {
    hide Crc;
    if i + 8 <= |s| {
      var n := U16(s, i + 6);
      assert U16(s + t, i + 2) == U16(s, i + 2) && U16(s + t, i + 4) == U16(s, i + 4);
      assert U16(s + t, i + 6) == n;
      if GoodLength(n) && i + n <= |s| {
        assert (s + t)[i + 4..i + n] == s[i + 4..i + n];
        assert (s + t)[i + 8..i + n] == s[i + 8..i + n];
      }
    }
  }

  /** No candidate stays undecided for longer than the longest frame. */
  lemma DecidedInTime(s: seq<byte>, i: nat)
    requires i + MAX_SBF_LENGTH <= |s|
    ensures Judge(s, i) != Pending
  {
    hide Crc;
  }

  /** What was rejected once is never accepted later. */
  lemma RejectedForGood(s: seq<byte>, t: seq<byte>, i: nat)
    requires i < |s| && Judge(s, i) != Pending && !Judge(s, i).Accept?
    ensures forall f: Frame :: !StandsAt(s + t, i, f)
  {
    hide Judge, StandsAt;
    JudgeStable(s, t, i);
    AcceptIff(s + t, i);
  }

  /** A verdict depends only on the bytes from the offset on. */
  lemma JudgeShift(s: seq<byte>, base: nat, i: nat)
    requires base + i < |s|
    ensures Judge(s[base..], i) == Judge(s, base + i)
    ensures Judge(s, base + i).Accept? ==> FrameAt(s[base..], i) == FrameAt(s, base + i)
  {
    hide Crc;
    var t := s[base..];
    if i + 8 <= |t| {
      var n := U16(t, i + 6);
      assert U16(t, i + 2) == U16(s, base + i + 2) && U16(t, i + 4) == U16(s, base + i + 4);
      assert n == U16(s, base + i + 6);
      if GoodLength(n) && i + n <= |t| {
        assert t[i + 4..i + n] == s[base + i + 4..base + i + n];
        assert t[i + 8..i + n] == s[base + i + 8..base + i + n];
      }
    }
  }

  /** An accepted frame is valid, and its wire form is exactly the bytes it was read from. */
  lemma AcceptedFrame(s: seq<byte>, i: nat)
    requires i < |s| && Judge(s, i).Accept?
    ensures var n := Judge(s, i).length;
            i + n <= |s| && FrameAt(s, i).Valid() && FrameAt(s, i).length == n
            && FrameAt(s, i).Wire() == s[i..i + n]
  {
    hide Crc;
    var n := Judge(s, i).length;
    var f := FrameAt(s, i);
    assert s[i + 4..i + n] == f.Covered();
    assert s[i..i + n] == f.Wire();
  }

  /** The wire form of a valid frame is accepted as that frame, whatever follows it. */
  lemma WireAccepted(f: Frame, t: seq<byte>)
    requires f.Valid()
    ensures |f.Wire()| == f.length
    ensures Judge(f.Wire() + t, 0) == Accept(f.length) && FrameAt(f.Wire() + t, 0) == f
  {
    var s := f.Wire() + t;
    assert s[0] == DOLLAR && s[1] == AT;
    assert U16(s, 2) == f.crc && U16(s, 4) == f.rawId && U16(s, 6) == f.length;
    assert s[4..f.length] == f.Covered();
    assert s[8..f.length] == f.body;
  }

  /** The bytes of this valid frame stand at offset `i`. */
  ghost predicate StandsAt(s: seq<byte>, i: nat, f: Frame) {
    f.Valid() && i + |f.Wire()| <= |s| && s[i..i + |f.Wire()|] == f.Wire()
  }

  /** An offset is accepted exactly when the bytes of some valid frame stand there; it is then that frame. */
  lemma AcceptIff(s: seq<byte>, i: nat)
    requires i < |s|
    ensures Judge(s, i).Accept? <==> exists f: Frame :: StandsAt(s, i, f)
    ensures forall f: Frame :: StandsAt(s, i, f) ==> Judge(s, i) == Accept(f.length) && FrameAt(s, i) == f
  {
    if Judge(s, i).Accept? {
      AcceptedFrame(s, i);
      assert StandsAt(s, i, FrameAt(s, i));
    }
    forall f: Frame | StandsAt(s, i, f) ensures Judge(s, i) == Accept(f.length) && FrameAt(s, i) == f {
      StandingAccepted(s, i, f);
    }
  }

  lemma StandingAccepted(s: seq<byte>, i: nat, f: Frame)
    requires StandsAt(s, i, f)
    ensures i < |s| && Judge(s, i) == Accept(f.length) && FrameAt(s, i) == f
  {
    hide Judge, FrameAt;
    var w := f.Wire();
    WireAccepted(f, s[i + |w|..]);
    hide Frame.Wire, Frame.Valid;
    assert s[i..] == w + s[i + |w|..];
    JudgeShift(s, i, 0);
  }

  // --- The whole stream --------------------------------------------------------

  datatype Located = Located(offset: nat, frame: Frame)

  /** The outcome of a scan; `rest` is the offset of the first undecided byte. */
  datatype Found = Found(frames: seq<Located>, crcFailed: nat, lengthInvalid: nat, rest: nat)

  /** `a`, then `b` from where `a` stopped. */
  function Then(a: Found, b: Found): Found {
    Found(a.frames + b.frames, a.crcFailed + b.crcFailed, a.lengthInvalid + b.lengthInvalid, b.rest)
  }

  function Nothing(rest: nat): Found { Found([], 0, 0, rest) }

  /** What a decided position contributes, and where scanning goes on. */
  function Visit(s: seq<byte>, i: nat): (r: Found)
    requires i < |s| && Judge(s, i) != Pending
    ensures i < r.rest <= |s|
  {
    match Judge(s, i)
    case Skip => Nothing(i + 1)
    case BadLength => Found([], 0, 1, i + 1)
    case BadCrc => Found([], 1, 0, i + 1)
    case Accept(n) => Found([Located(i, FrameAt(s, i))], 0, 0, i + n)
  }

  /** The greedy scan from offset `i`, stopping at the first undecided position. */
  function Scan(s: seq<byte>, i: nat): (r: Found)
    requires i <= |s|
    ensures i <= r.rest <= |s|
    decreases |s| - i
  {
    if i == |s| || Judge(s, i) == Pending then Nothing(i)
    else
      var v := Visit(s, i);
      Then(v, Scan(s, v.rest))
  }

  lemma ScanStep(s: seq<byte>, i: nat)
    requires i < |s| && Judge(s, i) != Pending
    ensures Scan(s, i) == Then(Visit(s, i), Scan(s, Visit(s, i).rest))
  {
    hide Judge, Visit;
  }

  function Frames(located: seq<Located>): seq<Frame> {
    seq(|located|, k requires 0 <= k < |located| => located[k].frame)
  }

  /** The frames a stream holds. */
  function StreamFrames(s: seq<byte>): seq<Frame> { Frames(Scan(s, 0).frames) }

  lemma ThenAssoc(a: Found, b: Found, c: Found)
    ensures Then(Then(a, b), c) == Then(a, Then(b, c))
  {
  }

  lemma FramesThen(a: Found, b: Found)
    ensures Frames(Then(a, b).frames) == Frames(a.frames) + Frames(b.frames)
  {
  }

  /** More bytes never revise what was found: the scan resumes at the first undecided offset. */
  lemma {:induction false} ScanExtend(s: seq<byte>, t: seq<byte>, i: nat)
    requires i <= |s|
    ensures Scan(s + t, i) == Then(Scan(s, i), Scan(s + t, Scan(s, i).rest))
    decreases |s| - i
  {
    if i == |s| || Judge(s, i) == Pending {
    } else {
      JudgeStable(s, t, i);
      var v := Visit(s, i);
      assert Visit(s + t, i) == v;
      ScanExtend(s, t, v.rest);
      ThenAssoc(v, Scan(s, v.rest), Scan(s + t, Scan(s, v.rest).rest));
    }
  }

  /** Rescanning from where a scan stopped finds nothing new. */
  lemma {:induction false} ScanRest(s: seq<byte>, i: nat)
    requires i <= |s|
    ensures Scan(s, Scan(s, i).rest) == Nothing(Scan(s, i).rest)
    decreases |s| - i
  {
    if i != |s| && Judge(s, i) != Pending { ScanRest(s, Visit(s, i).rest); }
  }

  function Moved(r: Found, base: nat): Found {
    Found(seq(|r.frames|, k requires 0 <= k < |r.frames| =>
            Located(r.frames[k].offset + base, r.frames[k].frame)),
          r.crcFailed, r.lengthInvalid, r.rest + base)
  }

  lemma VisitShift(s: seq<byte>, base: nat, i: nat)
    requires base + i < |s| && Judge(s, base + i) != Pending
    ensures Judge(s[base..], i) != Pending
    ensures Visit(s, base + i) == Moved(Visit(s[base..], i), base)
  {
    hide Judge;
    JudgeShift(s, base, i);
  }

  lemma MovedThen(a: Found, b: Found, base: nat)
    ensures Moved(Then(a, b), base) == Then(Moved(a, base), Moved(b, base))
  {
  }

  /** Scanning a suffix is scanning the stream from that offset. */
  lemma {:induction false} ScanShift(s: seq<byte>, base: nat, i: nat)
    requires base + i <= |s|
    ensures Scan(s, base + i) == Moved(Scan(s[base..], i), base)
    decreases |s| - i
  {
    hide Judge, Visit;
    if base + i < |s| {
      JudgeShift(s, base, i);
      if Judge(s, base + i) != Pending {
        VisitShift(s, base, i);
        var v := Visit(s[base..], i);
        ScanShift(s, base, v.rest);
        MovedThen(v, Scan(s[base..], v.rest), base);
      }
    }
  }

  // --- What the scan guarantees ------------------------------------------------

  /** The frames are disjoint slices of the stream between `from` and `to`, in stream order. */
  ghost predicate Slices(s: seq<byte>, located: seq<Located>, from: nat, to: nat)
  {
    && from <= to <= |s|
    && (forall k :: 0 <= k < |located| ==> SliceOk(s, located[k], from, to))
    && (forall j, k :: 0 <= j < k < |located| ==>
          located[j].offset + located[j].frame.length <= located[k].offset)
  }

  ghost predicate SliceOk(s: seq<byte>, l: Located, from: nat, to: nat)
  {
    && from <= l.offset
    && l.offset + l.frame.length <= to <= |s|
    && l.frame.Valid()
    && l.frame.Wire() == s[l.offset..l.offset + l.frame.length]
  }

  lemma SlicesThen(s: seq<byte>, a: seq<Located>, b: seq<Located>, from: nat, mid: nat, to: nat)
    requires Slices(s, a, from, mid) && Slices(s, b, mid, to)
    ensures Slices(s, a + b, from, to)
  {
    hide Frame.Wire, Frame.Covered, GoodLength, Crc;
    forall k | 0 <= k < |a + b| ensures SliceOk(s, (a + b)[k], from, to)
    {
      if k < |a| { assert SliceOk(s, a[k], from, mid); } else { assert SliceOk(s, b[k - |a|], mid, to); }
    }
    forall j, k | 0 <= j < k < |a + b| ensures (a + b)[j].offset + (a + b)[j].frame.length <= (a + b)[k].offset
    {
      if j < |a| <= k {
        assert SliceOk(s, a[j], from, mid) && SliceOk(s, b[k - |a|], mid, to);
      } else if |a| <= j {
        assert b[j - |a|].offset + b[j - |a|].frame.length <= b[k - |a|].offset;
      }
    }
  }

  lemma {:induction false} ScanSlices(s: seq<byte>, i: nat)
    requires i <= |s|
    ensures Slices(s, Scan(s, i).frames, i, Scan(s, i).rest)
    decreases |s| - i
  {
    hide Judge, FrameAt, GoodLength, Frame.Valid, Frame.Wire;
    if i == |s| || Judge(s, i) == Pending {
    } else {
      var v := Visit(s, i);
      ScanSlices(s, v.rest);
      if Judge(s, i).Accept? { AcceptedFrame(s, i); }
      SlicesThen(s, v.frames, Scan(s, v.rest).frames, i, v.rest, Scan(s, i).rest);
    }
  }

  /** Every valid frame before `rest` is either found or overlapped by an earlier found frame. */
  lemma {:induction false} ScanComplete(s: seq<byte>, i: nat, j: nat)
    requires i <= |s| && i <= j < Scan(s, i).rest && Judge(s, j).Accept?
    ensures Located(j, FrameAt(s, j)) in Scan(s, i).frames
            || exists l :: l in Scan(s, i).frames && l.offset < j < l.offset + l.frame.length
    decreases |s| - i
  {
    var v := Visit(s, i);
    var r := Scan(s, v.rest);
    assert Scan(s, i).frames == v.frames + r.frames;
    if j == i {
    } else if j < v.rest {
      assert v.frames[0] in Scan(s, i).frames;
    } else {
      ScanComplete(s, v.rest, j);
    }
  }

  /** No valid frame of the decided part is lost, unless a frame that was found overlaps it. */
  lemma FrameNotLost(s: seq<byte>, j: nat, f: Frame)
    requires StandsAt(s, j, f) && j < Scan(s, 0).rest
    ensures Located(j, f) in Scan(s, 0).frames
            || exists l :: l in Scan(s, 0).frames && l.offset < j < l.offset + l.frame.length
  {
    hide Judge, Scan;
    StandingAccepted(s, j, f);
    ScanComplete(s, 0, j);
  }

  // --- Streams made of valid frames --------------------------------------------

  function Wires(frames: seq<Frame>): seq<seq<byte>> {
    seq(|frames|, k requires 0 <= k < |frames| => frames[k].Wire())
  }

  /** The frames written back to back. */
  function Stream(frames: seq<Frame>): seq<byte> { Concat(Wires(frames)) }

  ghost predicate AllValid(frames: seq<Frame>) {
    forall k :: 0 <= k < |frames| ==> frames[k].Valid()
  }

  lemma StreamPush(frames: seq<Frame>, f: Frame)
    ensures Stream(frames + [f]) == Stream(frames) + f.Wire()
  {
    assert Wires(frames + [f]) == Wires(frames) + [f.Wire()];
    ConcatPush(Wires(frames), f.Wire());
  }

  lemma StreamAppend(a: seq<Frame>, b: seq<Frame>)
    ensures Stream(a + b) == Stream(a) + Stream(b)
  {
    assert Wires(a + b) == Wires(a) + Wires(b);
    ConcatAppend(Wires(a), Wires(b));
  }

  /** Where each frame of a back-to-back stream starts. */
  function Contiguous(frames: seq<Frame>): seq<Located> {
    if frames == [] then []
    else
      var init := frames[..|frames| - 1];
      Contiguous(init) + [Located(|Stream(init)|, frames[|frames| - 1])]
  }

  lemma {:induction false} ContiguousFrames(frames: seq<Frame>)
    ensures Frames(Contiguous(frames)) == frames
  {
    if frames != [] {
      ContiguousFrames(frames[..|frames| - 1]);
    }
  }

  /** A back-to-back stream is scanned into exactly its frames: no byte skipped, nothing rejected. */
  lemma {:induction false} ScanStream(frames: seq<Frame>)
    requires AllValid(frames)
    ensures Scan(Stream(frames), 0) == Found(Contiguous(frames), 0, 0, |Stream(frames)|)
  {
    hide Judge, Visit, Frame.Wire;
    if frames != [] {
      var init, f := frames[..|frames| - 1], frames[|frames| - 1];
      var s, w := Stream(init), f.Wire();
      ScanStream(init);
      assert init + [f] == frames;
      StreamPush(init, f);
      ScanExtend(s, w, 0);
      VisitWire(s, f);
    }
  }

  lemma VisitWire(s: seq<byte>, f: Frame)
    requires f.Valid()
    ensures Judge(s + f.Wire(), |s|) == Accept(f.length)
    ensures Scan(s + f.Wire(), |s|) == Found([Located(|s|, f)], 0, 0, |s + f.Wire()|)
  {
    hide Judge, Frame.Wire;
    var w := f.Wire();
    WireAccepted(f, []);
    assert w + [] == w && (s + w)[|s|..] == w;
    JudgeShift(s + w, |s|, 0);
    assert Scan(s + w, |s + w|) == Nothing(|s + w|);
  }
}
