/** Damage on the line: what the CRC keeps out of the recording, and what it does not. */
module FrameDamage {
  import opened Bytes
  import opened Crc16
  import opened CrcDetection
  import opened CrcOrder
  import opened TwoBitErrors
  import opened Framing
  import opened SyncRuns

  /**
   A frame of `n` bytes stands at `i` in `s`; in `t` its sync bytes and its Length arrive as sent,
   while its CRC, ID and body may not.
   */
  ghost predicate Received(s: seq<byte>, t: seq<byte>, i: nat, n: word) {
    && i < |s| && Judge(s, i) == Accept(n)
    && i + n <= |s| && i + n <= |t| && 8 <= n
    && t[i..i + 2] == s[i..i + 2] && t[i + 6..i + 8] == s[i + 6..i + 8]
  }

  /** The ID or the body is damaged, and only within 16 consecutive bits of what the CRC covers. */
  ghost predicate Burst(s: seq<byte>, t: seq<byte>, i: nat, n: word, lo: nat, hi: nat) {
    && Received(s, t, i, n)
    && t[i + 2..i + 4] == s[i + 2..i + 4] && t[i + 4..i + n] != s[i + 4..i + n]
    && AgreeOutside(Bits(s[i + 4..i + n]), Bits(t[i + 4..i + n]), lo, hi) && hi - lo <= 16
  }

  /** An odd number of bits is flipped, in the CRC, the ID and the body together. */
  ghost predicate OddFlips(s: seq<byte>, t: seq<byte>, i: nat, n: word) {
    && Received(s, t, i, n)
    && Differences(Bits(s[i + 2..i + n]), Bits(t[i + 2..i + n])) % 2 == 1
  }

  /** Two bits of ID and body are flipped, these two of what the CRC covers, and nothing else. */
  ghost predicate TwoFlips(s: seq<byte>, t: seq<byte>, i: nat, n: word, p: nat, q: nat) {
    && Received(s, t, i, n)
    && t[i + 2..i + 4] == s[i + 2..i + 4]
    && DifferAt(Bits(s[i + 4..i + n]), Bits(t[i + 4..i + n]), p, q)
  }

  /** The CRC field is damaged, in whatever way, and nothing else is. */
  ghost predicate FieldDamage(s: seq<byte>, t: seq<byte>, i: nat, n: word) {
    && Received(s, t, i, n)
    && t[i + 2..i + 4] != s[i + 2..i + 4] && t[i + 4..i + n] == s[i + 4..i + n]
  }

  // --- One frame ---------------------------------------------------------------

  lemma SameField(s: seq<byte>, t: seq<byte>, i: nat)
    requires i + 2 <= |s| && i + 2 <= |t|
    ensures U16(s[i..i + 2], 0) == U16(s, i)
    ensures U16(s, i) == U16(t, i) <==> s[i..i + 2] == t[i..i + 2]
  {
    var a, b := s[i..i + 2], t[i..i + 2];
    assert a[0] == s[i] && a[1] == s[i + 1] && b[0] == t[i] && b[1] == t[i + 1];
    if U16(s, i) == U16(t, i) { assert a == b; }
  }

  /** Where sync bytes and Length are intact, only the CRC decides. */
  lemma CrcDecides(s: seq<byte>, t: seq<byte>, i: nat, n: word)
    requires Received(s, t, i, n)
    ensures Crc(s[i + 4..i + n]) == U16(s, i + 2)
    ensures Judge(t, i) == if Crc(t[i + 4..i + n]) == U16(t, i + 2) then Accept(n) else BadCrc
  {
    hide Crc;
    assert t[i..i + 2][0] == s[i..i + 2][0] && t[i..i + 2][1] == s[i..i + 2][1];
    SameField(s, t, i + 6);
  }

  /** A burst of at most 16 bits makes the frame fail its check: it is never emitted from its offset. */
  lemma BurstRejected(s: seq<byte>, t: seq<byte>, i: nat, n: word, lo: nat, hi: nat)
    requires Burst(s, t, i, n, lo, hi)
    ensures Judge(t, i) == BadCrc
    ensures forall l :: l in Scan(t, 0).frames ==> l.offset != i
  {
    hide Crc, Bits, Judge, Scan;
    CrcDecides(s, t, i, n);
    SameField(s, t, i + 2);
    BurstDetected(s[i + 4..i + n], t[i + 4..i + n], lo, hi);
    NeverEmitted(t, 0, i);
  }

  /** So does any odd number of flipped bits, be they in the CRC, the ID or the body. */
  lemma OddDamageRejected(s: seq<byte>, t: seq<byte>, i: nat, n: word)
    requires OddFlips(s, t, i, n)
    ensures Judge(t, i) == BadCrc
    ensures forall l :: l in Scan(t, 0).frames ==> l.offset != i
  {
    hide Crc, Bits, Differences, Judge, Scan, Parity;
    CrcDecides(s, t, i, n);
    var field, field', covered, covered' := s[i + 2..i + 4], t[i + 2..i + 4], s[i + 4..i + n], t[i + 4..i + n];
    assert s[i + 2..i + n] == field + covered && t[i + 2..i + n] == field' + covered';
    FlipsAdd(field, field', covered, covered');
    FieldParity(field, field');
    SameField(s, t, i + 2);
    SameField(t, s, i + 2);
    CrcParity(covered, covered');
    NeverEmitted(t, 0, i);
  }

  lemma FlipsAdd(x: seq<byte>, y: seq<byte>, x': seq<byte>, y': seq<byte>)
    requires |x| == |y| && |x'| == |y'|
    ensures Differences(Bits(x + x'), Bits(y + y')) == Differences(Bits(x), Bits(y)) + Differences(Bits(x'), Bits(y'))
  {
    hide Bits, Differences;
    BitsAppend(x, x');
    BitsAppend(y, y');
    DifferencesAppend(Bits(x), Bits(y), Bits(x'), Bits(y'));
  }

  /** So does any damage to the CRC field alone. */
  lemma FieldDamageRejected(s: seq<byte>, t: seq<byte>, i: nat, n: word)
    requires FieldDamage(s, t, i, n)
    ensures Judge(t, i) == BadCrc
    ensures forall l :: l in Scan(t, 0).frames ==> l.offset != i
  {
    hide Crc, Judge, Scan;
    CrcDecides(s, t, i, n);
    SameField(s, t, i + 2);
    NeverEmitted(t, 0, i);
  }

  /**
   Two flipped bits make the frame fail its check, unless they are exactly 32767 positions apart,
   which only a frame of more than 4 KiB has room for: then it is accepted as damaged.
   */
  lemma TwoFlipsRejected(s: seq<byte>, t: seq<byte>, i: nat, n: word, p: nat, q: nat)
    requires TwoFlips(s, t, i, n, p, q)
    ensures Judge(t, i) == if q - p == 32767 then Accept(n) else BadCrc
    ensures q - p == 32767 ==> n > 4096
    ensures q - p != 32767 ==> forall l :: l in Scan(t, 0).frames ==> l.offset != i
  {
    hide Crc, Bits, Scan;
    CrcDecides(s, t, i, n);
    SameField(s, t, i + 2);
    TwoBitsDetected(s[i + 4..i + n], t[i + 4..i + n], p, q);
    assert n <= MAX_SBF_LENGTH && q < 8 * (n - 4);
    hide Judge;
    if q - p != 32767 { NeverEmitted(t, 0, i); }
  }

  lemma {:induction false} NeverEmitted(t: seq<byte>, from: nat, i: nat)
    requires from <= |t| && i < |t| && !Judge(t, i).Accept?
    ensures forall l :: l in Scan(t, from).frames ==> l.offset != i
    decreases |t| - from
  {
    hide Judge;
    if from != |t| && Judge(t, from) != Pending {
      NeverEmitted(t, Visit(t, from).rest, i);
    }
  }

  // --- The synchronizer --------------------------------------------------------

  /** The frame of `n` bytes at `i` is damaged in one of these ways. */
  ghost predicate DetectableDamage(s: seq<byte>, t: seq<byte>, i: nat, n: word) {
    || OddFlips(s, t, i, n) || FieldDamage(s, t, i, n)
    || (exists p: nat, q: nat :: q - p != 32767 && TwoFlips(s, t, i, n, p, q))
    || exists lo: nat, hi: nat :: Burst(s, t, i, n, lo, hi)
  }

  lemma DetectableRejected(s: seq<byte>, t: seq<byte>, i: nat, n: word)
    requires DetectableDamage(s, t, i, n)
    ensures forall l :: l in Scan(t, 0).frames ==> l.offset != i
  {
    hide Burst, OddFlips, FieldDamage, TwoFlips, Scan;
    if OddFlips(s, t, i, n) {
      OddDamageRejected(s, t, i, n);
    } else if FieldDamage(s, t, i, n) {
      FieldDamageRejected(s, t, i, n);
    } else if p: nat, q: nat :| q - p != 32767 && TwoFlips(s, t, i, n, p, q) {
      TwoFlipsRejected(s, t, i, n, p, q);
    } else {
      var lo: nat, hi: nat :| Burst(s, t, i, n, lo, hi);
      BurstRejected(s, t, i, n, lo, hi);
    }
  }

  function Offsets(located: seq<Located>): seq<nat> {
    seq(|located|, k requires 0 <= k < |located| => located[k].offset)
  }

  /** These are frames of the stream, standing at these offsets, in order and without overlap. */
  ghost predicate EmittedFrom(t: seq<byte>, out: seq<Frame>, offsets: seq<nat>) {
    && |offsets| == |out|
    && (forall k :: 0 <= k < |out| ==> StandsAt(t, offsets[k], out[k]))
    && forall j, k :: 0 <= j < k < |out| ==> offsets[j] + out[j].length <= offsets[k]
  }

  /** The frame at `j` was emitted from there. */
  ghost predicate EmittedAt(out: seq<Frame>, offsets: seq<nat>, j: nat, f: Frame) {
    exists k :: 0 <= k < |out| && k < |offsets| && offsets[k] == j && out[k] == f
  }

  /** An emitted frame starts before `j` and reaches behind it. */
  ghost predicate Overlapped(out: seq<Frame>, offsets: seq<nat>, j: nat) {
    exists k :: 0 <= k < |out| && k < |offsets| && offsets[k] < j < offsets[k] + out[k].length
  }

  /** Of the valid frames that stand in the decided part, those not overlapped by an emitted one are emitted. */
  ghost predicate OthersEmitted(t: seq<byte>, out: seq<Frame>, offsets: seq<nat>) {
    forall j: nat, f: Frame :: StandsAt(t, j, f) && j < Scan(t, 0).rest ==>
                                 EmittedAt(out, offsets, j, f) || Overlapped(out, offsets, j)
  }

  /**
   However the stream is cut into chunks, the synchronizer does not emit a damaged frame: it emits
   the frames of the received stream, valid slices, none of them from the offset of that frame, and
   loses none of the others that an emitted frame does not overlap.
   */
  method FeedDamaged(chunks: seq<seq<byte>>, ghost s: seq<byte>, ghost i: nat, ghost n: word)
    returns (out: seq<Frame>, ghost offsets: seq<nat>)
    requires DetectableDamage(s, Concat(chunks), i, n)
    ensures out == StreamFrames(Concat(chunks))
    ensures EmittedFrom(Concat(chunks), out, offsets) && i !in offsets
    ensures OthersEmitted(Concat(chunks), out, offsets)
  {
    hide DetectableDamage, Scan, Concat, EmittedFrom, CrcHeld, LengthHeld, CrcTwice, LengthTwice, AtMostTwice, Stream,
      OthersEmitted, StreamFrames;
    var stats;
    out, stats := FeedAll(chunks);
    offsets := Offsets(Scan(Concat(chunks), 0).frames);
    ScanEmits(Concat(chunks));
    ScanEmitsOthers(Concat(chunks));
    DetectableRejected(s, Concat(chunks), i, n);
  }

  lemma ScanEmitsOthers(t: seq<byte>)
    ensures OthersEmitted(t, StreamFrames(t), Offsets(Scan(t, 0).frames))
  {
    hide Scan, StandsAt;
    var located := Scan(t, 0).frames;
    var out, offsets := StreamFrames(t), Offsets(located);
    forall j: nat, f: Frame | StandsAt(t, j, f) && j < Scan(t, 0).rest
      ensures EmittedAt(out, offsets, j, f) || Overlapped(out, offsets, j)
    {
      FrameNotLost(t, j, f);
      if Located(j, f) in located {
        var k :| 0 <= k < |located| && located[k] == Located(j, f);
        assert offsets[k] == j && out[k] == f;
      } else {
        var l :| l in located && l.offset < j < l.offset + l.frame.length;
        var k :| 0 <= k < |located| && located[k] == l;
        assert offsets[k] == l.offset && out[k] == l.frame;
      }
    }
  }

  lemma ScanEmits(t: seq<byte>)
    ensures EmittedFrom(t, StreamFrames(t), Offsets(Scan(t, 0).frames))
  {
    hide Scan, Frame.Wire, Frame.Valid;
    ScanSlices(t, 0);
    var located := Scan(t, 0).frames;
    forall k | 0 <= k < |located| ensures StandsAt(t, located[k].offset, located[k].frame) {
      assert SliceOk(t, located[k], 0, Scan(t, 0).rest);
      SliceStands(t, located[k], Scan(t, 0).rest);
    }
  }

  lemma SliceStands(t: seq<byte>, l: Located, to: nat)
    requires SliceOk(t, l, 0, to)
    ensures StandsAt(t, l.offset, l.frame)
  {
    hide Frame.Wire, Crc;
  }

  // --- Bursts from the CRC field into the ID -------------------------------------

  lemma EmptyCrcs()
    ensures Crc([0, 0, 8, 0]) == 0x89a9 && Crc([0x80, 0, 8, 0]) == 0x5491
  {
    hide N, Crc;
    Words();
    NoBytes();
    assert [] + [0] == [0] && [0] + [0] == [0, 0] && [0, 0] + [8] == [0, 0, 8] && [0, 0, 8] + [0] == [0, 0, 8, 0];
    NextByte([], 0, 0, 0, 0);
    NextByte([0], 0, 0, 0, 0);
    NextByte([0, 0], 0, 8, 0x800, 0x8108);
    NextByte([0, 0, 8], 0x8108, 0, 0, 0x89a9);
    assert [] + [0x80] == [0x80] && [0x80] + [0] == [0x80, 0] && [0x80, 0] + [8] == [0x80, 0, 8];
    assert [0x80, 0, 8] + [0] == [0x80, 0, 8, 0];
    NextByte([], 0, 0x80, 0x8000, 0x9188);
    NextByte([0x80], 0x9188, 0, 0, 0x1b98);
    NextByte([0x80, 0], 0x1b98, 8, 0x800, 0xba52);
    NextByte([0x80, 0, 8], 0xba52, 0, 0, 0x5491);
  }

  lemma Words()
    ensures N(0) == 0 && N(0x800) == 0x800 && N(0x8000) == 0x8000 && N(0x89a9) == 0x89a9 && N(0x5491) == 0x5491
  {
  }

  /** The highest of `n + 1` bits. */
  lemma {:induction false} HighBit(v: nat, n: nat)
    requires v < Pow2(n)
    ensures BitsOf(v + Pow2(n), n + 1) == [1] + BitsOf(v, n)
    ensures BitsOf(v, n + 1) == [0] + BitsOf(v, n)
  {
    if n > 0 {
      HighBit(v / 2, n - 1);
      assert (v + Pow2(n)) / 2 == v / 2 + Pow2(n - 1) && (v + Pow2(n)) % 2 == v % 2;
    }
  }

  lemma LowSeven()
    ensures BitsOf(0xa9, 8)[0] == BitsOf(0x91, 8)[0]
    ensures BitsOf(0, 8)[1..] == BitsOf(0x80, 8)[1..]
  {
    hide BitsOf;
    assert Pow2(7) == 0x80 by { Pow2Values(); assert Pow2(8) == 2 * Pow2(7); }
    HighBit(0x29, 7);
    HighBit(0x11, 7);
    HighBit(0, 7);
  }

  /**
   A burst of 16 bits from the CRC field into the ID can go unnoticed too, as it can turn one valid
   frame into another: the empty frames with the IDs 0 and 128 differ nowhere else.
   */
  lemma StraddlingBurstUndetected()
    ensures var f, g := Sealed(0, []), Sealed(0x80, []);
            && f.Valid() && g.Valid() && f != g && AgreeOutside(Bits(f.Wire()), Bits(g.Wire()), 17, 33)
  {
    hide Crc, Bits, BitsOf;
    var f, g := Sealed(0, []), Sealed(0x80, []);
    SealedValid(0, []);
    SealedValid(0x80, []);
    EmptyCrcs();
    assert Le16(0) + Le16(8) + [] == [0, 0, 8, 0] && Le16(0x80) + Le16(8) + [] == [0x80, 0, 8, 0];
    WireBits(f, 0xa9, 0x89, 0);
    WireBits(g, 0x91, 0x54, 0x80);
    LowSeven();
  }

  lemma WireBits(f: Frame, low: byte, high: byte, id: byte)
    requires f == Frame(low + 0x100 * high, id, 8, [])
    ensures Bits(f.Wire()) == Bits([DOLLAR, AT]) + BitsOf(low, 8) + BitsOf(high, 8) + BitsOf(id, 8) + Bits([0, 8, 0])
  {
    hide Bits, BitsOf;
    var a, b := [DOLLAR, AT], [0, 8, 0];
    assert f.Wire() == a + [low] + [high] + [id] + b;
    BitsPush(a, low);
    BitsPush(a + [low], high);
    BitsPush(a + [low] + [high], id);
    BitsAppend(a + [low] + [high] + [id], b);
  }

  // --- Damage to the Length ----------------------------------------------------

  /** `t` is `s` with the Length of the frame at `i` changed by the weight of bit `b`, as flipping the bit does. */
  ghost predicate LengthFlipped(s: seq<byte>, t: seq<byte>, i: nat, b: nat) {
    && b < 16 && i + 8 <= |s| && i + 8 <= |t| && t[i..i + 6] == s[i..i + 6]
    && (U16(t, i + 6) == U16(s, i + 6) + Pow2(b) || U16(t, i + 6) + Pow2(b) == U16(s, i + 6))
  }

  /**
   A flipped bit of the Length is always noticed at once if it is one of the lowest two or the highest
   three, for the Length is then no longer acceptable.
   */
  lemma OuterLengthBitRejected(s: seq<byte>, t: seq<byte>, i: nat, b: nat)
    requires i < |s| && Judge(s, i).Accept? && LengthFlipped(s, t, i, b)
    requires b < 2 || b >= 13
    ensures Judge(t, i) == BadLength
    ensures forall l :: l in Scan(t, 0).frames ==> l.offset != i
  {
    hide Crc, Scan;
    Pow2Small(b);
    assert t[i..i + 6][0] == s[i..i + 6][0] && t[i..i + 6][1] == s[i..i + 6][1];
    NeverEmitted(t, 0, i);
  }

  lemma Pow2Small(b: nat)
    requires b < 2 || 13 <= b < 16
    ensures Pow2(b) == if b == 0 then 1 else if b == 1 then 2
                       else if b == 13 then 0x2000 else if b == 14 then 0x4000 else 0x8000
  {
    Pow2Values();
    assert Pow2(1) == 2 * Pow2(0);
    assert Pow2(15) == 2 * Pow2(14) && Pow2(14) == 2 * Pow2(13);
  }

  /** A frame of 12 bytes whose first 8 would make a valid frame if its Length said so. */
  function Deceptive(): Frame {
    var c := Crc([0, 0, 12, 0]);
    Sealed(0, [c / 0x100, c % 0x100, 8, 0])
  }

  /**
   With the Length damaged the CRC promises nothing, since it is then taken over other bytes: a
   single flipped bit, which turns Length 12 into 8, can go unnoticed.
   */
  lemma LengthDamageUndetected()
    ensures var f := Deceptive();
            var s := f.Wire();
            && |s| == 12 && s[6] == 12 && StandsAt(s, 0, f)
            && Judge(s, 0) == Accept(12) && Judge(s[6 := 8], 0) == Accept(8)
  {
    hide Crc;
    var f := Deceptive();
    var s := f.Wire();
    SealedValid(0, f.body);
    WireAccepted(f, []);
    assert s + [] == s && s[0..0 + 12] == s;
    assert f.crc == Crc([0, 0, 8, 0]) by { DeceptiveCrc(); }
    hide Judge, Frame.Valid, Sealed, FrameAt;
    assert s[6 := 8][..8] == [DOLLAR, AT] + Le16(f.crc) + [0, 0, 8, 0];
    EmptyFrameAccepted(s[6 := 8], f.crc);
  }

  lemma EmptyFrameAccepted(t: seq<byte>, crc: word)
    requires |t| >= 8 && t[..8] == [DOLLAR, AT] + Le16(crc) + [0, 0, 8, 0] && crc == Crc([0, 0, 8, 0])
    ensures Judge(t, 0) == Accept(8)
  {
    hide Crc;
    var h := t[..8];
    assert t[0] == h[0] && t[1] == h[1] && t[4] == h[4] && t[5] == h[5];
    assert t[2] == h[2] && t[3] == h[3] && t[6] == h[6] && t[7] == h[7];
    assert U16(t, 2) == U16(Le16(crc), 0) && U16(t, 6) == 8;
    assert t[4..8] == [0, 0, 8, 0];
  }

  lemma DeceptiveCrc()
    ensures Deceptive().crc == Crc([0, 0, 8, 0])
  {
    hide Crc;
    var m := [0, 0, 12, 0];
    var c := Crc(m);
    CrcOfSealed(m);
    CrcRestarts(m + [c / 0x100, c % 0x100], [8, 0]);
    assert Le16(0) + Le16(12) + Deceptive().body == m + [c / 0x100, c % 0x100] + [8, 0];
    CrcOfSealed([]);
    assert Crc([]) == 0 by { EmptyCrc(); }
    assert [] + [0, 0] == [0, 0];
    CrcRestarts([0, 0], [8, 0]);
    assert [0, 0] + [8, 0] == [0, 0, 8, 0];
  }

  lemma EmptyCrc()
    ensures Crc([]) == 0
  {
  }
}
