/**
 What the CRC means and what it detects. Messages are read as bit strings, most significant bit
 first: the CRC is the remainder of a polynomial division, no burst of at most 16 bits and no
 odd number of flipped bits goes unnoticed.
 */
module CrcDetection {
  import opened Bytes
  import opened Crc16

  type bit = b: int | 0 <= b < 2

  /** The number a bit string denotes, first bit most significant. */
  function Value(bits: seq<bit>): nat {
    if bits == [] then 0 else 2 * Value(bits[..|bits| - 1]) + bits[|bits| - 1]
  }

  /** The lowest `n` bits of `v`, most significant first. */
  function BitsOf(v: nat, n: nat): (r: seq<bit>)
    ensures |r| == n
  {
    if n == 0 then [] else BitsOf(v / 2, n - 1) + [v % 2]
  }

  lemma {:induction false} ValueOfBits(v: nat, n: nat)
    requires v < Pow2(n)
    ensures Value(BitsOf(v, n)) == v
  {
    hide Value;
    if n == 0 {
      NoValue();
    } else {
      ValueOfBits(v / 2, n - 1);
      ValuePush(BitsOf(v / 2, n - 1), v % 2);
    }
  }

  lemma {:induction false} BitsOfValue(bits: seq<bit>)
    ensures Value(bits) < Pow2(|bits|)
    ensures BitsOf(Value(bits), |bits|) == bits
  {
    if bits != [] {
      BitsOfValue(bits[..|bits| - 1]);
    }
  }

  /** The message as one bit string. */
  function Bits(data: seq<byte>): (r: seq<bit>)
    ensures |r| == 8 * |data|
  {
    if data == [] then [] else Bits(data[..|data| - 1]) + BitsOf(data[|data| - 1], 8)
  }

  /** One message bit enters at the top of the register. */
  function FeedBit(c: word, b: bit): word {
    Step(WXor(c, b as int * 0x8000))
  }

  function FeedBits(c: word, bits: seq<bit>): word
    decreases |bits|
  {
    if bits == [] then c else FeedBit(FeedBits(c, bits[..|bits| - 1]), bits[|bits| - 1])
  }

  lemma {:induction false} FeedAppend(c: word, x: seq<bit>, y: seq<bit>)
    ensures FeedBits(c, x + y) == FeedBits(FeedBits(c, x), y)
    decreases |y|
  {
    hide FeedBit;
    if y == [] {
      assert x + y == x;
    } else {
      assert (x + y)[..|x + y| - 1] == x + y[..|y| - 1];
      FeedAppend(c, x, y[..|y| - 1]);
    }
  }

  lemma {:induction false} Pow2Sum(a: nat, b: nat)
    ensures Pow2(a) * Pow2(b) == Pow2(a + b)
  {
    if a != 0 {
      Pow2Sum(a - 1, b);
      DoubledProduct(Pow2(a - 1), Pow2(b), Pow2(a - 1 + b));
    }
  }

  lemma DoubledProduct(p: nat, q: nat, r: nat)
    requires p * q == r
    ensures (2 * p) * q == 2 * r
  {
  }

  /** `v` shifted left by `k` bits. */
  function Shl(v: nat, k: nat): nat { v * Pow2(k) }

  /**
   Feeding up to 16 bits one at a time is the same as adding them all, left-aligned, to the
   register and then shifting that many times.
   */
  lemma {:induction false} FeedWindow(c: word, bits: seq<bit>)
    requires |bits| <= 16
    ensures Shl(Value(bits), 16 - |bits|) < 0x1_0000
    ensures FeedBits(c, bits) == StepN(WXor(c, Shl(Value(bits), 16 - |bits|)), |bits|)
    decreases |bits|
  {
    hide Xor, StepN, Shl, Value, FeedBits;
    if bits == [] {
      EmptyWindow();
      FeedNothing(c);
      XorZero(c);
      StepNZero(c);
    } else {
      var init, b := bits[..|bits| - 1], bits[|bits| - 1];
      FeedWindow(c, init);
      WindowNext(c, init, b);
      assert init + [b] == bits;
    }
  }

  lemma WindowNext(c: word, init: seq<bit>, b: bit)
    requires |init| < 16 && Shl(Value(init), 16 - |init|) < 0x1_0000
    requires FeedBits(c, init) == StepN(WXor(c, Shl(Value(init), 16 - |init|)), |init|)
    ensures Shl(Value(init + [b]), 15 - |init|) < 0x1_0000
    ensures FeedBits(c, init + [b]) == StepN(WXor(c, Shl(Value(init + [b]), 15 - |init|)), |init| + 1)
  {
    hide Xor, StepN, Shl, Value, FeedBits, FeedBit;
    Aligned(init + [b]);
    ValuePush(init, b);
    Adjacent(Value(init), 15 - |init|, b);
    FeedPush(c, init, b);
    WindowPush(c, Shl(Value(init), 16 - |init|), |init|, b);
  }

  /** One more bit below a window of `n` bits, shifted out with them. */
  lemma WindowPush(c: word, hi: word, n: nat, b: bit)
    requires n < 16 && Shl(b, 15 - n) < 0x1_0000
    requires hi + Shl(b, 15 - n) < 0x1_0000 && Xor(hi, Shl(b, 15 - n)) == hi + Shl(b, 15 - n)
    ensures FeedBit(StepN(WXor(c, hi), n), b) == StepN(WXor(c, hi + Shl(b, 15 - n)), n + 1)
  {
    hide Xor, Step, StepN, Shl;
    var lo := Shl(b, 15 - n);
    WindowShift(n, b);
    XorAssoc(c, hi, lo);
    StepNLinear(WXor(c, hi), lo, n);
    StepNSucc(WXor(c, hi + lo), n);
  }

  lemma FeedPush(c: word, init: seq<bit>, b: bit)
    ensures FeedBits(c, init + [b]) == FeedBit(FeedBits(c, init), b)
  {
    assert (init + [b])[..|init|] == init;
  }

  lemma EmptyWindow()
    ensures Shl(Value([]), 16) == 0
  {
  }

  lemma NoValue()
    ensures Value([]) == 0
  {
  }

  lemma ValuePush(init: seq<bit>, b: bit)
    ensures Value(init + [b]) == 2 * Value(init) + b
  {
    assert (init + [b])[..|init|] == init;
  }

  lemma StepNZero(c: word)
    ensures StepN(c, 0) == c
  {
  }

  lemma {:induction false} StepNSucc(c: word, n: nat)
    ensures StepN(c, n + 1) == Step(StepN(c, n))
    decreases n
  {
    hide Step;
    if n != 0 { StepNSucc(Step(c), n - 1); }
  }

  lemma TimesLess(a: nat, b: nat, p: nat)
    requires a < b && p > 0
    ensures a * p < b * p
  {
  }

  lemma Aligned(bits: seq<bit>)
    requires |bits| <= 16
    ensures Shl(Value(bits), 16 - |bits|) < 0x1_0000
  {
    BitsOfValue(bits);
    Pow2Sum(|bits|, 16 - |bits|);
    Pow2Values();
    hide Pow2, Value;
    TimesLess(Value(bits), Pow2(|bits|), Pow2(16 - |bits|));
  }

  /** A left-aligned number and its next bit occupy different positions. */
  lemma Adjacent(v: nat, k: nat, b: bit)
    ensures Shl(2 * v + b, k) == Shl(v, k + 1) + Shl(b, k) == Xor(Shl(v, k + 1), Shl(b, k))
  {
    hide Xor;
    var p := Pow2(k);
    assert Pow2(k + 1) == 2 * p;
    hide Pow2;
    assert b * p < 2 * p by {
      if b == 1 { assert b * p == p; } else { assert b * p == 0; }
    }
    Spread(v, b, p);
    XorSplit(k + 1, v, 0, 0, b * p);
    XorZero(v);
    XorZero(b * p);
  }

  lemma Spread(v: nat, b: nat, p: nat)
    ensures (2 * v + b) * p == v * (2 * p) + b * p
  {
  }

  /** After `n` shifts a bit placed `n` positions below the top has reached the top. */
  lemma WindowShift(n: nat, b: bit)
    requires n < 16
    ensures Shl(b, 15 - n) < 0x1_0000
    ensures StepN(Shl(b, 15 - n), n) == b * 0x8000
  {
    hide StepN;
    Pow2Sum(15 - n, n);
    Pow2Values();
    assert b * Pow2(15 - n) * Pow2(n) == b * (Pow2(15 - n) * Pow2(n));
    assert b * Pow2(15 - n) * 1 <= b * Pow2(15 - n) * Pow2(n);
    StepNShift(b * Pow2(15 - n), n);
  }

  /** The CRC fed bit by bit. */
  lemma {:induction false} CrcIsFeedBits(data: seq<byte>)
    ensures Crc(data) == FeedBits(0, Bits(data))
  {
    hide FeedBits, Update, BitsOf;
    if data == [] {
      assert FeedBits(0, []) == 0 by { FeedNothing(0); }
    } else {
      var init, b := data[..|data| - 1], data[|data| - 1];
      CrcIsFeedBits(init);
      FeedAppend(0, Bits(init), BitsOf(b, 8));
      UpdateIsFeedBits(Crc(init), b);
    }
  }

  lemma FeedNothing(c: word)
    ensures FeedBits(c, []) == c
  {
  }

  lemma UpdateIsFeedBits(c: word, b: byte)
    ensures Update(c, b) == FeedBits(c, BitsOf(b, 8))
  {
    Pow2Values();
    hide Xor, StepN, FeedBits, BitsOf;
    ValueOfBits(b, 8);
    FeedWindow(c, BitsOf(b, 8));
  }

  // --- Burst errors ------------------------------------------------------------

  lemma {:induction false} FeedInjective(c: word, d: word, bits: seq<bit>)
    requires FeedBits(c, bits) == FeedBits(d, bits)
    ensures c == d
    decreases |bits|
  {
    hide Step, Xor;
    if bits != [] {
      var init, b := bits[..|bits| - 1], bits[|bits| - 1];
      var x, y := FeedBits(c, init), FeedBits(d, init);
      StepInjective(WXor(x, b as int * 0x8000), WXor(y, b as int * 0x8000));
      XorComm(x, b as int * 0x8000);
      XorComm(y, b as int * 0x8000);
      XorCancel(b as int * 0x8000, x, y);
      FeedInjective(c, d, init);
    }
  }

  /** Two windows of at most 16 bits that leave the same register are the same window. */
  lemma WindowInjective(c: word, x: seq<bit>, y: seq<bit>)
    requires |x| == |y| <= 16
    requires FeedBits(c, x) == FeedBits(c, y)
    ensures x == y
  {
    hide Xor, StepN, FeedBits;
    var n := |x|;
    FeedWindow(c, x);
    FeedWindow(c, y);
    var u, v := Shl(Value(x), 16 - n), Shl(Value(y), 16 - n);
    StepNInjective(WXor(c, u), WXor(c, v), n);
    XorCancel(c, u, v);
    EqualFactors(Value(x), Value(y), Pow2(16 - n));
    BitsOfValue(x);
    BitsOfValue(y);
  }

  lemma EqualFactors(a: nat, b: nat, p: nat)
    requires p > 0 && a * p == b * p
    ensures a == b
  {
    if a < b { TimesLess(a, b, p); }
    if b < a { TimesLess(b, a, p); }
  }

  lemma {:induction false} BitsInjective(x: seq<byte>, y: seq<byte>)
    requires Bits(x) == Bits(y)
    ensures x == y
  {
    hide Bits, BitsOf;
    assert |x| == |y|;
    if x != [] {
      var n := |x| - 1;
      assert x == x[..n] + [x[n]] && y == y[..n] + [y[n]];
      BitsPush(x[..n], x[n]);
      BitsPush(y[..n], y[n]);
      assert Bits(x[..n]) == Bits(x)[..8 * n] == Bits(y)[..8 * n] == Bits(y[..n]);
      assert BitsOf(x[n], 8) == Bits(x)[8 * n..] == Bits(y)[8 * n..] == BitsOf(y[n], 8);
      BitsInjective(x[..n], y[..n]);
      Pow2Values();
      ValueOfBits(x[n], 8);
      ValueOfBits(y[n], 8);
    }
  }

  /** The bits of `x` and `y` agree outside the positions from `lo` up to `hi`. */
  ghost predicate AgreeOutside(x: seq<bit>, y: seq<bit>, lo: nat, hi: nat) {
    |x| == |y| && lo <= hi <= |x| && x[..lo] == y[..lo] && x[hi..] == y[hi..]
  }

  /** Any damage confined to 16 consecutive bits changes the CRC. */
  lemma BurstDetected(x: seq<byte>, y: seq<byte>, lo: nat, hi: nat)
    requires |x| == |y| && x != y
    requires AgreeOutside(Bits(x), Bits(y), lo, hi) && hi - lo <= 16
    ensures Crc(x) != Crc(y)
  {
    hide Crc, FeedBits, Bits;
    if Crc(x) == Crc(y) {
      var p, q := Bits(x), Bits(y);
      CrcIsFeedBits(x);
      CrcIsFeedBits(y);
      assert p == p[..lo] + (p[lo..hi] + p[hi..]);
      assert q == q[..lo] + (q[lo..hi] + q[hi..]);
      FeedAppend(0, p[..lo], p[lo..hi] + p[hi..]);
      FeedAppend(0, q[..lo], q[lo..hi] + q[hi..]);
      var c := FeedBits(0, p[..lo]);
      FeedAppend(c, p[lo..hi], p[hi..]);
      FeedAppend(c, q[lo..hi], q[hi..]);
      FeedInjective(FeedBits(c, p[lo..hi]), FeedBits(c, q[lo..hi]), p[hi..]);
      WindowInjective(c, p[lo..hi], q[lo..hi]);
      BitsInjective(x, y);
    }
  }

  // --- Odd numbers of errors ---------------------------------------------------

  function Parity(n: nat): bit {
    if n == 0 then 0 else BitXor(n % 2, Parity(n / 2))
  }

  lemma {:induction false} ParityXor(a: nat, b: nat)
    ensures Parity(Xor(a, b)) == BitXor(Parity(a), Parity(b))
    decreases a + b
  {
    hide Xor, Parity;
    if a == 0 && b == 0 {
      XorZero(0);
      ParityZero();
    } else {
      ParityXor(a / 2, b / 2);
      XorBit(a / 2, a % 2, b / 2, b % 2);
      ParityBit(a / 2, a % 2);
      ParityBit(b / 2, b % 2);
      ParityBit(Xor(a / 2, b / 2), BitXor(a % 2, b % 2));
    }
  }

  lemma ParityBit(a: nat, x: bit)
    ensures Parity(2 * a + x) == BitXor(x, Parity(a))
  {
  }

  lemma ParityConstants()
    ensures Parity(FULL_POLY) == 0 && Parity(0x8000) == 1 && Parity(0) == 0
  {
    hide Parity;
    ParityZero();
    ParityNibble(0, 1, 0, 0, 0);
    ParityNibble(0x8, 0, 0, 0, 0);
    ParityNibble(0x80, 0, 0, 0, 0);
    ParityNibble(0x800, 0, 0, 0, 0);
    ParityNibble(0, 0, 0, 0, 1);
    ParityNibble(0x1, 0, 0, 0, 1);
    ParityNibble(0x11, 0, 0, 0, 0);
    ParityNibble(0x110, 0, 0, 1, 0);
    ParityNibble(0x1102, 0, 0, 0, 1);
  }

  lemma ParityZero()
    ensures Parity(0) == 0
  {
  }

  lemma ParityNibble(a: nat, p: bit, q: bit, r: bit, t: bit)
    ensures Parity(16 * a + 8 * p + 4 * q + 2 * r + t) == BitXor(Parity(a), BitXor(BitXor(p, q), BitXor(r, t)))
  {
    hide Parity;
    ParityBit(a, p);
    ParityBit(2 * a + p, q);
    ParityBit(4 * a + 2 * p + q, r);
    ParityBit(8 * a + 4 * p + 2 * q + r, t);
  }

  lemma FeedBitParity(c: word, b: bit)
    ensures Parity(FeedBit(c, b)) == BitXor(Parity(c), b)
  {
    hide Xor, Step, Parity;
    ParityConstants();
    var d := WXor(c, b as int * 0x8000);
    ParityXor(c, b as int * 0x8000);
    StepPoly(d);
    ParityXor(2 * d as int, if d >= 0x8000 then FULL_POLY else 0);
    ParityBit(d, 0);
  }

  /** How many positions differ. */
  function Differences(x: seq<bit>, y: seq<bit>): nat
    requires |x| == |y|
  {
    if x == [] then 0
    else Differences(x[..|x| - 1], y[..|y| - 1]) + BitXor(x[|x| - 1], y[|y| - 1])
  }

  lemma {:induction false} FeedParity(x: seq<bit>, y: seq<bit>)
    requires |x| == |y|
    ensures BitXor(Parity(FeedBits(0, x)), Parity(FeedBits(0, y))) == Differences(x, y) % 2
  {
    hide FeedBit, Parity;
    if x != [] {
      var n := |x| - 1;
      FeedParity(x[..n], y[..n]);
      FeedBitParity(FeedBits(0, x[..n]), x[n]);
      FeedBitParity(FeedBits(0, y[..n]), y[n]);
    }
  }

  /** Any odd number of flipped bits, wherever they are, changes the CRC. */
  lemma OddErrorsDetected(x: seq<byte>, y: seq<byte>)
    requires |x| == |y| && Differences(Bits(x), Bits(y)) % 2 == 1
    ensures Crc(x) != Crc(y)
  {
    CrcParity(x, y);
  }

  /** The parity of the CRC changes with every flipped bit. */
  lemma CrcParity(x: seq<byte>, y: seq<byte>)
    requires |x| == |y|
    ensures BitXor(Parity(Crc(x)), Parity(Crc(y))) == Differences(Bits(x), Bits(y)) % 2
  {
    hide Crc, Parity, Differences;
    CrcIsFeedBits(x);
    CrcIsFeedBits(y);
    FeedParity(Bits(x), Bits(y));
  }

  lemma {:induction false} DifferencesAppend(x: seq<bit>, y: seq<bit>, x': seq<bit>, y': seq<bit>)
    requires |x| == |y| && |x'| == |y'|
    ensures Differences(x + x', y + y') == Differences(x, y) + Differences(x', y')
    decreases |x'|
  {
    if x' == [] {
      assert x + x' == x && y + y' == y;
    } else {
      var n := |x'| - 1;
      DifferencesAppend(x, y, x'[..n], y'[..n]);
      assert (x + x')[..|x| + n] == x + x'[..n] && (y + y')[..|y| + n] == y + y'[..n];
    }
  }

  lemma {:induction false} BitsAppend(x: seq<byte>, y: seq<byte>)
    ensures Bits(x + y) == Bits(x) + Bits(y)
    decreases |y|
  {
    hide BitsOf, Bits;
    if y == [] {
      assert x + y == x && Bits(y) == [];
    } else {
      var init, b := y[..|y| - 1], y[|y| - 1];
      BitsAppend(x, init);
      assert init + [b] == y && x + init + [b] == x + y;
      BitsPush(init, b);
      BitsPush(x + init, b);
      assert Bits(x) + Bits(init) + BitsOf(b, 8) == Bits(x) + (Bits(init) + BitsOf(b, 8));
    }
  }

  lemma BitsPush(x: seq<byte>, b: byte)
    ensures Bits(x + [b]) == Bits(x) + BitsOf(b, 8)
  {
    hide BitsOf;
    assert (x + [b])[..|x|] == x;
  }

  lemma {:induction false} BitsParity(v: nat, w: nat, n: nat)
    requires v < Pow2(n) && w < Pow2(n)
    ensures BitXor(Parity(v), Parity(w)) == Differences(BitsOf(v, n), BitsOf(w, n)) % 2
  {
    hide Parity, Differences;
    if n == 0 {
      assert Differences([], []) == 0 by { NoDifference(); }
    } else {
      var x, y := BitsOf(v / 2, n - 1), BitsOf(w / 2, n - 1);
      assert BitsOf(v, n) == x + [v % 2] && BitsOf(w, n) == y + [w % 2];
      BitsParity(v / 2, w / 2, n - 1);
      hide BitsOf, Pow2;
      ParityBit(v / 2, v % 2);
      ParityBit(w / 2, w % 2);
      LastDifference(x, v % 2, y, w % 2);
    }
  }

  lemma NoDifference()
    ensures Differences([], []) == 0
  {
  }

  lemma LastDifference(x: seq<bit>, b: bit, y: seq<bit>, c: bit)
    requires |x| == |y|
    ensures Differences(x + [b], y + [c]) == Differences(x, y) + BitXor(b, c)
  {
    assert (x + [b])[..|x|] == x && (y + [c])[..|y|] == y;
  }

  lemma HighParity(h: byte)
    ensures Parity(0x100 * h) == Parity(h)
  {
    hide Parity;
    ParityNibble(h, 0, 0, 0, 0);
    ParityNibble(16 * h, 0, 0, 0, 0);
  }

  lemma WordParity(h: byte, l: byte)
    ensures Parity(l + 0x100 * h) == BitXor(Parity(h), Parity(l))
  {
    hide Parity, Xor;
    Pow2Values();
    XorSplit(8, h, 0, 0, l);
    XorZero(h);
    XorZero(l);
    ParityXor(0x100 * h, l);
    HighParity(h);
  }

  /** The parity of a field changes with every flipped bit of its two bytes. */
  lemma FieldParity(x: seq<byte>, y: seq<byte>)
    requires |x| == |y| == 2
    ensures BitXor(Parity(U16(x, 0)), Parity(U16(y, 0))) == Differences(Bits(x), Bits(y)) % 2
  {
    hide Parity, Differences, BitsOf;
    Pow2Values();
    WordParity(x[1], x[0]);
    WordParity(y[1], y[0]);
    BitsParity(x[0], y[0], 8);
    BitsParity(x[1], y[1], 8);
    TwoBytes(x);
    TwoBytes(y);
    DifferencesAppend(BitsOf(x[0], 8), BitsOf(y[0], 8), BitsOf(x[1], 8), BitsOf(y[1], 8));
  }

  lemma TwoBytes(x: seq<byte>)
    requires |x| == 2
    ensures Bits(x) == BitsOf(x[0], 8) + BitsOf(x[1], 8)
  {
    hide BitsOf;
    assert x[..1][..0] == [];
    assert Bits(x[..0]) == [];
    assert Bits(x[..1]) == BitsOf(x[0], 8);
  }

  // --- Appending the CRC -------------------------------------------------------

  /** Behind a message followed by its own CRC, high byte first, the register is back at zero. */
  lemma CrcOfSealed(m: seq<byte>)
    ensures Crc(m + [Crc(m) / 0x100, Crc(m) % 0x100]) == 0
  {
    hide Update, Crc;
    var c := Crc(m);
    BothShiftedOut(c);
    CrcPush(m, c / 0x100);
    CrcPush(m + [c / 0x100], c % 0x100);
    assert m + [c / 0x100] + [c % 0x100] == m + [c / 0x100, c % 0x100];
  }

  lemma CrcPush(m: seq<byte>, b: byte)
    ensures Crc(m + [b]) == Update(Crc(m), b)
  {
    hide Update;
    assert (m + [b])[..|m|] == m;
  }

  /** A byte equal to the top of the register cancels it. */
  lemma ShiftedOut(c: word)
    ensures Update(c, c / 0x100) == c % 0x100 * 0x100
  {
    hide Update, Xor, TableEntry;
    TableStep(c, c / 0x100);
    XorZero(c / 0x100);
    assert TableEntry(0) == 0 by { EmptyEntry(); }
    XorZero(c % 0x100 * 0x100);
  }

  lemma BothShiftedOut(c: word)
    ensures Update(Update(c, c / 0x100), c % 0x100) == 0
  {
    hide Update;
    ShiftedOut(c);
    var d := c % 0x100 * 0x100;
    assert d / 0x100 == c % 0x100 && d % 0x100 == 0;
    ShiftedOut(d);
  }

  lemma EmptyEntry()
    ensures TableEntry(0) == 0
  {
    hide Xor;
    Pow2Values();
    StepNShift(0, 8);
  }

  /** From a register at zero the CRC starts afresh. */
  lemma {:induction false} CrcRestarts(m: seq<byte>, more: seq<byte>)
    requires Crc(m) == 0
    ensures Crc(m + more) == Crc(more)
    decreases |more|
  {
    hide Update;
    if more == [] {
      assert m + more == m;
    } else {
      var n := |more| - 1;
      CrcRestarts(m, more[..n]);
      assert (m + more)[..|m| + n] == m + more[..n];
    }
  }

  // --- The CRC as a polynomial remainder ---------------------------------------

  /** The product of `q` and the full polynomial, both read as polynomials over GF(2). */
  function PolyTimes(q: nat): nat {
    if q == 0 then 0 else Xor(2 * PolyTimes(q / 2), if q % 2 == 1 then FULL_POLY else 0)
  }

  /** The message read as one polynomial, first bit of the first byte leading. */
  function MessageValue(data: seq<byte>): nat { Value(Bits(data)) }

  /** `r` is a remainder of the message times x^16 divided by the full polynomial. */
  ghost predicate IsRemainder(message: nat, r: word) {
    exists q: nat :: PolyTimes(q) == Xor(message * 0x1_0000, r)
  }

  lemma FeedBitRemainder(m: nat, c: word, b: bit)
    requires IsRemainder(m, c)
    ensures IsRemainder(2 * m + b, FeedBit(c, b))
  {
    hide Xor, Step, PolyTimes;
    var q: nat :| PolyTimes(q) == Xor(m * 0x1_0000, c);
    var d := WXor(c, b as int * 0x8000);
    var t: nat := if d >= 0x8000 then 1 else 0;
    var p: nat := if t == 1 then FULL_POLY else 0;
    PolyTimesBit(q, t);
    StepPoly(d);
    XorBit(m * 0x1_0000, 0, c, 0);
    XorBit(c, 0, b as int * 0x8000, 0);
    var m2, c2, b2: nat := 2 * m * 0x1_0000, 2 * c, b * 0x1_0000;
    assert (2 * m + b) * 0x1_0000 == Xor(m2, b2) by { MessageShift(m, b); }
    calc {
      Xor(Xor(m2, b2), Xor(Xor(c2, b2), p));
      { XorComm(c2, b2); XorAssoc(b2, c2, p); }
      Xor(Xor(m2, b2), Xor(b2, Xor(c2, p)));
      { XorAssoc(Xor(m2, b2), b2, Xor(c2, p)); XorAssoc(m2, b2, b2); XorZero(b2); XorZero(m2); }
      Xor(m2, Xor(c2, p));
      { XorAssoc(m2, c2, p); }
      Xor(Xor(m2, c2), p);
    }
    assert PolyTimes(2 * q + t) == Xor((2 * m + b) * 0x1_0000, FeedBit(c, b));
  }

  lemma PolyTimesBit(q: nat, t: nat)
    requires t < 2
    ensures PolyTimes(2 * q + t) == Xor(2 * PolyTimes(q), if t == 1 then FULL_POLY else 0)
  {
    if q == 0 && t == 0 { XorZero(0); }
  }

  lemma MessageShift(m: nat, b: bit)
    ensures (2 * m + b) * 0x1_0000 == Xor(2 * m * 0x1_0000, b * 0x1_0000)
  {
    Pow2Values();
    hide Xor, Pow2;
    XorSplit(16, 2 * m, 0, b, 0);
    XorBit(m, 0, 0, b);
    XorZero(m);
    XorZero(0);
  }

  lemma {:induction false} FeedRemainder(bits: seq<bit>)
    ensures IsRemainder(Value(bits), FeedBits(0, bits))
  {
    hide Xor, FeedBit;
    if bits == [] {
      XorZero(0);
      assert PolyTimes(0) == Xor(0 * 0x1_0000, 0);
    } else {
      FeedRemainder(bits[..|bits| - 1]);
      FeedBitRemainder(Value(bits[..|bits| - 1]), FeedBits(0, bits[..|bits| - 1]), bits[|bits| - 1]);
    }
  }

  lemma {:induction false} PolyTimesLinear(a: nat, b: nat)
    ensures PolyTimes(Xor(a, b)) == Xor(PolyTimes(a), PolyTimes(b))
    decreases a + b
  {
    hide Xor, PolyTimes;
    if a == 0 && b == 0 {
      XorZero(0);
      PolyTimesZero();
    } else {
      PolyTimesLinear(a / 2, b / 2);
      PolyTimesLinearBit(a / 2, a % 2, b / 2, b % 2);
    }
  }

  lemma PolyTimesLinearBit(a: nat, x: bit, b: nat, y: bit)
    requires PolyTimes(Xor(a, b)) == Xor(PolyTimes(a), PolyTimes(b))
    ensures PolyTimes(Xor(2 * a + x, 2 * b + y)) == Xor(PolyTimes(2 * a + x), PolyTimes(2 * b + y))
  {
    hide Xor, PolyTimes;
    XorBit(a, x, b, y);
    PolyTimesBit(Xor(a, b), BitXor(x, y));
    PolyTimesBit(a, x);
    PolyTimesBit(b, y);
    var px: nat := if x == 1 then FULL_POLY else 0;
    var py: nat := if y == 1 then FULL_POLY else 0;
    XorBit(PolyTimes(a), 0, PolyTimes(b), 0);
    XorZero(px);
    XorZero(py);
    XorSwap(2 * PolyTimes(a), 2 * PolyTimes(b), px, py);
  }

  /** No multiple of the polynomial but zero has degree below 16. */
  lemma {:induction false} PolyTimesLarge(q: nat)
    requires q != 0
    ensures PolyTimes(q) >= 0x1_0000
  {
    hide Xor;
    var h := PolyTimes(q / 2);
    Pow2Values();
    if q == 1 {
      XorZero(FULL_POLY);
    } else if q % 2 == 0 {
      PolyTimesLarge(q / 2);
      XorZero(2 * h);
    } else {
      PolyTimesLarge(q / 2);
      XorSplit(16, 2 * h / 0x1_0000, 2 * h % 0x1_0000, 1, POLY);
      XorBit(2 * h / 0x1_0000 / 2, 2 * h / 0x1_0000 % 2, 0, 1);
      XorZero(2 * h / 0x1_0000 / 2);
    }
  }

  /** The CRC is the one and only remainder: this is the definition of CRC-16/XMODEM. */
  lemma CrcIsRemainder(data: seq<byte>, r: word)
    ensures Crc(data) == r <==> IsRemainder(MessageValue(data), r)
  {
    hide Xor, PolyTimes, Crc, FeedBits;
    CrcIsFeedBits(data);
    FeedRemainder(Bits(data));
    var m := MessageValue(data) * 0x1_0000;
    var c := Crc(data);
    if IsRemainder(MessageValue(data), r) {
      var q: nat :| PolyTimes(q) == Xor(m, r);
      var k: nat :| PolyTimes(k) == Xor(m, c);
      PolyTimesLinear(q, k);
      XorSwap(m, r, m, c);
      XorZero(m);
      XorZero(Xor(r, c));
      XorWord(r, c);
      if Xor(q, k) != 0 { PolyTimesLarge(Xor(q, k)); }
      assert PolyTimes(0) == 0 by { PolyTimesZero(); }
      XorZero(c);
      XorComm(r, c);
      XorCancel(c, r, c);
    }
  }

  lemma PolyTimesZero()
    ensures PolyTimes(0) == 0
  {
  }
}
