/**
 The CRC register as the polynomials modulo the CRC polynomial: powers of x, computed with 16-bit
 words, and the check value.
 */
module CrcOrder {
  import opened Bytes
  import opened Crc16
  import opened CrcDetection

  // --- Powers of x ---------------------------------------------------------------

  /** x^n modulo the polynomial. */
  function X(n: nat): word { StepN(1, n) }

  /** The product of two register values, as polynomials modulo the CRC polynomial. */
  function Mul(a: nat, b: word): word {
    if a == 0 then 0 else WXor(Step(Mul(a / 2, b)), if a % 2 == 1 then b else 0)
  }

  lemma StepZero()
    ensures Step(0) == 0
  {
  }

  lemma {:induction false} MulStep(a: nat, b: word)
    ensures Step(Mul(a, b)) == Mul(a, Step(b))
  {
    hide Xor, Step;
    StepZero();
    if a != 0 {
      MulStep(a / 2, b);
      StepLinear(Step(Mul(a / 2, b)), if a % 2 == 1 then b else 0);
    }
  }

  lemma {:induction false} MulOne(a: word)
    ensures Mul(a, 1) == a
  {
    hide Xor;
    if a != 0 {
      MulOne(a / 2);
      XorBit(a / 2, 0, 0, a % 2);
      XorZero(a / 2);
    }
  }

  /** Shifting `n` times multiplies by x^n. */
  lemma {:induction false} StepNMul(a: word, n: nat)
    ensures StepN(a, n) == Mul(a, X(n))
  {
    hide Xor, Step, Mul;
    if n == 0 {
      StepNZero(a);
      StepNZero(1);
      MulOne(a);
    } else {
      StepNMul(a, n - 1);
      StepNSucc(a, n - 1);
      StepNSucc(1, n - 1);
      MulStep(a, X(n - 1));
    }
  }

  lemma {:induction false} StepNSum(a: word, m: nat, n: nat)
    ensures StepN(a, m + n) == StepN(StepN(a, m), n)
    decreases m
  {
    hide Step;
    if m != 0 { StepNSum(Step(a), m - 1, n); }
  }

  lemma XSum(m: nat, n: nat)
    ensures X(m + n) == Mul(X(m), X(n))
  {
    hide StepN, Mul;
    StepNSum(1, m, n);
    StepNMul(X(m), n);
  }

  // --- Computing with 16-bit words -------------------------------------------------

  function StepBv(c: bv16): bv16 { if c >= 0x8000 then (c << 1) ^ 0x1021 else c << 1 }

  function TurnBv(r: bv16, on: bool, b: bv16): bv16 { if on then StepBv(r) ^ b else StepBv(r) }

  function NibbleBv(r: bv16, a: bv16, b: bv16): bv16 {
    TurnBv(TurnBv(TurnBv(TurnBv(r, a & 8 != 0, b), a & 4 != 0, b), a & 2 != 0, b), a & 1 != 0, b)
  }

  /** The product of two register values, four bits of the first at a time. */
  function MulBv(a: bv16, b: bv16): bv16 {
    NibbleBv(NibbleBv(NibbleBv(NibbleBv(0, a >> 12, b), a >> 8, b), a >> 4, b), a, b)
  }

  /** The register value that the word stands for. */
  function N(a: bv16): word { a as int }

  lemma Doubled(a: bv16)
    requires a < 0x8000
    ensures N(a << 1) == 2 * N(a)
  {
  }

  lemma DoubledPlusOne(a: bv16)
    requires a < 0x8000
    ensures N((a << 1) | 1) == 2 * N(a) + 1
  {
  }

  lemma TopLost(c: bv16)
    requires c >= 0x8000
    ensures N(c << 1) == 2 * N(c) - 0x1_0000
  {
  }

  lemma HighWord(c: bv16)
    requires c >= 0x8000
    ensures N(c) >= 0x8000
  {
  }

  lemma LowWord(c: bv16)
    requires c < 0x8000
    ensures N(c) < 0x8000
  {
    hide N;
    Doubled(c);
  }

  lemma NoBits(a: bv16)
    requires N(a) == 0
    ensures a == 0
  {
  }

  lemma Zero()
    ensures N(0) == 0
  {
  }

  lemma Halves(a: bv16)
    ensures a == if a & 1 != 0 then ((a >> 1) << 1) | 1 else (a >> 1) << 1
    ensures (a >> 1) < 0x8000
  {
  }

  /** The lowest bit of a word and the bits above it. */
  lemma LowBit(a: bv16)
    ensures N(a) == 2 * N(a >> 1) + if a & 1 != 0 then 1 else 0
  {
    hide N;
    Halves(a);
    if a & 1 != 0 { DoubledPlusOne(a >> 1); } else { Doubled(a >> 1); }
  }

  lemma XorHalves(a: bv16, b: bv16)
    ensures (a ^ b) >> 1 == (a >> 1) ^ (b >> 1)
    ensures (a ^ b) & 1 != 0 <==> (a & 1 != 0) != (b & 1 != 0)
  {
  }

  lemma XorNothing()
    ensures (0 as bv16) ^ (0 as bv16) == 0
  {
  }

  lemma {:induction false} XorIsBv(a: bv16, b: bv16)
    ensures Xor(N(a), N(b)) == N(a ^ b)
    decreases N(a) + N(b)
  {
    hide Xor, N;
    if N(a) == 0 && N(b) == 0 {
      NoBits(a);
      NoBits(b);
      XorNothing();
      XorZero(0);
    } else {
      LowBit(a);
      LowBit(b);
      LowBit(a ^ b);
      XorHalves(a, b);
      XorIsBv(a >> 1, b >> 1);
      XorBit(N(a >> 1), if a & 1 != 0 then 1 else 0, N(b >> 1), if b & 1 != 0 then 1 else 0);
    }
  }

  lemma StepIsBv(c: bv16)
    ensures Step(N(c)) == N(StepBv(c))
  {
    hide Xor, N;
    if c >= 0x8000 {
      HighWord(c);
      TopLost(c);
      XorIsBv(c << 1, 0x1021);
      Polynomial();
    } else {
      LowWord(c);
      Doubled(c);
    }
  }

  lemma Polynomial()
    ensures N(0x1021) == POLY
  {
  }

  lemma TurnIsBv(r: bv16, a: bv16, h: bv16, on: bool, b: bv16)
    requires N(a) == 2 * N(h) + if on then 1 else 0
    requires N(r) == Mul(N(h), N(b))
    ensures N(TurnBv(r, on, b)) == Mul(N(a), N(b))
  {
    hide Xor, Step, StepBv, N;
    StepIsBv(r);
    XorIsBv(StepBv(r), b);
    XorZero(N(StepBv(r)));
    if N(a) == 0 { StepZero(); }
  }

  lemma LowBitOf(a: bv16, h: bv16, on: bool)
    requires h == a >> 1 && on == (a & 1 != 0)
    ensures N(a) == 2 * N(h) + if on then 1 else 0
  {
    hide N;
    LowBit(a);
  }

  lemma Bit3(a: bv16)
    ensures N(a >> 3) == 2 * N(a >> 4) + if a & 8 != 0 then 1 else 0
  {
    hide N;
    LowBitOf(a >> 3, a >> 4, a & 8 != 0);
  }

  lemma Bit2(a: bv16)
    ensures N(a >> 2) == 2 * N(a >> 3) + if a & 4 != 0 then 1 else 0
  {
    hide N;
    LowBitOf(a >> 2, a >> 3, a & 4 != 0);
  }

  lemma Bit1(a: bv16)
    ensures N(a >> 1) == 2 * N(a >> 2) + if a & 2 != 0 then 1 else 0
  {
    hide N;
    LowBitOf(a >> 1, a >> 2, a & 2 != 0);
  }

  lemma NibbleBits(a: bv16)
    ensures N(a >> 3) == 2 * N(a >> 4) + if a & 8 != 0 then 1 else 0
    ensures N(a >> 2) == 2 * N(a >> 3) + if a & 4 != 0 then 1 else 0
    ensures N(a >> 1) == 2 * N(a >> 2) + if a & 2 != 0 then 1 else 0
    ensures N(a) == 2 * N(a >> 1) + if a & 1 != 0 then 1 else 0
  {
    hide N;
    Bit3(a);
    Bit2(a);
    Bit1(a);
    LowBit(a);
  }

  lemma NibbleIsBv(r: bv16, a: bv16, b: bv16)
    requires N(r) == Mul(N(a >> 4), N(b))
    ensures N(NibbleBv(r, a, b)) == Mul(N(a), N(b))
  {
    hide Mul, TurnBv, N;
    NibbleBits(a);
    FourTurns(r, a >> 4, a >> 3, a >> 2, a >> 1, a, a & 8 != 0, a & 4 != 0, a & 2 != 0, a & 1 != 0, b);
  }

  lemma FourTurns(r: bv16, a4: bv16, a3: bv16, a2: bv16, a1: bv16, a0: bv16,
                  on3: bool, on2: bool, on1: bool, on0: bool, b: bv16)
    requires N(r) == Mul(N(a4), N(b))
    requires N(a3) == 2 * N(a4) + if on3 then 1 else 0
    requires N(a2) == 2 * N(a3) + if on2 then 1 else 0
    requires N(a1) == 2 * N(a2) + if on1 then 1 else 0
    requires N(a0) == 2 * N(a1) + if on0 then 1 else 0
    ensures N(TurnBv(TurnBv(TurnBv(TurnBv(r, on3, b), on2, b), on1, b), on0, b)) == Mul(N(a0), N(b))
  {
    hide Mul, TurnBv, N;
    TurnIsBv(r, a3, a4, on3, b);
    TurnIsBv(TurnBv(r, on3, b), a2, a3, on2, b);
    TurnIsBv(TurnBv(TurnBv(r, on3, b), on2, b), a1, a2, on1, b);
    TurnIsBv(TurnBv(TurnBv(TurnBv(r, on3, b), on2, b), on1, b), a0, a1, on0, b);
  }

  lemma Quarters(a: bv16)
    ensures (a >> 12) >> 4 == 0 && (a >> 8) >> 4 == a >> 12 && (a >> 4) >> 4 == a >> 8
  {
  }

  lemma MulIsBv(a: bv16, b: bv16)
    ensures Mul(N(a), N(b)) == N(MulBv(a, b))
  {
    Quarters(a);
    Zero();
    assert Mul(0, N(b)) == 0;
    hide Mul, NibbleBv, N;
    var r3 := NibbleBv(0, a >> 12, b);
    var r2 := NibbleBv(r3, a >> 8, b);
    NibbleIsBv(0, a >> 12, b);
    NibbleIsBv(r3, a >> 8, b);
    NibbleIsBv(r2, a >> 4, b);
    NibbleIsBv(NibbleBv(r2, a >> 4, b), a, b);
  }

  // --- The order of x --------------------------------------------------------------

  /** x^n is the polynomial `v`. */
  ghost predicate IsX(n: nat, v: bv16) { X(n) == N(v) }

  lemma IsXSum(m: nat, u: bv16, n: nat, v: bv16)
    requires IsX(m, u) && IsX(n, v)
    ensures IsX(m + n, MulBv(u, v))
  {
    hide X, Mul, MulBv, N;
    XSum(m, n);
    MulIsBv(u, v);
  }

  lemma FirstValues()
    ensures N(0x2) == 2 && N(0x200) == 0x200 && N(0x1021) == 0x1021
  {
  }

  lemma FirstPowers()
    ensures IsX(1, 0x2) && IsX(9, 0x200) && IsX(16, 0x1021)
  {
    hide StepN, N;
    FirstValues();
    Pow2Values();
    assert Pow2(9) == 2 * Pow2(8);
    StepNShift(1, 1);
    StepNShift(1, 9);
    StepNShift(1, 15);
    StepNSucc(1, 15);
    XorZero(0x1021);
  }

  lemma IsXProduct(m: nat, u: bv16, n: nat, v: bv16, w: bv16)
    requires IsX(m, u) && IsX(n, v) && MulBv(u, v) == w
    ensures IsX(m + n, w)
  {
    hide IsX, MulBv;
    IsXSum(m, u, n, v);
  }

  /** The powers of x whose exponent is a power of two. */
  lemma Squares()
    ensures IsX(32, 0x3730) && IsX(64, 0xb861) && IsX(128, 0xaefc) && IsX(512, 0x13fc) && IsX(1024, 0x36c4)
    ensures IsX(4096, 0xaa9e) && IsX(32768, 0x2)
  {
    FirstPowers();
    hide IsX;
    IsXProduct(16, 0x1021, 16, 0x1021, 0x3730);
    IsXProduct(32, 0x3730, 32, 0x3730, 0xb861);
    IsXProduct(64, 0xb861, 64, 0xb861, 0xaefc);
    IsXProduct(128, 0xaefc, 128, 0xaefc, 0x8e29);
    IsXProduct(256, 0x8e29, 256, 0x8e29, 0x13fc);
    IsXProduct(512, 0x13fc, 512, 0x13fc, 0x36c4);
    IsXProduct(1024, 0x36c4, 1024, 0x36c4, 0xfd50);
    IsXProduct(2048, 0xfd50, 2048, 0xfd50, 0xaa9e);
    IsXProduct(4096, 0xaa9e, 4096, 0xaa9e, 0x881c);
    IsXProduct(8192, 0x881c, 8192, 0x881c, 0x4458);
    IsXProduct(16384, 0x4458, 16384, 0x4458, 0x2);
  }

  /** The powers of x at the 7th, the 31st and the 151st part of 32767. */
  lemma Cofactors()
    ensures IsX(4681, 0x2c42) && IsX(1057, 0xf2af) && IsX(217, 0x48e3)
  {
    FirstPowers();
    Squares();
    hide IsX;
    IsXProduct(128, 0xaefc, 64, 0xb861, 0x650b);
    IsXProduct(192, 0x650b, 16, 0x1021, 0x45b4);
    IsXProduct(208, 0x45b4, 9, 0x200, 0x48e3);
    IsXProduct(1024, 0x36c4, 32, 0x3730, 0xf147);
    IsXProduct(1056, 0xf147, 1, 0x2, 0xf2af);
    IsXProduct(4096, 0xaa9e, 512, 0x13fc, 0x54a0);
    IsXProduct(4608, 0x54a0, 64, 0xb861, 0x106);
    IsXProduct(4672, 0x106, 9, 0x200, 0x2c42);
  }

  /** x^32767 is 1, and x^4681, x^1057 and x^217 are not. */
  lemma Powers()
    ensures X(32767) == 1 && X(4681) != 1 && X(1057) != 1 && X(217) != 1
  {
    hide StepN;
    Squares();
    Cofactors();
    FirstPowers();
    SomeValues();
    StepNSucc(1, 32767);
    assert X(32768) == Step(X(32767)) && X(32768) == 2;
    assert Step(1) == 2;
    StepInjective(X(32767), 1);
  }

  lemma SomeValues()
    ensures N(0x2) == 2 && N(0x2c42) != 1 && N(0xf2af) != 1 && N(0x48e3) != 1
  {
  }

  // --- Check values ----------------------------------------------------------------

  function UpdateBv(c: bv16, b: bv16): bv16 {
    var r := c ^ b;
    StepBv(StepBv(StepBv(StepBv(StepBv(StepBv(StepBv(StepBv(r))))))))
  }

  lemma UpdateIsBv(c: bv16, b: bv16, m: byte)
    requires N(b) == m as int * 0x100
    ensures Update(N(c), m) == N(UpdateBv(c, b))
  {
    hide Xor, Step, StepBv, StepN, N;
    XorIsBv(c, b);
    var r0 := c ^ b;
    var r1, r2 := StepBv(r0), StepBv(StepBv(r0));
    var r3, r4 := StepBv(r2), StepBv(StepBv(r2));
    var r5, r6 := StepBv(r4), StepBv(StepBv(r4));
    StepIsBv(r0);
    StepIsBv(r1);
    StepIsBv(r2);
    StepIsBv(r3);
    StepIsBv(r4);
    StepIsBv(r5);
    StepIsBv(r6);
    StepIsBv(StepBv(r6));
    EightSteps(N(r0));
  }

  lemma EightSteps(c: word)
    ensures StepN(c, 8) == Step(Step(Step(Step(Step(Step(Step(Step(c))))))))
  {
    hide Step;
    assert StepN(c, 8) == StepN(Step(Step(Step(Step(c)))), 4);
  }

  /** The CRC of the message is `v`. */
  ghost predicate HasCrc(m: seq<byte>, v: bv16) { Crc(m) == N(v) }

  lemma NextByte(m: seq<byte>, v: bv16, b: byte, w: bv16, v': bv16)
    requires HasCrc(m, v) && N(w) == b as int * 0x100 && UpdateBv(v, w) == v'
    ensures HasCrc(m + [b], v')
  {
    hide N, UpdateBv, Update, Crc;
    CrcPush(m, b);
    UpdateIsBv(v, w, b);
  }

  lemma NoBytes()
    ensures HasCrc([], 0)
  {
  }

  lemma Digits()
    ensures N(0x3100) == 0x3100 && N(0x3200) == 0x3200 && N(0x3300) == 0x3300 && N(0x3400) == 0x3400
    ensures N(0x3500) == 0x3500 && N(0x3600) == 0x3600 && N(0x3700) == 0x3700 && N(0x3800) == 0x3800
    ensures N(0x3900) == 0x3900 && N(0x31c3) == 0x31c3
  {
  }

  /** The nine digits "123456789". */
  const DIGITS: seq<byte> := [0x31, 0x32, 0x33, 0x34, 0x35, 0x36, 0x37, 0x38, 0x39]

  lemma Grown(k: nat)
    requires k < 9
    ensures DIGITS[..k] + [DIGITS[k]] == DIGITS[..k + 1]
  {
  }

  lemma FirstDigits()
    ensures HasCrc(DIGITS[..5], 0x546c)
  {
    hide N, HasCrc;
    Digits();
    NoBytes();
    Grown(0);
    Grown(1);
    Grown(2);
    Grown(3);
    Grown(4);
    assert DIGITS[..0] == [];
    NextByte(DIGITS[..0], 0, 0x31, 0x3100, 0x2672);
    NextByte(DIGITS[..1], 0x2672, 0x32, 0x3200, 0x20b5);
    NextByte(DIGITS[..2], 0x20b5, 0x33, 0x3300, 0x9752);
    NextByte(DIGITS[..3], 0x9752, 0x34, 0x3400, 0xd789);
    NextByte(DIGITS[..4], 0xd789, 0x35, 0x3500, 0x546c);
  }

  /** The check value of CRC-16/XMODEM. */
  lemma CheckValue()
    ensures Crc(DIGITS) == 0x31c3
  {
    hide N, Crc;
    Digits();
    FirstDigits();
    Grown(5);
    Grown(6);
    Grown(7);
    Grown(8);
    NextByte(DIGITS[..5], 0x546c, 0x36, 0x3600, 0x20e4);
    NextByte(DIGITS[..6], 0x20e4, 0x37, 0x3700, 0x86d6);
    NextByte(DIGITS[..7], 0x86d6, 0x38, 0x3800, 0x9015);
    NextByte(DIGITS[..8], 0x9015, 0x39, 0x3900, 0x31c3);
    assert DIGITS[..9] == DIGITS;
  }
}
