/** CRC-16/XMODEM: the bit-serial form, the table-driven form, and that they agree. */
module Crc16 {
  import opened Bytes

  // --- Exclusive or on naturals ------------------------------------------------

  function Xor(a: nat, b: nat): nat
    decreases a + b
  {
    if a == 0 && b == 0 then 0 else 2 * Xor(a / 2, b / 2) + (a + b) % 2
  }

  function Pow2(k: nat): (p: nat)
    ensures p > 0
  {
    if k == 0 then 1 else 2 * Pow2(k - 1)
  }

  /** Exclusive or of two bits. */
  function BitXor(x: nat, y: nat): nat { if x == y then 0 else 1 }

  /** Exclusive or acts on the lowest bit and on the bits above it separately. */
  lemma XorBit(a: nat, x: nat, b: nat, y: nat)
    requires x < 2 && y < 2
    ensures Xor(2 * a + x, 2 * b + y) == 2 * Xor(a, b) + BitXor(x, y)
  {
    var u, v := 2 * a + x, 2 * b + y;
    assert u / 2 == a && u % 2 == x && v / 2 == b && v % 2 == y;
    assert (u + v) % 2 == BitXor(x, y) by { ParityOfSum(a, x, b, y); }
    if u == 0 && v == 0 {
      assert Xor(0, 0) == 0;
    } else {
      assert Xor(u, v) == 2 * Xor(u / 2, v / 2) + (u + v) % 2;
    }
  }

  lemma ParityOfSum(a: nat, x: nat, b: nat, y: nat)
    requires x < 2 && y < 2
    ensures (2 * a + x + (2 * b + y)) % 2 == BitXor(x, y)
  {
    assert 2 * a + x + (2 * b + y) == 2 * (a + b) + (x + y);
    if x == 1 && y == 1 { assert 2 * (a + b) + 2 == 2 * (a + b + 1); }
  }

  lemma {:induction false} XorComm(a: nat, b: nat)
    ensures Xor(a, b) == Xor(b, a)
    decreases a + b
  {
    if a != 0 || b != 0 { XorComm(a / 2, b / 2); }
  }

  lemma {:induction false} XorZero(a: nat)
    ensures Xor(a, 0) == a && Xor(0, a) == a && Xor(a, a) == 0
  {
    if a != 0 { XorZero(a / 2); }
  }

  lemma {:induction false} XorAssoc(a: nat, b: nat, c: nat)
    ensures Xor(Xor(a, b), c) == Xor(a, Xor(b, c))
    decreases a + b + c
  {
    hide Xor;
    if a != 0 || b != 0 || c != 0 {
      XorAssoc(a / 2, b / 2, c / 2);
      XorAssocBit(a / 2, a % 2, b / 2, b % 2, c / 2, c % 2);
    } else {
      XorZero(0);
    }
  }

  lemma XorAssocBit(a: nat, x: nat, b: nat, y: nat, c: nat, z: nat)
    requires x < 2 && y < 2 && z < 2
    requires Xor(Xor(a, b), c) == Xor(a, Xor(b, c))
    ensures Xor(Xor(2 * a + x, 2 * b + y), 2 * c + z) == Xor(2 * a + x, Xor(2 * b + y, 2 * c + z))
  {
    hide Xor;
    XorBit(a, x, b, y);
    XorBit(b, y, c, z);
    XorBit(Xor(a, b), BitXor(x, y), c, z);
    XorBit(a, x, Xor(b, c), BitXor(y, z));
  }

  /** (a + b) + (c + d) == (a + c) + (b + d), where + is exclusive or. */
  lemma XorSwap(a: nat, b: nat, c: nat, d: nat)
    ensures Xor(Xor(a, b), Xor(c, d)) == Xor(Xor(a, c), Xor(b, d))
  {
    hide Xor;
    XorAssoc(a, b, Xor(c, d));
    XorAssoc(b, c, d);
    XorComm(b, c);
    XorAssoc(c, b, d);
    XorAssoc(a, c, Xor(b, d));
  }

  lemma XorCancel(c: nat, u: nat, v: nat)
    requires Xor(c, u) == Xor(c, v)
    ensures u == v
  {
    hide Xor;
    XorAssoc(c, c, u);
    XorAssoc(c, c, v);
    XorZero(c);
    XorZero(u);
    XorZero(v);
  }

  /** High and low parts do not interact. */
  lemma {:induction false} XorSplit(k: nat, a1: nat, a0: nat, b1: nat, b0: nat)
    requires a0 < Pow2(k) && b0 < Pow2(k)
    ensures Xor(a1 * Pow2(k) + a0, b1 * Pow2(k) + b0) == Xor(a1, b1) * Pow2(k) + Xor(a0, b0)
    ensures Xor(a0, b0) < Pow2(k)
  {
    hide Xor;
    if k == 0 {
      XorZero(0);
    } else {
      var q := Pow2(k - 1);
      var c, x, d, y := a0 / 2, a0 % 2, b0 / 2, b0 % 2;
      XorSplit(k - 1, a1, c, b1, d);
      XorBit(a1 * q + c, x, b1 * q + d, y);
      XorBit(c, x, d, y);
      TwiceTimes(a1, q);
      TwiceTimes(b1, q);
      TwiceTimes(Xor(a1, b1), q);
    }
  }

  lemma TwiceTimes(a: nat, q: nat)
    ensures a * (2 * q) == 2 * (a * q) == (2 * a) * q
    ensures q > 0 ==> 2 * a <= (2 * a) * q
  {
  }

  lemma Pow2Values()
    ensures Pow2(8) == 0x100 && Pow2(15) == 0x8000 && Pow2(16) == 0x1_0000
  {
    assert Pow2(4) == 16;
    assert Pow2(12) == 0x1000;
  }

  lemma XorWord(a: word, b: word)
    ensures Xor(a, b) < 0x1_0000
  {
    Pow2Values();
    XorSplit(16, 0, a, 0, b);
  }

  function WXor(a: word, b: word): (r: word)
    ensures r == Xor(a, b)
  {
    XorWord(a, b);
    Xor(a, b)
  }

  // --- The bit-serial register -------------------------------------------------

  const POLY: word := 0x1021

  /** One shift of the 16-bit register, folding the polynomial in when a one falls off the top. */
  function Step(c: word): word {
    if c >= 0x8000 then WXor(2 * c - 0x1_0000, POLY) else 2 * c
  }

  function StepN(c: word, n: nat): word
    decreases n
  {
    if n == 0 then c else StepN(Step(c), n - 1)
  }

  /** The register after one more message byte. */
  function Update(c: word, b: byte): word {
    StepN(WXor(c, b * 0x100), 8)
  }

  /** The CRC of a message; the register starts at zero. */
  function Crc(data: seq<byte>): word {
    if data == [] then 0 else Update(Crc(data[..|data| - 1]), data[|data| - 1])
  }

  /** The bit-serial loops of the offline parser. */
  method SerialCrc(data: seq<byte>) returns (crc: word)
    ensures crc == Crc(data)
  {
    crc := 0;
    for i := 0 to |data|
      invariant crc == Crc(data[..i])
    {
      assert data[..i + 1][..i] == data[..i];
      ghost var before := crc;
      crc := WXor(crc, data[i] as int * 0x100);
      for j := 0 to 8
        invariant StepN(crc, 8 - j) == Update(before, data[i])
      {
        if crc >= 0x8000 {
          crc := WXor(2 * crc - 0x1_0000, POLY);
        } else {
          crc := 2 * crc;
        }
      }
    }
    assert data[..|data|] == data;
  }

  // --- The register is linear and loses nothing --------------------------------

  /** The reduction polynomial with its leading term: x^16 + x^12 + x^5 + 1. */
  const FULL_POLY: nat := 0x1_1021

  /** A shift adds a multiple of the full polynomial, which cancels the bit that falls off. */
  lemma StepPoly(c: word)
    ensures Step(c) == Xor(2 * c, if c >= 0x8000 then FULL_POLY else 0)
  {
    Pow2Values();
    hide Xor, Pow2;
    if c >= 0x8000 {
      XorSplit(16, 1, 2 * c - 0x1_0000, 1, POLY);
      XorZero(1);
    } else {
      XorZero(2 * c);
    }
  }

  lemma TopBit(a: word, b: word)
    ensures WXor(a, b) >= 0x8000 <==> (a >= 0x8000) != (b >= 0x8000)
  {
    Pow2Values();
    hide Xor, Pow2;
    XorSplit(15, a / 0x8000, a % 0x8000, b / 0x8000, b % 0x8000);
    XorZero(0);
    XorZero(1);
  }

  lemma StepLinear(a: word, b: word)
    ensures Step(WXor(a, b)) == WXor(Step(a), Step(b))
  {
    hide Xor, Step;
    var pa := if a >= 0x8000 then FULL_POLY else 0;
    var pb := if b >= 0x8000 then FULL_POLY else 0;
    StepPoly(a);
    StepPoly(b);
    StepPoly(WXor(a, b));
    TopBit(a, b);
    XorBit(a, 0, b, 0);
    XorZero(pa);
    XorZero(pb);
    XorSwap(2 * a, 2 * b, pa, pb);
  }

  lemma {:induction false} StepNLinear(a: word, b: word, n: nat)
    ensures StepN(WXor(a, b), n) == WXor(StepN(a, n), StepN(b, n))
    decreases n
  {
    hide Xor, Step;
    if n != 0 {
      StepLinear(a, b);
      StepNLinear(Step(a), Step(b), n - 1);
    }
  }

  lemma StepInjective(a: word, b: word)
    requires Step(a) == Step(b)
    ensures a == b
  {
    hide Xor;
    if a >= 0x8000 { XorBit(a - 0x8000, 0, POLY / 2, 1); }
    if b >= 0x8000 { XorBit(b - 0x8000, 0, POLY / 2, 1); }
    if a >= 0x8000 && b >= 0x8000 {
      XorComm(2 * a - 0x1_0000, POLY);
      XorComm(2 * b - 0x1_0000, POLY);
      XorCancel(POLY, 2 * a - 0x1_0000, 2 * b - 0x1_0000);
    }
  }

  lemma {:induction false} StepNInjective(a: word, b: word, n: nat)
    requires StepN(a, n) == StepN(b, n)
    ensures a == b
    decreases n
  {
    hide Step;
    if n != 0 {
      StepNInjective(Step(a), Step(b), n - 1);
      StepInjective(a, b);
    }
  }

  /** While no one reaches the top, shifting only multiplies. */
  lemma {:induction false} StepNShift(v: word, n: nat)
    requires v * Pow2(n) < 0x1_0000
    ensures StepN(v, n) == v * Pow2(n)
    decreases n
  {
    hide Xor;
    if n != 0 {
      TwiceTimes(v, Pow2(n - 1));
      StepNShift(2 * v, n - 1);
    }
  }

  // --- The table-driven form ---------------------------------------------------

  /** What the lookup table holds at index `i`. */
  function TableEntry(i: byte): word { StepN(i * 0x100, 8) }

  lemma ByteXor(a: byte, b: byte)
    ensures Xor(a, b) < 0x100
  {
    Pow2Values();
    XorSplit(8, 0, a, 0, b);
  }

  /** One table lookup does the work of eight shifts. */
  lemma TableStep(c: word, b: byte)
    ensures Xor(c / 0x100, b) < 0x100
    ensures Update(c, b) == WXor(c % 0x100 * 0x100, TableEntry(Xor(c / 0x100, b)))
  {
    hide Xor, StepN;
    var hi, lo := c / 0x100, c % 0x100;
    ByteXor(hi, b);
    var i := Xor(hi, b);
    assert Xor(c, b * 0x100) == Xor(lo, i * 0x100) by {
      Pow2Values();
      XorSplit(8, hi, lo, b, 0);
      XorSplit(8, 0, lo, i, 0);
      XorZero(lo);
      XorZero(i);
    }
    StepNLinear(lo, i * 0x100, 8);
    assert StepN(lo, 8) == lo * 0x100 by { Pow2Values(); StepNShift(lo, 8); }
  }

  /** Fills the 256-entry lookup table. */
  method MakeCrcTable() returns (table: array<word>)
    ensures fresh(table) && table.Length == 256
    ensures forall i :: 0 <= i < 256 ==> table[i] == TableEntry(i)
  {
    hide Xor;
    table := new word[256](_ => 0);
    for i := 0 to 256
      invariant forall k :: 0 <= k < i ==> table[k] == TableEntry(k)
    {
      var c: word := i * 0x100;
      for j := 0 to 8
        invariant StepN(c, 8 - j) == TableEntry(i)
      {
        c := if c >= 0x8000 then WXor(2 * c - 0x1_0000, POLY) else 2 * c;
      }
      table[i] := c;
    }
  }

  /** The table-driven loop of the receiver driver computes the bit-serial CRC. */
  method TableCrc(data: seq<byte>) returns (crc: word)
    ensures crc == Crc(data)
  {
    hide Xor, Update, TableEntry;
    var table := MakeCrcTable();
    crc := 0;
    for i := 0 to |data|
      invariant crc == Crc(data[..i])
      invariant table.Length == 256 && forall k :: 0 <= k < 256 ==> table[k] == TableEntry(k)
    {
      assert data[..i + 1][..i] == data[..i];
      TableStep(crc, data[i]);
      crc := WXor(crc % 0x100 * 0x100, table[Xor(crc / 0x100, data[i])]);
    }
    assert data[..|data|] == data;
  }
}
