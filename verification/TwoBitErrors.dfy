/**
 Two flipped bits: they go unnoticed exactly when their distance is a multiple of 32767, which is
 the order of x modulo the CRC polynomial.
 */
module TwoBitErrors {
  import opened Bytes
  import opened Crc16
  import opened CrcDetection
  import opened CrcOrder

  // --- Whole numbers -----------------------------------------------------------

  /** The greatest common divisor as a combination of the two. */
  lemma {:induction false} Bezout(a: nat, b: nat) returns (g: nat, x: int, y: int, p: nat, q: nat)
    requires a > 0
    ensures g > 0 && a == g * p && b == g * q && g == a * x + b * y
    decreases b
  {
    if b == 0 {
      g, x, y, p, q := a, 1, 0, 1, 0;
    } else {
      var x', y', q', r;
      g, x', y', q', r := Bezout(b, a % b);
      var n := a / b;
      x, y, p, q := y', x' - n * y', q' * n + r, q';
      Regrouped(a, b, n, g, x', y', q', r);
    }
  }

  lemma Regrouped(a: nat, b: nat, n: nat, g: nat, x: int, y: int, q: nat, r: nat)
    requires b > 0 && n == a / b && b == g * q && a % b == g * r && g == b * x + (a % b) * y
    ensures a == g * (q * n + r) && g == a * y + b * (x - n * y)
  {
    assert a == b * n + a % b;
    assert g * q * n == g * (q * n);
    assert (a % b) * y == a * y - b * n * y;
    assert b * n * y == b * (n * y);
  }

  ghost predicate Prime(p: nat) {
    p > 1 && forall a: nat, b: nat :: a * b == p ==> a == 1 || b == 1
  }

  /** A prime that divides a product divides one of the factors. */
  lemma Euclid(p: nat, m: nat, k: nat, n: nat) returns (j: nat)
    requires Prime(p) && m * k == p * n
    ensures m == p * j || k == p * j
  {
    var g, x, y, c, d := Bezout(p, k);
    if g == 1 {
      assert m == m * (p * x + k * y) == p * (m * x + n * y) by { Combined(p, m, k, n, x, y); }
      SameSign(p, m * x + n * y, m);
      j := m * x + n * y;
    } else {
      assert c == 1;
      j := d;
    }
  }

  lemma Combined(p: nat, m: nat, k: nat, n: nat, x: int, y: int)
    requires m * k == p * n && p * x + k * y == 1
    ensures m == p * (m * x + n * y)
  {
    assert m == m * (p * x + k * y);
    assert m * (p * x) == p * (m * x);
    assert m * (k * y) == (m * k) * y == (p * n) * y == p * (n * y);
    assert p * (m * x) + p * (n * y) == p * (m * x + n * y);
  }

  lemma SameSign(p: nat, j: int, m: nat)
    requires p > 0 && m == p * j
    ensures j >= 0
  {
    NegativeProduct(p, j);
  }

  lemma NegativeProduct(p: nat, j: int)
    ensures p > 0 && j < 0 ==> p * j < 0
  {
  }

  lemma Products(a: nat, b: nat)
    ensures a >= 13 && b >= 13 ==> a * b >= 169
    ensures b <= 1 ==> a * b <= a
  {
    if a >= 13 && b >= 13 { assert a * b == 13 * 13 + 13 * (b - 13) + (a - 13) * b; }
  }

  lemma SmallFactor(p: nat, a: nat, b: nat)
    requires p in {7, 31, 151} && a * b == p && 1 < a < 13
    ensures b == 1
  {
    assert (a == 2 ==> 2 * b == p) && (a == 3 ==> 3 * b == p) && (a == 4 ==> 4 * b == p) && (a == 5 ==> 5 * b == p);
    assert (a == 6 ==> 6 * b == p) && (a == 7 ==> 7 * b == p) && (a == 8 ==> 8 * b == p) && (a == 9 ==> 9 * b == p);
    assert (a == 10 ==> 10 * b == p) && (a == 11 ==> 11 * b == p) && (a == 12 ==> 12 * b == p);
  }

  lemma SomePrimes()
    ensures Prime(7) && Prime(31) && Prime(151)
  {
    forall p: nat | p in {7, 31, 151} ensures Prime(p) {
      forall a: nat, b: nat | a * b == p ensures a == 1 || b == 1 {
        Products(a, b);
        if 1 < a < 13 { SmallFactor(p, a, b); }
        if 1 < b < 13 { SmallFactor(p, b, a); }
      }
    }
  }

  /** A factor of 32767 = 7 * 31 * 151 that is less than the whole divides one of its largest parts. */
  lemma LargestParts(m: nat, k: nat) returns (part: nat, j: nat)
    requires m * k == 32767 && k > 1
    ensures part in {4681, 1057, 217} && part == m * j
  {
    SomePrimes();
    var i := Euclid(7, m, k, 4681);
    if k == 7 * i {
      part, j := 4681, i;
      Cancel(7, m, i, 4681);
      return;
    }
    Cancel(7, i, k, 4681);
    var i' := Euclid(31, i, k, 151);
    if k == 31 * i' {
      part, j := 1057, i';
      Cancel(31, m, i', 1057);
      return;
    }
    Cancel(31, i', k, 151);
    assert i' == 1;
    part, j := 217, 1;
  }

  lemma Cancel(p: nat, a: nat, b: nat, n: nat)
    requires p > 0 && (p * a * b == p * n || a * (p * b) == p * n)
    ensures a * b == n
  {
    assert p * a * b == p * (a * b) == a * (p * b);
  }

  // --- The periods of the register -----------------------------------------------

  ghost predicate Period(n: nat) { X(n) == 1 }

  lemma PeriodSub(m: nat, n: nat)
    requires Period(n)
    ensures Period(n + m) <==> Period(m)
  {
    hide StepN;
    StepNSum(1, n, m);
  }

  lemma {:induction false} PeriodTimes(n: nat, k: nat, r: nat)
    requires Period(n)
    ensures Period(n * k + r) <==> Period(r)
    decreases k
  {
    hide Period;
    if k != 0 {
      PeriodTimes(n, k - 1, r);
      PeriodSub(n * (k - 1) + r, n);
      assert n * k + r == n + (n * (k - 1) + r);
    }
  }

  /** The least positive period up to `n`. */
  lemma {:induction false} LeastPeriod(n: nat) returns (m: nat)
    requires n > 0 && Period(n)
    ensures 0 < m <= n && Period(m) && forall j :: 0 < j < m ==> !Period(j)
  {
    hide Period;
    if j: nat :| 0 < j < n && Period(j) { m := LeastPeriod(j); } else { m := n; }
  }

  lemma NoPeriod()
    ensures Period(0)
  {
    hide Step;
  }

  /** x^d is 1 exactly when 32767 divides d. */
  lemma OrderOfX(d: nat)
    ensures Period(d) <==> d % 32767 == 0
  {
    Powers();
    NoPeriod();
    assert Period(32767) && !Period(4681) && !Period(1057) && !Period(217);
    hide Period;
    assert d == 32767 * (d / 32767) + d % 32767;
    PeriodTimes(32767, d / 32767, d % 32767);
    if d % 32767 != 0 && Period(d % 32767) {
      var m := LeastPeriod(d % 32767);
      var k, r := 32767 / m, 32767 % m;
      assert 32767 == m * k + r;
      PeriodTimes(m, k, r);
      assert r == 0;
      Products(m, k);
      assert k > 1;
      var part, j := LargestParts(m, k);
      PeriodTimes(m, j, 0);
      assert false;
    }
  }

  // --- Two flipped bits ------------------------------------------------------------

  /** The bit strings differ at these two positions and nowhere else. */
  ghost predicate DifferAt(x: seq<bit>, y: seq<bit>, p: nat, q: nat) {
    && |x| == |y| && p < q < |x|
    && x[p] != y[p] && x[q] != y[q] && x[..p] == y[..p] && x[p + 1..q] == y[p + 1..q] && x[q + 1..] == y[q + 1..]
  }

  /** The registers after two bit strings, one subtracted from the other. */
  function Delta(x: seq<bit>, y: seq<bit>): word { WXor(FeedBits(0, x), FeedBits(0, y)) }

  lemma DeltaPush(x: seq<bit>, y: seq<bit>, b: bit, c: bit)
    ensures Delta(x + [b], y + [c]) == Step(WXor(Delta(x, y), BitXor(b, c) * 0x8000))
  {
    hide FeedBits, Xor, Step;
    var u, v := FeedBits(0, x), FeedBits(0, y);
    FeedPush(0, x, b);
    FeedPush(0, y, c);
    StepLinear(WXor(u, b as int * 0x8000), WXor(v, c as int * 0x8000));
    XorSwap(u, b as int * 0x8000, v, c as int * 0x8000);
    XorZero(0x8000);
    XorZero(0);
  }

  lemma {:induction false} DeltaTail(x: seq<bit>, y: seq<bit>, t: seq<bit>)
    ensures Delta(x + t, y + t) == StepN(Delta(x, y), |t|)
    decreases |t|
  {
    hide Delta, Step, StepN, Xor;
    if t == [] {
      assert x + t == x && y + t == y;
      StepNZero(Delta(x, y));
    } else {
      var init, b := t[..|t| - 1], t[|t| - 1];
      DeltaTail(x, y, init);
      assert x + t == (x + init) + [b] && y + t == (y + init) + [b];
      DeltaPush(x + init, y + init, b, b);
      XorZero(Delta(x + init, y + init));
      StepNSucc(Delta(x, y), |init|);
    }
  }

  lemma StepNothing(c: word, n: nat)
    ensures StepN(c, n) == 0 <==> c == 0
  {
    hide Step, Xor, StepN;
    assert StepN(0, n) == 0 by { StepNOfZero(n); }
    if StepN(c, n) == 0 { StepNInjective(c, 0, n); }
  }

  lemma {:induction false} StepNOfZero(n: nat)
    ensures StepN(0, n) == 0
  {
    if n != 0 { StepNOfZero(n - 1); }
  }

  lemma SameIffZero(a: word, b: word)
    ensures WXor(a, b) == 0 <==> a == b
  {
    hide Xor;
    XorZero(a);
    if WXor(a, b) == 0 { XorCancel(a, b, a); }
  }

  lemma TopPower()
    ensures X(15) == 0x8000
  {
    hide StepN;
    Pow2Values();
    StepNShift(1, 15);
  }

  /** A second flip undoes the first exactly at a multiple of the order. */
  lemma SecondFlip(d: nat)
    requires d > 0
    ensures StepN(Step(0x8000), d - 1) == 0x8000 <==> d % 32767 == 0
  {
    hide Step, StepN, Xor;
    TopPower();
    StepNSum(0x8000, 1, d - 1);
    StepNSucc(0x8000, 0);
    StepNZero(0x8000);
    StepNSum(1, 15, d);
    StepNSum(1, d, 15);
    if StepN(X(d), 15) == StepN(1, 15) { StepNInjective(X(d), 1, 15); }
    OrderOfX(d);
  }

  lemma {:induction false} DeltaSame(x: seq<bit>)
    ensures Delta(x, x) == 0
  {
    hide Xor, FeedBits;
    XorZero(FeedBits(0, x));
  }

  /** The difference of the registers behind both flips. */
  lemma DeltaOfTwo(x: seq<bit>, y: seq<bit>, p: nat, q: nat)
    requires DifferAt(x, y, p, q)
    ensures Delta(x, y) == StepN(Step(WXor(StepN(Step(0x8000), q - p - 1), 0x8000)), |x| - q - 1)
  {
    hide Delta, Step, StepN, Xor;
    var a, mid, tail := x[..p], x[p + 1..q], x[q + 1..];
    DeltaSame(a);
    DeltaPush(a, a, x[p], y[p]);
    XorZero(0x8000);
    DeltaTail(a + [x[p]], a + [y[p]], mid);
    DeltaPush(a + [x[p]] + mid, a + [y[p]] + mid, x[q], y[q]);
    DeltaTail(a + [x[p]] + mid + [x[q]], a + [y[p]] + mid + [y[q]], tail);
    assert x == a + [x[p]] + mid + [x[q]] + tail;
    assert y == a + [y[p]] + mid + [y[q]] + tail;
  }

  /** Two messages that differ in two bits share a CRC exactly when 32767 divides the distance of the bits. */
  lemma TwoBitsDetected(x: seq<byte>, y: seq<byte>, p: nat, q: nat)
    requires DifferAt(Bits(x), Bits(y), p, q)
    ensures Crc(x) == Crc(y) <==> (q - p) % 32767 == 0
  {
    hide Crc, Bits, Step, StepN, Xor, FeedBits;
    CrcIsFeedBits(x);
    CrcIsFeedBits(y);
    SameIffZero(Crc(x), Crc(y));
    DeltaOfTwo(Bits(x), Bits(y), p, q);
    var first := StepN(Step(0x8000), q - p - 1);
    StepNothing(Step(WXor(first, 0x8000)), |Bits(x)| - q - 1);
    StepZero();
    if Step(WXor(first, 0x8000)) == 0 { StepInjective(WXor(first, 0x8000), 0); }
    SameIffZero(first, 0x8000);
    SecondFlip(q - p);
  }
}
