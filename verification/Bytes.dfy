/** Bytes, little-endian words and the concatenation of byte strings. */
module Bytes {

  type byte = b: int | 0 <= b < 0x100
  type word = w: int | 0 <= w < 0x1_0000
  type dword = d: int | 0 <= d < 0x1_0000_0000

  /** The unsigned 16-bit little-endian field at offset `i`. */
  function U16(s: seq<byte>, i: nat): word
    requires i + 2 <= |s|
  {
    s[i] as int + 0x100 * s[i + 1] as int
  }

  /** The two bytes of a word, low byte first. */
  function Le16(w: word): (r: seq<byte>)
    ensures |r| == 2 && U16(r, 0) == w
  {
    [w % 0x100, w / 0x100]
  }

  /** The unsigned 32-bit little-endian field at offset `i`. */
  function U32(s: seq<byte>, i: nat): dword
    requires i + 4 <= |s|
  {
    U16(s, i) as int + 0x1_0000 * U16(s, i + 2) as int
  }

  function Le32(n: dword): (r: seq<byte>)
    ensures |r| == 4 && U32(r, 0) == n
  {
    Le16(n % 0x1_0000) + Le16(n / 0x1_0000)
  }

  /** The signed number with this two's complement representation; `half` is the sign bit. */
  function Signed(v: nat, half: nat): int
    requires v < 2 * half
  {
    if v >= half then v - 2 * half else v
  }

  function Unsigned(v: int, half: nat): (r: nat)
    requires -(half as int) <= v < half
    ensures r < 2 * half && Signed(r, half) == v
  {
    if v < 0 then v + 2 * half else v
  }

  datatype Option<+T> = None | Some(value: T)

  /** All the parts one after the other. */
  function Concat(parts: seq<seq<byte>>): seq<byte> {
    if parts == [] then [] else Concat(parts[..|parts| - 1]) + parts[|parts| - 1]
  }

  lemma {:induction false} ConcatAppend(a: seq<seq<byte>>, b: seq<seq<byte>>)
    ensures Concat(a + b) == Concat(a) + Concat(b)
  {
    if b == [] {
      assert a + b == a;
    } else {
      var b' := b[..|b| - 1];
      assert (a + b)[..|a + b| - 1] == a + b';
      ConcatAppend(a, b');
    }
  }

  lemma ConcatPush(parts: seq<seq<byte>>, p: seq<byte>)
    ensures Concat(parts + [p]) == Concat(parts) + p
  {
    assert (parts + [p])[..|parts|] == parts;
  }
}
