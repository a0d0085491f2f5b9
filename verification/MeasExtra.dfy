/** MeasExtra bodies: recovering the sub-blocks and keeping those of one antenna. */
module MeasExtra {
  import opened Bytes
  import opened OfflineScanner

  // --- How many sub-blocks -----------------------------------------------------

  /** The number of sub-blocks of `len` bytes, of which the body gives only the low eight bits. */
  function SubBlockCount(payload: nat, len: nat, nMod: byte): nat
    requires len > 0
  {
    var q := payload / len;
    var k := (q - nMod) / 256 * 256 + nMod;
    if k <= 0 || k * len > payload then q else k
  }

  lemma Fits(payload: nat, len: nat, k: nat)
    requires len > 0
    ensures k <= payload / len <==> k * len <= payload
  {
    var q, r := payload / len, payload % len;
    assert payload == q * len + r && 0 <= r < len;
    if k <= q {
      assert k * len <= q * len;
    } else {
      assert k * len >= (q + 1) * len;
    }
  }

  /** A positive count that fits into the payload and has the given low bits. */
  ghost predicate Admissible(k: nat, payload: nat, len: nat, nMod: byte) {
    0 < k && k * len <= payload && k % 256 == nMod
  }

  /**
   The count is the largest admissible one; when there is none, it is the number of whole
   sub-blocks that fit. It never overruns the payload.
   */
  lemma CountRecovered(payload: nat, len: nat, nMod: byte)
    requires len > 0
    ensures var n := SubBlockCount(payload, len, nMod);
            && n * len <= payload
            && (forall k: nat :: Admissible(k, payload, len, nMod) ==> Admissible(n, payload, len, nMod) && k <= n)
            && ((forall k: nat :: !Admissible(k, payload, len, nMod)) ==> n == payload / len)
  {
    var q := payload / len;
    var c := (q - nMod) / 256 * 256 + nMod;
    Congruent(q, nMod);
    Fits(payload, len, q);
    if c > 0 {
      Fits(payload, len, c);
      assert Admissible(c, payload, len, nMod);
    }
    hide SubBlockCount;
    assert SubBlockCount(payload, len, nMod) == if c > 0 then c else q by { CountIs(payload, len, nMod); }
    forall k: nat | Admissible(k, payload, len, nMod) ensures k <= c {
      Fits(payload, len, k);
      if k > c { NotCongruent(c, k); }
    }
  }

  lemma CountIs(payload: nat, len: nat, nMod: byte)
    requires len > 0
    ensures var c := (payload / len - nMod) / 256 * 256 + nMod;
            SubBlockCount(payload, len, nMod) == if c > 0 then c else payload / len
  {
    var c := (payload / len - nMod) / 256 * 256 + nMod;
    Congruent(payload / len, nMod);
    if c > 0 { Fits(payload, len, c); }
  }

  lemma Congruent(q: nat, nMod: byte)
    ensures var c := (q - nMod) / 256 * 256 + nMod;
            c % 256 == nMod && c <= q < c + 256
  {
  }

  lemma NotCongruent(c: int, k: int)
    requires c < k < c + 256
    ensures c % 256 != k % 256
  {
  }

  // --- The sub-blocks ----------------------------------------------------------

  datatype Extra = Extra(header: seq<byte>, len: nat, blocks: seq<seq<byte>>)

  /** The slices of `len` bytes from offset `off` on. */
  function Cuts(body: seq<byte>, off: nat, n: nat, len: nat): (r: seq<seq<byte>>)
    requires off + n * len <= |body|
    ensures |r| == n && forall k :: 0 <= k < n ==> |r[k]| == len
    decreases n
  {
    if n == 0 then []
    else
      assert (n - 1) * len + len == n * len;
      [body[off..off + len]] + Cuts(body, off + len, n - 1, len)
  }

  /** The sub-blocks of a MeasExtra body; without room for the header, or of length zero, there are none. */
  function SubBlocks(body: seq<byte>): (r: Extra)
    ensures |body| >= 12 && body[7] > 0 ==> r.header == body[..12] && r.len == body[7]
    ensures r.len > 0 ==> |body| >= 12 && r.len == body[7] && forall k :: 0 <= k < |r.blocks| ==> |r.blocks[k]| == r.len
  {
    if |body| < 12 || body[7] == 0 then Extra([], 0, [])
    else
      var len := body[7];
      var n := SubBlockCount(|body| - 12, len, body[6]);
      CountRecovered(|body| - 12, len, body[6]);
      Extra(body[..12], len, Cuts(body, 12, n, len))
  }

  /** The sub-blocks fit into the body behind the header. */
  lemma SubBlocksFit(body: seq<byte>)
    requires SubBlocks(body).len > 0
    ensures |body| >= 12 && 12 + |SubBlocks(body).blocks| * SubBlocks(body).len <= |body|
  {
    hide SubBlockCount, Cuts;
    CountRecovered(|body| - 12, body[7], body[6]);
  }

  method MeasExtraSubblocks(body: seq<byte>) returns (header: seq<byte>, len: nat, blocks: seq<seq<byte>>)
    ensures Extra(header, len, blocks) == SubBlocks(body)
  {
    header, len, blocks := [], 0, [];
    if |body| < 12 || body[7] == 0 {
      return;
    }
    header, len := body[..12], body[7];
    CountRecovered(|body| - 12, len, body[6]);
    var n := SubBlockCount(|body| - 12, len, body[6]);
    blocks := Cut(body, n, len);
  }

  /** The cutting loop. Its own check against the end of the body never fires. */
  method Cut(body: seq<byte>, n: nat, len: nat) returns (blocks: seq<seq<byte>>)
    requires 12 + n * len <= |body|
    ensures blocks == Cuts(body, 12, n, len)
  {
    hide Cuts;
    blocks := [];
    var off: nat := 12;
    for k := 0 to n
      invariant off + (n - k) * len <= |body|
      invariant blocks + Cuts(body, off, n - k, len) == Cuts(body, 12, n, len)
    {
      NextCut(body, off, n - k, len);
      blocks := blocks + [body[off..off + len]];
      off := off + len;
    }
  }

  lemma NextCut(body: seq<byte>, off: nat, n: nat, len: nat)
    requires n > 0 && off + n * len <= |body|
    ensures off + len + (n - 1) * len <= |body| && off + len <= |body|
    ensures Cuts(body, off, n, len) == [body[off..off + len]] + Cuts(body, off + len, n - 1, len)
  {
    assert (n - 1) * len + len == n * len;
  }

  lemma NoCut(body: seq<byte>, off: nat, len: nat)
    requires off <= |body|
    ensures Cuts(body, off, 0, len) == []
  {
  }

  // --- Keeping some of them ----------------------------------------------------

  /** The sub-blocks at these indices, those past the end left out. */
  function Selected(blocks: seq<seq<byte>>, indices: seq<nat>): seq<seq<byte>> {
    if indices == [] then []
    else
      var i := indices[|indices| - 1];
      Selected(blocks, indices[..|indices| - 1]) + if i < |blocks| then [blocks[i]] else []
  }

  /** The body that keeps the sub-blocks at these indices; none when nothing is kept. */
  function BuildMeasExtraBody(body: seq<byte>, indices: seq<nat>): Option<seq<byte>> {
    var x := SubBlocks(body);
    var kept := Concat(Selected(x.blocks, indices));
    if x.len == 0 || kept == [] then None
    else Some(x.header[..6] + [|kept| / x.len % 256, x.len] + x.header[8..12] + kept)
  }

  lemma SelectedNext(blocks: seq<seq<byte>>, indices: seq<nat>, k: nat)
    requires k < |indices|
    ensures Concat(Selected(blocks, indices[..k + 1]))
         == Concat(Selected(blocks, indices[..k])) + if indices[k] < |blocks| then blocks[indices[k]] else []
  {
    hide Selected, Concat;
    var now, i := indices[..k], indices[k];
    assert indices[..k + 1] == now + [i];
    SelectedPush(blocks, now, i);
    if i < |blocks| {
      ConcatPush(Selected(blocks, now), blocks[i]);
    } else {
      assert Selected(blocks, now) + [] == Selected(blocks, now);
    }
  }

  lemma SelectedPush(blocks: seq<seq<byte>>, indices: seq<nat>, i: nat)
    ensures Selected(blocks, indices + [i]) == Selected(blocks, indices) + if i < |blocks| then [blocks[i]] else []
  {
    assert (indices + [i])[..|indices|] == indices;
  }

  lemma SelectedNothing(blocks: seq<seq<byte>>)
    ensures Concat(Selected(blocks, [])) == []
  {
  }

  method KeepSubblocks(body: seq<byte>, indices: seq<nat>) returns (r: Option<seq<byte>>)
    ensures r == BuildMeasExtraBody(body, indices)
  {
    hide SubBlocks, Selected, Concat;
    assert Concat(Selected(SubBlocks(body).blocks, [])) == [] by { SelectedNothing(SubBlocks(body).blocks); }
    var header, len, blocks := MeasExtraSubblocks(body);
    ghost var x := SubBlocks(body);
    if header == [] || len == 0 || indices == [] {
      return None;
    }
    var kept: seq<byte> := [];
    for k := 0 to |indices|
      invariant kept == Concat(Selected(x.blocks, indices[..k]))
    {
      SelectedNext(x.blocks, indices, k);
      if indices[k] < |blocks| {
        kept := kept + blocks[indices[k]];
      }
    }
    assert indices[..|indices|] == indices;
    if kept == [] {
      return None;
    }
    r := Some(header[..6] + [|kept| / len % 256, len] + header[8..12] + kept);
  }

  ghost predicate AllOfLength(blocks: seq<seq<byte>>, len: nat) {
    forall k :: 0 <= k < |blocks| ==> |blocks[k]| == len
  }

  lemma {:induction false} ConcatLength(blocks: seq<seq<byte>>, len: nat)
    requires AllOfLength(blocks, len)
    ensures |Concat(blocks)| == |blocks| * len
  {
    if blocks != [] {
      ConcatLength(blocks[..|blocks| - 1], len);
      assert |blocks| * len == (|blocks| - 1) * len + len;
    }
  }

  lemma {:induction false} SelectedLength(blocks: seq<seq<byte>>, indices: seq<nat>, len: nat)
    requires AllOfLength(blocks, len)
    ensures AllOfLength(Selected(blocks, indices), len) && |Selected(blocks, indices)| <= |indices|
  {
    if indices != [] { SelectedLength(blocks, indices[..|indices| - 1], len); }
  }

  /** Cutting the concatenation of equally long blocks, with something after it, gives the blocks. */
  lemma {:induction false} CutsOfConcat(head: seq<byte>, blocks: seq<seq<byte>>, tail: seq<byte>, len: nat, k: nat)
    requires AllOfLength(blocks, len) && k <= |blocks|
    ensures |Concat(blocks)| == |blocks| * len
    ensures |head| + k * len + (|blocks| - k) * len <= |head + Concat(blocks) + tail|
    ensures Cuts(head + Concat(blocks) + tail, |head| + k * len, |blocks| - k, len) == blocks[k..]
    decreases |blocks| - k
  {
    hide Concat, Cuts;
    ConcatLength(blocks, len);
    Regroup(k, |blocks|, len);
    var body := head + Concat(blocks) + tail;
    if k < |blocks| {
      CutsOfConcat(head, blocks, tail, len, k + 1);
      var off := |head| + k * len;
      assert body[off..off + len] == blocks[k] by { BlockAt(blocks, len, k); }
      assert blocks[k..] == [blocks[k]] + blocks[k + 1..];
      NextCut(body, off, |blocks| - k, len);
    } else {
      NoCut(body, |head| + k * len, len);
    }
  }

  lemma CutsFromStart(head: seq<byte>, blocks: seq<seq<byte>>, tail: seq<byte>, len: nat)
    requires AllOfLength(blocks, len)
    ensures |Concat(blocks)| == |blocks| * len
    ensures Cuts(head + Concat(blocks) + tail, |head|, |blocks|, len) == blocks
  {
    hide Cuts, Concat;
    CutsOfConcat(head, blocks, tail, len, 0);
    assert 0 * len == 0 && blocks[0..] == blocks;
  }

  lemma Regroup(k: nat, n: nat, len: nat)
    requires k <= n
    ensures k * len + (n - k) * len == n * len
    ensures k < n ==> (k + 1) * len == k * len + len && (n - k) * len == (n - (k + 1)) * len + len
  {
  }

  lemma {:induction false} BlockAt(blocks: seq<seq<byte>>, len: nat, k: nat)
    requires AllOfLength(blocks, len) && k < |blocks|
    ensures k * len + len <= |Concat(blocks)|
    ensures Concat(blocks)[k * len..k * len + len] == blocks[k]
  {
    var n := |blocks| - 1;
    ConcatLength(blocks, len);
    ConcatLength(blocks[..n], len);
    Regroup(k, |blocks|, len);
    Regroup(n, |blocks|, len);
    if k < n { BlockAt(blocks[..n], len, k); }
  }

  lemma TimesMonotone(a: nat, b: nat, len: nat)
    requires a <= b
    ensures a * len <= b * len
  {
  }

  lemma DivExact(k: nat, len: nat)
    requires len > 0
    ensures k * len / len == k
  {
    Fits(k * len, len, k);
    Fits(k * len, len, k + 1);
    Regroup(k, k + 1, len);
  }

  /** A count one or more turns too high does not fit. */
  lemma NextTurn(k: nat, n: nat, len: nat, pad: nat)
    requires len > 0 && pad < 4 && k < n && n % 256 == k % 256
    ensures n * len > k * len + pad
  {
    if n < k + 256 { NotCongruent(k, n); }
    TimesMonotone(k + 256, n, len);
    Regroup(k, k + 256, len);
  }

  lemma CountOfKept(k: nat, len: nat, pad: nat)
    requires k > 0 && len > 0 && pad < 4
    ensures SubBlockCount(k * len + pad, len, k % 256) == k
  {
    hide SubBlockCount;
    var m := k * len + pad;
    var n := SubBlockCount(m, len, k % 256);
    CountRecovered(m, len, k % 256);
    assert Admissible(k, m, len, k % 256);
    if n > k { NextTurn(k, n, len, pad); }
  }

  lemma Reassembled(head: seq<byte>, sel: seq<seq<byte>>, tail: seq<byte>, len: byte)
    requires AllOfLength(sel, len) && sel != [] && len > 0 && |tail| < 4
    requires |head| == 12 && head[6] == |sel| % 256 && head[7] == len
    ensures SubBlocks(head + Concat(sel) + tail) == Extra(head, len, sel)
  {
    hide SubBlockCount, Concat, Cuts;
    var body := head + Concat(sel) + tail;
    CountOfKept(|sel|, len, |tail|);
    CutsFromStart(head, sel, tail, len);
    assert body[..12] == head && body[6] == head[6] && body[7] == head[7];
  }

  /**
   The time stamp, the length of the sub-blocks, and bytes 8 to 11, which hold the factor of the
   Doppler variances: all of the header but the count.
   */
  function Head(body: seq<byte>): seq<byte> {
    if |body| < 12 then [] else body[..6] + body[7..12]
  }

  /**
   Re-reading the padded frame body gives back exactly the selected sub-blocks. Its header is that
   of the original body, apart from the count.
   */
  lemma ExtraReadsBack(body: seq<byte>, indices: seq<nat>)
    requires BuildMeasExtraBody(body, indices).Some?
    ensures var x := SubBlocks(body);
            var built := BuildMeasExtraBody(body, indices).value;
            && |body| >= 12 && |built| == 12 + |Selected(x.blocks, indices)| * x.len
            && built[..6] == body[..6] && built[6] == |Selected(x.blocks, indices)| % 256
            && built[7] == body[7] && built[8..12] == body[8..12]
            && |Padded(built)| >= 12 && Padded(built)[..6] == body[..6] && Padded(built)[7..12] == body[7..12]
            && SubBlocks(Padded(built)) == Extra(built[..12], x.len, Selected(x.blocks, indices))
  {
    var x := SubBlocks(body);
    var sel := Selected(x.blocks, indices);
    var built := BuildMeasExtraBody(body, indices).value;
    assert |body| >= 12 && 0 < x.len < 256 && x.header == body[..12] && AllOfLength(x.blocks, x.len);
    hide SubBlocks, Selected;
    assert sel != [];
    hide Concat;
    SelectedLength(x.blocks, indices, x.len);
    ConcatLength(sel, x.len);
    DivExact(|sel|, x.len);
    var head := x.header[..6] + [|Concat(sel)| / x.len % 256, x.len] + x.header[8..12];
    var tail := Padded(built)[|built|..];
    assert built == head + Concat(sel) && built[..12] == head && built[..6] == body[..6];
    assert Padded(built) == head + Concat(sel) + tail;
    HeadKept(body, built, head);
    Reassembled(head, sel, tail, x.len);
  }

  lemma HeadKept(body: seq<byte>, built: seq<byte>, head: seq<byte>)
    requires |body| >= 12 && |head| == 12 && head <= built
    requires head[..6] == body[..6] && head[7] == body[7] && head[8..] == body[8..12]
    ensures built[7] == body[7] && built[8..12] == body[8..12]
    ensures Padded(built)[..6] == body[..6] && Padded(built)[7..12] == body[7..12]
  {
    var padded := Padded(built);
    hide Padded;
    assert padded[..12] == built[..12] == head;
    assert padded[..6] == padded[..12][..6] && padded[7..12] == padded[..12][7..] && built[8..12] == built[..12][8..];
    assert head[7..] == [head[7]] + head[8..] && body[7..12] == [body[7]] + body[8..12];
  }

  // --- Whose they are ----------------------------------------------------------

  /** The positions that belong to an antenna, in order. */
  function Indices(owners: seq<nat>, ant: nat): seq<nat> {
    if owners == [] then []
    else
      var n := |owners| - 1;
      Indices(owners[..n], ant) + if owners[n] == ant then [n] else []
  }

  /** The sub-blocks whose position belongs to an antenna, in order. */
  function Owned(blocks: seq<seq<byte>>, owners: seq<nat>, ant: nat): (r: seq<seq<byte>>)
    ensures |r| <= |blocks|
  {
    if blocks == [] then []
    else
      var n := |blocks| - 1;
      Owned(blocks[..n], owners, ant) + if n < |owners| && owners[n] == ant then [blocks[n]] else []
  }

  lemma {:induction false} IndicesExact(owners: seq<nat>, ant: nat)
    ensures forall i :: i in Indices(owners, ant) <==> 0 <= i < |owners| && owners[i] == ant
  {
    if owners != [] {
      var n := |owners| - 1;
      IndicesExact(owners[..n], ant);
      assert forall i :: 0 <= i < n ==> owners[..n][i] == owners[i];
    }
  }

  ghost predicate Ascending(s: seq<nat>) {
    forall j, k :: 0 <= j < k < |s| ==> s[j] < s[k]
  }

  lemma {:induction false} IndicesAscending(owners: seq<nat>, ant: nat)
    ensures Ascending(Indices(owners, ant))
  {
    if owners != [] {
      var n := |owners| - 1;
      var init := Indices(owners[..n], ant);
      IndicesAscending(owners[..n], ant);
      IndicesExact(owners[..n], ant);
      var r := Indices(owners, ant);
      assert r == init + if owners[n] == ant then [n] else [];
      forall j, k | 0 <= j < k < |r| ensures r[j] < r[k] {
        if k < |init| { assert init[j] < init[k]; } else { assert init[j] in init; }
      }
    }
  }

  lemma {:induction false} OwnedShorter(blocks: seq<seq<byte>>, owners: seq<nat>, ant: nat)
    requires |blocks| > |owners|
    ensures Owned(blocks, owners, ant) == Owned(blocks[..|owners|], owners, ant)
    decreases |blocks|
  {
    var n := |blocks| - 1;
    assert blocks[..n][..|owners|] == blocks[..|owners|];
    if n > |owners| { OwnedShorter(blocks[..n], owners, ant); }
  }

  lemma {:induction false} OwnedPrefix(blocks: seq<seq<byte>>, owners: seq<nat>, more: seq<nat>, ant: nat)
    requires |blocks| <= |owners|
    ensures Owned(blocks, owners + more, ant) == Owned(blocks, owners, ant)
    decreases |blocks|
  {
    if blocks != [] { OwnedPrefix(blocks[..|blocks| - 1], owners, more, ant); }
  }

  lemma IndicesPush(owners: seq<nat>, owner: nat, ant: nat)
    ensures Indices(owners + [owner], ant) == Indices(owners, ant) + if owner == ant then [|owners|] else []
  {
    assert (owners + [owner])[..|owners|] == owners;
  }

  lemma OwnedPush(blocks: seq<seq<byte>>, block: seq<byte>, owners: seq<nat>, ant: nat)
    ensures Owned(blocks + [block], owners, ant)
         == Owned(blocks, owners, ant)
            + if |blocks| < |owners| && owners[|blocks|] == ant then [block] else []
  {
    assert (blocks + [block])[..|blocks|] == blocks;
  }

  /** One owner more owns the next sub-block, if there is one. */
  lemma OwnedGrow(blocks: seq<seq<byte>>, owners: seq<nat>, owner: nat, ant: nat)
    ensures Owned(blocks, owners + [owner], ant)
         == Owned(blocks, owners, ant)
            + if owner == ant && |owners| < |blocks| then [blocks[|owners|]] else []
  {
    hide Owned;
    var n := |owners|;
    assert Owned(blocks, owners, ant) + [] == Owned(blocks, owners, ant);
    if |blocks| <= n {
      OwnedPrefix(blocks, owners, [owner], ant);
    } else {
      var upto := blocks[..n];
      assert blocks[..n + 1] == upto + [blocks[n]];
      if |blocks| > n + 1 { OwnedShorter(blocks, owners + [owner], ant); } else { assert blocks[..n + 1] == blocks; }
      OwnedShorter(blocks, owners, ant);
      OwnedPush(upto, blocks[n], owners + [owner], ant);
      OwnedPrefix(upto, owners, [owner], ant);
    }
  }

  /** What is kept for an antenna are the sub-blocks it owns, in order, and no others. */
  lemma {:induction false} SelectedAreOwned(blocks: seq<seq<byte>>, owners: seq<nat>, ant: nat)
    ensures Selected(blocks, Indices(owners, ant)) == Owned(blocks, owners, ant)
    decreases |owners|
  {
    hide Selected, Owned, Indices;
    if owners == [] {
      NothingOwned(blocks, ant);
      NoneSelected(blocks, ant);
    } else {
      var init, owner := owners[..|owners| - 1], owners[|owners| - 1];
      assert init + [owner] == owners;
      SelectedAreOwned(blocks, init, ant);
      IndicesPush(init, owner, ant);
      OwnedGrow(blocks, init, owner, ant);
      assert Indices(init, ant) + [] == Indices(init, ant);
      assert Owned(blocks, init, ant) + [] == Owned(blocks, init, ant);
      if owner == ant { SelectedPush(blocks, Indices(init, ant), |init|); }
    }
  }

  lemma NoneSelected(blocks: seq<seq<byte>>, ant: nat)
    ensures Selected(blocks, Indices([], ant)) == []
  {
  }

  lemma {:induction false} NothingOwned(blocks: seq<seq<byte>>, ant: nat)
    ensures Owned(blocks, [], ant) == []
  {
    if blocks != [] { NothingOwned(blocks[..|blocks| - 1], ant); }
  }

  /**
   A sub-block that has an owner is kept for exactly one antenna, that owner, behind those of its
   sub-blocks that precede it.
   */
  lemma {:induction false} KeptOnce(blocks: seq<seq<byte>>, owners: seq<nat>, i: nat)
    requires i < |blocks| && i < |owners|
    ensures forall ant: nat :: i in Indices(owners, ant) <==> ant == owners[i]
    ensures var before := Owned(blocks[..i], owners, owners[i]);
            && |before| < |Owned(blocks, owners, owners[i])|
            && Owned(blocks, owners, owners[i])[|before|] == blocks[i]
    decreases |blocks|
  {
    forall ant: nat ensures i in Indices(owners, ant) <==> ant == owners[i] { IndicesExact(owners, ant); }
    var n := |blocks| - 1;
    if i < n {
      assert blocks[..n][..i] == blocks[..i];
      KeptOnce(blocks[..n], owners, i);
    }
  }

  /** How many sub-blocks the antennas below `m` keep together. */
  function KeptBelow(blocks: seq<seq<byte>>, owners: seq<nat>, m: nat): nat {
    if m == 0 then 0 else KeptBelow(blocks, owners, m - 1) + |Owned(blocks, owners, m - 1)|
  }

  lemma {:induction false} KeptBelowStep(blocks: seq<seq<byte>>, owners: seq<nat>, m: nat)
    requires blocks != []
    ensures var n := |blocks| - 1;
            KeptBelow(blocks, owners, m)
            == KeptBelow(blocks[..n], owners, m) + if n < |owners| && owners[n] < m then 1 else 0
  {
    if m > 0 { KeptBelowStep(blocks, owners, m - 1); }
  }

  /** Every sub-block that has an owner is kept by exactly one antenna: none is lost or doubled. */
  lemma {:induction false} NothingLost(blocks: seq<seq<byte>>, owners: seq<nat>)
    requires forall k :: 0 <= k < |owners| ==> owners[k] < 8
    ensures KeptBelow(blocks, owners, 8) == if |blocks| < |owners| then |blocks| else |owners|
    decreases |blocks|
  {
    if blocks == [] {
      NothingKept(owners, 8);
    } else {
      KeptBelowStep(blocks, owners, 8);
      NothingLost(blocks[..|blocks| - 1], owners);
    }
  }

  lemma {:induction false} NothingKept(owners: seq<nat>, m: nat)
    ensures KeptBelow([], owners, m) == 0
  {
    if m > 0 { NothingKept(owners, m - 1); }
  }
}
