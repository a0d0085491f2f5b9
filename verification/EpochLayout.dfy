/**
 MeasEpoch bodies as they are laid out: a header, then for each satellite a first-level record with
 its second-level records behind it. What the decoder makes of every body, stated on that layout.
 */
module EpochLayout {
  import opened Bytes
  import opened Observation
  import opened MeasEpoch
  import opened MeasExtra
  import opened RecordLayout

  /** The record of a satellite's first signal and those of its further signals, padding included. */
  datatype Satellite = Satellite(first: seq<byte>, children: seq<seq<byte>>)

  ghost predicate AllOf(records: seq<seq<byte>>, len: nat) {
    forall k :: 0 <= k < |records| ==> |records[k]| == len
  }

  /** Byte 19 of the first record counts the others. */
  ghost predicate Laid(s: Satellite, len1: nat, len2: nat) {
    |s.first| == len1 >= 20 && s.first[19] == |s.children| && AllOf(s.children, len2)
  }

  ghost predicate AllLaid(sats: seq<Satellite>, len1: nat, len2: nat) {
    forall k :: 0 <= k < |sats| ==> Laid(sats[k], len1, len2)
  }

  function Joined(records: seq<seq<byte>>): seq<byte> {
    if records == [] then [] else records[0] + Joined(records[1..])
  }

  /** The satellites one after the other. */
  function Printed(sats: seq<Satellite>): seq<byte> {
    if sats == [] then [] else sats[0].first + Joined(sats[0].children) + Printed(sats[1..])
  }

  // --- What is read ----------------------------------------------------------------

  /** Each second-level record, relative to its satellite's first. */
  function ChildRows(children: seq<seq<byte>>, len2: nat, parent: Parsed): seq<Row>
    requires AllOf(children, len2) && len2 >= 12 && (parent.freq.Some? ==> parent.freq.value > 0.0)
  {
    if children == [] then []
    else [ParseType2(parent, children[0][..12]).row] + ChildRows(children[1..], len2, parent)
  }

  /** The rows of a satellite; second-level records that are too short are passed over. */
  function SatelliteRows(epoch: Epoch, s: Satellite, len2: nat): seq<Row>
    requires |s.first| >= 20 && AllOf(s.children, len2)
  {
    var parent := ParseType1(epoch, s.first[..20]);
    [parent.row] + if len2 < 12 then [] else ChildRows(s.children, len2, parent)
  }

  function AllRows(epoch: Epoch, sats: seq<Satellite>, len1: nat, len2: nat): seq<Row>
    requires AllLaid(sats, len1, len2)
  {
    if sats == [] then []
    else SatelliteRows(epoch, sats[0], len2) + AllRows(epoch, sats[1..], len1, len2)
  }

  // --- The two loops ---------------------------------------------------------------

  lemma {:induction false} JoinedLength(records: seq<seq<byte>>, len: nat)
    requires AllOf(records, len)
    ensures |Joined(records)| == |records| * len
  {
    if records != [] {
      JoinedLength(records[1..], len);
      assert |records| * len == len + (|records| - 1) * len;
    }
  }

  lemma {:induction false} ChildrenRead(body: seq<byte>, off: nat, children: seq<seq<byte>>, n: nat, len: nat,
                                        parent: Parsed)
    requires AllOf(children, len) && len >= 12 && (parent.freq.Some? ==> parent.freq.value > 0.0)
    requires off <= |body| && Joined(children) <= body[off..] && |children| <= n
    requires |children| < n ==> |body| < off + |Joined(children)| + len
    ensures Children(body, off, n, len, parent) == ChildRows(children, len, parent)
    decreases |children|
  {
    hide ParseType2;
    if children != [] {
      var c, rest := children[0], children[1..];
      assert Joined(children) == c + Joined(rest);
      assert body[off..off + 12] == body[off..][..12] == c[..12];
      assert body[off..][len..] == body[off + len..];
      ChildrenRead(body, off + len, rest, n - 1, len, parent);
    }
  }

  lemma ShortChildren(body: seq<byte>, off: nat, n: nat, len: nat, parent: Parsed)
    requires len < 12 && (parent.freq.Some? ==> parent.freq.value > 0.0)
    ensures Children(body, off, n, len, parent) == []
  {
  }

  /** One turn of the outer loop; the next one starts behind all the records that byte 19 counts. */
  lemma SatelliteRead(body: seq<byte>, off: nat, s: Satellite, n: nat, len1: nat, len2: nat, epoch: Epoch)
    requires n > 0 && |s.first| == len1 >= 20 && AllOf(s.children, len2) && |s.children| <= s.first[19]
    requires off <= |body| && s.first + Joined(s.children) <= body[off..]
    requires |s.children| < s.first[19] ==> |body| < off + len1 + |Joined(s.children)| + len2
    ensures off + len1 <= |body|
    ensures Satellites(body, off, n, len1, len2, epoch)
         == SatelliteRows(epoch, s, len2)
            + Satellites(body, off + (len1 + s.first[19] * len2), n - 1, len1, len2, epoch)
  {
    hide ParseType1, ParseType2, Children, ChildRows, Satellites;
    var parent := ParseType1(epoch, body[off..off + 20]);
    assert body[off..off + 20] == body[off..][..20] == s.first[..20];
    assert body[off + 19] == body[off..][19] == s.first[19];
    SatellitesStep(body, off, n, len1, len2, epoch);
    if len2 < 12 {
      ShortChildren(body, off + len1, s.first[19], len2, parent);
    } else {
      assert body[off..][len1..] == body[off + len1..];
      assert Joined(s.children) <= body[off + len1..];
      ChildrenRead(body, off + len1, s.children, s.first[19], len2, parent);
    }
  }

  /** The satellites that are there in full, and what is left of one more. */
  ghost predicate Cut(cut: seq<Satellite>, rest: nat, more: nat, len1: nat, len2: nat) {
    if cut == [] then more == 0 || len1 < 20 || rest < len1
    else
      && |cut| == 1 && more > 0 && |cut[0].first| == len1 >= 20 && AllOf(cut[0].children, len2)
      && |cut[0].children| < cut[0].first[19] && rest < len2
  }

  function CutRows(epoch: Epoch, cut: seq<Satellite>, len2: nat): seq<Row>
    requires |cut| <= 1 && (cut != [] ==> |cut[0].first| >= 20 && AllOf(cut[0].children, len2))
  {
    if cut == [] then [] else SatelliteRows(epoch, cut[0], len2)
  }

  lemma CutRead(body: seq<byte>, off: nat, cut: seq<Satellite>, rest: nat, n: nat, len1: nat, len2: nat, epoch: Epoch)
    requires off <= |body| && Cut(cut, rest, n, len1, len2)
    requires Printed(cut) <= body[off..] && |body| == off + |Printed(cut)| + rest
    ensures Satellites(body, off, n, len1, len2, epoch) == CutRows(epoch, cut, len2)
  {
    hide Satellites, SatelliteRows;
    if cut == [] {
      SatellitesEnd(body, off, n, len1, len2, epoch);
    } else {
      var s := cut[0];
      assert Printed(cut) == s.first + Joined(s.children) + Printed(cut[1..]) == s.first + Joined(s.children);
      SatelliteRead(body, off, s, n, len1, len2, epoch);
      JoinedLength(s.children, len2);
      MoreThanFits(|s.children|, s.first[19], len2);
      SatellitesEnd(body, off + (len1 + s.first[19] * len2), n - 1, len1, len2, epoch);
    }
  }

  lemma MoreThanFits(k: nat, n: nat, len: nat)
    requires k < n
    ensures k * len + len <= n * len
  {
    Regroup(k, n, len);
  }

  lemma {:induction false} SatellitesRead(body: seq<byte>, off: nat, sats: seq<Satellite>, cut: seq<Satellite>,
                                          rest: nat, n: nat, len1: nat, len2: nat, epoch: Epoch)
    requires AllLaid(sats, len1, len2) && |sats| <= n && Cut(cut, rest, n - |sats|, len1, len2)
    requires off <= |body| && Printed(sats) + Printed(cut) <= body[off..]
    requires |body| == off + |Printed(sats)| + |Printed(cut)| + rest
    ensures Satellites(body, off, n, len1, len2, epoch)
         == AllRows(epoch, sats, len1, len2) + CutRows(epoch, cut, len2)
    decreases |sats|
  {
    hide Satellites, SatelliteRows, CutRows, Cut;
    if sats == [] {
      assert Printed(sats) + Printed(cut) == Printed(cut);
      CutRead(body, off, cut, rest, n, len1, len2, epoch);
    } else {
      var s, more := sats[0], sats[1..];
      var mine := s.first + Joined(s.children);
      assert Laid(s, len1, len2);
      assert Printed(sats) + Printed(cut) == mine + (Printed(more) + Printed(cut));
      SatelliteRead(body, off, s, n, len1, len2, epoch);
      JoinedLength(s.children, len2);
      var next := off + |mine|;
      assert body[off..][|mine|..] == body[next..];
      SatellitesRead(body, next, more, cut, rest, n - 1, len1, len2, epoch);
    }
  }

  // --- Whole bodies ----------------------------------------------------------------

  /** The epoch in a header. */
  function EpochIn(head: seq<byte>): Epoch
    requires |head| >= 12
  {
    Epoch(Unsigned4(head, 0), Unsigned2(head, 4), head[9], head[10])
  }

  lemma SameEpochIn(head: seq<byte>, more: seq<byte>)
    requires |head| == 12
    ensures EpochOf(head + more) == EpochIn(head)
  {
    var body := head + more;
    SameNumbers(body, 0);
    SameNumbers(body, 4);
    assert forall i :: 0 <= i < 12 ==> body[i] == head[i];
  }

  /**
   What is read of a body: bytes 6 to 8 give the number of satellites and the lengths of both kinds
   of records. Satellite by satellite the first-level record is read and then each of its
   second-level ones, as far as the body reaches; behind the first record that does not fit, or
   behind the last satellite, nothing is read.
   */
  lemma RowsOfPrinted(head: seq<byte>, sats: seq<Satellite>, cut: seq<Satellite>, tail: seq<byte>)
    requires |head| == 12 && AllLaid(sats, head[7], head[8]) && |sats| <= head[6]
    requires Cut(cut, |tail|, head[6] - |sats|, head[7], head[8])
    ensures Rows(head + Printed(sats) + Printed(cut) + tail)
         == AllRows(EpochIn(head), sats, head[7], head[8]) + CutRows(EpochIn(head), cut, head[8])
  {
    hide Satellites, AllRows, CutRows, Cut, EpochOf, EpochIn, AllLaid;
    var body := head + Printed(sats) + Printed(cut) + tail;
    var more := Printed(sats) + Printed(cut) + tail;
    assert body == head + more && body[12..] == more;
    assert body[6] == head[6] && body[7] == head[7] && body[8] == head[8];
    SameEpochIn(head, more);
    assert Printed(sats) + Printed(cut) <= more;
    SatellitesRead(body, 12, sats, cut, |tail|, head[6], head[7], head[8], EpochIn(head));
  }

  // --- Every body has this form ----------------------------------------------------

  lemma {:induction false} ChildrenTaken(bytes: seq<byte>, n: nat, len: nat)
    returns (children: seq<seq<byte>>, rest: seq<byte>)
    ensures AllOf(children, len) && |children| <= n && bytes == Joined(children) + rest
    ensures |children| < n ==> |rest| < len
    decreases n
  {
    if n == 0 || |bytes| < len {
      children, rest := [], bytes;
    } else {
      var more;
      more, rest := ChildrenTaken(bytes[len..], n - 1, len);
      children := [bytes[..len]] + more;
      assert children[1..] == more;
    }
  }

  lemma {:induction false} Divided(bytes: seq<byte>, n: nat, len1: nat, len2: nat)
    returns (sats: seq<Satellite>, cut: seq<Satellite>, tail: seq<byte>)
    ensures AllLaid(sats, len1, len2) && |sats| <= n && Cut(cut, |tail|, n - |sats|, len1, len2)
    ensures bytes == Printed(sats) + Printed(cut) + tail
    decreases n
  {
    if n == 0 || len1 < 20 || |bytes| < len1 {
      sats, cut, tail := [], [], bytes;
    } else {
      var first := bytes[..len1];
      var children, rest := ChildrenTaken(bytes[len1..], first[19], len2);
      var s := Satellite(first, children);
      assert bytes == first + Joined(children) + rest;
      hide Printed, Joined;
      PrintedFront(s, []);
      if |children| < first[19] {
        sats, cut, tail := [], [s], rest;
      } else {
        var more;
        more, cut, tail := Divided(rest, n - 1, len1, len2);
        sats := [s] + more;
        LaidFront(s, more, len1, len2);
        PrintedFront(s, more);
        SameJoined(first + Joined(children), Printed(more), Printed(cut), tail);
      }
    }
  }

  lemma PrintedFront(s: Satellite, more: seq<Satellite>)
    ensures Printed([]) == []
    ensures Printed([s] + more) == s.first + Joined(s.children) + Printed(more)
    ensures more == [] ==> Printed([s]) == s.first + Joined(s.children)
  {
    assert ([s] + more)[1..] == more;
    if more == [] { assert [s] + more == [s]; }
  }

  lemma LaidFront(s: Satellite, more: seq<Satellite>, len1: nat, len2: nat)
    requires Laid(s, len1, len2) && AllLaid(more, len1, len2)
    ensures AllLaid([s] + more, len1, len2)
  {
  }

  lemma SameJoined(a: seq<byte>, b: seq<byte>, c: seq<byte>, d: seq<byte>)
    ensures a + (b + c + d) == (a + b) + c + d
  {
  }

  /** Every body with a header is laid out like this, so that the rows of every body are known. */
  lemma EveryBodyPrinted(body: seq<byte>) returns (sats: seq<Satellite>, cut: seq<Satellite>, tail: seq<byte>)
    requires |body| >= 12
    ensures AllLaid(sats, body[7], body[8]) && |sats| <= body[6]
    ensures Cut(cut, |tail|, body[6] - |sats|, body[7], body[8])
    ensures body == body[..12] + Printed(sats) + Printed(cut) + tail
    ensures Rows(body)
         == AllRows(EpochIn(body[..12]), sats, body[7], body[8]) + CutRows(EpochIn(body[..12]), cut, body[8])
  {
    hide Rows, AllRows, CutRows, Printed, Cut, AllLaid;
    sats, cut, tail := Divided(body[12..], body[6], body[7], body[8]);
    assert body == body[..12] + body[12..];
    assert body[..12] + (Printed(sats) + Printed(cut) + tail) == body[..12] + Printed(sats) + Printed(cut) + tail;
    RowsOfPrinted(body[..12], sats, cut, tail);
  }
}
