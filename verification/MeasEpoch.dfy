/** MeasEpoch bodies: the decoder of both sub-block levels and the Type-1-only encoder. */
module MeasEpoch {
  import opened Bytes
  import opened Observation
  import opened ObservationRoundTrip

  // --- Decoding ----------------------------------------------------------------

  function EpochOf(body: seq<byte>): Epoch
    requires |body| >= 12
  {
    Epoch(U32(body, 0), U16(body, 4), body[9], body[10])
  }

  /** Up to `n` second-level records from offset `off`, as far as the body reaches. */
  function Children(body: seq<byte>, off: nat, n: nat, len: nat, parent: Parsed): seq<Row>
    requires parent.freq.Some? ==> parent.freq.value > 0.0
    decreases n
  {
    if n == 0 || len < 12 || off + len > |body| then []
    else [ParseType2(parent, body[off..off + 12]).row] + Children(body, off + len, n - 1, len, parent)
  }

  /** The room a first-level record takes together with its `n2` second-level ones. */
  function Stride(len1: nat, n2: nat, len2: nat): nat { len1 + n2 * len2 }

  /** Up to `n` first-level records from offset `off`, each followed by its second-level ones. */
  function Satellites(body: seq<byte>, off: nat, n: nat, len1: nat, len2: nat, epoch: Epoch): seq<Row>
    decreases n
  {
    if n == 0 || len1 < 20 || off + len1 > |body| then []
    else
      var parent := ParseType1(epoch, body[off..off + 20]);
      var n2 := body[off + 19];
      [parent.row] + Children(body, off + len1, n2, len2, parent)
      + Satellites(body, off + Stride(len1, n2, len2), n - 1, len1, len2, epoch)
  }

  lemma SatellitesStep(body: seq<byte>, off: nat, n: nat, len1: nat, len2: nat, epoch: Epoch)
    requires n > 0 && len1 >= 20 && off + len1 <= |body|
    ensures var parent := ParseType1(epoch, body[off..off + 20]);
            Satellites(body, off, n, len1, len2, epoch)
            == [parent.row] + Children(body, off + len1, body[off + 19], len2, parent)
               + Satellites(body, off + Stride(len1, body[off + 19], len2), n - 1, len1, len2, epoch)
  {
    hide ParseType1, Children, Stride;
  }

  lemma SatellitesEnd(body: seq<byte>, off: nat, n: nat, len1: nat, len2: nat, epoch: Epoch)
    requires n == 0 || len1 < 20 || off + len1 > |body|
    ensures Satellites(body, off, n, len1, len2, epoch) == []
  {
  }

  /** The observations of a MeasEpoch body. */
  function Rows(body: seq<byte>): seq<Row> {
    if |body| < 12 then []
    else Satellites(body, 12, body[6], body[7], body[8], EpochOf(body))
  }

  method DecodeChildren(body: seq<byte>, off: nat, n: nat, len: nat, parent: Parsed) returns (rows: seq<Row>)
    requires parent.freq.Some? ==> parent.freq.value > 0.0
    ensures rows == Children(body, off, n, len, parent)
  {
    hide ParseType2;
    rows := [];
    var off2 := off;
    for j := 0 to n
      invariant off2 >= off
      invariant rows + Children(body, off2, n - j, len, parent) == Children(body, off, n, len, parent)
    {
      if len < 12 || off2 + len > |body| {
        break;
      }
      rows := rows + [ParseType2(parent, body[off2..off2 + 12]).row];
      off2 := off2 + len;
    }
  }

  /** The nested decoding loops. */
  method DecodeMeasEpoch(body: seq<byte>) returns (rows: seq<Row>)
    ensures rows == Rows(body)
  {
    rows := [];
    if |body| < 12 {
      return;
    }
    rows := DecodeSatellites(body, body[6], body[7], body[8], EpochOf(body));
  }

  method DecodeSatellites(body: seq<byte>, n1: nat, len1: nat, len2: nat, epoch: Epoch) returns (rows: seq<Row>)
    ensures rows == Satellites(body, 12, n1, len1, len2, epoch)
  {
    hide ParseType1, ParseType2, Children, Satellites, Stride;
    rows := [];
    var off := 12;
    var k := 0;
    while k < n1
      invariant 0 <= k <= n1 && off >= 12
      invariant rows + Satellites(body, off, n1 - k, len1, len2, epoch)
             == Satellites(body, 12, n1, len1, len2, epoch)
    {
      if len1 < 20 || off + len1 > |body| {
        break;
      }
      SatellitesStep(body, off, n1 - k, len1, len2, epoch);
      var parent := ParseType1(epoch, body[off..off + 20]);
      var n2: nat := body[off + 19];
      var children := DecodeChildren(body, off + len1, n2, len2, parent);
      rows := rows + ([parent.row] + children);
      off := off + Stride(len1, n2, len2);
      k := k + 1;
    }
    SatellitesEnd(body, off, n1 - k, len1, len2, epoch);
  }

  // --- Properties of decoded rows ----------------------------------------------

  /** A row as the decoder produces it for this epoch; first-level Doppler shifts are whole units. */
  ghost predicate DecodedFor(epoch: Epoch, row: Row) {
    && Decoded(row) && row.epoch == epoch
    && (row.level == 1 && row.doppler.Some? ==> WholeUnits(row.doppler.value))
  }

  lemma {:induction false} ChildrenDecoded(body: seq<byte>, off: nat, n: nat, len: nat, parent: Parsed)
    requires parent.freq.Some? ==> parent.freq.value > 0.0
    ensures forall row :: row in Children(body, off, n, len, parent) ==> DecodedFor(parent.row.epoch, row)
    decreases n
  {
    hide Decoded;
    if n == 0 || len < 12 || off + len > |body| {
    } else {
      Type2Decoded(parent, body[off..off + 12]);
      ChildrenDecoded(body, off + len, n - 1, len, parent);
    }
  }

  lemma {:induction false} SatellitesDecoded(body: seq<byte>, off: nat, n: nat, len1: nat, len2: nat, epoch: Epoch)
    ensures forall row :: row in Satellites(body, off, n, len1, len2, epoch) ==> DecodedFor(epoch, row)
    decreases n
  {
    hide Decoded, WholeUnits, Unpack, CodeOf, DopplerOf, SignalType, CarrierFrequency;
    if n == 0 || len1 < 20 || off + len1 > |body| {
    } else {
      var r := body[off..off + 20];
      var parent := ParseType1(epoch, r);
      Type1Decoded(epoch, r);
      ChildrenDecoded(body, off + len1, body[off + 19], len2, parent);
      SatellitesDecoded(body, off + Stride(len1, body[off + 19], len2), n - 1, len1, len2, epoch);
    }
  }

  lemma RowsDecoded(body: seq<byte>)
    ensures |body| >= 12 ==> forall row :: row in Rows(body) ==> DecodedFor(EpochOf(body), row)
  {
    if |body| >= 12 {
      SatellitesDecoded(body, 12, body[6], body[7], body[8], EpochOf(body));
    }
  }

  // --- Encoding ----------------------------------------------------------------

  function Records(rows: seq<Row>): (r: seq<byte>)
    ensures |r| == 20 * |rows|
  {
    if rows == [] then [] else EncodeType1(rows[0]) + Records(rows[1..])
  }

  /** The head of a body with `n` first-level records of 20 bytes. */
  function Header(e: Epoch, n: byte): (r: seq<byte>)
    ensures |r| == 12
  {
    Le32(e.tow) + Le16(e.wnc) + [n, 20, 12, e.commonFlags, e.clkJumps, 0]
  }

  /** The Type-1-only body with these observations; none without any, or with more than a body can count. */
  function BuildMeasEpochBody(rows: seq<Row>): (r: Option<seq<byte>>)
    ensures r.Some? <==> 0 < |rows| <= 255
    ensures r.Some? ==> |r.value| == 12 + 20 * |rows|
  {
    if rows == [] || |rows| > 255 then None
    else
      Some(Header(rows[0].epoch, |rows|) + Records(rows))
  }

  // --- Round trip --------------------------------------------------------------

  /** Each row as it reads back. */
  function Reread(epoch: Epoch, rows: seq<Row>): seq<Row> {
    seq(|rows|, k requires 0 <= k < |rows| => ParseType1(epoch, EncodeType1(rows[k])).row)
  }

  function FlattenedRows(epoch: Epoch, rows: seq<Row>): seq<Row> {
    seq(|rows|, k requires 0 <= k < |rows| => Flattened(epoch, rows[k]))
  }

  lemma RecordsTail(rows: seq<Row>, k: nat)
    requires k <= |rows|
    ensures Records(rows)[20 * k..] == Records(rows[k..])
    decreases k
  {
    hide EncodeType1;
    if k == 0 {
      assert rows[0..] == rows;
    } else {
      RecordsTail(rows[1..], k - 1);
      assert rows[1..][k - 1..] == rows[k..];
      assert Records(rows)[20..] == Records(rows[1..]);
    }
  }

  lemma RecordAt(body: seq<byte>, head: seq<byte>, rows: seq<Row>, k: nat)
    requires body == head + Records(rows) && |head| == 12 && k < |rows|
    ensures body[12 + 20 * k..32 + 20 * k] == EncodeType1(rows[k])
    ensures body[31 + 20 * k] == 0
  {
    hide EncodeType1;
    var off := 12 + 20 * k;
    RecordsTail(rows, k);
    var tail := Records(rows[k..]);
    assert body[off..] == tail;
    assert body[off..off + 20] == tail[..20] == EncodeType1(rows[k]);
    EncodedLayout(rows[k]);
  }

  lemma {:induction false} SatellitesReread(body: seq<byte>, head: seq<byte>, rows: seq<Row>, k: nat, epoch: Epoch)
    requires body == head + Records(rows) && |head| == 12 && k <= |rows|
    ensures Satellites(body, 12 + 20 * k, |rows| - k, 20, 12, epoch) == Reread(epoch, rows[k..])
    decreases |rows| - k
  {
    hide EncodeType1, ParseType1, Records, Satellites;
    if k == |rows| {
      SatellitesEnd(body, 12 + 20 * k, 0, 20, 12, epoch);
    } else {
      SatellitesStep(body, 12 + 20 * k, |rows| - k, 20, 12, epoch);
      RecordAt(body, head, rows, k);
      var r := EncodeType1(rows[k]);
      SatellitesReread(body, head, rows, k + 1, epoch);
      assert Reread(epoch, rows[k..]) == [ParseType1(epoch, r).row] + Reread(epoch, rows[k + 1..]);
    }
  }

  /** Decoding a built body re-reads every row. */
  lemma BuiltRows(rows: seq<Row>)
    requires 0 < |rows| <= 255
    ensures var body := BuildMeasEpochBody(rows).value;
            EpochOf(body) == rows[0].epoch && Rows(body) == Reread(rows[0].epoch, rows)
  {
    hide Records, ParseType1, EncodeType1, U16, U32, Satellites;
    var e := rows[0].epoch;
    var head := Header(e, |rows|);
    var body := BuildMeasEpochBody(rows).value;
    HeaderRead(e, |rows|, Records(rows));
    hide EpochOf, Header;
    SatellitesReread(body, head, rows, 0, e);
    assert rows[0..] == rows;
  }

  lemma HeaderRead(e: Epoch, n: byte, records: seq<byte>)
    ensures var body := Header(e, n) + records;
            EpochOf(body) == e && body[6] == n && body[7] == 20 && body[8] == 12
  {
    var body := Header(e, n) + records;
    assert U32(body, 0) == U32(Le32(e.tow), 0) && U16(body, 4) == U16(Le16(e.wnc), 0);
  }

  /** Row for row, what was read back against what was written. */
  ghost predicate RowsAgree(got: seq<Row>, rows: seq<Row>) {
    |got| == |rows| && forall k :: 0 <= k < |rows| ==> RowAgrees(got[k], rows[k])
  }

  lemma RowsReread(rows: seq<Row>, epoch: Epoch)
    requires forall k :: 0 <= k < |rows| ==> DecodedFor(epoch, rows[k])
    ensures RowsAgree(Reread(epoch, rows), rows)
  {
    hide ParseType1, EncodeType1, Decoded, RowAgrees, WholeUnits;
    forall k | 0 <= k < |rows| ensures RowAgrees(Reread(epoch, rows)[k], rows[k]) {
      RowReread(rows[k]);
    }
  }

  /**
   A Type-1-only body built from decoded rows of one epoch decodes row for row to the same
   observations, as far as each can be represented; all of them come back, Doppler shifts rounded
   to 0.1 mHz, exactly when every row is representable.
   */
  lemma EpochRoundTrip(rows: seq<Row>, epoch: Epoch)
    requires 0 < |rows| <= 255
    requires forall k :: 0 <= k < |rows| ==> DecodedFor(epoch, rows[k])
    ensures RowsAgree(Rows(BuildMeasEpochBody(rows).value), rows)
    ensures Rows(BuildMeasEpochBody(rows).value) == FlattenedRows(epoch, rows)
            <==> forall k :: 0 <= k < |rows| ==> Representable(rows[k])
  {
    hide ParseType1, EncodeType1, Decoded, Representable, Flattened, WholeUnits, BuildMeasEpochBody, Rows, RowsAgree;
    BuiltRows(rows);
    RowsReread(rows, epoch);
    forall k | 0 <= k < |rows|
      ensures Reread(epoch, rows)[k] == FlattenedRows(epoch, rows)[k] <==> Representable(rows[k])
    {
      RowRoundTrip(epoch, rows[k]);
    }
    if forall k :: 0 <= k < |rows| ==> Representable(rows[k]) {
      assert Reread(epoch, rows) == FlattenedRows(epoch, rows);
    }
  }

  /** First-level rows lose nothing at all but their place; others at most 0.05 mHz of Doppler. */
  lemma FlattenedAccuracy(rows: seq<Row>, epoch: Epoch, k: nat)
    requires k < |rows| && DecodedFor(epoch, rows[k])
    ensures rows[k].level == 1 ==> FlattenedRows(epoch, rows)[k] == rows[k]
    ensures FlattenedRows(epoch, rows)[k].(level := 0, doppler := None) == rows[k].(level := 0, doppler := None)
    ensures FlattenedRows(epoch, rows)[k].doppler.Some? == rows[k].doppler.Some?
    ensures rows[k].doppler.Some? ==>
              -0.5 <= FlattenedRows(epoch, rows)[k].doppler.value - rows[k].doppler.value <= 0.5
  {
    DopplerAccuracy(epoch, rows[k]);
  }
}
