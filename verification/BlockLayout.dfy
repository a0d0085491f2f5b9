/** The blocks that the export reads and writes, byte by byte and by number. */
module BlockLayout {
  import opened Bytes
  import opened Framing
  import opened Observation
  import opened MeasEpoch
  import opened MeasExtra
  import opened RecordLayout
  import opened SbfSink
  import opened ExportSpec
  import opened ExportContents

  // --- Numbers -------------------------------------------------------------------

  /** The blocks that go into every file, by number. */
  predicate CommonNumber(id: int) {
    || 4002 <= id <= 4005 || id == 4015 || 4017 <= id <= 4023 || id == 4026
    || 4030 <= id <= 4032 || id == 4034 || id == 4036 || id == 4042 || id == 4047 || id == 4049
    || 4066 <= id <= 4068 || id == 4081 || id == 4095 || id == 4116 || 4119 <= id <= 4121 || id == 4245
    || 5891 <= id <= 5894 || 5896 <= id <= 5897 || id == 5902 || 5917 <= id <= 5919
    || 5925 <= id <= 5934 || id == 5949
  }

  /** The time stamp at the head of a body. */
  lemma TimeByBytes(body: seq<byte>)
    ensures BodyTime(body) == if |body| >= 6 then Some(Time(Unsigned4(body, 0), Unsigned2(body, 4))) else None
  {
    SameNumbers(body, 0);
    SameNumbers(body, 4);
  }

  /**
   What an antenna is due from a frame, by the number of its block: its rows of 4027, its sub-blocks
   of 4000 that arrives in time, 5922 if it has rows in the open epoch, all common blocks, and
   nothing of any other.
   */
  lemma DueByNumber(p: OpenEpoch, f: Frame, ant: nat)
    ensures var id := f.rawId % 8192;
            var own, blocks := RowsOf(Rows(f.body), ant), Owned(SubBlocks(f.body).blocks, p.owners, ant);
            && (id == 4027 ==> Due(p, f, ant) == if own == [] then [] else [Observations(f.rawId, own)])
            && (id == 4000 ==>
                  Due(p, f, ant) == if p.owners == [] || BodyTime(f.body) != p.time || blocks == [] then []
                                    else [Extras(f.rawId, Head(f.body), blocks)])
            && (id == 5922 ==> Due(p, f, ant) == if ant in p.owners then [Copied(f)] else [])
            && (CommonNumber(id) ==> Due(p, f, ant) == [Copied(f)])
            && (id != 4027 && id != 4000 && id != 5922 && !CommonNumber(id) ==> Due(p, f, ant) == [])
  {
    hide Rows, RowsOf, SubBlocks, Owned, Head, BodyTime;
  }

  /** A frame with number 4027 opens an epoch and one with number 5922 ends it. */
  lemma OpenByNumber(frames: seq<Frame>, f: Frame)
    ensures var id := f.rawId % 8192;
            && (id == 4027 ==> OpenAfter(frames + [f]) == OpenEpoch(Owners(Rows(f.body)), EpochTime(Rows(f.body))))
            && (id == 5922 ==> OpenAfter(frames + [f]) == OpenEpoch([], None))
            && (id != 4027 && id != 5922 ==> OpenAfter(frames + [f]) == OpenAfter(frames))
  {
    hide Rows;
    assert (frames + [f])[..|frames|] == frames;
  }

  // --- Bodies --------------------------------------------------------------------

  /** A written MeasEpoch body: time, week, count, 20, 12, flags, clock jumps, zero, then the records. */
  lemma EpochWriting(rows: seq<Row>)
    requires 0 < |rows| <= 255
    ensures var body, e := BuildMeasEpochBody(rows).value, rows[0].epoch;
            && |body| == 12 + 20 * |rows|
            && Unsigned4(body, 0) == e.tow && Unsigned2(body, 4) == e.wnc
            && body[6..12] == [|rows|, 20, 12, e.commonFlags, e.clkJumps, 0]
            && forall k :: 0 <= k < |rows| ==> body[12 + 20 * k..32 + 20 * k] == EncodeType1(rows[k])
  {
    hide Records, EncodeType1, U16, U32, Unsigned2, Unsigned4;
    var body, e := BuildMeasEpochBody(rows).value, rows[0].epoch;
    var head := Header(e, |rows|);
    HeaderRead(e, |rows|, Records(rows));
    assert U32(body, 0) == e.tow && U16(body, 4) == e.wnc;
    SameNumbers(body, 0);
    SameNumbers(body, 4);
    assert body[6..12] == head[6..12];
    forall k | 0 <= k < |rows| ensures body[12 + 20 * k..32 + 20 * k] == EncodeType1(rows[k]) {
      RecordAt(body, head, rows, k);
    }
  }

  lemma {:induction false} CutAt(body: seq<byte>, off: nat, n: nat, len: nat, k: nat)
    requires off + n * len <= |body| && k < n
    ensures off + k * len + len <= |body|
    ensures Cuts(body, off, n, len)[k] == body[off + k * len..off + k * len + len]
    decreases k
  {
    Regroup(k, n, len);
    Regroup(1, n, len);
    NextCut(body, off, n, len);
    if k == 0 {
      assert 0 * len == 0;
    } else {
      CutAt(body, off + len, n - 1, len, k - 1);
      Regroup(k - 1, k, len);
    }
  }

  /**
   A MeasExtra body: byte 7 is the length of the sub-blocks, which follow each other from byte 12 on.
   Byte 6 gives their number modulo 256: there are as many as fit and agree with it, or, if no
   positive number does both, as many as fit.
   */
  lemma ExtraReading(body: seq<byte>, k: nat)
    requires |body| >= 12 && body[7] > 0
    ensures var len, blocks := body[7] as int, SubBlocks(body).blocks;
            && 12 + |blocks| * len <= |body|
            && (k < |blocks| ==> 12 + k * len + len <= |body| && blocks[k] == body[12 + k * len..12 + k * len + len])
            && (0 < k && k * len <= |body| - 12 && k % 256 == body[6] ==>
                  k <= |blocks| && |blocks| % 256 == body[6])
            && (|blocks| == 0 || |blocks| % 256 != body[6] ==> |blocks| == (|body| - 12) / len)
  {
    var len: nat, payload: nat, low := body[7], |body| - 12, body[6];
    var n := SubBlockCount(payload, len, low);
    CountRecovered(payload, len, low);
    assert SubBlocks(body).blocks == Cuts(body, 12, n, len);
    hide SubBlockCount, SubBlocks, Cuts;
    if k < n { CutAt(body, 12, n, len, k); }
    assert 0 < k && k * len <= payload && k % 256 == low ==> Admissible(k, payload, len, low);
    if n == 0 || n % 256 != low {
      assert !Admissible(n, payload, len, low);
      assert forall j: nat :: !Admissible(j, payload, len, low);
    }
  }

  lemma NoExtras(body: seq<byte>)
    requires |body| < 12 || body[7] == 0
    ensures SubBlocks(body).blocks == []
  {
  }
}
