/** Encoding a decoded observation as a Type-1 record and decoding it again. */
module ObservationRoundTrip {
  import opened Bytes
  import opened Observation

  /** The frequency that the row's own fields give. */
  function RowFrequency(row: Row): (r: Option<real>)
    ensures r.Some? ==> r.value > 0.0
  {
    CarrierFrequency(row.signal, 0, row.glo)
  }

  /** A GLONASS observation whose frequency number got lost: its parent was not GLONASS. */
  predicate Orphan(row: Row) { IsGlonass(row.signal) && row.glo.None? }

  /** The carrier is a relative phase of 24 bits on top of the pseudorange. */
  ghost predicate PhaseOf(row: Row, m: int) {
    && -128 * 0x1_0000 <= m < 128 * 0x1_0000
    && row.pseudorange.Some? && row.carrier.Some? && RowFrequency(row).Some?
    && row.carrier.value == Phase(row.pseudorange.value, RowFrequency(row).value, m)
  }

  /** What holds of every row that the decoder produces. */
  ghost predicate Decoded(row: Row) {
    && row.antenna < 8 && row.signal < 64 && row.signal != 31
    && (!IsGlonass(row.signal) ==> row.glo.None?)
    && (row.cn0.Some? ==> row.cn0.value < 255) && (row.lock.Some? ==> row.lock.value < 65535)
    && (row.carrier.Some? ==> row.pseudorange.Some?)
    && (row.carrier.Some? && !Orphan(row) ==> exists m :: PhaseOf(row, m))
  }

  /** The row can be written as a Type-1 record without loss, Doppler rounding aside. */
  predicate Representable(row: Row) {
    && (row.pseudorange.Some? ==> 0 < row.pseudorange.value < CODE_RANGE)
    && (8 <= row.signal <= 11 ==> row.glo.Some?)
    && (row.signal == 12 ==> row.glo == Some(-8))
    && (row.doppler.Some? ==> -0x7FFF_FFFF <= Round(row.doppler.value) <= 0x7FFF_FFFF)
    && PhaseFits(row)
  }

  /** The relative carrier phase is within the range that the encoder does not take for "not available". */
  predicate PhaseFits(row: Row) {
    row.carrier.Some? && row.pseudorange.Some? && RowFrequency(row).Some? ==>
      RelativePhase(row.pseudorange.value, RowFrequency(row).value, row.carrier.value) >= -127 * 0x1_0000
  }

  /** The row as a first-level observation of `epoch`, its Doppler rounded to the record's unit. */
  function Flattened(epoch: Epoch, row: Row): Row {
    row.(epoch := epoch, level := 1,
         doppler := if row.doppler.Some? then Some(Round(row.doppler.value) as real) else None)
  }

  predicate WholeUnits(doppler: real) { doppler == doppler.Floor as real }

  // --- Decoded rows ------------------------------------------------------------

  lemma CarrierDecoded(row: Row, info: byte, msb: int, lsb: nat)
    requires -128 <= msb < 128 && lsb < 0x1_0000
    requires row.carrier
          == CarrierOf(row.pseudorange, CarrierFrequency(row.signal, info, row.glo), msb, lsb)
    requires row.carrier.Some? && !Orphan(row)
    ensures PhaseOf(row, msb * 0x1_0000 + lsb)
  {
    hide CarrierFrequency, Phase;
    FrequencyFromNumber(row.signal, info, 0, row.glo);
  }

  lemma Type1Decoded(epoch: Epoch, r: seq<byte>)
    requires |r| == 20
    ensures Decoded(ParseType1(epoch, r).row)
    ensures ParseType1(epoch, r).row.doppler.Some? ==>
              WholeUnits(ParseType1(epoch, r).row.doppler.value)
  {
    hide CarrierFrequency, Phase;
    var row := ParseType1(epoch, r).row;
    if row.carrier.Some? {
      CarrierDecoded(row, r[18], Signed(r[14], 0x80), U16(r, 12));
    }
  }

  lemma Type2Decoded(parent: Parsed, r: seq<byte>)
    requires |r| == 12 && (parent.freq.Some? ==> parent.freq.value > 0.0)
    ensures Decoded(ParseType2(parent, r).row)
  {
    hide CarrierFrequency, Phase;
    var row := ParseType2(parent, r).row;
    if row.carrier.Some? && !Orphan(row) {
      CarrierDecoded(row, r[5], Signed(r[4], 0x80), U16(r, 8));
    }
  }

  // --- The record --------------------------------------------------------------

  lemma EncodedLayout(row: Row)
    ensures var info := ObsInfoFor(row);
            var carrier, code := EncodeCarrier(row, info), EncodeCode(row.pseudorange);
            Unpack(EncodeType1(row))
            == Fields(row.rxChannel, TypeByteFor(row), row.svid, code.0, code.1, EncodeDoppler(row.doppler),
                      carrier.0, carrier.1, if row.cn0.None? then 255 else row.cn0.value % 0x100,
                      if row.lock.None? || row.lock.value > 65535 then 65535 else row.lock.value, info)
    ensures EncodeType1(row)[19] == 0
  {
    hide TypeByteFor, ObsInfoFor, EncodeCode, EncodeDoppler, EncodeCarrier;
    var r := EncodeType1(row);
    var code := Le32(EncodeCode(row.pseudorange).1);
    var doppler := Le32(Unsigned(EncodeDoppler(row.doppler), 0x8000_0000));
    assert U32(r, 4) == U32(code, 0);
    assert U32(r, 8) == U32(doppler, 0);
  }

  lemma SignalKept(row: Row)
    requires row.antenna < 8 && row.signal < 64 && row.signal != 31
    ensures AntennaId(TypeByteFor(row)) == row.antenna
    ensures SignalType(TypeByteFor(row), ObsInfoFor(row)) == row.signal
    ensures (ObsInfoFor(row) % 2 == 1) == row.smoothed && (ObsInfoFor(row) / 4 % 2 == 1) == row.halfCycle
  {
    InfoParts(row);
    hide ObsInfoFor;
    var t := TypeByteFor(row);
    assert t == row.antenna * 32 + if row.signal >= 32 then 31 else row.signal;
    hide TypeByteFor;
    assert t / 32 == row.antenna && t % 32 == if row.signal >= 32 then 31 else row.signal;
  }

  lemma PackedInfo(top: nat, smoothed: bool, halfCycle: bool)
    requires top < 32
    ensures var info := (if smoothed then 1 else 0) + (if halfCycle then 4 else 0) + 8 * top;
            info / 8 == top && (info % 2 == 1) == smoothed && (info / 4 % 2 == 1) == halfCycle
  {
  }

  lemma InfoParts(row: Row)
    requires row.signal < 64
    ensures var info := ObsInfoFor(row);
            && (info % 2 == 1) == row.smoothed && (info / 4 % 2 == 1) == row.halfCycle
            && info / 8 == if row.signal >= 32 then row.signal - 32
                           else if 8 <= row.signal <= 11 && row.glo.Some? then (row.glo.value + 8) % 32
                           else 0
  {
    var top := if row.signal >= 32 then row.signal - 32
               else if 8 <= row.signal <= 11 && row.glo.Some? then (row.glo.value + 8) % 32
               else 0;
    assert 0 <= top < 32;
    PackedInfo(top, row.smoothed, row.halfCycle);
  }

  lemma NumberKept(row: Row)
    requires Decoded(row)
    ensures GlonassFreqNumber(row.signal, ObsInfoFor(row)) == row.glo
            <==> (8 <= row.signal <= 11 ==> row.glo.Some?) && (row.signal == 12 ==> row.glo == Some(-8))
  {
    hide PhaseOf, ObsInfoFor;
    InfoParts(row);
  }

  lemma CodeKept(pseudorange: Option<int>)
    ensures CodeOf(EncodeCode(pseudorange).0, EncodeCode(pseudorange).1) == pseudorange
            <==> (pseudorange.Some? ==> 0 < pseudorange.value < CODE_RANGE)
  {
    if pseudorange.Some? && pseudorange.value > 0 {
      var v := pseudorange.value;
      assert v == v / 0x1_0000_0000 * 0x1_0000_0000 + v % 0x1_0000_0000;
    }
  }

  lemma DopplerKept(doppler: Option<real>)
    ensures DopplerOf(EncodeDoppler(doppler))
            == (if doppler.Some? then Some(Round(doppler.value) as real) else None)
            <==> (doppler.Some? ==> -0x7FFF_FFFF <= Round(doppler.value) <= 0x7FFF_FFFF)
  {
    hide Round;
  }

  lemma CarrierKept(row: Row)
    requires Decoded(row) && !Orphan(row)
    ensures var back := EncodeCarrier(row, ObsInfoFor(row));
            CarrierOf(row.pseudorange, RowFrequency(row), back.1, back.0) == row.carrier <==> PhaseFits(row)
  {
    hide CarrierFrequency, Phase, RelativePhase, ObsInfoFor;
    FrequencyFromNumber(row.signal, ObsInfoFor(row), 0, row.glo);
    if row.carrier.Some? {
      var m :| PhaseOf(row, m);
      RelativePhaseExact(row.pseudorange.value, RowFrequency(row).value, m);
      assert m / 0x1_0000 <= 127;
      assert m / 0x1_0000 < -127 <==> m < -127 * 0x1_0000;
    }
  }

  /** What decoding the encoded row gives, field by field. */
  lemma ReadBack(epoch: Epoch, row: Row)
    requires Decoded(row)
    ensures var back := ParseType1(epoch, EncodeType1(row)).row;
            var carrier := EncodeCarrier(row, ObsInfoFor(row));
            var glo := GlonassFreqNumber(row.signal, ObsInfoFor(row));
            && back == row.(epoch := epoch, level := 1, glo := glo,
                            pseudorange := CodeOf(EncodeCode(row.pseudorange).0, EncodeCode(row.pseudorange).1),
                            doppler := DopplerOf(EncodeDoppler(row.doppler)),
                            carrier := CarrierOf(CodeOf(EncodeCode(row.pseudorange).0, EncodeCode(row.pseudorange).1),
                                                 CarrierFrequency(row.signal, ObsInfoFor(row), glo),
                                                 carrier.1, carrier.0))
  {
    hide PhaseOf, CarrierFrequency, EncodeType1, EncodeCarrier, EncodeCode, EncodeDoppler, CarrierOf, ObsInfoFor,
      TypeByteFor, SignalType, AntennaId, Unpack, CodeOf, DopplerOf, GlonassFreqNumber;
    EncodedLayout(row);
    SignalKept(row);
  }

  /**
   The record reads back as the row that was written, its Doppler rounded, exactly when the row is
   representable.
   */
  lemma RowRoundTrip(epoch: Epoch, row: Row)
    requires Decoded(row)
    ensures ParseType1(epoch, EncodeType1(row)).row == Flattened(epoch, row) <==> Representable(row)
  {
    ReadBack(epoch, row);
    NumberKept(row);
    CodeKept(row.pseudorange);
    DopplerKept(row.doppler);
    hide PhaseOf, CarrierFrequency, EncodeType1, EncodeCarrier, EncodeCode, EncodeDoppler, CarrierOf, ObsInfoFor,
      CodeOf, DopplerOf, ParseType1, Round, RelativePhase;
    if Orphan(row) {
    } else {
      CarrierKept(row);
      FrequencyFromNumber(row.signal, ObsInfoFor(row), 0, row.glo);
    }
  }

  // --- What comes back -----------------------------------------------------------

  /** A pseudorange is written in 36 bits; what is not positive is not written. */
  function CodeBack(pseudorange: Option<int>): Option<int> {
    if pseudorange.None? || pseudorange.value <= 0 || pseudorange.value % 68_719_476_736 == 0 then None
    else Some(pseudorange.value % 68_719_476_736)
  }

  /** A Doppler shift is rounded and kept within 31 bits and a sign. */
  function DopplerBack(doppler: Option<real>): Option<real> {
    if doppler.None? then None
    else
      var n := Round(doppler.value);
      Some((if n < -2_147_483_647 then -2_147_483_647 else if n > 2_147_483_647 then 2_147_483_647 else n) as real)
  }

  /** The GLONASS number is written for signals 8 to 11, if there is one; else five zero bits are read. */
  function NumberBack(row: Row): Option<FreqNumber> {
    if row.signal == 12 || (8 <= row.signal <= 11 && row.glo.None?) then Some(-8) else row.glo
  }

  /** The number by which the encoder finds the carrier frequency. */
  function NumberUsed(row: Row): Option<FreqNumber> {
    if IsGlonass(row.signal) && row.glo.None? then Some(-8) else row.glo
  }

  /**
   A carrier phase is written relative to the pseudorange, if it is at most 127 times 65.536 cycles
   below and less than 128 times above it, and read back relative to what was written of that.
   */
  function CarrierBack(row: Row): Option<real> {
    var code := CodeBack(row.pseudorange);
    var from, to := CarrierFrequency(row.signal, 0, NumberUsed(row)), CarrierFrequency(row.signal, 0, NumberBack(row));
    if code.None? || row.pseudorange.None? || row.carrier.None? || from.None? || to.None? then None
    else
      var m := RelativePhase(row.pseudorange.value, from.value, row.carrier.value);
      if -127 * 65_536 <= m < 128 * 65_536 then Some(Phase(code.value, to.value, m)) else None
  }

  lemma CodeComesBack(pseudorange: Option<int>)
    ensures CodeOf(EncodeCode(pseudorange).0, EncodeCode(pseudorange).1) == CodeBack(pseudorange)
  {
    if pseudorange.Some? && pseudorange.value > 0 { SplitCode(pseudorange.value); }
  }

  lemma SplitCode(v: nat)
    ensures v / 0x1_0000_0000 % 16 * 0x1_0000_0000 + v % 0x1_0000_0000 == v % 68_719_476_736
  {
    var high, low := v / 0x1_0000_0000, v % 0x1_0000_0000;
    assert v == 68_719_476_736 * (high / 16) + (high % 16 * 0x1_0000_0000 + low);
  }

  lemma DopplerComesBack(doppler: Option<real>)
    ensures DopplerOf(EncodeDoppler(doppler)) == DopplerBack(doppler)
  {
    hide Round;
  }

  lemma NumberComesBack(row: Row)
    requires row.signal < 64 && (!IsGlonass(row.signal) ==> row.glo.None?)
    ensures GlonassFreqNumber(row.signal, ObsInfoFor(row)) == NumberBack(row)
  {
    InfoParts(row);
    hide ObsInfoFor;
  }

  lemma CarrierComesBack(row: Row)
    requires row.signal < 64 && (!IsGlonass(row.signal) ==> row.glo.None?)
    ensures var parts := EncodeCarrier(row, ObsInfoFor(row));
            CarrierOf(CodeBack(row.pseudorange), CarrierFrequency(row.signal, ObsInfoFor(row), NumberBack(row)),
                      parts.1, parts.0)
            == CarrierBack(row)
  {
    NumberComesBack(row);
    UsedNumber(row);
    hide ObsInfoFor, CarrierFrequency, Phase, RelativePhase;
    FrequencyFromNumber(row.signal, ObsInfoFor(row), 0, NumberBack(row));
    FrequencyFromNumber(row.signal, ObsInfoFor(row), 0, NumberUsed(row));
  }

  lemma UsedNumber(row: Row)
    requires row.signal < 64 && (!IsGlonass(row.signal) ==> row.glo.None?)
    ensures CarrierFrequency(row.signal, ObsInfoFor(row), row.glo)
         == CarrierFrequency(row.signal, ObsInfoFor(row), NumberUsed(row))
  {
    InfoParts(row);
    hide ObsInfoFor;
    if IsGlonass(row.signal) && row.glo.None? { ChannelFrequencies(row.signal, ObsInfoFor(row), -8); }
  }

  /** Exactly what a decoded row that was written is read back as. */
  lemma WrittenBack(epoch: Epoch, row: Row)
    requires Decoded(row)
    ensures ParseType1(epoch, EncodeType1(row)).row
         == row.(epoch := epoch, level := 1, glo := NumberBack(row), pseudorange := CodeBack(row.pseudorange),
                 doppler := DopplerBack(row.doppler), carrier := CarrierBack(row))
  {
    hide PhaseOf, CarrierFrequency, EncodeType1, EncodeCarrier, EncodeCode, EncodeDoppler, CarrierOf, ObsInfoFor,
      CodeOf, DopplerOf, ParseType1, GlonassFreqNumber, CodeBack, DopplerBack, CarrierBack, NumberBack;
    ReadBack(epoch, row);
    CodeComesBack(row.pseudorange);
    DopplerComesBack(row.doppler);
    NumberComesBack(row);
    CarrierComesBack(row);
  }

  /**
   What is left of a row that was written and read back: everything but pseudorange, carrier phase,
   Doppler shift and GLONASS number always, each of those exactly under its own condition, and the
   whole row exactly when it is representable.
   */
  ghost predicate RowAgrees(got: Row, row: Row) {
    && got == row.(level := 1, glo := NumberBack(row), pseudorange := CodeBack(row.pseudorange),
                   doppler := DopplerBack(row.doppler), carrier := CarrierBack(row))
    && (got.pseudorange == row.pseudorange <==> (row.pseudorange.Some? ==> 0 < row.pseudorange.value < CODE_RANGE))
    && (got.glo == row.glo
        <==> (8 <= row.signal <= 11 ==> row.glo.Some?) && (row.signal == 12 ==> row.glo == Some(-8)))
    && (got.doppler == Flattened(row.epoch, row).doppler
        <==> (row.doppler.Some? ==> -0x7FFF_FFFF <= Round(row.doppler.value) <= 0x7FFF_FFFF))
    && (row.carrier.None? || row.pseudorange.None? ==> got.carrier.None?)
    && (got.pseudorange == row.pseudorange && got.glo == row.glo ==>
          (got.carrier == row.carrier <==> PhaseFits(row)))
    && (got == Flattened(row.epoch, row) <==> Representable(row))
  }

  lemma RowReread(row: Row)
    requires Decoded(row)
    ensures RowAgrees(ParseType1(row.epoch, EncodeType1(row)).row, row)
  {
    RowRoundTrip(row.epoch, row);
    ReadBack(row.epoch, row);
    WrittenBack(row.epoch, row);
    NumberKept(row);
    CodeKept(row.pseudorange);
    DopplerKept(row.doppler);
    if row.carrier.None? || row.pseudorange.None? { NoCarrier(row); }
    if !Orphan(row) {
      CarrierKept(row);
      FrequencyFromNumber(row.signal, ObsInfoFor(row), 0, row.glo);
    }
    hide PhaseOf, CarrierFrequency, EncodeType1, EncodeCarrier, EncodeCode, EncodeDoppler, CarrierOf, ObsInfoFor,
      CodeOf, DopplerOf, ParseType1, Round, RelativePhase, Representable, NumberBack, CodeBack, DopplerBack,
      CarrierBack;
  }

  /** The row comes back from being written and read once more just as it is. */
  ghost predicate Stable(row: Row) { Representable(row) && Flattened(row.epoch, row) == row }

  /** What was written and read back once is stable, whatever it was before. */
  lemma RereadStable(epoch: Epoch, row: Row)
    requires Decoded(row)
    ensures Stable(ParseType1(epoch, EncodeType1(row)).row)
  {
    var back := ParseType1(epoch, EncodeType1(row)).row;
    ReadBack(epoch, row);
    InfoParts(row);
    CodeInRange(row.pseudorange);
    DopplerInRange(row.doppler);
    var freq := CarrierFrequency(row.signal, ObsInfoFor(row), back.glo);
    var parts := EncodeCarrier(row, ObsInfoFor(row));
    CarrierParts(row, ObsInfoFor(row));
    hide ParseType1, EncodeType1, CarrierFrequency, EncodeCarrier, EncodeCode, EncodeDoppler, CodeOf, DopplerOf,
      ObsInfoFor, Phase, RelativePhase, Decoded, Round;
    FrequencyFromNumber(row.signal, ObsInfoFor(row), 0, back.glo);
    if back.carrier.Some? {
      RelativePhaseExact(back.pseudorange.value, freq.value, parts.1 * 0x1_0000 + parts.0);
    }
  }

  lemma CodeInRange(pseudorange: Option<int>)
    ensures var back := CodeOf(EncodeCode(pseudorange).0, EncodeCode(pseudorange).1);
            back.Some? ==> 0 < back.value < CODE_RANGE
  {
  }

  lemma DopplerInRange(doppler: Option<real>)
    ensures var back := DopplerOf(EncodeDoppler(doppler));
            back.Some? ==> back.value == Round(back.value) as real && -0x7FFF_FFFF <= Round(back.value) <= 0x7FFF_FFFF
  {
    RoundInt(EncodeDoppler(doppler));
    hide Round;
  }

  lemma CarrierParts(row: Row, info: byte)
    ensures EncodeCarrier(row, info) == (0, -128) || EncodeCarrier(row, info).1 >= -127
  {
  }

  lemma NoCarrier(row: Row)
    requires row.carrier.None? || row.pseudorange.None?
    ensures var back := EncodeCarrier(row, ObsInfoFor(row));
            forall pseudorange: Option<int>, freq: Option<real> :: (freq.Some? ==> freq.value > 0.0) ==>
              CarrierOf(pseudorange, freq, back.1, back.0).None?
  {
  }

  /** The Doppler that is read back is exact for whole units and within half a unit otherwise. */
  lemma DopplerAccuracy(epoch: Epoch, row: Row)
    ensures Flattened(epoch, row).doppler.Some? == row.doppler.Some?
    ensures row.doppler.Some? ==>
              -0.5 <= Flattened(epoch, row).doppler.value - row.doppler.value <= 0.5
    ensures row.doppler.Some? && WholeUnits(row.doppler.value) ==>
              Flattened(epoch, row).doppler == row.doppler
  {
    if row.doppler.Some? {
      RoundNear(row.doppler.value);
      RoundInt(row.doppler.value.Floor);
    }
  }

  /** GLONASS L3 does not keep its frequency number: whatever it was, it reads back as -8. */
  lemma GlonassL3Lost(epoch: Epoch, row: Row)
    requires Decoded(row) && row.signal == 12
    ensures ParseType1(epoch, EncodeType1(row)).row.glo == Some(-8)
  {
    hide PhaseOf, RowFrequency, CarrierFrequency;
    ReadBack(epoch, row);
    InfoParts(row);
    hide ObsInfoFor, EncodeCarrier, EncodeCode, EncodeDoppler, CodeOf, DopplerOf, CarrierOf, ParseType1, EncodeType1;
  }

  /** A first-level GLONASS L3 record of channel -1. */
  const L3_RECORD: seq<byte> := [0, 12, 0, 0, 0, 0, 0, 0, 0, 0, 0, 0, 0, 0, 0, 0, 0, 0, 56, 0]

  /** Such a row is really decoded, from this record; it does not survive. */
  lemma GlonassL3Record(epoch: Epoch)
    ensures var row := ParseType1(epoch, L3_RECORD).row;
            && row.signal == 12 && row.glo == Some(-1) && !Representable(row)
            && ParseType1(epoch, EncodeType1(row)).row.glo == Some(-8)
  {
    hide ParseType1, EncodeType1, Decoded, RelativePhase, RowFrequency;
    SignalFields(epoch, L3_RECORD);
    Type1Decoded(epoch, L3_RECORD);
    GlonassL3Lost(epoch, ParseType1(epoch, L3_RECORD).row);
  }

  lemma SignalFields(epoch: Epoch, r: seq<byte>)
    requires |r| == 20
    ensures var row := ParseType1(epoch, r).row;
            row.signal == SignalType(r[1], r[18]) && row.glo == GlonassFreqNumber(row.signal, r[18])
  {
    hide CarrierFrequency, CarrierOf, CodeOf, DopplerOf, SignalType, GlonassFreqNumber;
  }

  // --- Second-level records ----------------------------------------------------

  /**
   The second-level record with these offsets: 19 bits of millimetres, 21 bits of 0.1 mHz and
   24 bits of thousandths of a cycle, each in two's complement with its high part kept apart.
   */
  function Type2Record(typeB: byte, lock: byte, cn0: byte, info: byte, code: int, carrier: int, doppler: int)
    : (r: seq<byte>)
    requires -0x4_0000 <= code < 0x4_0000 && -0x10_0000 <= doppler < 0x10_0000
    requires -0x80_0000 <= carrier < 0x80_0000
    ensures |r| == 12
  {
    var c, d, p := Unsigned(code, 0x4_0000), Unsigned(doppler, 0x10_0000), Unsigned(carrier, 0x80_0000);
    [typeB, lock, cn0, c / 0x1_0000 + 8 * (d / 0x1_0000), p / 0x1_0000, info]
    + Le16(c % 0x1_0000) + Le16(p % 0x1_0000) + Le16(d % 0x1_0000)
  }

  lemma SplitSigned(v: int, high: nat)
    requires 0 < high && -(0x1_0000 * high as int) <= v < 0x1_0000 * high
    ensures var u := Unsigned(v, 0x1_0000 * high);
            && u / 0x1_0000 < 2 * high
            && Signed(u / 0x1_0000, high) * 0x1_0000 + u % 0x1_0000 == v
            && ((Signed(u / 0x1_0000, high) == -(high as int) && u % 0x1_0000 == 0)
                <==> v == -(0x1_0000 * high as int))
  {
  }

  /** The parts `msb` and `lsb` of a record make up the offset `v`. */
  ghost predicate Parts(v: int, high: nat, msb: int, lsb: word) {
    && msb * 0x1_0000 + lsb == v
    && ((msb == -(high as int) && lsb == 0) <==> v == -(0x1_0000 * high as int))
  }

  lemma Type2Layout(typeB: byte, lock: byte, cn0: byte, info: byte, code: int, carrier: int, doppler: int)
    requires -0x4_0000 <= code < 0x4_0000 && -0x10_0000 <= doppler < 0x10_0000
    requires -0x80_0000 <= carrier < 0x80_0000
    ensures var f := Unpack2(Type2Record(typeB, lock, cn0, info, code, carrier, doppler));
            && f.typeB == typeB && f.lock == lock && f.cn0Raw == cn0 && f.info == info
            && Parts(code, 4, f.codeMsb, f.codeLsb) && Parts(doppler, 16, f.dopplerMsb, f.dopplerLsb)
            && Parts(carrier, 0x80, f.carrierMsb, f.carrierLsb)
  {
    Type2Fields(typeB, lock, cn0, info, code, carrier, doppler);
    hide Type2Record, Signed, Unsigned, U16;
    SplitSigned(code, 4);
    SplitSigned(doppler, 16);
    SplitSigned(carrier, 0x80);
  }

  /** Where the record keeps the parts of its offsets. */
  lemma Type2Fields(typeB: byte, lock: byte, cn0: byte, info: byte, code: int, carrier: int, doppler: int)
    requires -0x4_0000 <= code < 0x4_0000 && -0x10_0000 <= doppler < 0x10_0000
    requires -0x80_0000 <= carrier < 0x80_0000
    ensures var r := Type2Record(typeB, lock, cn0, info, code, carrier, doppler);
            var c, d, p := Unsigned(code, 0x4_0000), Unsigned(doppler, 0x10_0000), Unsigned(carrier, 0x80_0000);
            && r[0] == typeB && r[1] == lock && r[2] == cn0 && r[5] == info
            && r[3] % 8 == c / 0x1_0000 && U16(r, 6) == c % 0x1_0000
            && r[3] / 8 == d / 0x1_0000 && U16(r, 10) == d % 0x1_0000
            && r[4] == p / 0x1_0000 && U16(r, 8) == p % 0x1_0000
  {
    hide Unsigned, Signed;
    var r := Type2Record(typeB, lock, cn0, info, code, carrier, doppler);
    var c, d, p := Unsigned(code, 0x4_0000), Unsigned(doppler, 0x10_0000), Unsigned(carrier, 0x80_0000);
    assert U16(r, 6) == U16(Le16(c % 0x1_0000), 0);
    assert U16(r, 8) == U16(Le16(p % 0x1_0000), 0);
    assert U16(r, 10) == U16(Le16(d % 0x1_0000), 0);
  }

  /** The offsets that a second-level record holds, put together from their parts. */
  function CodeOffset(r: seq<byte>): (v: int)
    requires |r| == 12
    ensures -0x4_0000 <= v < 0x4_0000
  {
    Signed(r[3] % 8 * 0x1_0000 + U16(r, 6), 0x4_0000)
  }

  function CarrierOffset(r: seq<byte>): (v: int)
    requires |r| == 12
    ensures -0x80_0000 <= v < 0x80_0000
  {
    Signed(r[4] as int * 0x1_0000 + U16(r, 8), 0x80_0000)
  }

  function DopplerOffset(r: seq<byte>): (v: int)
    requires |r| == 12
    ensures -0x10_0000 <= v < 0x10_0000
  {
    Signed(r[3] / 8 * 0x1_0000 + U16(r, 10), 0x10_0000)
  }

  lemma SignedBack(v: nat, half: nat)
    requires v < 2 * half
    ensures -(half as int) <= Signed(v, half) < half && Unsigned(Signed(v, half), half) == v
  {
  }

  lemma Joined(hi: nat, s: seq<byte>, i: nat)
    requires i + 2 <= |s|
    ensures var v := hi * 0x1_0000 + U16(s, i);
            v / 0x1_0000 == hi && Le16(v % 0x1_0000) == [s[i], s[i + 1]]
  {
    var v := hi * 0x1_0000 + U16(s, i);
    assert v / 0x1_0000 == hi && v % 0x1_0000 == U16(s, i);
    assert U16(s, i) % 0x100 == s[i] && U16(s, i) / 0x100 == s[i + 1];
  }

  /** Every second-level record is the one with the offsets it holds. */
  lemma Type2Complete(r: seq<byte>)
    requires |r| == 12
    ensures r == Type2Record(r[0], r[1], r[2], r[5], CodeOffset(r), CarrierOffset(r), DopplerOffset(r))
  {
    hide U16, Signed, Unsigned, Le16;
    SignedBack(r[3] % 8 * 0x1_0000 + U16(r, 6), 0x4_0000);
    SignedBack(r[4] as int * 0x1_0000 + U16(r, 8), 0x80_0000);
    SignedBack(r[3] / 8 * 0x1_0000 + U16(r, 10), 0x10_0000);
    Joined(r[3] % 8, r, 6);
    Joined(r[4], r, 8);
    Joined(r[3] / 8, r, 10);
    var made := Type2Record(r[0], r[1], r[2], r[5], CodeOffset(r), CarrierOffset(r), DopplerOffset(r));
    assert made == [r[0], r[1], r[2], r[3] % 8 + 8 * (r[3] / 8), r[4], r[5]]
                   + [r[6], r[7]] + [r[8], r[9]] + [r[10], r[11]];
  }

  /**
   Every second-level record is read as its parent plus the offsets it holds, the Doppler shift
   first scaled by the ratio of the carrier frequencies where both are known. The most negative
   offset of each kind stands for "not available".
   */
  lemma Type2Reading(parent: Parsed, typeB: byte, lock: byte, cn0: byte, info: byte,
                     code: int, carrier: int, doppler: int)
    requires -0x4_0000 <= code < 0x4_0000 && -0x10_0000 <= doppler < 0x10_0000
    requires -0x80_0000 <= carrier < 0x80_0000
    requires parent.freq.Some? ==> parent.freq.value > 0.0
    ensures var p := ParseType2(parent, Type2Record(typeB, lock, cn0, info, code, carrier, doppler));
            && (p.row.pseudorange.Some? <==> parent.row.pseudorange.Some? && code != -0x4_0000)
            && (p.row.pseudorange.Some? ==> p.row.pseudorange.value == parent.row.pseudorange.value + code)
            && (p.row.doppler.Some? <==> parent.row.doppler.Some? && doppler != -0x10_0000)
            && (p.row.doppler.Some? && p.freq.Some? && parent.freq.Some? ==>
                  (p.row.doppler.value - doppler as real) * parent.freq.value
                  == parent.row.doppler.value * p.freq.value)
            && (p.row.doppler.Some? && (p.freq.None? || parent.freq.None?) ==>
                  p.row.doppler.value == parent.row.doppler.value + doppler as real)
            && (p.row.carrier.Some? <==> p.row.pseudorange.Some? && p.freq.Some? && carrier != -0x80_0000)
            && (p.row.carrier.Some? ==>
                  p.row.carrier.value == Phase(p.row.pseudorange.value, p.freq.value, carrier))
            && p.row.antenna == typeB / 32 && p.row.signal == SignalType(typeB, info)
            && p.row.lock == Known(lock, 255) && p.row.cn0 == Known(cn0, 255)
            && p.row.svid == parent.row.svid && p.row.rxChannel == parent.row.rxChannel
            && p.row.glo == (if IsGlonass(p.row.signal) then parent.row.glo else None)
            && p.freq == CarrierFrequency(p.row.signal, info, p.row.glo)
            && p.row.smoothed == (info % 2 == 1) && p.row.halfCycle == (info / 4 % 2 == 1)
            && p.row.epoch == parent.row.epoch && p.row.level == 2
  {
    hide CarrierFrequency, Phase, SignalType, Type2Record, Unpack2;
    Type2Layout(typeB, lock, cn0, info, code, carrier, doppler);
    var p := ParseType2(parent, Type2Record(typeB, lock, cn0, info, code, carrier, doppler));
    if p.row.doppler.Some? && p.freq.Some? && parent.freq.Some? {
      Scaled(parent.row.doppler.value, p.freq.value, parent.freq.value);
    }
  }

  lemma Scaled(x: real, a: real, b: real)
    requires b > 0.0
    ensures x * (a / b) * b == x * a
  {
    assert (a / b) * b == a;
  }
}
