/**
 The observation records of MeasEpoch blocks byte by byte: what each byte of a record means when it
 is read, and what is put into each byte when it is written.
 */
module RecordLayout {
  import opened Bytes
  import opened Observation
  import opened ObservationRoundTrip

  // --- Numbers in records ------------------------------------------------------

  /** Two bytes as an unsigned number, low byte first; and four. */
  function Unsigned2(r: seq<byte>, i: nat): int
    requires i + 2 <= |r|
  {
    r[i] as int + 256 * r[i + 1] as int
  }

  function Unsigned4(r: seq<byte>, i: nat): int
    requires i + 4 <= |r|
  {
    r[i] as int + 256 * r[i + 1] as int + 65_536 * r[i + 2] as int + 16_777_216 * r[i + 3] as int
  }

  /** The number in two's complement, of which the upper half of the range is negative. */
  function TwosComplement(v: int, range: int): int { if 2 * v >= range then v - range else v }

  lemma SameNumbers(r: seq<byte>, i: nat)
    ensures i + 2 <= |r| ==> U16(r, i) == Unsigned2(r, i)
    ensures i + 4 <= |r| ==> U32(r, i) == Unsigned4(r, i)
  {
  }

  lemma SameSigned(v: nat, half: nat)
    requires v < 2 * half
    ensures Signed(v, half) == TwosComplement(v, 2 * half)
  {
  }

  /** The signal number: the low five bits of the type byte, or from 32 on in the information byte. */
  function SignalIn(typeB: int, info: int): int {
    if typeB % 32 == 31 then 32 + info / 8 else typeB % 32
  }

  // --- Reading a first-level record ----------------------------------------------

  /** Everything but pseudorange, Doppler shift and carrier phase. */
  lemma Type1Plain(epoch: Epoch, r: seq<byte>)
    requires |r| == 20
    ensures var row := ParseType1(epoch, r).row;
            && row.epoch == epoch && row.level == 1 && row.rxChannel == r[0] && row.svid == r[2]
            && row.antenna == r[1] / 32 && row.signal == SignalIn(r[1], r[18])
            && row.glo == (if 8 <= row.signal <= 12 then Some(r[18] as int / 8 - 8) else None)
            && row.cn0 == (if r[15] == 255 then None else Some(r[15]))
            && row.lock == (if Unsigned2(r, 16) == 65_535 then None else Some(Unsigned2(r, 16)))
            && row.smoothed == (r[18] % 2 == 1) && row.halfCycle == (r[18] / 4 % 2 == 1)
  {
    hide CarrierFrequency, CarrierOf, CodeOf, DopplerOf, Signed, U32;
    SameNumbers(r, 16);
  }

  lemma Type1Numbers(epoch: Epoch, r: seq<byte>)
    requires |r| == 20
    ensures var row := ParseType1(epoch, r).row;
            var code, doppler := r[3] % 16 * 4_294_967_296 + Unsigned4(r, 4), Unsigned4(r, 8);
            && row.pseudorange == (if code == 0 then None else Some(code))
            && row.doppler == (if doppler == 2_147_483_648 then None
                               else Some(TwosComplement(doppler, 4_294_967_296) as real))
  {
    hide CarrierFrequency, CarrierOf, SignalType, GlonassFreqNumber, Known, U16, U32, Unsigned4;
    SameNumbers(r, 4);
    SameNumbers(r, 8);
    assert 0 <= Unsigned4(r, 4) < 4_294_967_296;
  }

  lemma Type1Phase(epoch: Epoch, r: seq<byte>)
    requires |r| == 20
    ensures var p := ParseType1(epoch, r);
            var phase := TwosComplement(r[14], 256) * 65_536 + Unsigned2(r, 12);
            && p.freq == CarrierFrequency(p.row.signal, r[18], p.row.glo)
            && (p.row.carrier.Some? <==> p.row.pseudorange.Some? && p.freq.Some? && phase != -128 * 65_536)
            && (p.row.carrier.Some? ==> p.row.carrier.value == Phase(p.row.pseudorange.value, p.freq.value, phase))
  {
    hide CarrierFrequency, SignalType, GlonassFreqNumber, Known, U32, CodeOf, DopplerOf, Phase;
    SameNumbers(r, 12);
    assert 0 <= Unsigned2(r, 12) < 65_536;
  }

  /** The phase is so many cycles of the light's way, and so many thousandths of a cycle. */
  lemma PhaseExact(pseudorange: int, freq: real, mcycles: int)
    requires freq > 0.0
    ensures (Phase(pseudorange, freq, mcycles) - mcycles as real / 1000.0) * 299_792_458_000.0
         == pseudorange as real * freq
  {
    CodeCyclesExact(pseudorange, freq);
    hide CodeCycles;
    assert Phase(pseudorange, freq, mcycles) - mcycles as real / 1000.0 == CodeCycles(pseudorange, freq);
  }

  /**
   Every first-level record, byte by byte: receiver channel, type, satellite, and the four high bits
   of the pseudorange in bytes 0 to 3, its low part in 4 to 7, the Doppler shift in 8 to 11, the
   relative carrier phase in 12 to 14, C/N0 in 15, the lock time in 16 and 17, information bits in 18.
   */
  lemma Type1Reading(epoch: Epoch, r: seq<byte>)
    requires |r| == 20
    ensures var p := ParseType1(epoch, r);
            var row := p.row;
            var code, doppler := r[3] % 16 * 4_294_967_296 + Unsigned4(r, 4), Unsigned4(r, 8);
            var phase := TwosComplement(r[14], 256) * 65_536 + Unsigned2(r, 12);
            && row.epoch == epoch && row.level == 1 && row.rxChannel == r[0] && row.svid == r[2]
            && row.antenna == r[1] / 32 && row.signal == SignalIn(r[1], r[18])
            && row.glo == (if 8 <= row.signal <= 12 then Some(r[18] as int / 8 - 8) else None)
            && row.cn0 == (if r[15] == 255 then None else Some(r[15]))
            && row.lock == (if Unsigned2(r, 16) == 65_535 then None else Some(Unsigned2(r, 16)))
            && row.smoothed == (r[18] % 2 == 1) && row.halfCycle == (r[18] / 4 % 2 == 1)
            && row.pseudorange == (if code == 0 then None else Some(code))
            && row.doppler == (if doppler == 2_147_483_648 then None
                               else Some(TwosComplement(doppler, 4_294_967_296) as real))
            && p.freq == CarrierFrequency(row.signal, r[18], row.glo)
            && (row.carrier.Some? <==> row.pseudorange.Some? && p.freq.Some? && phase != -128 * 65_536)
            && (row.carrier.Some? ==>
                  (row.carrier.value - phase as real / 1000.0) * 299_792_458_000.0
                  == row.pseudorange.value as real * p.freq.value)
  {
    hide ParseType1, CarrierFrequency, Unsigned4, Unsigned2, TwosComplement, SignalIn, Phase;
    Type1Plain(epoch, r);
    Type1Numbers(epoch, r);
    Type1Phase(epoch, r);
    var p := ParseType1(epoch, r);
    if p.row.carrier.Some? {
      PhaseExact(p.row.pseudorange.value, p.freq.value, TwosComplement(r[14], 256) * 65_536 + Unsigned2(r, 12));
    }
  }

  // --- Reading a second-level record ---------------------------------------------

  lemma OffsetsExact(r: seq<byte>)
    requires |r| == 12
    ensures CodeOffset(r) == TwosComplement(r[3] % 8 * 65_536 + Unsigned2(r, 6), 524_288)
    ensures DopplerOffset(r) == TwosComplement(r[3] / 8 * 65_536 + Unsigned2(r, 10), 2_097_152)
    ensures CarrierOffset(r) == TwosComplement(r[4] as int * 65_536 + Unsigned2(r, 8), 16_777_216)
  {
    SameNumbers(r, 6);
    SameNumbers(r, 8);
    SameNumbers(r, 10);
    hide U16, Unsigned2;
  }

  /**
   Every second-level record, byte by byte: type, lock time and C/N0 in bytes 0 to 2, the high parts
   of the pseudorange and Doppler offsets in 3, that of the carrier phase in 4, information bits in
   5, and the low parts in 6 to 11.
   */
  lemma Type2ReadingBytes(parent: Parsed, r: seq<byte>)
    requires |r| == 12 && (parent.freq.Some? ==> parent.freq.value > 0.0)
    ensures var p := ParseType2(parent, r);
            var row := p.row;
            var code := TwosComplement(r[3] % 8 * 65_536 + Unsigned2(r, 6), 524_288);
            var doppler := TwosComplement(r[3] / 8 * 65_536 + Unsigned2(r, 10), 2_097_152);
            var phase := TwosComplement(r[4] as int * 65_536 + Unsigned2(r, 8), 16_777_216);
            && row.epoch == parent.row.epoch && row.level == 2
            && row.rxChannel == parent.row.rxChannel && row.svid == parent.row.svid
            && row.antenna == r[0] / 32 && row.signal == SignalIn(r[0], r[5])
            && row.glo == (if 8 <= row.signal <= 12 then parent.row.glo else None)
            && row.lock == (if r[1] == 255 then None else Some(r[1]))
            && row.cn0 == (if r[2] == 255 then None else Some(r[2]))
            && row.smoothed == (r[5] % 2 == 1) && row.halfCycle == (r[5] / 4 % 2 == 1)
            && row.pseudorange == (if parent.row.pseudorange.None? || code == -262_144 then None
                                   else Some(parent.row.pseudorange.value + code))
            && p.freq == CarrierFrequency(row.signal, r[5], row.glo)
            && (row.doppler.Some? <==> parent.row.doppler.Some? && doppler != -1_048_576)
            && (row.doppler.Some? && p.freq.Some? && parent.freq.Some? ==>
                  (row.doppler.value - doppler as real) * parent.freq.value
                  == parent.row.doppler.value * p.freq.value)
            && (row.doppler.Some? && (p.freq.None? || parent.freq.None?) ==>
                  row.doppler.value == parent.row.doppler.value + doppler as real)
            && (row.carrier.Some? <==> row.pseudorange.Some? && p.freq.Some? && phase != -8_388_608)
            && (row.carrier.Some? ==>
                  (row.carrier.value - phase as real / 1000.0) * 299_792_458_000.0
                  == row.pseudorange.value as real * p.freq.value)
  {
    hide ParseType2, CarrierFrequency, Type2Record, Unsigned2, TwosComplement, Phase, CodeOffset, CarrierOffset,
      DopplerOffset;
    OffsetsExact(r);
    Type2Complete(r);
    Type2Reading(parent, r[0], r[1], r[2], r[5], CodeOffset(r), CarrierOffset(r), DopplerOffset(r));
    var p := ParseType2(parent, r);
    if p.row.carrier.Some? {
      PhaseExact(p.row.pseudorange.value, p.freq.value, CarrierOffset(r));
    }
  }

  // --- Writing a first-level record ----------------------------------------------

  /** The bytes of a written record, as the numbers that go into them. */
  lemma WrittenFields(row: Row)
    ensures var r := EncodeType1(row);
            var info := ObsInfoFor(row);
            var code, carrier := EncodeCode(row.pseudorange), EncodeCarrier(row, info);
            && r[0] == row.rxChannel && r[1] == TypeByteFor(row) && r[2] == row.svid && r[18] == info && r[19] == 0
            && r[3] == code.0 && Unsigned4(r, 4) == code.1
            && TwosComplement(Unsigned4(r, 8), 4_294_967_296) == EncodeDoppler(row.doppler)
            && Unsigned2(r, 12) == carrier.0 && TwosComplement(r[14], 256) == carrier.1
            && r[15] == (if row.cn0.None? then 255 else row.cn0.value % 256)
            && Unsigned2(r, 16) == (if row.lock.None? || row.lock.value > 65_535 then 65_535 else row.lock.value)
  {
    hide EncodeType1, ObsInfoFor, TypeByteFor, EncodeCode, EncodeDoppler, EncodeCarrier, U16, U32, Unsigned2, Unsigned4,
      Signed, TwosComplement;
    EncodedLayout(row);
    var r := EncodeType1(row);
    SameNumbers(r, 4);
    SameNumbers(r, 8);
    SameNumbers(r, 12);
    SameNumbers(r, 16);
    SameSigned(U32(r, 8), 0x8000_0000);
    SameSigned(r[14], 0x80);
  }

  /**
   Every observation, byte by byte as it is written: a pseudorange modulo 2^36 and at least one
   millimetre, a rounded and limited Doppler shift, a relative carrier phase within its range, and
   for each of them the pattern for "not available" otherwise.
   */
  lemma Type1Writing(row: Row)
    ensures var r := EncodeType1(row);
            var code := if row.pseudorange.None? || row.pseudorange.value <= 0 then 0
                        else row.pseudorange.value % 68_719_476_736;
            && |r| == 20 && r[0] == row.rxChannel && r[2] == row.svid && r[19] == 0
            && r[1] == row.antenna % 8 * 32 + (if row.signal >= 32 then 31 else row.signal)
            && r[18] == (if row.smoothed then 1 else 0) + (if row.halfCycle then 4 else 0)
                        + 8 * (if row.signal >= 32 then (row.signal - 32) % 32
                               else if 8 <= row.signal <= 11 && row.glo.Some? then (row.glo.value + 8) % 32
                               else 0)
            && r[3] * 4_294_967_296 + Unsigned4(r, 4) == code
            && TwosComplement(Unsigned4(r, 8), 4_294_967_296)
               == (if row.doppler.None? then -2_147_483_648 else DopplerBack(row.doppler).value.Floor)
            && r[15] == (if row.cn0.None? then 255 else row.cn0.value % 256)
            && Unsigned2(r, 16) == (if row.lock.None? || row.lock.value > 65_535 then 65_535 else row.lock.value)
  {
    WrittenFields(row);
    hide EncodeType1, EncodeCarrier, Round, Unsigned2, Unsigned4, TwosComplement;
    if row.pseudorange.Some? && row.pseudorange.value > 0 { SplitCode(row.pseudorange.value); }
  }

  /** The relative carrier phase as it is written. */
  lemma PhaseWriting(row: Row)
    ensures var r := EncodeType1(row);
            var phase := TwosComplement(r[14], 256) * 65_536 + Unsigned2(r, 12);
            var freq := CarrierFrequency(row.signal, r[18], row.glo);
            phase == if row.pseudorange.None? || row.carrier.None? || freq.None? then -128 * 65_536
                     else
                       var m := RelativePhase(row.pseudorange.value, freq.value, row.carrier.value);
                       if -127 * 65_536 <= m < 128 * 65_536 then m else -128 * 65_536
  {
    WrittenFields(row);
    hide EncodeType1, CarrierFrequency, RelativePhase, Unsigned2, Unsigned4, TwosComplement, ObsInfoFor;
  }
}
