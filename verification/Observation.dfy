/**
 One GNSS observation as the offline parser holds it, and its Type-1 encoding.

 Quantities are exact: pseudoranges in millimetres, carrier phases in cycles, Doppler shifts in
 units of 0.1 mHz, frequencies in Hz.
 */
module Observation {
  import opened Bytes

  const LIGHT_SPEED: real := 299_792_458.0
  const CODE_RANGE: nat := 0x10_0000_0000 // 36 bits of millimetres
  const DOPPLER_DNU: int := -0x8000_0000

  /** A GLONASS frequency number, as five bits can hold it. */
  type FreqNumber = k: int | -8 <= k < 24

  datatype Epoch = Epoch(tow: dword, wnc: word, commonFlags: byte, clkJumps: byte)

  datatype Row = Row(epoch: Epoch, level: nat, rxChannel: byte, antenna: nat, svid: byte,
                     signal: nat, glo: Option<FreqNumber>,
                     pseudorange: Option<int>, carrier: Option<real>, doppler: Option<real>,
                     cn0: Option<nat>, lock: Option<nat>, smoothed: bool, halfCycle: bool)

  /** A row together with the carrier frequency found for it. */
  datatype Parsed = Parsed(row: Row, freq: Option<real>)

  // --- Signals -----------------------------------------------------------------

  function SignalType(typeByte: byte, info: byte): (r: nat)
    ensures r < 64
  {
    if typeByte % 32 == 31 then 32 + info / 8 else typeByte % 32
  }

  function AntennaId(typeByte: byte): (r: nat)
    ensures r < 8
  {
    typeByte / 32
  }

  predicate IsGlonass(signal: nat) { 8 <= signal <= 12 }

  function GlonassFreqNumber(signal: nat, info: byte): Option<FreqNumber> {
    if IsGlonass(signal) then Some(info / 8 - 8) else None
  }

  function CarrierFrequency(signal: nat, info: byte, known: Option<FreqNumber>): (r: Option<real>)
    ensures r.Some? ==> r.value > 0.0
  {
    var glo := if known.None? then GlonassFreqNumber(signal, info) else known;
    if signal in {0, 1, 5, 6, 17, 24, 28, 32, 33, 37, 38} then Some(1575420000.0)
    else if signal in {2, 3, 7} then Some(1227600000.0)
    else if signal in {4, 15, 20, 25, 26, 39} then Some(1176450000.0)
    else if signal in {8, 9} && glo.Some? then Some(1602000000.0 + glo.value as real * 562500.0)
    else if signal in {10, 11} && glo.Some? then Some(1246000000.0 + glo.value as real * 437500.0)
    else if signal == 12 && glo.Some? then Some(1202025000.0 + glo.value as real * 437500.0)
    else if signal == 13 then Some(1575420000.0)
    else if signal == 14 then Some(1176450000.0)
    else if signal == 19 then Some(1278750000.0)
    else if signal == 21 then Some(1207140000.0)
    else if signal == 22 then Some(1191795000.0)
    else if signal == 27 then Some(1278750000.0)
    else if signal == 29 then Some(1207140000.0)
    else if signal == 30 then Some(1268520000.0)
    else if signal == 34 then Some(1207140000.0)
    else None
  }

  /** The information bits matter only for a GLONASS signal whose number is not known otherwise. */
  lemma FrequencyFromNumber(signal: nat, info: byte, info': byte, glo: Option<FreqNumber>)
    requires IsGlonass(signal) ==> glo.Some?
    ensures CarrierFrequency(signal, info, glo) == CarrierFrequency(signal, info', glo)
  {
  }

  /** The carrier frequencies that do not depend on a channel are multiples of 10.23 MHz. */
  lemma FixedFrequencies(signal: nat, info: byte, glo: Option<FreqNumber>)
    ensures signal in {0, 1, 5, 6, 13, 17, 24, 28, 32, 33, 37, 38} ==>
              CarrierFrequency(signal, info, glo) == Some(154.0 * 10_230_000.0)
    ensures signal in {2, 3, 7} ==> CarrierFrequency(signal, info, glo) == Some(120.0 * 10_230_000.0)
    ensures signal in {4, 14, 15, 20, 25, 26, 39} ==>
              CarrierFrequency(signal, info, glo) == Some(115.0 * 10_230_000.0)
    ensures signal in {19, 27} ==> CarrierFrequency(signal, info, glo) == Some(125.0 * 10_230_000.0)
    ensures signal in {21, 29, 34} ==> CarrierFrequency(signal, info, glo) == Some(118.0 * 10_230_000.0)
    ensures signal == 22 ==> CarrierFrequency(signal, info, glo) == Some(116.5 * 10_230_000.0)
    ensures signal == 30 ==> CarrierFrequency(signal, info, glo) == Some(124.0 * 10_230_000.0)
    ensures signal in {16, 18, 23, 31, 35, 36} || signal > 39 ==> CarrierFrequency(signal, info, glo).None?
  {
  }

  /**
   GLONASS has a frequency for each channel `k`: around 1602 MHz for signals 8 and 9 and around
   1246 MHz for 10 and 11, in the ratio of nine to seven, and around 1202.025 MHz for 12. A channel
   that is not known is taken from the information byte.
   */
  lemma ChannelFrequencies(signal: nat, info: byte, k: FreqNumber)
    requires 8 <= signal <= 12
    ensures signal in {8, 9} ==>
              && CarrierFrequency(signal, info, Some(k)) == Some(1_602_000_000.0 + k as real * 562_500.0)
              && 7.0 * CarrierFrequency(signal, info, Some(k)).value
                 == 9.0 * CarrierFrequency(signal + 2, info, Some(k)).value
    ensures signal in {10, 11} ==>
              CarrierFrequency(signal, info, Some(k)) == Some(1_246_000_000.0 + k as real * 437_500.0)
    ensures signal == 12 ==>
              CarrierFrequency(signal, info, Some(k)) == Some(1_202_025_000.0 + k as real * 437_500.0)
    ensures CarrierFrequency(signal, info, None) == CarrierFrequency(signal, info, Some(info / 8 - 8))
  {
  }

  // --- Arithmetic --------------------------------------------------------------

  /** Rounding to the nearest integer, ties to even. */
  function Round(x: real): int {
    var f := x.Floor;
    var d := x - f as real;
    if d < 0.5 || (d == 0.5 && f % 2 == 0) then f else f + 1
  }

  lemma RoundNear(x: real)
    ensures -0.5 <= Round(x) as real - x <= 0.5
  {
  }

  lemma RoundInt(n: int)
    ensures Round(n as real) == n
  {
  }

  /** Halfway between two integers the even one is taken. */
  lemma RoundHalf(n: int)
    ensures Round((2 * n) as real + 0.5) == 2 * n && Round((2 * n) as real - 0.5) == 2 * n
  {
    assert ((2 * n) as real + 0.5).Floor == 2 * n && ((2 * n) as real - 0.5).Floor == 2 * n - 1;
  }

  /** The length of a pseudorange in carrier cycles. */
  function CodeCycles(pseudorange: int, freq: real): real
    requires freq > 0.0
  {
    var wavelength := LIGHT_SPEED / freq;
    assert wavelength * freq == LIGHT_SPEED;
    (pseudorange as real * 0.001) / wavelength
  }

  /** A carrier phase given relative to the code, in thousandths of a cycle. */
  function Phase(pseudorange: int, freq: real, mcycles: int): real
    requires freq > 0.0
  {
    CodeCycles(pseudorange, freq) + mcycles as real * 0.001
  }

  /** A pseudorange in millimetres is this many cycles, the light going 299 792 458 m in a second. */
  lemma CodeCyclesExact(pseudorange: int, freq: real)
    requires freq > 0.0
    ensures CodeCycles(pseudorange, freq) * 299_792_458.0 * 1000.0 == pseudorange as real * freq
  {
    var wavelength := LIGHT_SPEED / freq;
    Quotient(299_792_458.0, freq);
    var metres := pseudorange as real * 0.001;
    Quotient(metres, wavelength);
    Reordered(CodeCycles(pseudorange, freq), wavelength, freq);
  }

  lemma Quotient(a: real, b: real)
    requires b > 0.0
    ensures a / b * b == a
  {
  }

  lemma Reordered(a: real, b: real, c: real)
    ensures a * b * c == a * (b * c)
  {
  }

  /** The relative phase, in thousandths of a cycle, that the encoder finds. */
  function RelativePhase(pseudorange: int, freq: real, carrier: real): int
    requires freq > 0.0
  {
    Round((carrier - CodeCycles(pseudorange, freq)) * 1000.0)
  }

  lemma RelativePhaseExact(pseudorange: int, freq: real, mcycles: int)
    requires freq > 0.0
    ensures RelativePhase(pseudorange, freq, Phase(pseudorange, freq, mcycles)) == mcycles
  {
    var c := CodeCycles(pseudorange, freq);
    hide CodeCycles;
    assert (Phase(pseudorange, freq, mcycles) - c) * 1000.0 == mcycles as real;
    RoundInt(mcycles);
  }

  // --- Decoding ----------------------------------------------------------------

  function CarrierOf(pseudorange: Option<int>, freq: Option<real>, msb: int, lsb: nat): Option<real>
    requires freq.Some? ==> freq.value > 0.0
  {
    if pseudorange.Some? && !(msb == -128 && lsb == 0) && freq.Some?
    then Some(Phase(pseudorange.value, freq.value, msb * 0x1_0000 + lsb))
    else None
  }

  function Known(value: nat, dnu: nat): Option<nat> {
    if value == dnu then None else Some(value)
  }

  /** The fields of a 20-byte Type-1 record, as numbers. */
  datatype Fields = Fields(rxChannel: byte, typeB: byte, svid: byte, misc: byte, codeLsb: dword, dopplerRaw: int,
                           carrierLsb: word, carrierMsb: int, cn0Raw: byte, lock: word, info: byte)

  function Unpack(r: seq<byte>): Fields
    requires |r| == 20
  {
    Fields(r[0], r[1], r[2], r[3], U32(r, 4), Signed(U32(r, 8), 0x8000_0000),
           U16(r, 12), Signed(r[14], 0x80), r[15], U16(r, 16), r[18])
  }

  function CodeOf(msb: nat, lsb: nat): Option<int> {
    if msb != 0 || lsb != 0 then Some(msb * 0x1_0000_0000 + lsb) else None
  }

  function DopplerOf(raw: int): Option<real> {
    if raw == DOPPLER_DNU then None else Some(raw as real)
  }

  function Interpret(epoch: Epoch, f: Fields): (p: Parsed)
    ensures p.freq.Some? ==> p.freq.value > 0.0
  {
    var signal := SignalType(f.typeB, f.info);
    var glo := GlonassFreqNumber(signal, f.info);
    var pseudorange := CodeOf(f.misc % 16, f.codeLsb);
    var freq := CarrierFrequency(signal, f.info, glo);
    Parsed(Row(epoch, 1, f.rxChannel, AntennaId(f.typeB), f.svid, signal, glo, pseudorange,
               CarrierOf(pseudorange, freq, f.carrierMsb, f.carrierLsb), DopplerOf(f.dopplerRaw),
               Known(f.cn0Raw, 255), Known(f.lock, 65535), f.info % 2 == 1, f.info / 4 % 2 == 1),
           freq)
  }

  /** The record of a satellite's first signal. */
  function ParseType1(epoch: Epoch, r: seq<byte>): (p: Parsed)
    requires |r| == 20
    ensures p.freq.Some? ==> p.freq.value > 0.0
  {
    Interpret(epoch, Unpack(r))
  }

  /** The fields of a 12-byte Type-2 record, as numbers; offsets are put together from their parts. */
  datatype Offsets = Offsets(typeB: byte, lock: byte, cn0Raw: byte, info: byte,
                             codeMsb: int, codeLsb: word, dopplerMsb: int, dopplerLsb: word,
                             carrierMsb: int, carrierLsb: word)

  function Unpack2(r: seq<byte>): Offsets
    requires |r| == 12
  {
    Offsets(r[0], r[1], r[2], r[5], Signed(r[3] % 8, 4), U16(r, 6), Signed(r[3] / 8, 16), U16(r, 10),
            Signed(r[4], 0x80), U16(r, 8))
  }

  function CodeFrom(parent: Option<int>, msb: int, lsb: word): Option<int> {
    if parent.Some? && !(msb == -4 && lsb == 0) then Some(parent.value + (msb * 0x1_0000 + lsb)) else None
  }

  function DopplerFrom(parent: Option<real>, freq: Option<real>, parentFreq: Option<real>, msb: int, lsb: word)
    : Option<real>
    requires parentFreq.Some? ==> parentFreq.value > 0.0
  {
    if parent.Some? && !(msb == -16 && lsb == 0) then
      var alpha := if freq.Some? && parentFreq.Some? then freq.value / parentFreq.value else 1.0;
      Some(parent.value * alpha + (msb * 0x1_0000 + lsb) as real)
    else None
  }

  function Interpret2(parent: Parsed, f: Offsets): (p: Parsed)
    requires parent.freq.Some? ==> parent.freq.value > 0.0
    ensures p.freq.Some? ==> p.freq.value > 0.0
  {
    var signal := SignalType(f.typeB, f.info);
    var glo := if IsGlonass(signal) then parent.row.glo else GlonassFreqNumber(signal, f.info);
    var pseudorange := CodeFrom(parent.row.pseudorange, f.codeMsb, f.codeLsb);
    var freq := CarrierFrequency(signal, f.info, glo);
    Parsed(Row(parent.row.epoch, 2, parent.row.rxChannel, AntennaId(f.typeB), parent.row.svid, signal, glo,
               pseudorange, CarrierOf(pseudorange, freq, f.carrierMsb, f.carrierLsb),
               DopplerFrom(parent.row.doppler, freq, parent.freq, f.dopplerMsb, f.dopplerLsb),
               Known(f.cn0Raw, 255), Known(f.lock, 255), f.info % 2 == 1, f.info / 4 % 2 == 1),
           freq)
  }

  /** The record of a further signal, relative to its satellite's first. */
  function ParseType2(parent: Parsed, r: seq<byte>): (p: Parsed)
    requires |r| == 12 && (parent.freq.Some? ==> parent.freq.value > 0.0)
    ensures p.freq.Some? ==> p.freq.value > 0.0
  {
    Interpret2(parent, Unpack2(r))
  }

  // --- Encoding ----------------------------------------------------------------

  function TypeByteFor(row: Row): byte {
    (row.antenna % 8) * 32 + if row.signal >= 32 then 31 else row.signal % 32
  }

  function ObsInfoFor(row: Row): byte {
    (if row.smoothed then 1 else 0) + (if row.halfCycle then 4 else 0)
    + 8 * (if row.signal >= 32 then (row.signal - 32) % 32
           else if 8 <= row.signal <= 11 && row.glo.Some? then (row.glo.value + 8) % 32
           else 0)
  }

  function EncodeCode(pseudorange: Option<int>): (r: (nat, dword))
    ensures r.0 < 16
  {
    if pseudorange.None? || pseudorange.value <= 0 then (0, 0)
    else (pseudorange.value / 0x1_0000_0000 % 16, pseudorange.value % 0x1_0000_0000)
  }

  function EncodeDoppler(doppler: Option<real>): (r: int)
    ensures -0x8000_0000 <= r < 0x8000_0000
  {
    if doppler.None? then DOPPLER_DNU
    else
      var raw := Round(doppler.value);
      if raw > 0x7FFF_FFFF then 0x7FFF_FFFF else if raw < -0x7FFF_FFFF then -0x7FFF_FFFF else raw
  }

  /** The low and high parts of the relative carrier phase. */
  function EncodeCarrier(row: Row, info: byte): (r: (nat, int))
    ensures r.0 < 0x1_0000 && -128 <= r.1 < 128
  {
    var freq := CarrierFrequency(row.signal, info, row.glo);
    if row.pseudorange.None? || row.carrier.None? || freq.None? then (0, -128)
    else
      var m := RelativePhase(row.pseudorange.value, freq.value, row.carrier.value);
      var msb := m / 0x1_0000;
      var lsb := m - msb * 0x1_0000;
      if msb < -127 || msb > 127 then (0, -128) else (lsb, msb)
  }

  function EncodeType1(row: Row): (r: seq<byte>)
    ensures |r| == 20
  {
    var info := ObsInfoFor(row);
    var code := EncodeCode(row.pseudorange);
    var carrier := EncodeCarrier(row, info);
    var cn0 := if row.cn0.None? then 255 else row.cn0.value;
    var lock := if row.lock.None? then 65535 else if row.lock.value > 65535 then 65535 else row.lock.value;
    [row.rxChannel, TypeByteFor(row), row.svid, code.0]
    + Le32(code.1) + Le32(Unsigned(EncodeDoppler(row.doppler), 0x8000_0000))
    + Le16(carrier.0) + [Unsigned(carrier.1, 0x80), cn0 % 0x100] + Le16(lock) + [info, 0]
  }
}
