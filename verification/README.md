# SBF framing pipeline: a verified model

The driver takes Septentrio SBF data from a receiver over TCP, finds the CRC-valid frames in the byte
stream, and records them in rotating files. An offline parser scans such a file again, decodes the GNSS
measurement blocks and exports them as one SBF file per antenna. An NTRIP client hands correction data from
a receiving to a processing thread. This project models that path, from raw bytes to per-antenna files, and
proves what it preserves.

Code that updates state is modelled by classes and loops (`FrameSync`, `Recorder`, `SbfSink`, `Export`,
`Ntrip`), each proved against pure specification functions; code that only computes is modelled by functions.
A ghost `history` or `log` field records what an object has been given, so that invariants speak about whole
runs, and methods such as `SyncRuns.FeedAll` or `RecorderRuns.Run` state the result for every run.

| file | models |
|---|---|
| `Bytes.dfy` | bytes, little-endian fields, concatenation |
| `Crc16.dfy`, `CrcDetection.dfy` | CRC-16/XMODEM in both forms; the polynomial remainder; detected errors |
| `CrcOrder.dfy`, `TwoBitErrors.dfy` | powers of x modulo the CRC polynomial; errors of two bits |
| `Framing.dfy`, `FrameLayout.dfy` | the frame format and the greedy scan of a stream; frames byte by byte |
| `FrameSync.dfy`, `SyncRuns.dfy`, `RejectionCounts.dfy` | the streaming synchronizer, its runs, and how often it counts a rejection |
| `FrameDamage.dfy` | line damage that never reaches the recording, and damage that can |
| `OfflineScanner.dfy` | the offline scanner, the frame printer, and the relation of the two scanners |
| `Recorder.dfy`, `RecorderRuns.dfy`, `Rotation.dfy` | the rotating recorder, its runs, and when it turns to a new file |
| `Observation.dfy`, `ObservationRoundTrip.dfy`, `MeasEpoch.dfy` | decoding and encoding of MeasEpoch blocks |
| `RecordLayout.dfy`, `EpochLayout.dfy`, `BlockLayout.dfy` | the records and blocks byte by byte, in plain numbers |
| `MeasExtra.dfy` | sub-block recovery and per-antenna selection of MeasExtra blocks |
| `SbfSink.dfy` | the lazily opened per-antenna files |
| `ExportSpec.dfy`, `ExportContents.dfy`, `Export.dfy` | the export state machine, what its files carry, and the export itself |
| `Conservation.dfy`, `ReExport.dfy` | what all files hold together; exporting an exported file |
| `Pipeline.dfy` | recording and export put together |
| `Ntrip.dfy` | the two-thread queue and the re-chunker |

Results worth pointing out, because the code or its comments suggest otherwise:

- The failure counters of the synchronizer depend on how the stream is cut into calls. Trailing junk that is
  kept after an emitted frame (src/sbf/frame_sync.cpp:360-369) is scanned again by the next call.
  `SyncRuns.CountersDependOnChunking` gives a stream. `SyncRuns.HeldAfter` computes, from the chunks alone, what
  is kept after them; `SyncRuns.FeedAll` proves that a counter exceeds the pure scan's by exactly the rejections
  in what each call finds kept, so that it is exact if and only if no call finds one there.
  `RejectionCounts.CountedAtMostTwice` proves for every single offset that it is never counted more than twice.
  Emitted frames do not depend on chunking.
- The comment that the scan cursor only moves forward (src/sbf/frame_sync.cpp:117-119) does not hold: a resync
  moves it back (`FrameSync.CursorMovesBack`). The loop still terminates, by the order on (bytes after the anchor,
  rank of the state).
- The CRC covers the Length, but damage to the Length can go unnoticed even if it is a single bit, because the
  CRC is then taken over other bytes (`FrameDamage.LengthDamageUndetected`). Of two flipped bits in ID and body it
  misses exactly those 32767 positions apart, which frames of more than 4 KiB have room for
  (`FrameDamage.TwoFlipsRejected`).
- The two scanners differ on a stream that ends inside a frame body: the synchronizer waits, the offline
  scanner looks inside. `OfflineScanner.ScannersAgree` gives the exact condition,
  `OfflineScanner.ScannersDiffer` an input.
- A MeasEpoch observation does not always survive re-encoding. `ObservationRoundTrip.RowRoundTrip` gives the
  exact condition; GLONASS L3 is one failing family (`ObservationRoundTrip.GlonassL3Lost`, with a record in
  `ObservationRoundTrip.GlonassL3Record`), because signal 12
  is decoded with a frequency number (scripts/parser.py:329) but encoded without one (scripts/parser.py:1398).
- The export of valid frames can fail in one way only: more than 255 observations of one antenna in one epoch
  (`ExportSpec.ExportFails`), which one frame of 3100 bytes can hold (`ExportSpec.ExportCanFail`).
- The comments that frame bodies are views into the synchronizer's buffer are out of date; the code copies
  them, and so does the model.

## Model

| member | source | states |
|---|---|---|
| `Crc16.SerialCrc` | scripts/parser.py:187-197 | the bit-serial loops compute the CRC specification on every byte sequence |
| `Crc16.MakeCrcTable` | src/sbf/crc16_xmodem.hpp:27-39 | every table entry is eight register shifts of its index |
| `Crc16.TableCrc` | src/sbf/crc16_xmodem.hpp:52-60 | the table-driven loop returns the same CRC as the bit-serial one, on every byte sequence |
| `Crc16.TableStep` | src/sbf/crc16_xmodem.hpp:52-60 | one table lookup equals eight shifts of the register with the byte added |
| `Crc16.StepLinear` | scripts/parser.py:192-196 | a register shift is linear under exclusive or |
| `Crc16.StepInjective` | scripts/parser.py:192-196 | a register shift loses no information |
| `CrcDetection.CrcIsRemainder` | src/sbf/crc16_xmodem.hpp:3-12 | a word is the CRC if and only if it is the remainder of the message times x^16 divided by x^16+x^12+x^5+1, the definition of CRC-16/XMODEM |
| `CrcDetection.CrcIsFeedBits` | scripts/parser.py:187-197 | the byte-wise CRC equals feeding the message bit by bit, most significant first |
| `CrcDetection.FeedWindow` | scripts/parser.py:190-196 | feeding up to 16 bits equals adding them left-aligned and shifting as often |
| `CrcDetection.BurstDetected` | src/sbf/crc16_xmodem.hpp:27-60 | two different messages of equal length that differ only within 16 consecutive bits never share a CRC |
| `CrcDetection.OddErrorsDetected` | src/sbf/crc16_xmodem.hpp:27-60 | two messages that differ in an odd number of bits never share a CRC |
| `CrcDetection.CrcParity` | src/sbf/crc16_xmodem.hpp:27-60 | the parities of two CRCs differ if and only if the messages differ in an odd number of bits |
| `CrcDetection.CrcOfSealed` | scripts/parser.py:187-197 | a message followed by its own CRC, high byte first, has CRC zero |
| `CrcOrder.CheckValue` | tests/test_crc16_xmodem.cpp:33-36 | the CRC of "123456789" is 0x31C3, the check value of CRC-16/XMODEM |
| `CrcOrder.StepNMul` | scripts/parser.py:190-196 | shifting the register n times multiplies it by x^n modulo the CRC polynomial |
| `CrcOrder.MulIsBv` | scripts/parser.py:190-196 | the product of register values equals its computation on 16-bit words |
| `CrcOrder.Powers` | src/sbf/crc16_xmodem.hpp:3-12 | x^32767 is 1 modulo the CRC polynomial, and x^4681, x^1057 and x^217 are not |
| `TwoBitErrors.OrderOfX` | src/sbf/crc16_xmodem.hpp:3-12 | x^d is 1 modulo the CRC polynomial if and only if 32767 divides d |
| `TwoBitErrors.TwoBitsDetected` | src/sbf/crc16_xmodem.hpp:27-60 | two messages that differ in exactly two bits share a CRC if and only if 32767 divides the distance of these bits |
| `FrameDamage.BurstRejected` | src/sbf/frame_sync.cpp:235-269 | a valid frame whose ID or body is damaged within 16 consecutive bits, everything else arriving as sent, fails its CRC and is never emitted from its offset |
| `FrameDamage.OddDamageRejected` | src/sbf/frame_sync.cpp:235-269 | the same for any odd number of flipped bits in the CRC field, the ID and the body together, the sync bytes and the Length arriving as sent |
| `FrameDamage.FieldDamageRejected` | src/sbf/frame_sync.cpp:235-269 | the same for any damage to the CRC field alone |
| `FrameDamage.TwoFlipsRejected` | src/sbf/frame_sync.cpp:235-269 | two flipped bits in ID and body make a frame fail its CRC, except at a distance of exactly 32767, where it is accepted as damaged |
| `FrameDamage.FeedDamaged` | src/sbf/frame_sync.cpp:86-370 | in whatever chunks a stream with such damage is fed, the synchronizer emits exactly the frames of a scan of it: valid slices, in order and disjoint, none from the offset of the damaged frame; of the valid frames in the decided part it loses only those that an emitted frame overlaps |
| `FrameDamage.LengthDamageUndetected` | src/sbf/frame_sync.cpp:199-269 | a valid frame of 12 bytes in which one flipped bit of the Length leaves an accepted frame of 8 bytes |
| `FrameDamage.OuterLengthBitRejected` | src/sbf/frame_sync.cpp:199-215 | a flip of one of the lowest two or highest three bits of the Length makes it unacceptable |
| `FrameDamage.StraddlingBurstUndetected` | src/sbf/frame_sync.cpp:235-269 | two valid frames that differ only within 16 consecutive bits, from the CRC field into the ID |
| `Framing.JudgeStable` | src/sbf/frame_sync.cpp:159-269 | a decision on an offset, once reached, is not changed by later bytes |
| `Framing.DecidedInTime` | src/sbf/frame_sync.cpp:190-233 | a candidate is decided at the latest when 8188 bytes from its offset on are there |
| `Framing.RejectedForGood` | src/sbf/frame_sync.cpp:199-269 | where a candidate was rejected, no continuation of the stream makes a valid frame stand |
| `Framing.AcceptedFrame` | src/sbf/frame_sync.cpp:271-289 | an accepted frame is valid and its wire form is exactly the bytes it was read from |
| `Framing.WireAccepted` | src/sbf_recorder.cpp:84-112 | the wire form of a valid frame is accepted as that frame, whatever follows |
| `Framing.AcceptIff` | src/sbf/frame_sync.cpp:143-289 | an offset is accepted if and only if the bytes of some valid frame stand there, and then as that frame |
| `Framing.FrameNotLost` | src/sbf/frame_sync.cpp:199-215 | a valid frame that stands before the undecided offset is found, unless a found frame overlaps it from before |
| `Framing.ScanExtend` | src/sbf/frame_sync.cpp:86-370 | scanning a longer stream resumes where the scan of the shorter one stopped, without revising anything |
| `Framing.ScanSlices` | src/sbf/frame_sync.cpp:271-305 | the frames found are valid, disjoint slices of the stream, in order |
| `Framing.ScanComplete` | src/sbf/frame_sync.cpp:199-215 | every complete valid frame before the undecided offset is found, unless an earlier found frame overlaps it: resync loses nothing |
| `Framing.ScanStream` | src/sbf/frame_sync.cpp:86-370 | a stream of back-to-back valid frames is scanned into exactly those frames, with nothing skipped or rejected |
| `FrameLayout.WireBytes` | src/sbf_recorder.cpp:84-112 | every valid frame byte by byte: 0x24, 0x40, CRC, ID and Length with the low byte first, the body; what the CRC is taken over; the block number |
| `FrameLayout.VerdictByBytes` | src/sbf/frame_sync.cpp:143-289 | the verdict on every offset from the bytes themselves: no "$@", a Length that is not a multiple of four from 8 to 8188, too few bytes, or the CRC; and the fields of the frame |
| `FrameLayout.EmptyFrame` | src/sbf/frame_sync.cpp:159-289 | the bytes 24 40 A9 89 00 00 08 00 are a valid frame |
| `FrameLayout.FeedEmptyFrame` | src/sbf/frame_sync.cpp:86-370 | in any cut these bytes give exactly that frame and the counters 8, 1, 0, 0, 0 |
| `FrameLayout.LongestFrame` | scripts/parser.py:219-224 | a valid frame of 8188 bytes is accepted, and no longer one |
| `FrameSync.SbfFrameSync.Feed` | src/sbf/frame_sync.cpp:86-370 | after any call the frames emitted since reset are those of the whole stream; the between-call invariant on buffer, state and pending drain holds again; counters grow by the exact amount stated; the undrained buffer stays under 8188 bytes plus the chunk |
| `FrameSync.SbfFrameSync.Reset` | src/sbf/frame_sync.cpp:79-84 | the stream starts afresh and the counters go on |
| `FrameSync.SbfFrameSync.Run` | src/sbf/frame_sync.cpp:136-309 | the progress loop terminates, emits exactly the frames of a scan of the buffer, and stops idle at the end of the buffer or at an undecidable candidate |
| `FrameSync.SbfFrameSync.Step` | src/sbf/frame_sync.cpp:137-308 | one turn keeps the loop invariant and makes progress in (anchor, state rank) or stalls |
| `FrameSync.SbfFrameSync.StepIdle` | src/sbf/frame_sync.cpp:143-156 | skips only bytes that cannot start a frame; state, cursor and candidate afterwards are those of `TurnOf` |
| `FrameSync.SbfFrameSync.StepGotDollar` | src/sbf/frame_sync.cpp:159-187 | keeps the candidate, moves to the next dollar sign, or drops it, without losing a frame start; state, cursor and candidate afterwards are those of `TurnOf` |
| `FrameSync.SbfFrameSync.StepReadingHeader` | src/sbf/frame_sync.cpp:190-220 | an unacceptable length is counted once and scanning resumes one byte later; state, cursor and candidate afterwards are those of `TurnOf` |
| `FrameSync.SbfFrameSync.StepReadingBody` | src/sbf/frame_sync.cpp:223-306 | emits the frame exactly when its CRC matches, otherwise counts once and resumes one byte later; state, cursor and candidate afterwards are those of `TurnOf` |
| `FrameSync.CursorMovesBack` | src/sbf/frame_sync.cpp:115-119 | on every candidate that is rejected the cursor goes back to its second byte, from behind the sync bytes or from behind the header |
| `FrameSync.SbfFrameSync.Trim` | src/sbf/frame_sync.cpp:348-369 | what is kept of the buffer, and that a trimmed buffer leaves nothing to drain twice |
| `FrameSync.SbfFrameSync.Ingest` | src/sbf/frame_sync.cpp:94-370 | one call yields the scan of the undrained bytes and the chunk, and keeps exactly what the scan leaves open |
| `FrameSync.RetainedAgain` | src/sbf/frame_sync.cpp:311-369 | what one call keeps satisfies what the next call relies on, and is bounded |
| `FrameSync.CountedAgain` | src/sbf/frame_sync.cpp:204-215 | each failure counter stays between the rejections of the pure scan and twice that number |
| `FrameSync.FramesAgain` | src/sbf/frame_sync.cpp:86-370 | the frames of a call are exactly what its bytes add to the frames of the stream |
| `FrameSync.RecountedAgain` | src/sbf/frame_sync.cpp:360-369 | a call counts the new rejections plus those in the bytes it was still holding |
| `SyncRuns.FeedAll` | src/sbf/frame_sync.cpp:86-370 | for every chunking, empty chunks included, the emitted frames are those of one scan of the whole stream; each failure counter is that of the scan plus the rejections in what each call found kept, so exact if and only if no call found one there, never more than doubled, exact for one chunk and zero on streams of valid frames; resyncs is the sum of the two |
| `SyncRuns.TwiceZero` | src/sbf/frame_sync.cpp:360-369 | nothing is counted twice if and only if no call finds a rejected candidate in what the chunks before it left |
| `SyncRuns.KeptIsHeld` | src/sbf/frame_sync.cpp:348-369 | what is left undrained after a call is the pending candidate, else the bytes behind the last frame, else nothing |
| `SyncRuns.CountersDependOnChunking` | src/sbf/frame_sync.cpp:360-369 | a stream, an empty frame and then a header with Length zero, in which one chunk counts nothing twice, while an empty chunk behind it counts the header once more |
| `RejectionCounts.CountedAtMostTwice` | src/sbf/frame_sync.cpp:360-369 | over any chunks, each single offset is counted at all if and only if the pure scan of the stream rejects it, and at most twice |
| `RejectionCounts.CountsAddUp` | src/sbf/frame_sync.cpp:204-215 | these counts add up to the two failure counters of the run |
| `RejectionCounts.RejectionsCounted` | src/sbf/frame_sync.cpp:204-215 | the failure counters of a scan are the number of offsets it rejects |
| `OfflineScanner.IterFrames` | scripts/parser.py:212-240 | yields exactly the frames of the offline scan, with offsets |
| `OfflineScanner.VerifySbfBytes` | scripts/parser.py:1537-1556 | counts exactly the frames and the CRC failures of the offline scan |
| `OfflineScanner.TwoScanners` | scripts/parser.py:212-240 | the offline scan finds what the streaming scan finds, then goes on behind the pending candidate |
| `OfflineScanner.ScannersAgree` | scripts/parser.py:222-224 | the synchronizer's frames are a prefix of the offline scanner's, and all of them if and only if no complete valid frame starts behind an incomplete candidate |
| `OfflineScanner.ScannersDiffer` | scripts/parser.py:222-224 | a stream in which the synchronizer finds nothing while the offline scanner finds exactly one frame |
| `OfflineScanner.OfflineStream` | scripts/parser.py:212-240 | back-to-back valid frames are read back in full, at contiguous offsets, with no CRC failure |
| `OfflineScanner.Padded` | scripts/parser.py:200-204 | the body followed by fewer than four bytes, all zero, which complete it to a multiple of four |
| `OfflineScanner.RebuiltIsFrame` | scripts/parser.py:200-209 | a rebuilt frame is valid; rebuilding fails if and only if the frame would exceed 8188 bytes |
| `OfflineScanner.RebuildScanned` | scripts/parser.py:200-240 | rebuilding a scanned frame gives back the bytes at its offset |
| `OfflineScanner.PrintScanInverse` | scripts/parser.py:200-240 | whatever blocks are printed, both scanners read back exactly those and reject nothing |
| `Recorder.SbfRecorder.constructor` | src/sbf_recorder.cpp:28-36 | no file is open or created, and the invariant holds |
| `Recorder.SbfRecorder.Feed` | src/sbf_recorder.cpp:114-133 | the files in order hold exactly the valid frames of the stream received; finished files are not touched again; what is on disk is `Fed` of the new frames and the clock readings; accounting and drop counters hold again, the latter growing by the new rejections plus those in the bytes still held |
| `Recorder.SbfRecorder.WriteAll` | src/sbf_recorder.cpp:129-132 | what is on disk afterwards is `Stored` of the frames and clock readings: every frame is written, and after each the rotation check decides on the reading taken then |
| `Recorder.SbfRecorder.WriteFrame` | src/sbf_recorder.cpp:84-112 | appends the wire form of the frame to the open file and counts it |
| `Recorder.SbfRecorder.RotateIfNeeded` | src/sbf_recorder.cpp:71-82 | a new file is opened exactly when the open one has reached the size or the age, and then has room for a frame |
| `Recorder.SbfRecorder.OpenNewFile` | src/sbf_recorder.cpp:49-69 | a new empty file follows the others; a file that was open counts as rotated |
| `Recorder.SbfRecorder.Close` | src/sbf_recorder.cpp:40-47 | ends the file without changing what was written |
| `Recorder.SbfRecorder.TakeDrops` | src/sbf_recorder.cpp:120-127 | the recorder's drop counters equal the synchronizer's |
| `Recorder.RecordedSlices` | src/sbf_recorder.cpp:84-133 | the recorded bytes are the input slices that were valid frames, concatenated in order |
| `Recorder.RecordedFileReadsBack` | src/sbf_recorder.cpp:84-133 | scanning any recorded file yields exactly the frames written to it, no byte left over |
| `RecorderRuns.Run` | src/sbf_recorder.cpp:40-133 | over any run of feeds and closes: the files are a function of the chunks, the closes and the clock readings (`DiskAfter`); they hold exactly the valid frames, each is a whole number of frames, reads back, and stays within max(rotate_bytes, 1) - 1 + 8188 bytes; re-scanning them in order gives back the frames of the stream; byte and frame totals match; files are rotated, closed or still open; the drop counters are those of a scan of the stream plus what the chunks make the synchronizer count again |
| `Rotation.LeftWhenDue` | src/sbf_recorder.cpp:71-133 | over any run, with any clock: frames are written in order, each file holds what was written to it, files are filled one after the other, and no frame is added to a file whose last check found it large enough or old enough |
| `Rotation.SameFileUntilDue` | src/sbf_recorder.cpp:71-82 | within a call the next frame goes to the same file if and only if the check finds that file not due |
| `Rotation.AgesExact` | src/sbf_recorder.cpp:67-78 | over any run the age that a check finds is the time of that check less the clock reading at which the file was opened |
| `Rotation.OpeningsSpaced` | src/sbf_recorder.cpp:71-82 | where no call sees the clock go back, two consecutive files are opened at least the rotation interval apart, unless the first was closed or has reached the rotation size |
| `Observation.FrequencyFromNumber` | scripts/parser.py:334-351 | the information bits matter only for a GLONASS signal without a known number |
| `Observation.FixedFrequencies` | scripts/parser.py:334-370 | the carrier frequency of every signal that has a fixed one, as a multiple of 10.23 MHz, and the signals that have none |
| `Observation.ChannelFrequencies` | scripts/parser.py:347-352 | the GLONASS frequencies by channel, in the ratio of nine to seven for the first two bands; an unknown channel is taken from the information byte |
| `Observation.CodeCyclesExact` | scripts/parser.py:655-661 | a pseudorange is its time of flight at 299 792 458 m/s times the frequency |
| `Observation.RoundHalf` | scripts/parser.py:1417 | halves are rounded to the even integer |
| `Observation.RelativePhaseExact` | scripts/parser.py:1437-1439 | the encoder recovers the relative carrier phase of a decoded observation exactly |
| `ObservationRoundTrip.Type1Decoded` | scripts/parser.py:621-692 | what holds of every decoded first-level row; its Doppler shift is a whole number of units |
| `ObservationRoundTrip.Type2Decoded` | scripts/parser.py:695-787 | what holds of every decoded second-level row |
| `ObservationRoundTrip.Type2Reading` | scripts/parser.py:695-787 | a second-level record with given offsets is read as its parent plus these offsets: Doppler scaled by the frequency ratio where both frequencies are known and unscaled otherwise, the GLONASS number taken from the parent, the most negative offset meaning absent |
| `ObservationRoundTrip.Type2Complete` | scripts/parser.py:695-787 | every sequence of 12 bytes is the second-level record with the offsets it holds, so the reading above covers all records |
| `RecordLayout.Type1Reading` | scripts/parser.py:621-692 | every field of the row of every first-level record, from its twenty bytes in plain arithmetic |
| `RecordLayout.Type2ReadingBytes` | scripts/parser.py:695-787 | every field of the row of every second-level record, from its twelve bytes and its parent |
| `RecordLayout.Type1Writing` | scripts/parser.py:1447-1472 | every byte of a written record but the carrier phase, with the patterns for what is not available |
| `RecordLayout.PhaseWriting` | scripts/parser.py:1421-1444 | the relative carrier phase as written, within its range, and the pattern for "not available" otherwise |
| `ObservationRoundTrip.EncodedLayout` | scripts/parser.py:1447-1472 | the packed record unpacks to the encoded fields |
| `ObservationRoundTrip.SignalKept` | scripts/parser.py:1383-1402 | antenna, signal and flags survive encoding |
| `ObservationRoundTrip.NumberKept` | scripts/parser.py:1396-1401 | the GLONASS number survives if and only if it is present for signals 8 to 11 and lowest for signal 12 |
| `ObservationRoundTrip.CodeKept` | scripts/parser.py:1405-1411 | the pseudorange survives if and only if it is absent or strictly between 0 and 2^36 mm |
| `ObservationRoundTrip.DopplerKept` | scripts/parser.py:1414-1418 | the rounded Doppler shift survives if and only if it is not clamped |
| `ObservationRoundTrip.CarrierKept` | scripts/parser.py:1421-1444 | the carrier phase survives if and only if its high part is at least -127, or it is absent |
| `ObservationRoundTrip.RowRoundTrip` | scripts/parser.py:1447-1472 | a decoded row encoded as a Type-1 record decodes to itself, Doppler rounded, if and only if it is representable |
| `ObservationRoundTrip.WrittenBack` | scripts/parser.py:1405-1472 | exactly what every decoded row that was written is read back as, representable or not: the pseudorange modulo 2^36, the Doppler shift rounded and limited, the GLONASS number or -8, the carrier phase by what was written of the others |
| `ObservationRoundTrip.DopplerAccuracy` | scripts/parser.py:1414-1418 | the Doppler shift read back is exact for whole units and within 0.05 mHz otherwise |
| `ObservationRoundTrip.GlonassL3Lost` | scripts/parser.py:1396-1401 | every decoded GLONASS L3 row reads back with frequency number -8 |
| `ObservationRoundTrip.GlonassL3Record` | scripts/parser.py:1396-1401 | a record of channel -1 that decodes to such a row, which is therefore not recovered |
| `ObservationRoundTrip.RowReread` | scripts/parser.py:1447-1472 | of every decoded row that is written and read back, epoch, antenna, satellite, signal, C/N0, lock time and flags stay, and the others are as `WrittenBack` says; pseudorange, GLONASS number and Doppler shift each stay if and only if its own condition holds, and the carrier phase likewise where the first two do |
| `ObservationRoundTrip.RereadStable` | scripts/parser.py:1447-1472 | a row that was written and read back once is representable and comes back unchanged from then on |
| `MeasEpoch.DecodeMeasEpoch` | scripts/parser.py:790-850 | the nested loops decode exactly the rows of the body |
| `MeasEpoch.DecodeSatellites` | scripts/parser.py:803-845 | the outer loop decodes exactly the first-level records with their children |
| `MeasEpoch.DecodeChildren` | scripts/parser.py:825-843 | the inner loop decodes exactly the second-level records that fit |
| `EpochLayout.RowsOfPrinted` | scripts/parser.py:790-850 | a body laid out as satellites, each a first-level record and as many second-level ones as its byte 19 counts, padding included, is read satellite by satellite and record by record; reading ends at the first record that does not fit |
| `EpochLayout.EveryBodyPrinted` | scripts/parser.py:790-850 | every body with a header is laid out like this, so the rows of every body are known |
| `MeasEpoch.RowsDecoded` | scripts/parser.py:790-850 | every row of a body satisfies the decoded-row facts and carries the epoch of the body |
| `MeasEpoch.BuildMeasEpochBody` | scripts/parser.py:1482-1499 | fails if and only if there are no rows or more than 255; otherwise twelve bytes of header and twenty for each row |
| `BlockLayout.EpochWriting` | scripts/parser.py:1482-1499 | the header of a built body byte by byte, and where each record stands |
| `MeasEpoch.BuiltRows` | scripts/parser.py:1482-1499 | decoding a built body re-reads each encoded row, under the epoch of the first |
| `MeasEpoch.EpochRoundTrip` | scripts/parser.py:1482-1499 | a body built from decoded rows of one epoch decodes row for row to them, as far as each can be represented; to exactly the same rows, Doppler rounded, if and only if every row is representable |
| `MeasEpoch.FlattenedAccuracy` | scripts/parser.py:1447-1472 | first-level rows come back unchanged, others change only in level and by at most 0.05 mHz of Doppler |
| `MeasExtra.CountRecovered` | scripts/parser.py:1510-1513 | the count is the largest positive one that fits and has the given low eight bits, else the quotient, and never overruns |
| `MeasExtra.MeasExtraSubblocks` | scripts/parser.py:1502-1521 | returns exactly the sub-blocks of the body |
| `BlockLayout.ExtraReading` | scripts/parser.py:1502-1521 | the sub-blocks of every body: their length from byte 7, where each stands, and their number from byte 6 |
| `BlockLayout.NoExtras` | scripts/parser.py:1502-1508 | a body without room for a header, or with sub-blocks of length zero, has none |
| `MeasExtra.KeepSubblocks` | scripts/parser.py:1524-1534 | builds exactly the body with the selected sub-blocks, whose header and contents `ExtraReadsBack` gives |
| `MeasExtra.ExtraReadsBack` | scripts/parser.py:1524-1534 | re-reading the padded body returns exactly the selected sub-blocks, for every sub-block length; its header is that of the original, bytes 8 to 11 included, with the new count |
| `MeasExtra.IndicesExact` | scripts/parser.py:1595-1597 | an antenna's indices are exactly the positions of its rows |
| `MeasExtra.IndicesAscending` | scripts/parser.py:1595-1597 | an antenna's indices are ascending |
| `MeasExtra.SelectedAreOwned` | scripts/parser.py:1529-1531 | what is kept for an antenna are the sub-blocks of its rows, in order |
| `MeasExtra.NothingLost` | scripts/parser.py:1614-1619 | the antennas together keep as many sub-blocks as have an owning row |
| `MeasExtra.KeptOnce` | scripts/parser.py:1614-1619 | a sub-block with an owning row is selected for that row's antenna and no other, behind the antenna's earlier sub-blocks |
| `SbfSink.UnopenedFile` | scripts/parser.py:1349-1354 | before an antenna's first own frame its share is the common frames |
| `SbfSink.Sink.Write` | scripts/parser.py:1348-1355 | every file still equals the eager filter of all writes, counters included |
| `SbfSink.Sink.WriteCommon` | scripts/parser.py:1357-1361 | every file still equals the eager filter of all writes, counters included |
| `SbfSink.Sink.Open` | scripts/parser.py:1349-1354 | replaying the common history brings the new file up to its share |
| `SbfSink.Sink.WriteOpen` | scripts/parser.py:1363-1366 | one file, its frame count and its byte count grow by the frame, the others stay |
| `SbfSink.Replay` | scripts/parser.py:1334-1366 | for every sequence of writes, exactly the antennas with own frames have a file, and it is the eager filter of the sequence |
| `ExportSpec.ExportFails` | scripts/parser.py:1486-1487 | the export of valid frames fails if and only if some epoch has over 255 rows for one antenna |
| `ExportSpec.ExportCanFail` | scripts/parser.py:1486-1487 | a valid frame of 3100 bytes with 256 rows of one antenna, on which the export fails |
| `ExportSpec.EntriesShare` | scripts/parser.py:1602-1625 | each antenna's file grows by exactly its share of a frame |
| `ExportSpec.ExportShaped` | scripts/parser.py:1582-1632 | over every recording that exports, every file holds valid frames in the form (MeasEpoch MeasExtra* EndOfMeas?)*, common frames apart, with matching times |
| `ExportSpec.ShapeMeaning` | scripts/parser.py:1607-1628 | every MeasExtra and EndOfMeas has a nearest preceding MeasEpoch, with no EndOfMeas between, and a MeasExtra carries its time |
| `ExportSpec.EpochContents` | scripts/parser.py:1602-1604 | an antenna's MeasEpoch frame decodes row for row to its rows, as far as each can be represented; to exactly its rows, Doppler rounded, if and only if each is representable |
| `ExportSpec.ExtraContents` | scripts/parser.py:1614-1618 | an antenna's MeasExtra frame holds exactly the sub-blocks of its rows behind the original header, the count apart, and is written if and only if there are any |
| `ExportSpec.CopiedUnchanged` | scripts/parser.py:1622-1632 | EndOfMeas and common frames are passed on unchanged |
| `ExportContents.FilesCarry` | scripts/parser.py:1576-1632 | over every recording that exports, an antenna's file read back item by item is what the antenna is due: its rows of each MeasEpoch, the header and its sub-blocks of each MeasExtra that matches the open epoch, the EndOfMeas of epochs it has rows in, all common frames, in order and nothing else; frames, headers and sub-blocks are unchanged, and rows agree one for one as `RowReread` states |
| `ExportContents.AgreesWhole` | scripts/parser.py:1576-1632 | a whole file agrees up to Doppler rounding if and only if every row of that antenna is representable |
| `ExportContents.AddedDue` | scripts/parser.py:1582-1632 | what one step adds to a file, read back, is what the antenna is due from that frame |
| `ExportContents.PendingIsOpen` | scripts/parser.py:1595-1628 | the pending state of the loop is the last MeasEpoch, unless an EndOfMeas followed it |
| `BlockLayout.DueByNumber` | scripts/parser.py:1582-1632 | what an antenna is due by the number of the block: 4027, 4000, 5922, the common numbers, or nothing |
| `BlockLayout.OpenByNumber` | scripts/parser.py:1582-1628 | 4027 opens an epoch, 5922 ends it, and no other block does either |
| `BlockLayout.TimeByBytes` | scripts/parser.py:1607-1612 | the time stamp of a body, from its first six bytes |
| `ExportContents.OpenedIffObserved` | scripts/parser.py:1348-1355 | a file is written for exactly the antennas with an observation in the recording |
| `ExportContents.RowKeptOnce` | scripts/parser.py:1475-1479 | every observation is among the rows of its own antenna, in order, and of no other |
| `ExportContents.CommonsOfRun` | scripts/parser.py:1630-1632 | the common part of the files is the common frames of the recording, unchanged |
| `Conservation.NothingLostInExport` | scripts/parser.py:1576-1632 | over every recording that exports, the files of all antennas hold together as many observations as the recording, and as many sub-blocks as have an owning row |
| `ReExport.ExportedOnceMore` | scripts/parser.py:1559-1632 | exporting an exported file succeeds, gives a file that says item by item the same, and gives no file for another antenna |
| `Export.RowsByAntenna` | scripts/parser.py:1475-1479 | groups exactly the rows of each antenna, in order |
| `Export.IndicesByAntenna` | scripts/parser.py:1595-1597 | groups exactly the row indices of each antenna |
| `Export.WriteEpoch` | scripts/parser.py:1602-1604 | writes each antenna its part of a MeasEpoch, or fails when a part cannot be built |
| `Export.WriteExtra` | scripts/parser.py:1614-1618 | writes each pending antenna its part of a MeasExtra |
| `Export.WriteEnd` | scripts/parser.py:1622-1624 | writes the EndOfMeas to each pending antenna |
| `Export.HandleFrame` | scripts/parser.py:1576-1632 | one turn of the export loop is one step of the state machine |
| `Export.HandleFrames` | scripts/parser.py:1576-1632 | the loop is the whole run of the state machine |
| `Export.ExportRecording` | scripts/parser.py:1559-1632 | on every input: fails exactly when an epoch has too many rows; otherwise exactly the antennas with an observation have a file; it reads back as its frames, has the right shape and counters, verifies with that frame count and no CRC failure, and carries row for row all the antenna is due from the recording and nothing else; the reported number of common frames is that of the recording |
| `Export.VerifyAll` | scripts/parser.py:1732-1734 | verification of each file returns its frame count and zero failures |
| `Pipeline.RecordAndExport` | scripts/parser.py:1559-1632 | for every run of the recorder, the exports of the recorded files work, file after file, on exactly the frames of the received stream; each fails only on too many rows and otherwise leaves good and complete files |
| `Pipeline.ExportOne` | scripts/parser.py:1559-1632 | an export fails exactly on too many rows and otherwise leaves good and complete files, as the state machine over the scanned frames says |
| `Ntrip.Pipe.Receive` | src/ntrip/ins401_ntrip_client.cpp:562-573 | the queue stays bounded and drops only its oldest item on overflow |
| `Ntrip.Pipe.Take` | src/ntrip/ins401_ntrip_client.cpp:609-618 | takes the item at the front |
| `Ntrip.Pipe.Process` | src/ntrip/ins401_ntrip_client.cpp:623 | processed bytes equal the chunks produced followed by the remainder |
| `Ntrip.Pipe.Chunk` | src/ntrip/ins401_ntrip_client.cpp:518-543 | whole 1024-byte chunks are cut off as `CutAll` cuts them, under 1024 bytes stay, and the buffer is cleared exactly on overflow |
| `Ntrip.CutWhole` | src/ntrip/ins401_ntrip_client.cpp:528-535 | the chunks and what stays are the bytes, complete and in order |
| `Ntrip.SubsequenceDrop` | src/ntrip/ins401_ntrip_client.cpp:566-571 | dropping an item leaves an in-order subsequence |
| `Ntrip.NewestStay` | src/ntrip/ins401_ntrip_client.cpp:566-572 | receiving an item keeps the newest items, as many as the queue can hold |
| `Ntrip.DropsOnlyOnOverflow` | src/ntrip/ins401_ntrip_client.cpp:566-571 | nothing is dropped if and only if every received item finds the queue below its limit |
| `Ntrip.Interleave` | src/ntrip/ins401_ntrip_client.cpp:518-623 | over every interleaving: processed and waiting items are an in-order subsequence of those received, the rest are the counted drops; how many are dropped, processed and waiting follows from the moves alone; the newest items, as many as the queue can hold, are never dropped, and none is while all find room; the chunks and the left-over are those of the items processed, with the buffer limit as it is, and with items of at most 64 KiB and room for one the bytes come out complete and in order |

## Left out

- FrameDamage.BurstRejected: damage to the Length is not covered, because a flip among its bits 2 to 12 can go unnoticed (`FrameDamage.LengthDamageUndetected`); nor is a burst that reaches from the CRC field into the ID, which can go unnoticed too (`FrameDamage.StraddlingBurstUndetected`). With damaged sync bytes there is no candidate at that offset at all.
- FrameDamage.OddDamageRejected: damage to the Length is not covered, for the same reason.
- Sockets, polling, signals and the command line (src/tcp_client.cpp, src/main.cpp): received chunks are arbitrary inputs.
- YAML configuration and the receiver command dialogue (src/app_config.cpp, src/receiver_config.cpp): they would only add easy members.
- The per-ID tallies of `raw_scan` (scripts/parser.py:243-287): the same loop as `verify_sbf_bytes` with more counters.
- CSV output, telemetry decoders and name tables (scripts/parser.py:386-618 and 926-1331), and the export's report tallies: field reads and counting.
- Row fields that only the CSV shows (raw type and information bytes, C/N0 in dB-Hz, row numbering).
- IEEE rounding: pseudoranges are whole millimetres, carrier phases and Doppler shifts exact reals, and rounding to the record's unit is the only rounding.
- Fixed counter widths: the 64-bit counters and sizes are unbounded integers.
- I/O failures, file names and time stamps: opening and writing succeed, and files are a sequence of byte sequences. The clock readings of a call are an arbitrary function.
- What a failed export leaves on disk: only that it fails, and when.
- NTRIP connection handling, GGA, callbacks, the data left over at start-up, liveness and reconnection (src/ntrip/ins401_ntrip_client.cpp): only the queue and chunking steps are modelled, as atomic steps, for a queue limit of at least one; with a limit of zero the original pops an empty queue.
- `sorted` over antenna numbers is a loop over 0 to 7, all that three bits can hold.
