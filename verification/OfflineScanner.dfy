/** The offline scanner of recorded files, and the printer that rebuilds frames. */
module OfflineScanner {
  import opened Bytes
  import opened Crc16
  import opened Framing

  // --- The scanner -------------------------------------------------------------

  /**
   The scan of a file from offset `i`: a position that does not start a complete valid frame is
   skipped, also when the file ends inside it. `rest` is where the scan ran out of header bytes.
   */
  function Offline(s: seq<byte>, i: nat): (r: Found)
    ensures i <= r.rest
    decreases |s| - i
  {
    if i + 8 > |s| then Nothing(i)
    else if s[i] != DOLLAR || s[i + 1] != AT then Offline(s, i + 1)
    else
      var n := U16(s, i + 6);
      if n < 8 || n > MAX_SBF_LENGTH || n % 4 != 0 || i + n > |s| then Offline(s, i + 1)
      else if Crc(s[i + 4..i + n]) != U16(s, i + 2) then
        Then(Found([], 1, 0, i + 1), Offline(s, i + 1))
      else
        Then(Found([Located(i, FrameAt(s, i))], 0, 0, i + n), Offline(s, i + n))
  }

  /** A header at `i` that the offline scanner goes on to check: sync, length and room for the body. */
  predicate Complete(s: seq<byte>, i: nat) {
    && i + 8 <= |s| && s[i] == DOLLAR && s[i + 1] == AT
    && GoodLength(U16(s, i + 6)) && i + U16(s, i + 6) <= |s|
  }

  lemma OfflineStep(s: seq<byte>, i: nat)
    requires i + 8 <= |s|
    ensures !Complete(s, i) ==> Offline(s, i) == Offline(s, i + 1)
    ensures Complete(s, i) ==>
              var n := U16(s, i + 6);
              if Crc(s[i + 4..i + n]) != U16(s, i + 2)
              then Offline(s, i).frames == Offline(s, i + 1).frames
                   && Offline(s, i).crcFailed == 1 + Offline(s, i + 1).crcFailed
              else Offline(s, i).frames == [Located(i, FrameAt(s, i))] + Offline(s, i + n).frames
                   && Offline(s, i).crcFailed == Offline(s, i + n).crcFailed
  {
    hide Crc;
  }

  /** Yields the CRC-valid frames of a buffer with their offsets. */
  method IterFrames(data: seq<byte>) returns (frames: seq<Located>)
    ensures frames == Offline(data, 0).frames
  {
    hide Crc, Offline;
    var i := 0;
    frames := [];
    while i + 8 <= |data|
      invariant Offline(data, 0).frames == frames + Offline(data, i).frames
      decreases |data| - i
    {
      OfflineStep(data, i);
      if data[i] != DOLLAR || data[i + 1] != AT {
        i := i + 1;
        continue;
      }
      var crc, rawId, length := U16(data, i + 2), U16(data, i + 4), U16(data, i + 6);
      if length < 8 || length > MAX_SBF_LENGTH || length % 4 != 0 || i + length > |data| {
        i := i + 1;
        continue;
      }
      var computed := SerialCrc(data[i + 4..i + length]);
      if computed != crc {
        i := i + 1;
        continue;
      }
      frames := frames + [Located(i, Frame(crc, rawId, length, data[i + 8..i + length]))];
      i := i + length;
    }
    OfflineEnd(data, i);
  }

  lemma OfflineEnd(s: seq<byte>, i: nat)
    requires i + 8 > |s|
    ensures Offline(s, i) == Nothing(i)
  {
  }

  /** Counts the CRC-valid frames of a buffer and the complete candidates with a wrong CRC. */
  method VerifySbfBytes(data: seq<byte>) returns (frames: nat, crcFails: nat)
    ensures frames == |Offline(data, 0).frames| && crcFails == Offline(data, 0).crcFailed
  {
    hide Crc, Offline;
    var i := 0;
    frames, crcFails := 0, 0;
    while i + 8 <= |data|
      invariant |Offline(data, 0).frames| == frames + |Offline(data, i).frames|
      invariant Offline(data, 0).crcFailed == crcFails + Offline(data, i).crcFailed
      decreases |data| - i
    {
      OfflineStep(data, i);
      if data[i] != DOLLAR || data[i + 1] != AT {
        i := i + 1;
        continue;
      }
      var crc, length := U16(data, i + 2), U16(data, i + 6);
      if length < 8 || length > MAX_SBF_LENGTH || length % 4 != 0 || i + length > |data| {
        i := i + 1;
        continue;
      }
      var computed := SerialCrc(data[i + 4..i + length]);
      if computed != crc {
        crcFails := crcFails + 1;
        i := i + 1;
        continue;
      }
      frames := frames + 1;
      i := i + length;
    }
    OfflineEnd(data, i);
  }

  // --- The two scanners --------------------------------------------------------

  /** One position, as the offline scanner takes it. */
  lemma OfflineVisit(s: seq<byte>, i: nat)
    requires i < |s|
    ensures Judge(s, i).Accept? ==>
              Offline(s, i) == Then(Visit(s, i), Offline(s, Visit(s, i).rest))
    ensures Judge(s, i) == BadCrc ==> Offline(s, i) == Then(Visit(s, i), Offline(s, i + 1))
    ensures !Judge(s, i).Accept? && Judge(s, i) != BadCrc ==>
              Offline(s, i).frames == Offline(s, i + 1).frames
              && Offline(s, i).crcFailed == Offline(s, i + 1).crcFailed
  {
    hide Crc;
    if i + 8 > |s| { assert i + 1 + 8 > |s|; }
  }

  /**
   The offline scan finds what the streaming scan finds, and then goes on behind the candidate
   that the streaming scan is still waiting for.
   */
  lemma {:induction false} TwoScanners(s: seq<byte>, i: nat)
    requires i <= |s|
    ensures var live := Scan(s, i);
            && Offline(s, i).frames == live.frames + Offline(s, live.rest).frames
            && Offline(s, i).crcFailed == live.crcFailed + Offline(s, live.rest).crcFailed
    decreases |s| - i
  {
    hide Judge, Offline;
    if i == |s| || Judge(s, i) == Pending {
      assert Scan(s, i) == Nothing(i);
    } else {
      ScanStep(s, i);
      OfflineVisit(s, i);
      TwoScanners(s, Visit(s, i).rest);
    }
  }

  /** The offline scan finds nothing exactly when no complete valid frame starts at or after `i`. */
  lemma {:induction false} OfflineFinds(s: seq<byte>, i: nat)
    requires i <= |s|
    ensures Offline(s, i).frames == [] <==> forall j :: i <= j < |s| ==> !Judge(s, j).Accept?
    decreases |s| - i
  {
    hide Judge;
    if i < |s| {
      hide Offline;
      OfflineVisit(s, i);
      if !Judge(s, i).Accept? { OfflineFinds(s, i + 1); }
    }
  }

  /** A complete valid frame starts behind the first offset that the streaming scan cannot decide. */
  ghost predicate FrameBehindPending(s: seq<byte>) {
    exists j :: Scan(s, 0).rest < j < |s| && Judge(s, j).Accept?
  }

  /**
   The synchronizer's frames are a prefix of the offline scanner's. They are all of them exactly
   when no valid frame hides behind an incomplete candidate, and in particular whenever the
   stream does not end inside the body of one.
   */
  lemma ScannersAgree(s: seq<byte>)
    ensures StreamFrames(s) <= Frames(Offline(s, 0).frames)
    ensures StreamFrames(s) == Frames(Offline(s, 0).frames) <==> !FrameBehindPending(s)
    ensures Scan(s, 0).rest + 8 > |s| ==> StreamFrames(s) == Frames(Offline(s, 0).frames)
  {
    hide Scan, Offline, FrameBehindPending, Frames;
    var rest := Scan(s, 0).rest;
    TwoScanners(s, 0);
    BehindPending(s);
    if rest + 8 > |s| { OfflineEnd(s, rest); }
    FramesAppend(Scan(s, 0).frames, Offline(s, rest).frames);
    var live, more := StreamFrames(s), Frames(Offline(s, rest).frames);
    hide StreamFrames;
    assert more == [] ==> live + more == live;
  }

  lemma BehindPending(s: seq<byte>)
    ensures Offline(s, Scan(s, 0).rest).frames == [] <==> !FrameBehindPending(s)
  {
    hide Scan, Offline, Judge;
    var rest := Scan(s, 0).rest;
    OfflineFinds(s, rest);
    if rest < |s| { UndecidedAtRest(s); }
  }

  lemma UndecidedAtRest(s: seq<byte>)
    requires Scan(s, 0).rest < |s|
    ensures Judge(s, Scan(s, 0).rest) == Pending
  {
    hide Judge;
    ScanRest(s, 0);
  }

  lemma FramesAppend(a: seq<Located>, b: seq<Located>)
    ensures Frames(a + b) == Frames(a) + Frames(b)
    ensures Frames(b) == [] <==> b == []
  {
    assert |Frames(b)| == |b|;
  }

  /** Eight bytes of a header that announces twenty. */
  const LONG_HEADER: seq<byte> := [DOLLAR, AT, 0, 0, 0, 0, 20, 0]

  /** The scanners do differ: here a valid frame is found only offline. */
  lemma ScannersDiffer()
    ensures var f := Sealed(0, []);
            var s := LONG_HEADER + f.Wire();
            && StreamFrames(s) == [] && FrameBehindPending(s)
            && Frames(Offline(s, 0).frames) == [f]
  {
    hide Crc, Offline, Frame.Wire;
    var f := Sealed(0, []);
    SealedValid(0, []);
    WireAccepted(f, []);
    var w := f.Wire();
    var s := LONG_HEADER + w;
    assert |s| == 16 && U16(s, 6) == 20;
    assert Judge(s, 0) == Pending;
    assert s[8..] == w == w + [];
    JudgeShift(s, 8, 0);
    hide FrameAt, Judge;
    OfflineVisit(s, 0);
    OfflineSkips(s, 1, 8);
    OfflineVisit(s, 8);
    OfflineEnd(s, 16);
    assert Offline(s, 0).frames == [Located(8, f)];
  }

  /** Positions that do not start with a dollar sign add nothing. */
  lemma {:induction false} OfflineSkips(s: seq<byte>, i: nat, j: nat)
    requires i <= j <= |s| && forall k :: i <= k < j ==> s[k] != DOLLAR
    ensures Offline(s, i).frames == Offline(s, j).frames
    decreases j - i
  {
    hide Offline;
    if i < j {
      OfflineVisit(s, i);
      OfflineSkips(s, i + 1, j);
    }
  }

  /** Back-to-back valid frames are read back in full by the offline scanner too. */
  lemma OfflineStream(frames: seq<Frame>)
    requires AllValid(frames)
    ensures Offline(Stream(frames), 0).frames == Contiguous(frames)
    ensures Offline(Stream(frames), 0).crcFailed == 0
  {
    hide Judge;
    var s := Stream(frames);
    ScanStream(frames);
    TwoScanners(s, 0);
    assert Offline(s, |s|) == Nothing(|s|);
  }

  // --- The printer -------------------------------------------------------------

  function Zeroes(n: nat): (r: seq<byte>)
    ensures |r| == n && forall k :: 0 <= k < n ==> r[k] == 0
  {
    seq(n, _ => 0)
  }

  /** The body as it is put into a frame: zero bytes complete the last group of four. */
  function Padded(body: seq<byte>): (r: seq<byte>)
    ensures body <= r && |r| % 4 == 0 && |r| < |body| + 4
    ensures |body| % 4 == 0 ==> r == body
    ensures forall k :: |body| <= k < |r| ==> r[k] == 0
  {
    body + Zeroes((-(8 + |body|)) % 4)
  }

  /** The bytes of a frame with this ID and body; none when it would be too long. */
  function RebuildSbfFrame(rawId: word, body: seq<byte>): Option<seq<byte>> {
    var padded := Padded(body);
    var length := 8 + |padded|;
    if length > MAX_SBF_LENGTH then None
    else
      var crc := Crc(Le16(rawId) + Le16(length) + padded);
      Some([DOLLAR, AT] + Le16(crc) + Le16(rawId) + Le16(length) + padded)
  }

  /** Rebuilding prints a valid frame, and fails only when the padded frame exceeds the maximum. */
  lemma RebuiltIsFrame(rawId: word, body: seq<byte>)
    ensures RebuildSbfFrame(rawId, body).None? <==> |body| > MAX_SBF_LENGTH - 8
    ensures |body| <= MAX_SBF_LENGTH - 8 ==>
              && |Padded(body)| <= MAX_SBF_LENGTH - 8
              && Sealed(rawId, Padded(body)).Valid()
              && RebuildSbfFrame(rawId, body) == Some(Sealed(rawId, Padded(body)).Wire())
  {
    hide Crc;
    if |body| <= MAX_SBF_LENGTH - 8 {
      SealedValid(rawId, Padded(body));
    }
  }

  /** A frame that was scanned is rebuilt into the very bytes it was read from. */
  lemma RebuildScanned(s: seq<byte>, k: nat)
    requires k < |Offline(s, 0).frames|
    ensures var l := Offline(s, 0).frames[k];
            && l.frame.Valid()
            && l.offset + l.frame.length <= |s|
            && RebuildSbfFrame(l.frame.rawId, l.frame.body)
               == Some(s[l.offset..l.offset + l.frame.length])
  {
    hide Offline, Crc;
    OfflineSlices(s, 0, k);
    var f := Offline(s, 0).frames[k].frame;
    SealedValid(f.rawId, f.body);
    RebuiltIsFrame(f.rawId, f.body);
  }

  lemma {:induction false} OfflineSlices(s: seq<byte>, i: nat, k: nat)
    requires i <= |s| && k < |Offline(s, i).frames|
    ensures SliceOk(s, Offline(s, i).frames[k], i, |s|)
    decreases |s| - i
  {
    hide Judge, SliceOk, Offline, FrameAt;
    if i + 8 > |s| {
      OfflineEnd(s, i);
    } else {
      OfflineVisit(s, i);
      var l := Offline(s, i).frames[k];
      if !Judge(s, i).Accept? {
        OfflineSlices(s, i + 1, k);
        SliceWider(s, l, i + 1, i);
      } else if k == 0 {
        AcceptedSlice(s, i);
      } else {
        var next := Visit(s, i).rest;
        assert l == Offline(s, next).frames[k - 1];
        OfflineSlices(s, next, k - 1);
        SliceWider(s, l, next, i);
      }
    }
  }

  lemma AcceptedSlice(s: seq<byte>, i: nat)
    requires i < |s| && Judge(s, i).Accept?
    ensures SliceOk(s, Located(i, FrameAt(s, i)), i, |s|)
  {
    AcceptedFrame(s, i);
  }

  lemma SliceWider(s: seq<byte>, l: Located, from: nat, from': nat)
    requires SliceOk(s, l, from, |s|) && from' <= from
    ensures SliceOk(s, l, from', |s|)
  {
  }

  /** A block to print: its raw ID and body. */
  datatype Block = Block(rawId: word, body: seq<byte>)

  /** The frame that a block is printed as. */
  function FrameOf(b: Block): Frame
    requires |b.body| <= MAX_SBF_LENGTH - 8
  {
    Sealed(b.rawId, Padded(b.body))
  }

  /** The blocks printed one after the other; none as soon as one is too long. */
  function PrintAll(blocks: seq<Block>): Option<seq<byte>> {
    if blocks == [] then Some([])
    else
      var before := PrintAll(blocks[..|blocks| - 1]);
      var b := blocks[|blocks| - 1];
      var last := RebuildSbfFrame(b.rawId, b.body);
      if before.None? || last.None? then None else Some(before.value + last.value)
  }

  lemma {:induction false} PrintedStream(blocks: seq<Block>)
    requires forall k :: 0 <= k < |blocks| ==> |blocks[k].body| <= MAX_SBF_LENGTH - 8
    ensures var fs := seq(|blocks|, k requires 0 <= k < |blocks| => FrameOf(blocks[k]));
            PrintAll(blocks) == Some(Stream(fs)) && AllValid(fs)
  {
    hide Frame.Wire, Frame.Valid, RebuildSbfFrame, Padded, Sealed;
    if blocks != [] {
      var n := |blocks| - 1;
      var init := blocks[..n];
      PrintedStream(init);
      RebuiltIsFrame(blocks[n].rawId, blocks[n].body);
      var fs := seq(|blocks|, k requires 0 <= k < |blocks| => FrameOf(blocks[k]));
      var fs' := seq(|init|, k requires 0 <= k < |init| => FrameOf(init[k]));
      assert fs == fs' + [FrameOf(blocks[n])];
      StreamPush(fs', FrameOf(blocks[n]));
    }
  }

  /**
   Whatever blocks are printed, both scanners read back exactly those, padded to whole words, and
   reject nothing.
   */
  lemma PrintScanInverse(blocks: seq<Block>)
    requires forall k :: 0 <= k < |blocks| ==> |blocks[k].body| <= MAX_SBF_LENGTH - 8
    ensures var fs := seq(|blocks|, k requires 0 <= k < |blocks| => FrameOf(blocks[k]));
            var printed := PrintAll(blocks);
            && printed.Some? && Frames(Offline(printed.value, 0).frames) == fs
            && StreamFrames(printed.value) == fs
            && Offline(printed.value, 0).crcFailed == 0
            && Scan(printed.value, 0).crcFailed == 0 && Scan(printed.value, 0).lengthInvalid == 0
  {
    hide PrintAll, Frame.Valid, Offline, Scan, FrameOf;
    var fs := seq(|blocks|, k requires 0 <= k < |blocks| => FrameOf(blocks[k]));
    PrintedStream(blocks);
    OfflineStream(fs);
    ScanStream(fs);
    ContiguousFrames(fs);
  }
}
