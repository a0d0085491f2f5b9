/** The rotating recorder: verified frames go to disk byte for byte, one file at a time. */
module Recorder {
  import opened Bytes
  import opened Crc16
  import opened Framing
  import opened FrameSync
  import opened OfflineScanner

  datatype Config = Config(rotateBytes: nat, rotateInterval: int)

  datatype RecorderStats = RecorderStats(bytesWritten: nat, framesWritten: nat, filesRotated: nat,
                                         crcFailed: nat, lengthInvalid: nat, resyncs: nat)

  /** All the frames of all the files, in order. */
  function Flat(files: seq<seq<Frame>>): seq<Frame> {
    if files == [] then [] else Flat(files[..|files| - 1]) + files[|files| - 1]
  }

  /** Every file is a whole number of valid frames. */
  ghost predicate WholeFrames(files: seq<seq<byte>>, written: seq<seq<Frame>>) {
    && |files| == |written|
    && forall k :: 0 <= k < |files| ==> files[k] == Stream(written[k]) && AllValid(written[k])
  }

  /** No file exceeds the rotation threshold by more than one frame. */
  function SizeLimit(cfg: Config): nat {
    (if cfg.rotateBytes > 1 then cfg.rotateBytes else 1) - 1 + MAX_SBF_LENGTH
  }

  ghost predicate WithinLimit(files: seq<seq<byte>>, cfg: Config) {
    forall k :: 0 <= k < |files| ==> |files[k]| <= SizeLimit(cfg)
  }

  // --- What is on disk, as a function of frames and clock readings -----------------

  /** The files, and the state of the one that is open, which is the last. */
  datatype Disk = Disk(files: seq<seq<byte>>, open: bool, size: nat, start: int)

  function Opened(d: Disk, now: int): Disk { Disk(d.files + [[]], true, 0, now) }

  function Closed(d: Disk): Disk { d.(open := false, size := 0) }

  /** The frame's bytes at the end of the last file. */
  function Put(d: Disk, bytes: seq<byte>): Disk {
    if d.files == [] then d
    else
      var last := |d.files| - 1;
      d.(files := d.files[last := d.files[last] + bytes], size := d.size + |bytes|)
  }

  /** A file of this size and age is to be followed by a new one. */
  predicate TurnDue(cfg: Config, size: nat, age: int) { size >= cfg.rotateBytes || age >= cfg.rotateInterval }

  function Checked(cfg: Config, d: Disk, now: int, restart: int): Disk {
    if d.open && TurnDue(cfg, d.size, now - d.start) then Opened(d, restart) else d
  }

  /** The frames of a call, each followed by a check; `clock` gives the call's successive readings. */
  function Stored(cfg: Config, d: Disk, frames: seq<Frame>, clock: nat -> int): Disk {
    if frames == [] then d
    else
      var n := |frames| - 1;
      Checked(cfg, Put(Stored(cfg, d, frames[..n], clock), frames[n].Wire()), clock(2 * n + 1), clock(2 * n + 2))
  }

  /** A whole call that finds these frames. */
  function Fed(cfg: Config, d: Disk, frames: seq<Frame>, clock: nat -> int): Disk {
    Stored(cfg, if d.open then d else Opened(d, clock(0)), frames, clock)
  }

  lemma StoredNext(cfg: Config, d: Disk, frames: seq<Frame>, clock: nat -> int, n: nat)
    requires n < |frames|
    ensures Stored(cfg, d, frames[..n + 1], clock)
         == Checked(cfg, Put(Stored(cfg, d, frames[..n], clock), frames[n].Wire()), clock(2 * n + 1), clock(2 * n + 2))
  {
    hide Frame.Wire, Checked, Put;
    assert frames[..n + 1][..n] == frames[..n];
  }

  // --- The recorder ----------------------------------------------------------------

  /** Files may be added; of those already there only the last may have grown. */
  ghost predicate Extends(before: seq<seq<byte>>, now: seq<seq<byte>>) {
    && |before| <= |now|
    && (forall k :: 0 <= k < |before| - 1 ==> now[k] == before[k])
    && (|before| > 0 ==> before[|before| - 1] <= now[|before| - 1])
  }

  lemma ExtendsOpened(before: seq<seq<byte>>, now: seq<seq<byte>>)
    requires Extends(before + [[]], now)
    ensures Extends(before, now) && before <= now
  {
    assert forall k :: 0 <= k < |before| ==> (before + [[]])[k] == before[k] == now[k];
  }

  class SbfRecorder {
    const cfg: Config
    const sync: SbfFrameSync

    // The files created so far, in order. When one is open it is the last.
    var files: seq<seq<byte>>
    var isOpen: bool
    var currentSize: nat
    var fileStart: int
    var seqNo: nat
    var stats: RecorderStats
    var prevCrcFailed: nat
    var prevLengthInvalid: nat
    var prevResyncs: nat

    ghost var written: seq<seq<Frame>>
    ghost var closes: nat

    function DiskOf(): Disk
      reads this
    {
      Disk(files, isOpen, currentSize, fileStart)
    }

    /** The files and their accounting once exactly the frames `done` are on disk. */
    ghost predicate Ledger(done: seq<Frame>)
      reads this
    {
      && WholeFrames(files, written) && Flat(written) == done
      && (isOpen ==> |files| > 0 && currentSize == |files[|files| - 1]|)
      && (!isOpen ==> currentSize == 0)
      && WithinLimit(files, cfg)
      && seqNo == |files|
      && stats.filesRotated + closes + (if isOpen then 1 else 0) == |files|
      && stats.bytesWritten == |Concat(files)| && stats.framesWritten == |done|
    }

    /** The open file can take one more frame. */
    ghost predicate Room()
      reads this
    {
      isOpen ==> currentSize + MAX_SBF_LENGTH <= SizeLimit(cfg)
    }

    /** The drop counters are the synchronizer's. */
    ghost predicate SameDrops()
      reads this, sync
    {
      && stats.crcFailed == prevCrcFailed == sync.stats.crcFailed
      && stats.lengthInvalid == prevLengthInvalid == sync.stats.lengthInvalid
      && stats.resyncs == prevResyncs == sync.stats.resyncs
    }

    ghost predicate Valid()
      reads this, sync
    {
      && sync.Valid() && sync.since == Stats(0, 0, 0, 0, 0)
      && Ledger(sync.emitted) && Room() && SameDrops()
    }

    constructor (cfg: Config)
      ensures Valid() && fresh(sync) && this.cfg == cfg
      ensures sync.history == [] && closes == 0 && DiskOf() == Disk([], false, 0, 0)
    {
      this.cfg := cfg;
      sync := new SbfFrameSync();
      files, isOpen, currentSize, fileStart, seqNo := [], false, 0, 0, 0;
      stats := RecorderStats(0, 0, 0, 0, 0, 0);
      prevCrcFailed, prevLengthInvalid, prevResyncs := 0, 0, 0;
      written, closes := [], 0;
    }

    /** Ends the current file. Bytes of a frame in progress stay with the synchronizer. */
    method Close()
      requires Valid()
      modifies this
      ensures Valid() && !isOpen && files == old(files) && stats == old(stats)
      ensures DiskOf() == Closed(old(DiskOf())) && closes == old(closes) + if old(isOpen) then 1 else 0
    {
      hide WholeFrames, WithinLimit, Flat, Concat, Retained, Counted, StreamFrames, Frames;
      if isOpen {
        isOpen := false;
        currentSize := 0;
        closes := closes + 1;
      }
    }

    method OpenNewFile(now: int, ghost done: seq<Frame>)
      requires Ledger(done)
      modifies this`files, this`isOpen, this`currentSize, this`fileStart, this`seqNo, this`stats, this`written
      ensures Ledger(done) && isOpen && currentSize == 0 && fileStart == now
      ensures DiskOf() == Opened(old(DiskOf()), now)
      ensures files == old(files) + [[]]
      ensures stats == if old(isOpen) then old(stats).(filesRotated := old(stats).filesRotated + 1) else old(stats)
    {
      hide WholeFrames, WithinLimit, Flat, Concat;
      if isOpen {
        stats := stats.(filesRotated := stats.filesRotated + 1);
      }
      seqNo := seqNo + 1;
      AddEmpty(files, written, cfg);
      files, written := files + [[]], written + [[]];
      isOpen := true;
      currentSize := 0;
      fileStart := now;
    }

    /** `now` is the clock reading that decides, `restart` the one that dates the new file. */
    method RotateIfNeeded(now: int, restart: int, ghost done: seq<Frame>)
      requires Ledger(done)
      modifies this`files, this`isOpen, this`currentSize, this`fileStart, this`seqNo, this`stats, this`written
      ensures Ledger(done) && Room() && isOpen == old(isOpen)
      ensures files == if old(isOpen && (currentSize >= cfg.rotateBytes || now - fileStart >= cfg.rotateInterval))
                       then old(files) + [[]] else old(files)
      ensures DiskOf() == Checked(cfg, old(DiskOf()), now, restart)
      ensures stats.(filesRotated := 0) == old(stats).(filesRotated := 0)
    {
      if !isOpen {
        return;
      }
      var bySize := currentSize >= cfg.rotateBytes;
      var byTime := now - fileStart >= cfg.rotateInterval;
      if bySize || byTime {
        OpenNewFile(restart, done);
      }
    }

    method WriteFrame(frame: Frame, ghost done: seq<Frame>)
      requires Ledger(done) && Room() && isOpen && frame.Valid()
      modifies this`files, this`currentSize, this`stats, this`written
      ensures Ledger(done + [frame])
      ensures files == old(files)[|old(files)| - 1 := old(files)[|old(files)| - 1] + frame.Wire()]
      ensures DiskOf() == Put(old(DiskOf()), frame.Wire())
      ensures stats == old(stats).(bytesWritten := old(stats).bytesWritten + frame.length,
                                   framesWritten := old(stats).framesWritten + 1)
    {
      hide Frame.Valid, Frame.Wire, WholeFrames, Flat, Concat, WithinLimit;
      var crc, rawId, length := frame.crc, frame.rawId, frame.length;
      var header: seq<byte> := [DOLLAR, AT, crc % 0x100, crc / 0x100 % 0x100, rawId % 0x100, rawId / 0x100 % 0x100,
                                length % 0x100, length / 0x100 % 0x100];
      var last := |files| - 1;
      WireLayout(frame, header);
      AppendToLast(files, written, done, frame);
      LastWithinLimit(files, cfg, files[last] + frame.Wire());
      assert files[last] + header + frame.body == files[last] + frame.Wire();
      files := files[last := files[last] + header + frame.body];
      written := written[last := written[last] + [frame]];
      currentSize := currentSize + length;
      stats := stats.(bytesWritten := stats.bytesWritten + length, framesWritten := stats.framesWritten + 1);
    }

    /**
     Takes the next bytes of the stream and writes the frames they complete. `clock` gives the
     successive readings of the clock during this call.
     */
    method Feed(bytes: seq<byte>, clock: nat -> int)
      requires Valid()
      modifies this, sync
      ensures Valid() && isOpen
      ensures sync.history == old(sync.history) + bytes
      ensures Recounts(old(sync.stats), sync.stats, Scan(old(sync.history), 0), Scan(sync.history, 0),
                       Scan(old(sync.Undrained()), 0))
      ensures Kept(old(sync.Undrained()) + bytes, sync.buf, sync.frameDrain, sync.state)
      ensures Concat(files) == Stream(StreamFrames(sync.history))
      ensures Extends(old(files), files)
      ensures !old(isOpen) ==> old(files) <= files
      ensures old(sync.emitted) <= sync.emitted && closes == old(closes)
      ensures DiskOf() == Fed(cfg, old(DiskOf()), sync.emitted[|old(sync.emitted)|..], clock)
    {
      hide Scan, Frames, Retained, Kept, Counted, Recounts, Stream, Concat, WholeFrames, WithinLimit, Flat, AllValid,
        Extends, Stored;
      if !isOpen {
        OpenNewFile(clock(0), sync.emitted);
      }
      ghost var done := sync.emitted;
      hide SbfRecorder.Ledger;
      var out := sync.Feed(bytes);
      EmittedValid(sync.history, done, out);
      Store(out, clock, done);
      RecordedStream(sync.emitted);
      if !old(isOpen) { ExtendsOpened(old(files), files); }
      assert sync.emitted[|done|..] == out;
    }

    /** Takes over what the synchronizer has found: its rejections and its frames. */
    method Store(out: seq<Frame>, clock: nat -> int, ghost done: seq<Frame>)
      requires Ledger(done) && Room() && isOpen && AllValid(out)
      requires stats.crcFailed == prevCrcFailed <= sync.stats.crcFailed
      requires stats.lengthInvalid == prevLengthInvalid <= sync.stats.lengthInvalid
      requires stats.resyncs == prevResyncs <= sync.stats.resyncs
      modifies this
      ensures Ledger(done + out) && Room() && isOpen && SameDrops()
      ensures 0 < |old(files)| && Extends(old(files), files)
      ensures DiskOf() == Stored(cfg, old(DiskOf()), out, clock) && closes == old(closes)
    {
      hide SbfRecorder.Ledger, Frame.Valid, Stored;
      TakeDrops(done);
      WriteAll(out, clock, done);
    }

    /** Adds the synchronizer's new rejections to the recorder's counters. */
    method TakeDrops(ghost done: seq<Frame>)
      requires Ledger(done)
      requires stats.crcFailed == prevCrcFailed <= sync.stats.crcFailed
      requires stats.lengthInvalid == prevLengthInvalid <= sync.stats.lengthInvalid
      requires stats.resyncs == prevResyncs <= sync.stats.resyncs
      modifies this`stats, this`prevCrcFailed, this`prevLengthInvalid, this`prevResyncs
      ensures Ledger(done) && SameDrops()
    {
      hide WholeFrames, WithinLimit, Flat, Concat;
      var fs := sync.stats;
      stats := stats.(crcFailed := stats.crcFailed + (fs.crcFailed - prevCrcFailed),
                      lengthInvalid := stats.lengthInvalid + (fs.lengthInvalid - prevLengthInvalid),
                      resyncs := stats.resyncs + (fs.resyncs - prevResyncs));
      prevCrcFailed, prevLengthInvalid, prevResyncs := fs.crcFailed, fs.lengthInvalid, fs.resyncs;
    }

    lemma RecordedStream(done: seq<Frame>)
      requires Ledger(done)
      ensures Concat(files) == Stream(done)
    {
      FilesHoldStream(files, written);
    }

    lemma OpenHasFile(done: seq<Frame>)
      requires Ledger(done)
      ensures isOpen ==> files != []
    {
    }

    /** Writes the frames of one call, checking after each whether to rotate. */
    method WriteAll(out: seq<Frame>, clock: nat -> int, ghost done: seq<Frame>)
      requires Ledger(done) && Room() && isOpen && AllValid(out)
      modifies this`files, this`isOpen, this`currentSize, this`fileStart, this`seqNo, this`stats, this`written
      ensures Ledger(done + out) && Room() && isOpen
      ensures 0 < |old(files)| && Extends(old(files), files)
      ensures DiskOf() == Stored(cfg, old(DiskOf()), out, clock)
      ensures stats.crcFailed == old(stats).crcFailed && stats.lengthInvalid == old(stats).lengthInvalid
              && stats.resyncs == old(stats).resyncs
    {
      hide Frame.Valid, Frame.Wire, Checked, Put, Extends, SbfRecorder.Ledger, SbfRecorder.Room;
      OpenHasFile(done);
      StoredExtends(cfg, DiskOf(), out, clock);
      assert done + out[..0] == done;
      for i := 0 to |out|
        invariant Ledger(done + out[..i]) && Room() && isOpen
        invariant stats.crcFailed == old(stats).crcFailed && stats.lengthInvalid == old(stats).lengthInvalid
                  && stats.resyncs == old(stats).resyncs
        invariant DiskOf() == Stored(cfg, old(DiskOf()), out[..i], clock)
      {
        StoredNext(cfg, old(DiskOf()), out, clock, i);
        assert done + out[..i] + [out[i]] == done + out[..i + 1];
        WriteOne(out[i], clock(2 * i + 1), clock(2 * i + 2), done + out[..i]);
      }
      assert out[..|out|] == out;
    }

    method WriteOne(frame: Frame, now: int, restart: int, ghost done: seq<Frame>)
      requires Ledger(done) && Room() && isOpen && frame.Valid()
      modifies this`files, this`isOpen, this`currentSize, this`fileStart, this`seqNo, this`stats, this`written
      ensures Ledger(done + [frame]) && Room() && isOpen
      ensures DiskOf() == Checked(cfg, Put(old(DiskOf()), frame.Wire()), now, restart)
      ensures stats.crcFailed == old(stats).crcFailed && stats.lengthInvalid == old(stats).lengthInvalid
              && stats.resyncs == old(stats).resyncs
    {
      hide Frame.Valid, Frame.Wire, Checked, Put, SbfRecorder.Ledger, SbfRecorder.Room;
      WriteFrame(frame, done);
      RotateIfNeeded(now, restart, done + [frame]);
    }
  }

  lemma {:induction false} StoredExtends(cfg: Config, d: Disk, frames: seq<Frame>, clock: nat -> int)
    requires d.open ==> d.files != []
    ensures d.open ==> Stored(cfg, d, frames, clock).open && Extends(d.files, Stored(cfg, d, frames, clock).files)
  {
    hide Frame.Wire;
    if frames != [] && d.open {
      var n := |frames| - 1;
      StoredExtends(cfg, d, frames[..n], clock);
      CheckedExtends(cfg, d.files, Stored(cfg, d, frames[..n], clock), frames[n].Wire(), clock(2 * n + 1),
                     clock(2 * n + 2));
    }
  }

  lemma CheckedExtends(cfg: Config, before: seq<seq<byte>>, d: Disk, bytes: seq<byte>, now: int, restart: int)
    requires d.open && before != [] && Extends(before, d.files)
    ensures var d' := Checked(cfg, Put(d, bytes), now, restart); d'.open && Extends(before, d'.files)
  {
  }

  lemma AddEmpty(files: seq<seq<byte>>, written: seq<seq<Frame>>, cfg: Config)
    requires WholeFrames(files, written) && WithinLimit(files, cfg)
    ensures WholeFrames(files + [[]], written + [[]]) && WithinLimit(files + [[]], cfg)
    ensures Flat(written + [[]]) == Flat(written) && Concat(files + [[]]) == Concat(files)
  {
    hide Frame.Valid, Frame.Wire;
    ConcatPush(files, []);
    assert (written + [[]])[..|written|] == written;
    assert Stream([]) == [];
  }

  lemma WireLayout(f: Frame, header: seq<byte>)
    requires f.Valid() && |header| == 8
    requires header[0] == DOLLAR && header[1] == AT
    requires header[2] == f.crc % 0x100 && header[3] == f.crc / 0x100
    requires header[4] == f.rawId % 0x100 && header[5] == f.rawId / 0x100
    requires header[6] == f.length % 0x100 && header[7] == f.length / 0x100
    ensures header + f.body == f.Wire() && |f.Wire()| == f.length && 8 <= f.length <= MAX_SBF_LENGTH
  {
    hide Crc;
  }

  lemma AppendToLast(files: seq<seq<byte>>, written: seq<seq<Frame>>, done: seq<Frame>, f: Frame)
    requires WholeFrames(files, written) && Flat(written) == done && |files| > 0 && f.Valid()
    ensures var last := |files| - 1;
            var files' := files[last := files[last] + f.Wire()];
            var written' := written[last := written[last] + [f]];
            && |written| == |files| && WholeFrames(files', written') && Flat(written') == done + [f]
            && |Concat(files')| == |Concat(files)| + |f.Wire()|
  {
    hide Frame.Valid, Frame.Wire, Stream;
    var last := |files| - 1;
    StreamPush(written[last], f);
    var files' := files[last := files[last] + f.Wire()];
    var written' := written[last := written[last] + [f]];
    assert files'[..last] == files[..last] && written'[..last] == written[..last];
  }

  lemma LastWithinLimit(files: seq<seq<byte>>, cfg: Config, file: seq<byte>)
    requires WithinLimit(files, cfg) && files != []
    ensures |file| <= SizeLimit(cfg) ==> WithinLimit(files[|files| - 1 := file], cfg)
  {
    hide SizeLimit;
  }

  lemma {:induction false} FilesHoldStream(files: seq<seq<byte>>, written: seq<seq<Frame>>)
    requires WholeFrames(files, written)
    ensures Concat(files) == Stream(Flat(written))
  {
    hide Frame.Valid;
    if files != [] {
      var n := |files| - 1;
      FilesHoldStream(files[..n], written[..n]);
      StreamAppend(Flat(written[..n]), written[n]);
    }
  }

  lemma EmittedValid(h: seq<byte>, done: seq<Frame>, out: seq<Frame>)
    requires StreamFrames(h) == done + out
    ensures AllValid(out)
  {
    hide Frame.Valid, Scan;
    ScanSlices(h, 0);
    forall k | 0 <= k < |out| ensures out[k].Valid() {
      assert SliceOk(h, Scan(h, 0).frames[|done| + k], 0, Scan(h, 0).rest);
      assert out[k] == (done + out)[|done| + k];
    }
  }

  /** The recorded bytes are the slices of the input that were valid frames, in order. */
  lemma RecordedSlices(h: seq<byte>)
    ensures var found := Scan(h, 0).frames;
            && Slices(h, found, 0, |h|)
            && Stream(StreamFrames(h))
               == Concat(seq(|found|, k requires 0 <= k < |found| && SliceOk(h, found[k], 0, |h|) =>
                             h[found[k].offset..found[k].offset + found[k].frame.length]))
  {
    hide Frame.Valid, Frame.Wire, Scan;
    ScanSlices(h, 0);
    var found := Scan(h, 0).frames;
    forall k | 0 <= k < |found| ensures SliceOk(h, found[k], 0, |h|) {
      assert SliceOk(h, found[k], 0, Scan(h, 0).rest);
    }
    assert Wires(StreamFrames(h))
        == seq(|found|, k requires 0 <= k < |found| && SliceOk(h, found[k], 0, |h|) =>
               h[found[k].offset..found[k].offset + found[k].frame.length]);
  }

  /** Scanning any recorded file gives back the frames written to it, with no byte left over. */
  lemma RecordedFileReadsBack(files: seq<seq<byte>>, written: seq<seq<Frame>>, k: nat)
    requires WholeFrames(files, written) && k < |files|
    ensures Offline(files[k], 0).frames == Contiguous(written[k])
    ensures Frames(Contiguous(written[k])) == written[k] && Stream(written[k]) == files[k]
    ensures Offline(files[k], 0).crcFailed == 0
  {
    OfflineStream(written[k]);
    ContiguousFrames(written[k]);
  }
}
