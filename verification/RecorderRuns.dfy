/** What is on disk after any run of the recorder. */
module RecorderRuns {
  import opened Bytes
  import opened Framing
  import opened FrameSync
  import opened SyncRuns
  import opened OfflineScanner
  import opened Recorder

  datatype Action = Receive(bytes: seq<byte>, clock: nat -> int) | CloseFile

  /** The chunks received during the run. */
  function Chunks(actions: seq<Action>): seq<seq<byte>> {
    if actions == [] then []
    else
      var a := actions[|actions| - 1];
      Chunks(actions[..|actions| - 1]) + if a.Receive? then [a.bytes] else []
  }

  /** The frames that more bytes complete. */
  function NewFrames(h: seq<byte>, bytes: seq<byte>): seq<Frame> {
    Frames(Scan(h + bytes, Scan(h, 0).rest).frames)
  }

  lemma NewFramesAdded(h: seq<byte>, bytes: seq<byte>)
    ensures StreamFrames(h + bytes) == StreamFrames(h) + NewFrames(h, bytes)
  {
    hide Scan, Frames;
    ScanExtend(h, bytes, 0);
    FramesThen(Scan(h, 0), Scan(h + bytes, Scan(h, 0).rest));
  }

  /** What is on disk after one more action; `h` is the stream before it. */
  function Act(cfg: Config, d: Disk, h: seq<byte>, action: Action): Disk {
    match action
    case Receive(bytes, clock) => Fed(cfg, d, NewFrames(h, bytes), clock)
    case CloseFile => Closed(d)
  }

  /** What is on disk after a run, from the received chunks, the closes and the clock readings alone. */
  function DiskAfter(cfg: Config, actions: seq<Action>): Disk {
    if actions == [] then Disk([], false, 0, 0)
    else
      var init := actions[..|actions| - 1];
      Act(cfg, DiskAfter(cfg, init), Concat(Chunks(init)), actions[|actions| - 1])
  }

  /** A file is open after the run: its last action was to receive. */
  predicate LeftOpen(actions: seq<Action>) { actions != [] && actions[|actions| - 1].Receive? }

  /** How many of the closes found an open file. */
  function Closes(actions: seq<Action>): nat {
    if actions == [] then 0
    else
      var init := actions[..|actions| - 1];
      Closes(init) + if actions[|actions| - 1].CloseFile? && LeftOpen(init) then 1 else 0
  }

  /** The file is a back-to-back sequence of valid frames, and scanning it yields exactly those. */
  ghost predicate ReadsBack(file: seq<byte>) {
    exists fs ::
      && AllValid(fs) && file == Stream(fs)
      && Offline(file, 0).frames == Contiguous(fs) && Offline(file, 0).crcFailed == 0
  }

  /** What the offline scanner finds in each file. */
  function Rescanned(files: seq<seq<byte>>): seq<seq<Frame>> {
    seq(|files|, k requires 0 <= k < |files| => Frames(Offline(files[k], 0).frames))
  }

  /**
   Any sequence of received chunks and closes leaves, over all files in order, exactly the valid
   frames of the stream; every file is a whole number of frames and respects the size limit.
   */
  method Run(cfg: Config, actions: seq<Action>) returns (files: seq<seq<byte>>, stats: RecorderStats)
    ensures Concat(files) == Stream(StreamFrames(Concat(Chunks(actions))))
    ensures forall k :: 0 <= k < |files| ==> ReadsBack(files[k])
    ensures forall k :: 0 <= k < |files| ==>
                          |files[k]| <= (if cfg.rotateBytes > 1 then cfg.rotateBytes else 1) - 1 + 8188
    ensures Flat(Rescanned(files)) == StreamFrames(Concat(Chunks(actions)))
    ensures stats.bytesWritten == |Concat(files)|
    ensures stats.framesWritten == |StreamFrames(Concat(Chunks(actions)))|
    ensures stats.crcFailed == Scan(Concat(Chunks(actions)), 0).crcFailed + CrcTwice(Chunks(actions))
    ensures stats.lengthInvalid == Scan(Concat(Chunks(actions)), 0).lengthInvalid + LengthTwice(Chunks(actions))
    ensures stats.resyncs == stats.crcFailed + stats.lengthInvalid
    ensures stats.filesRotated + Closes(actions) + (if LeftOpen(actions) then 1 else 0) == |files|
    ensures files == DiskAfter(cfg, actions).files
  {
    hide Retained, Frames, Scan, Stream, WholeFrames, Flat, WithinLimit, Counted, Exactly, CrcTwice, LengthTwice,
      Concat;
    var recorder := new SbfRecorder(cfg);
    Perform(recorder, actions);
    files, stats := recorder.files, recorder.stats;
    FilesHoldStream(recorder.files, recorder.written);
    FilesReadBack(files, recorder.written, cfg);
    CountedResyncs(recorder.sync.stats, recorder.sync.since, Scan(recorder.sync.history, 0),
                   Scan(recorder.sync.Undrained(), 0));
    RunExact(recorder.sync.stats, Chunks(actions), Scan(recorder.sync.history, 0));
  }

  /** Carries out the actions in turn. */
  method Perform(recorder: SbfRecorder, actions: seq<Action>)
    requires recorder.Valid() && recorder.sync.history == [] && recorder.closes == 0
    requires recorder.DiskOf() == Disk([], false, 0, 0)
    modifies recorder, recorder.sync
    ensures recorder.Valid() && recorder.sync.history == Concat(Chunks(actions))
    ensures Exactly(recorder.sync.stats, Scan(recorder.sync.history, 0), Chunks(actions))
    ensures recorder.DiskOf() == DiskAfter(recorder.cfg, actions)
    ensures recorder.isOpen == LeftOpen(actions) && recorder.closes == Closes(actions)
  {
    hide Retained, Kept, Frames, Scan, Stream, WholeFrames, Flat, WithinLimit, Counted, Exactly, Recounts, HeldAfter,
      HeldOf, StreamFrames, Concat, Act, Chunks, Extends, DiskAfter, Closes, LeftOpen;
    ghost var sync := recorder.sync;
    FreshRecorder(sync);
    NoActions(recorder.cfg);
    for i := 0 to |actions|
      invariant recorder.Valid() && recorder.sync == sync && sync.history == Concat(Chunks(actions[..i]))
      invariant sync.Undrained() == HeldAfter(Chunks(actions[..i]))
      invariant Exactly(sync.stats, Scan(sync.history, 0), Chunks(actions[..i]))
      invariant recorder.DiskOf() == DiskAfter(recorder.cfg, actions[..i])
      invariant recorder.isOpen == LeftOpen(actions[..i]) && recorder.closes == Closes(actions[..i])
    {
      assert actions[..i + 1] == actions[..i] + [actions[i]];
      PerformOne(recorder, actions[..i], actions[i]);
    }
    assert actions[..|actions|] == actions;
  }

  lemma NoActions(cfg: Config)
    ensures Chunks([]) == [] && DiskAfter(cfg, []) == Disk([], false, 0, 0) && !LeftOpen([]) && Closes([]) == 0
  {
  }

  lemma NextAction(cfg: Config, actions: seq<Action>, action: Action)
    ensures Chunks(actions + [action]) == Chunks(actions) + if action.Receive? then [action.bytes] else []
    ensures DiskAfter(cfg, actions + [action]) == Act(cfg, DiskAfter(cfg, actions), Concat(Chunks(actions)), action)
    ensures LeftOpen(actions + [action]) == action.Receive?
    ensures Closes(actions + [action]) == Closes(actions) + if action.CloseFile? && LeftOpen(actions) then 1 else 0
  {
    hide Act, Concat;
    assert (actions + [action])[..|actions|] == actions;
  }

  method PerformOne(recorder: SbfRecorder, ghost before: seq<Action>, action: Action)
    requires recorder.Valid() && recorder.sync.history == Concat(Chunks(before))
    requires recorder.sync.Undrained() == HeldAfter(Chunks(before))
    requires Exactly(recorder.sync.stats, Scan(recorder.sync.history, 0), Chunks(before))
    requires recorder.DiskOf() == DiskAfter(recorder.cfg, before)
    requires recorder.isOpen == LeftOpen(before) && recorder.closes == Closes(before)
    modifies recorder, recorder.sync
    ensures var actions := before + [action];
            && recorder.Valid() && recorder.sync.history == Concat(Chunks(actions))
            && recorder.sync.Undrained() == HeldAfter(Chunks(actions))
            && Exactly(recorder.sync.stats, Scan(recorder.sync.history, 0), Chunks(actions))
            && recorder.DiskOf() == DiskAfter(recorder.cfg, actions)
            && recorder.isOpen == LeftOpen(actions) && recorder.closes == Closes(actions)
  {
    hide Retained, Kept, Frames, Scan, Stream, WholeFrames, Flat, WithinLimit, Counted, Exactly, Recounts, HeldAfter,
      HeldOf, StreamFrames, Concat, Chunks, Extends, NewFrames, Fed, DiskAfter, Closes, LeftOpen, SbfRecorder.Ledger;
    ghost var chunks := Chunks(before);
    ghost var sync := recorder.sync;
    NextAction(recorder.cfg, before, action);
    match action
    case Receive(bytes, clock) =>
      ConcatPush(chunks, bytes);
      ghost var stats, all, done := sync.stats, Scan(sync.history, 0), sync.emitted;
      NewFramesAdded(sync.history, bytes);
      recorder.Feed(bytes, clock);
      assert sync.emitted[|done|..] == NewFrames(Concat(chunks), bytes);
      KeptIsHeld(HeldAfter(chunks) + bytes, sync.buf, sync.frameDrain, sync.state);
      ExactlyNext(stats, sync.stats, all, Scan(sync.history, 0), chunks, bytes);
    case CloseFile =>
      assert chunks + [] == chunks;
      recorder.Close();
  }

  lemma FreshRecorder(sync: SbfFrameSync)
    requires sync.Valid() && sync.history == [] && sync.since == Stats(0, 0, 0, 0, 0)
    ensures Concat([]) == [] && sync.Undrained() == HeldAfter([])
    ensures Exactly(sync.stats, Scan(sync.history, 0), [])
  {
    hide Retained, Counted, Frames, HeldAfter, Exactly;
    FreshHolds(sync.history, sync.buf, sync.frameDrain, sync.state);
    FreshExact(sync.stats, Scan(sync.Undrained(), 0));
  }

  lemma FreshExact(stats: Stats, again: Found)
    requires Counted(stats, Stats(0, 0, 0, 0, 0), Scan([], 0), again)
    ensures Exactly(stats, Scan([], 0), [])
  {
    assert Scan([], 0) == Nothing(0);
  }

  lemma FilesReadBack(files: seq<seq<byte>>, written: seq<seq<Frame>>, cfg: Config)
    requires WholeFrames(files, written) && WithinLimit(files, cfg)
    ensures forall k :: 0 <= k < |files| ==> |files[k]| <= SizeLimit(cfg) && ReadsBack(files[k])
    ensures Rescanned(files) == written
  {
    hide Frame.Valid, Offline, Stream, Frames;
    forall k | 0 <= k < |files| ensures ReadsBack(files[k]) && Frames(Offline(files[k], 0).frames) == written[k] {
      RecordedFileReadsBack(files, written, k);
      assert AllValid(written[k]) && files[k] == Stream(written[k]);
    }
  }

  lemma CountedResyncs(stats: Stats, since: Stats, all: Found, again: Found)
    requires Counted(stats, since, all, again) && since == Stats(0, 0, 0, 0, 0)
    ensures stats.resyncs == stats.crcFailed + stats.lengthInvalid
  {
  }
}
