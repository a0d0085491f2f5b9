/** From received bytes to per-antenna files. */
module Pipeline {
  import opened Bytes
  import opened Framing
  import opened OfflineScanner
  import opened Recorder
  import RecorderRuns
  import opened ExportSpec
  import opened ExportContents
  import opened Export

  /** The export of one recording is as the state machine over its frames says. */
  ghost predicate ExportOf(frames: seq<Frame>, out: Option<Exported>) {
    && (out.None? <==> exists k :: 0 <= k < |frames| && TooManyRows(frames[k]))
    && (out.Some? ==> out.value.commonFrames == |CommonBlocks(frames)|)
    && (out.Some? ==> Run(frames).Going? && forall ant: nat ::
          (ant in out.value.files <==> Observed(frames, ant))
          && (ant in out.value.files ==> GoodFile(out.value, Run(frames).log, ant)
                                         && FullFile(out.value.files[ant], frames, ant)))
  }

  /**
   Whatever is received, in whatever pieces and with whatever closes between: the frames that the
   exports of the recorded files work on are, file after file, exactly the frames of the stream,
   and each export is good.
   */
  method RecordAndExport(cfg: Config, actions: seq<RecorderRuns.Action>)
    returns (files: seq<seq<byte>>, exports: seq<Option<Exported>>)
    ensures |exports| == |files|
    ensures Flat(RecorderRuns.Rescanned(files)) == StreamFrames(Concat(RecorderRuns.Chunks(actions)))
    ensures forall k :: 0 <= k < |files| ==> ExportOf(RecorderRuns.Rescanned(files)[k], exports[k])
  {
    hide ExportOf, Flat, Offline, Frames, StreamFrames, RecorderRuns.Rescanned, RecorderRuns.Chunks, Concat, Stream,
      RecorderRuns.ReadsBack, SizeLimit;
    var stats;
    files, stats := RecorderRuns.Run(cfg, actions);
    exports := ExportAll(files);
  }

  /** Exports each file in turn. */
  method ExportAll(files: seq<seq<byte>>) returns (exports: seq<Option<Exported>>)
    ensures |exports| == |files|
    ensures forall k :: 0 <= k < |files| ==> ExportOf(RecorderRuns.Rescanned(files)[k], exports[k])
  {
    hide ExportOf, Offline, Frames;
    exports := [];
    for i := 0 to |files|
      invariant |exports| == i
      invariant forall k :: 0 <= k < i ==> ExportOf(RecorderRuns.Rescanned(files)[k], exports[k])
    {
      var out := ExportOne(files[i]);
      exports := exports + [out];
    }
  }

  method ExportOne(file: seq<byte>) returns (out: Option<Exported>)
    ensures ExportOf(Frames(Offline(file, 0).frames), out)
  {
    hide Offline, Frames, Run, TooManyRows, GoodFile, FullFile, Observed, CommonBlocks;
    out := ExportRecording(file);
  }
}
