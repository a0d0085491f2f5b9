/** Exporting an exported file once more changes nothing in it. */
module ReExport {
  import opened Bytes
  import opened Framing
  import opened Observation
  import opened ObservationRoundTrip
  import opened MeasEpoch
  import opened MeasExtra
  import opened SbfSink
  import opened ExportSpec
  import opened ExportContents

  /** Observations of this antenna only, which come back unchanged. */
  ghost predicate OwnRows(rows: seq<Row>, ant: nat) {
    forall k :: 0 <= k < |rows| ==> rows[k].antenna == ant && Stable(rows[k])
  }

  /** With `p` open, the frame is due to its antenna in full, and to no other. */
  ghost predicate Settled(p: OpenEpoch, f: Frame, ant: nat) {
    && Due(p, f, ant) == [Carried(f)]
    && (f.BlockId() == MEAS_EPOCH ==> OwnRows(Rows(f.body), ant) && 0 < |Rows(f.body)| <= 255)
  }

  ghost predicate AllSettled(file: seq<Frame>, ant: nat) {
    file == [] || (AllSettled(file[..|file| - 1], ant)
                   && Settled(OpenAfter(file[..|file| - 1]), file[|file| - 1], ant))
  }

  /** How the open epoch of an antenna's file relates to that of the recording. */
  ghost predicate SameOpen(p: OpenEpoch, q: OpenEpoch, ant: nat) {
    ant in p.owners ==>
      && q.time == p.time && |q.owners| == |Indices(p.owners, ant)| > 0
      && forall k :: 0 <= k < |q.owners| ==> q.owners[k] == ant
  }

  ghost predicate FileSettled(p: OpenEpoch, file: seq<Frame>, ant: nat) {
    AllSettled(file, ant) && SameOpen(p, OpenAfter(file), ant)
  }

  lemma OpenPush(file: seq<Frame>, f: Frame)
    ensures OpenAfter(file + [f])
         == if f.BlockId() == MEAS_EPOCH then OpenEpoch(Owners(Rows(f.body)), EpochTime(Rows(f.body)))
            else if f.BlockId() == END_OF_MEAS then OpenEpoch([], None)
            else OpenAfter(file)
  {
    hide Rows;
    assert (file + [f])[..|file|] == file;
  }

  lemma SettledPush(file: seq<Frame>, f: Frame, ant: nat)
    requires AllSettled(file, ant) && Settled(OpenAfter(file), f, ant)
    ensures AllSettled(file + [f], ant)
  {
    hide Settled, OpenAfter;
    assert (file + [f])[..|file|] == file;
  }

  // --- Counting what an antenna owns -------------------------------------------

  lemma {:induction false} IndicesOfRows(rows: seq<Row>, ant: nat)
    ensures |Indices(Owners(rows), ant)| == |RowsOf(rows, ant)|
  {
    if rows != [] {
      var n := |rows| - 1;
      IndicesOfRows(rows[..n], ant);
      assert Owners(rows)[..n] == Owners(rows[..n]);
    }
  }

  lemma {:induction false} OwnedFew(blocks: seq<seq<byte>>, owners: seq<nat>, ant: nat)
    ensures |Owned(blocks, owners, ant)| <= |Indices(owners, ant)|
  {
    SelectedAreOwned(blocks, owners, ant);
    SelectedFew(blocks, Indices(owners, ant));
  }

  lemma {:induction false} SelectedFew(blocks: seq<seq<byte>>, indices: seq<nat>)
    ensures |Selected(blocks, indices)| <= |indices|
  {
    if indices != [] { SelectedFew(blocks, indices[..|indices| - 1]); }
  }

  /** An antenna that owns every index keeps every sub-block. */
  lemma {:induction false} AllOwned(blocks: seq<seq<byte>>, owners: seq<nat>, ant: nat)
    requires |blocks| <= |owners| && forall k :: 0 <= k < |owners| ==> owners[k] == ant
    ensures Owned(blocks, owners, ant) == blocks
    decreases |blocks|
  {
    if blocks != [] { AllOwned(blocks[..|blocks| - 1], owners, ant); }
  }

  // --- One step ------------------------------------------------------------------

  lemma RereadOwn(epoch: Epoch, own: seq<Row>, ant: nat)
    requires forall k :: 0 <= k < |own| ==> own[k].antenna == ant && DecodedFor(epoch, own[k])
    ensures OwnRows(Reread(epoch, own), ant) && |Reread(epoch, own)| == |own|
    ensures forall k :: 0 <= k < |own| ==> Reread(epoch, own)[k].epoch == epoch
  {
    hide ParseType1, EncodeType1, Decoded, Stable, WholeUnits;
    forall k | 0 <= k < |own|
      ensures var back := Reread(epoch, own)[k]; back.antenna == ant && Stable(back) && back.epoch == epoch
    {
      RereadStable(epoch, own[k]);
      ReadBack(epoch, own[k]);
    }
  }

  /** A MeasEpoch frame that was written for an antenna. */
  lemma WrittenEpoch(frame: Frame, ant: nat, g: Frame, q: OpenEpoch)
    requires 0 < |RowsOf(Rows(frame.body), ant)|
    requires Share(OfEpoch(frame.rawId, Rows(frame.body)), ant) == Some([g]) && frame.BlockId() == MEAS_EPOCH
    ensures Settled(q, g, ant) && g.BlockId() == MEAS_EPOCH
    ensures SameOpen(OpenEpoch(Owners(Rows(frame.body)), EpochTime(Rows(frame.body))),
                     OpenEpoch(Owners(Rows(g.body)), EpochTime(Rows(g.body))), ant)
  {
    hide Rows, RowsOf, Share, Reread, RowsAgree, FlattenedRows, Representable, Indices;
    var rows := Rows(frame.body);
    var own := RowsOf(rows, ant);
    EpochShareFails(frame.rawId, rows, ant);
    EpochContents(frame, ant);
    assert own[0] in rows;
    SameEpoch(frame.body);
    RowsDecoded(frame.body);
    var epoch := EpochOf(frame.body);
    RereadOwn(epoch, own, ant);
    AllOfOne(Rows(g.body), ant);
    IndicesOfRows(rows, ant);
  }

  lemma WrittenExtra(p: OpenEpoch, frame: Frame, ant: nat, g: Frame, q: OpenEpoch)
    requires frame.Valid() && frame.BlockId() == MEAS_EXTRA && ant in p.owners && BodyTime(frame.body) == p.time
    requires Share(OfExtra(frame, p.owners), ant) == Some([g]) && SameOpen(p, q, ant)
    ensures Settled(q, g, ant) && g.BlockId() == MEAS_EXTRA
  {
    hide Rows, RowsOf, SubBlocks, Owned, Indices, Share, Frame.Valid, BodyTime, IsCommon;
    ExtraContents(frame, p.owners, ant);
    var blocks := Owned(SubBlocks(frame.body).blocks, p.owners, ant);
    OwnedFew(SubBlocks(frame.body).blocks, p.owners, ant);
    AllOwned(blocks, q.owners, ant);
    ExtraShareTime(frame, p.owners, ant, g);
  }

  lemma ExtraShareTime(frame: Frame, owners: seq<nat>, ant: nat, g: Frame)
    requires frame.Valid() && Share(OfExtra(frame, owners), ant) == Some([g])
    ensures BodyTime(g.body) == BodyTime(frame.body)
  {
    hide BuildMeasExtraBody, SubBlocks, Indices, BodyTime, Frame.Valid;
    var body := BuildMeasExtraBody(frame.body, Indices(owners, ant));
    ExtraTime(frame.body, Indices(owners, ant));
    ExtraFits(frame, owners, ant);
    PrintFits(frame.rawId, body.value);
    SealedHead(frame.rawId, body.value);
  }

  lemma WrittenCopy(p: OpenEpoch, frame: Frame, ant: nat, q: OpenEpoch)
    requires SameOpen(p, q, ant)
    requires (frame.BlockId() == END_OF_MEAS && ant in p.owners) || IsCommon(frame.BlockId())
    ensures Settled(q, frame, ant) && frame.BlockId() != MEAS_EPOCH && frame.BlockId() != MEAS_EXTRA
  {
    hide Rows, RowsOf, SubBlocks, Owned, Indices, IsCommon;
    if IsCommon(frame.BlockId()) { CommonIsOther(frame.BlockId()); } else { assert q.owners[0] == ant; }
  }

  lemma FilePush(p: OpenEpoch, file: seq<Frame>, g: Frame, ant: nat)
    requires AllSettled(file, ant) && Settled(OpenAfter(file), g, ant)
    requires SameOpen(p, OpenAfter(file + [g]), ant)
    ensures FileSettled(p, file + [g], ant)
  {
    hide Settled, SameOpen, OpenAfter, AllSettled;
    SettledPush(file, g, ant);
  }

  /** The open epoch of the recording after one more frame. */
  function NextOpen(p: OpenEpoch, f: Frame): OpenEpoch {
    if f.BlockId() == MEAS_EPOCH then OpenEpoch(Owners(Rows(f.body)), EpochTime(Rows(f.body)))
    else if f.BlockId() == END_OF_MEAS then OpenEpoch([], None)
    else p
  }

  lemma EpochSettles(p: OpenEpoch, frame: Frame, ant: nat, file: seq<Frame>)
    requires frame.BlockId() == MEAS_EPOCH && Added(p, frame, ant).Some? && FileSettled(p, file, ant)
    ensures FileSettled(NextOpen(p, frame), file + Added(p, frame, ant).value, ant)
  {
    hide Rows, RowsOf, Share, AllSettled, Settled, OpenAfter, IsCommon, Indices;
    var rows := Rows(frame.body);
    EpochShareFails(frame.rawId, rows, ant);
    RowsOfOwner(rows, ant);
    if RowsOf(rows, ant) == [] {
      NoShare(OfEpoch(frame.rawId, rows), ant);
      assert file + [] == file;
    } else {
      EpochContents(frame, ant);
      hide Owners, EpochTime, SameOpen;
      var g := Added(p, frame, ant).value[0];
      assert Added(p, frame, ant).value == [g];
      WrittenEpoch(frame, ant, g, OpenAfter(file));
      OpenPush(file, g);
      FilePush(NextOpen(p, frame), file, g, ant);
    }
  }

  lemma ExtraSettles(p: OpenEpoch, frame: Frame, ant: nat, file: seq<Frame>)
    requires frame.Valid() && frame.BlockId() == MEAS_EXTRA && Added(p, frame, ant).Some? && FileSettled(p, file, ant)
    ensures FileSettled(p, file + Added(p, frame, ant).value, ant)
  {
    hide Rows, RowsOf, Share, AllSettled, Settled, OpenAfter, IsCommon, Indices, SameOpen, BodyTime, Frame.Valid, Owned,
      SubBlocks;
    if ant !in p.owners { NoShare(OfExtra(frame, p.owners), ant); }
    if ant in p.owners { ExtraContents(frame, p.owners, ant); }
    if Added(p, frame, ant) == Some([]) {
      assert file + [] == file;
    } else {
      var g := Added(p, frame, ant).value[0];
      assert Added(p, frame, ant).value == [g];
      WrittenExtra(p, frame, ant, g, OpenAfter(file));
      OpenPush(file, g);
      FilePush(p, file, g, ant);
    }
  }

  lemma OtherSettles(p: OpenEpoch, frame: Frame, ant: nat, file: seq<Frame>)
    requires frame.Valid() && frame.BlockId() != MEAS_EPOCH && frame.BlockId() != MEAS_EXTRA
    requires Added(p, frame, ant).Some? && FileSettled(p, file, ant)
    ensures FileSettled(NextOpen(p, frame), file + Added(p, frame, ant).value, ant)
  {
    hide Rows, AllSettled, Settled, OpenAfter, IsCommon, Frame.Valid, PrintOne, Indices;
    CopiedUnchanged(frame);
    if Added(p, frame, ant).value == [] {
      assert file + [] == file;
    } else {
      assert Added(p, frame, ant).value == [frame];
      WrittenCopy(p, frame, ant, OpenAfter(file));
      OpenPush(file, frame);
      FilePush(NextOpen(p, frame), file, frame, ant);
    }
  }

  lemma AddedSettles(p: OpenEpoch, frame: Frame, ant: nat, file: seq<Frame>)
    requires frame.Valid() && Added(p, frame, ant).Some? && FileSettled(p, file, ant)
    ensures FileSettled(NextOpen(p, frame), file + Added(p, frame, ant).value, ant)
  {
    hide FileSettled, Added, Frame.Valid, Rows;
    if frame.BlockId() == MEAS_EPOCH {
      EpochSettles(p, frame, ant, file);
    } else if frame.BlockId() == MEAS_EXTRA {
      ExtraSettles(p, frame, ant, file);
    } else {
      OtherSettles(p, frame, ant, file);
    }
  }

  // --- Whole recordings --------------------------------------------------------

  lemma {:induction false} FilesSettled(frames: seq<Frame>, ant: nat)
    requires AllValid(frames) && Run(frames).Going?
    ensures FileSettled(OpenAfter(frames), FileOf(Run(frames).log, ant), ant)
  {
    hide Step, FileSettled, Frame.Valid, Added, Below8, OpenAfter, FileOf;
    if frames == [] {
      NothingSettled(ant);
    } else {
      var init, f := frames[..|frames| - 1], frames[|frames| - 1];
      var p, log := OpenAfter(init), Run(init).log;
      FilesSettled(init, ant);
      PendingIsOpen(init);
      OpenBelow8(init);
      StepAdds(p, log, f, ant);
      AddedSettles(p, f, ant, FileOf(log, ant));
      assert OpenAfter(frames) == NextOpen(p, f) by {
        OpenPush(init, f);
        assert init + [f] == frames;
      }
    }
  }

  lemma NothingSettled(ant: nat)
    ensures FileSettled(OpenAfter([]), FileOf<Frame>([], ant), ant)
  {
  }

  lemma {:induction false} RowsOfFew(rows: seq<Row>, ant: nat)
    ensures |RowsOf(rows, ant)| <= |rows|
  {
    if rows != [] { RowsOfFew(rows[..|rows| - 1], ant); }
  }

  lemma {:induction false} RowsOfOther(rows: seq<Row>, ant: nat, other: nat)
    requires OwnRows(rows, ant) && other != ant
    ensures RowsOf(rows, other) == []
  {
    hide Stable;
    if rows != [] { RowsOfOther(rows[..|rows| - 1], ant, other); }
  }

  /** What a settled frame is, on its own. */
  ghost predicate Unchanged(f: Frame, ant: nat) {
    && Faithful(Carried(f)) && AsWritten(Carried(f)) == Carried(f) && !TooManyRows(f)
    && forall other: nat :: other != ant ==> !ObservedBy(f, other)
  }

  lemma SettledUnchanged(p: OpenEpoch, f: Frame, ant: nat)
    requires Settled(p, f, ant)
    ensures Unchanged(f, ant)
  {
    hide Rows, RowsOf, SubBlocks, Owned, IsCommon, Representable, Flattened;
    if f.BlockId() == MEAS_EPOCH {
      var rows := Rows(f.body);
      assert forall k :: 0 <= k < |rows| ==> Stable(rows[k]);
      forall a: nat ensures |RowsOf(rows, a)| <= 255 && (a != ant ==> RowsOf(rows, a) == []) {
        RowsOfFew(rows, a);
        if a != ant { RowsOfOther(rows, ant, a); }
      }
      assert AsWritten(Carried(f)).rows == rows;
    }
  }

  lemma {:induction false} SettledFile(file: seq<Frame>, ant: nat)
    requires AllSettled(file, ant)
    ensures AllDue(file, ant) == Carries(file)
    ensures forall k :: 0 <= k < |file| ==> Unchanged(file[k], ant)
  {
    hide Due, Carried, OpenAfter, Unchanged;
    if file != [] {
      var n := |file| - 1;
      SettledFile(file[..n], ant);
      SettledUnchanged(OpenAfter(file[..n]), file[n], ant);
      assert Carries(file) == Carries(file[..n]) + [Carried(file[n])];
      assert forall k :: 0 <= k < n ==> file[..n][k] == file[k];
    }
  }

  /**
   For every recording that exports and every antenna: its file exports again, to a file that says
   item by item the same, and to no file of another antenna. What an export loses it loses once.
   */
  lemma ExportedOnceMore(frames: seq<Frame>, ant: nat)
    requires AllValid(frames) && Run(frames).Going?
    ensures var file := FileOf(Run(frames).log, ant);
            && Run(file).Going? && Carries(FileOf(Run(file).log, ant)) == Carries(file)
            && forall other: nat :: other != ant ==> !Observed(file, other)
  {
    hide Run, FileOf, TooManyRows, ObservedBy, Carried, AllSettled, SameOpen, OpenAfter, AllDue, Faithful, AsWritten,
      Frame.Valid, ShapeOf, Agrees;
    var file := FileOf(Run(frames).log, ant);
    FilesSettled(frames, ant);
    ExportShaped(frames);
    assert AntShaped(Run(frames).pending, file, ant);
    SettledFile(file, ant);
    ExportFails(file);
    FilesCarry(file, ant);
    AgreesWhole(Carries(FileOf(Run(file).log, ant)), Carries(file));
    assert forall k :: 0 <= k < |file| ==> Unchanged(file[k], ant);
    assert AllAsWritten(Carries(file)) == Carries(file);
  }
}
