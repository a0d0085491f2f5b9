/**
 What the exported files carry, item by item: the observations and sub-blocks of one antenna and
 the frames passed on, against the frames of the recording they come from.
 */
module ExportContents {
  import opened Bytes
  import opened Framing
  import opened OfflineScanner
  import opened Observation
  import opened ObservationRoundTrip
  import opened MeasEpoch
  import opened MeasExtra
  import opened SbfSink
  import opened ExportSpec

  /** What one frame says; measurement frames are read down to their observations or sub-blocks. */
  datatype Item =
    | Observations(rawId: word, rows: seq<Row>)
    | Extras(rawId: word, head: seq<byte>, blocks: seq<seq<byte>>)
    | Copied(frame: Frame)

  // --- The files ---------------------------------------------------------------

  /** A frame of a file as a reader of that file decodes it. */
  function Carried(f: Frame): Item {
    if f.BlockId() == MEAS_EPOCH then Observations(f.rawId, Rows(f.body))
    else if f.BlockId() == MEAS_EXTRA then Extras(f.rawId, Head(f.body), SubBlocks(f.body).blocks)
    else Copied(f)
  }

  function Carries(file: seq<Frame>): seq<Item> {
    seq(|file|, k requires 0 <= k < |file| => Carried(file[k]))
  }

  // --- The recording -----------------------------------------------------------

  /** The epoch that is open after these frames: the last MeasEpoch, unless an EndOfMeas followed it. */
  function OpenAfter(frames: seq<Frame>): OpenEpoch {
    if frames == [] then OpenEpoch([], None)
    else
      var f := frames[|frames| - 1];
      if f.BlockId() == MEAS_EPOCH then OpenEpoch(Owners(Rows(f.body)), EpochTime(Rows(f.body)))
      else if f.BlockId() == END_OF_MEAS then OpenEpoch([], None)
      else OpenAfter(frames[..|frames| - 1])
  }

  /** What an antenna is due from a frame that arrives while `p` is open. */
  function Due(p: OpenEpoch, f: Frame, ant: nat): seq<Item> {
    var id := f.BlockId();
    if id == MEAS_EPOCH then
      var own := RowsOf(Rows(f.body), ant);
      if own == [] then [] else [Observations(f.rawId, own)]
    else if id == MEAS_EXTRA then
      var own := Owned(SubBlocks(f.body).blocks, p.owners, ant);
      if p.owners == [] || BodyTime(f.body) != p.time || own == [] then []
      else [Extras(f.rawId, Head(f.body), own)]
    else if id == END_OF_MEAS then
      if ant in p.owners then [Copied(f)] else []
    else
      if IsCommon(id) then [Copied(f)] else []
  }

  /** What an antenna is due from a recording. */
  function AllDue(frames: seq<Frame>, ant: nat): seq<Item> {
    if frames == [] then []
    else
      var init := frames[..|frames| - 1];
      AllDue(init, ant) + Due(OpenAfter(init), frames[|frames| - 1], ant)
  }

  /** The recording holds an observation of this antenna. */
  ghost predicate Observed(frames: seq<Frame>, ant: nat) {
    exists k :: 0 <= k < |frames| && ObservedBy(frames[k], ant)
  }

  predicate ObservedBy(f: Frame, ant: nat) {
    f.BlockId() == MEAS_EPOCH && RowsOf(Rows(f.body), ant) != []
  }

  // --- How they compare --------------------------------------------------------

  /** The item with its observations as first-level ones, Doppler shifts rounded. */
  function AsWritten(item: Item): Item {
    match item
    case Observations(rawId, rows) =>
      Observations(rawId, seq(|rows|, k requires 0 <= k < |rows| => Flattened(rows[k].epoch, rows[k])))
    case Extras(_, _, _) => item
    case Copied(_) => item
  }

  ghost predicate Faithful(item: Item) {
    item.Observations? ==> forall k :: 0 <= k < |item.rows| ==> Representable(item.rows[k])
  }

  /**
   An epoch holds the rows that are due, one for one, each as far as it can be represented;
   anything else is as it was.
   */
  ghost predicate ItemAgrees(got: Item, due: Item) {
    if due.Observations? then got.Observations? && got.rawId == due.rawId && RowsAgree(got.rows, due.rows)
    else got == due
  }

  /** Everything due is there, in order, and nothing else. */
  ghost predicate Agrees(got: seq<Item>, due: seq<Item>) {
    |got| == |due| && forall k :: 0 <= k < |due| ==> ItemAgrees(got[k], due[k])
  }

  lemma AgreesAppend(a: seq<Item>, b: seq<Item>, more: seq<Item>, due: seq<Item>)
    requires Agrees(a, b) && Agrees(more, due)
    ensures Agrees(a + more, b + due)
  {
    hide ItemAgrees;
    forall k | 0 <= k < |b + due| ensures ItemAgrees((a + more)[k], (b + due)[k]) {
      if k < |b| { assert ItemAgrees(a[k], b[k]); } else { assert ItemAgrees(more[k - |b|], due[k - |b|]); }
    }
  }

  function AllAsWritten(items: seq<Item>): seq<Item> {
    seq(|items|, k requires 0 <= k < |items| => AsWritten(items[k]))
  }

  lemma ItemWhole(got: Item, due: Item)
    requires ItemAgrees(got, due)
    ensures got == AsWritten(due) <==> Faithful(due)
  {
    hide Flattened, Representable;
    if due.Observations? {
      forall k | 0 <= k < |due.rows|
        ensures got.rows[k] == AsWritten(due).rows[k] <==> Representable(due.rows[k])
      {
        assert RowAgrees(got.rows[k], due.rows[k]);
      }
    }
  }

  /** The whole file says what the recording says exactly when every observation can be represented. */
  lemma AgreesWhole(got: seq<Item>, due: seq<Item>)
    requires Agrees(got, due)
    ensures got == AllAsWritten(due) <==> forall k :: 0 <= k < |due| ==> Faithful(due[k])
  {
    forall k | 0 <= k < |due| ensures got[k] == AsWritten(due[k]) <==> Faithful(due[k]) {
      assert ItemAgrees(got[k], due[k]);
      ItemWhole(got[k], due[k]);
    }
    hide AsWritten, Faithful, ItemAgrees;
    if got == AllAsWritten(due) {
      forall k | 0 <= k < |due| ensures Faithful(due[k]) {
        assert got[k] == AllAsWritten(due)[k];
      }
    }
  }

  // --- One step ----------------------------------------------------------------

  /** The frames that a step adds to an antenna's file. */
  function Added(p: OpenEpoch, frame: Frame, ant: nat): Option<seq<Frame>> {
    var id := frame.BlockId();
    if id == MEAS_EPOCH then Share(OfEpoch(frame.rawId, Rows(frame.body)), ant)
    else if id == MEAS_EXTRA then
      if p.owners != [] && BodyTime(frame.body) == p.time then Share(OfExtra(frame, p.owners), ant) else Some([])
    else if id == END_OF_MEAS then Share(OfEnd(frame, p.owners), ant)
    else if IsCommon(id) then PrintOne(frame.rawId, frame.body)
    else Some([])
  }

  ghost predicate Below8(owners: seq<nat>) {
    forall k :: 0 <= k < |owners| ==> owners[k] < 8
  }

  lemma StepAdds(p: OpenEpoch, log: Log, frame: Frame, ant: nat)
    requires Below8(p.owners) && Step(p, frame).Going?
    ensures Added(p, frame, ant).Some?
    ensures FileOf(log + Step(p, frame).log, ant) == FileOf(log, ant) + Added(p, frame, ant).value
  {
    hide Entries, FileOf, Rows, Share, RowsOf, IsCommon, PrintOne, Owners, Below8;
    var id := frame.BlockId();
    var file := FileOf(log, ant);
    assert log + [] == log && file + [] == file;
    if id == MEAS_EPOCH {
      var split := OfEpoch(frame.rawId, Rows(frame.body));
      AntennasBelowEight(frame.body, ant);
      if ant >= 8 { NoShare(split, ant); }
      SplitShares(split, log, ant);
    } else if id == MEAS_EXTRA {
      if p.owners != [] && BodyTime(frame.body) == p.time {
        ByOwners(OfExtra(frame, p.owners), ant);
        SplitShares(OfExtra(frame, p.owners), log, ant);
      }
    } else if id == END_OF_MEAS {
      ByOwners(OfEnd(frame, p.owners), ant);
      SplitShares(OfEnd(frame, p.owners), log, ant);
    } else if IsCommon(id) {
      OneFrame(frame.rawId, frame.body);
      LogPush(log, Common(PrintOne(frame.rawId, frame.body).value[0]), ant);
    }
  }

  lemma ByOwners(split: Split, ant: nat)
    requires !split.OfEpoch? && Below8(split.owners)
    ensures ant >= 8 ==> Share(split, ant) == Some([])
  {
    if ant >= 8 { NoShare(split, ant); }
  }

  lemma OneFrame(rawId: word, body: seq<byte>)
    ensures PrintOne(rawId, body).Some? ==> |PrintOne(rawId, body).value| == 1
  {
  }

  // --- What a step adds is what is due -----------------------------------------

  lemma EpochDue(p: OpenEpoch, frame: Frame, ant: nat)
    requires frame.BlockId() == MEAS_EPOCH && Added(p, frame, ant).Some?
    ensures Agrees(Carries(Added(p, frame, ant).value), Due(p, frame, ant))
  {
    hide Rows, RowsOf, FlattenedRows, Representable, Share, IsCommon, SubBlocks, Owned, RowsAgree;
    var rows := Rows(frame.body);
    var own := RowsOf(rows, ant);
    EpochShareFails(frame.rawId, rows, ant);
    if own == [] {
      NoShare(OfEpoch(frame.rawId, rows), ant);
    } else {
      EpochContents(frame, ant);
    }
  }

  lemma ExtraDue(p: OpenEpoch, frame: Frame, ant: nat)
    requires frame.Valid() && frame.BlockId() == MEAS_EXTRA && Added(p, frame, ant).Some?
    ensures Agrees(Carries(Added(p, frame, ant).value), Due(p, frame, ant))
  {
    hide Rows, RowsOf, Share, IsCommon, SubBlocks, Owned, Frame.Valid;
    var split := OfExtra(frame, p.owners);
    if ant in p.owners {
      ExtraContents(frame, p.owners, ant);
    } else {
      NoShare(split, ant);
      NotOwned(SubBlocks(frame.body).blocks, p.owners, ant);
    }
  }

  lemma {:induction false} NotOwned(blocks: seq<seq<byte>>, owners: seq<nat>, ant: nat)
    requires ant !in owners
    ensures Owned(blocks, owners, ant) == []
  {
    if blocks != [] { NotOwned(blocks[..|blocks| - 1], owners, ant); }
  }

  lemma OtherDue(p: OpenEpoch, frame: Frame, ant: nat)
    requires frame.Valid() && frame.BlockId() != MEAS_EPOCH && frame.BlockId() != MEAS_EXTRA
    ensures Added(p, frame, ant).Some?
    ensures Agrees(Carries(Added(p, frame, ant).value), Due(p, frame, ant))
  {
    hide Rows, RowsOf, IsCommon, SubBlocks, Owned, Frame.Valid, PrintOne;
    CopiedUnchanged(frame);
  }

  lemma AddedDue(p: OpenEpoch, frame: Frame, ant: nat)
    requires frame.Valid() && Added(p, frame, ant).Some?
    ensures Agrees(Carries(Added(p, frame, ant).value), Due(p, frame, ant))
  {
    hide Added, Due, Carries, Agrees, Frame.Valid;
    if frame.BlockId() == MEAS_EPOCH {
      EpochDue(p, frame, ant);
    } else if frame.BlockId() == MEAS_EXTRA {
      ExtraDue(p, frame, ant);
    } else {
      OtherDue(p, frame, ant);
    }
  }

  // --- Whole recordings --------------------------------------------------------

  lemma {:induction false} PendingIsOpen(frames: seq<Frame>)
    requires Run(frames).Going?
    ensures Run(frames).pending == OpenAfter(frames)
  {
    hide Entries, Rows, IsCommon, PrintOne;
    if frames != [] { PendingIsOpen(frames[..|frames| - 1]); }
  }

  lemma {:induction false} OpenBelow8(frames: seq<Frame>)
    ensures Below8(OpenAfter(frames).owners)
  {
    hide Rows;
    if frames != [] {
      OpenBelow8(frames[..|frames| - 1]);
      AntennasBelowEight(frames[|frames| - 1].body, 0);
    }
  }

  lemma CarriesAppend(a: seq<Frame>, b: seq<Frame>)
    ensures Carries(a + b) == Carries(a) + Carries(b)
  {
    hide Carried;
  }

  /** Over every recording that exports, each file carries exactly what its antenna is due. */
  lemma {:induction false} FilesCarry(frames: seq<Frame>, ant: nat)
    requires AllValid(frames) && Run(frames).Going?
    ensures Agrees(Carries(FileOf(Run(frames).log, ant)), AllDue(frames, ant))
  {
    hide Step, Agrees, Carries, Due, Frame.Valid, Added, Below8, OpenAfter, FileOf;
    if frames == [] {
      NothingCarried(ant);
    } else {
      var init, f := frames[..|frames| - 1], frames[|frames| - 1];
      var p, log := OpenAfter(init), Run(init).log;
      FilesCarry(init, ant);
      PendingIsOpen(init);
      OpenBelow8(init);
      StepAdds(p, log, f, ant);
      AddedDue(p, f, ant);
      var added := Added(p, f, ant).value;
      CarriesAppend(FileOf(log, ant), added);
      AgreesAppend(Carries(FileOf(log, ant)), AllDue(init, ant), Carries(added), Due(p, f, ant));
    }
  }

  lemma NothingCarried(ant: nat)
    ensures Agrees(Carries(FileOf<Frame>([], ant)), [])
  {
  }

  /**
   No observation is lost or doubled: each is among the rows of its own antenna, behind those of
   them that precede it, and among no other antenna's.
   */
  lemma {:induction false} RowKeptOnce(rows: seq<Row>, i: nat)
    requires i < |rows|
    ensures var own, before := RowsOf(rows, rows[i].antenna), RowsOf(rows[..i], rows[i].antenna);
            |before| < |own| && own[|before|] == rows[i]
    ensures forall ant: nat :: ant != rows[i].antenna ==> RowsOf(rows[..i + 1], ant) == RowsOf(rows[..i], ant)
  {
    var n := |rows| - 1;
    assert rows[..i + 1][..i] == rows[..i];
    if i < n {
      assert rows[..n][..i] == rows[..i] && rows[..n][..i + 1] == rows[..i + 1];
      RowKeptOnce(rows[..n], i);
    } else {
      assert rows[..i + 1] == rows;
    }
  }

  // --- Which antennas get a file -----------------------------------------------

  lemma OpenedAppend(a: Log, b: Log, ant: int)
    ensures Opened(a + b, ant) <==> Opened(a, ant) || Opened(b, ant)
  {
    if Opened(a, ant) {
      var k :| 0 <= k < |a| && a[k].Own? && a[k].ant == ant;
      assert (a + b)[k] == a[k];
    }
    if Opened(b, ant) {
      var k :| 0 <= k < |b| && b[k].Own? && b[k].ant == ant;
      assert (a + b)[|a| + k] == b[k];
    }
  }

  lemma OpenedOwn(m: nat, frames: seq<Frame>, ant: nat)
    ensures Opened(OwnEvents(m, frames), ant) <==> ant == m && frames != []
  {
    if frames != [] { assert OwnEvents(m, frames)[0] == Own(m, frames[0]); }
  }

  lemma {:induction false} OpenedEntries(split: Split, m: nat, ant: nat)
    requires Entries(split, m).Some?
    ensures Opened(Entries(split, m).value, ant) <==> ant < m && Share(split, ant) != Some([])
  {
    hide Share, Opened;
    if m == 0 {
      NeverOpened(ant);
    } else {
      OpenedEntries(split, m - 1, ant);
      var share := Share(split, m - 1).value;
      OpenedAppend(Entries(split, m - 1).value, OwnEvents(m - 1, share), ant);
      OpenedOwn(m - 1, share, ant);
    }
  }

  lemma NeverOpened(ant: nat)
    ensures !Opened<Frame>([], ant)
  {
  }

  lemma StepOpens(p: OpenEpoch, frame: Frame, ant: nat)
    requires Below8(p.owners) && Step(p, frame).Going?
    ensures ObservedBy(frame, ant) ==> Opened(Step(p, frame).log, ant)
    ensures Opened(Step(p, frame).log, ant) ==> ObservedBy(frame, ant) || ant in p.owners
    ensures ant in Step(p, frame).pending.owners ==> ObservedBy(frame, ant) || ant in p.owners
  {
    hide Entries, Rows, Share, RowsOf, IsCommon, PrintOne, Opened, Below8;
    var id := frame.BlockId();
    NeverOpened(ant);
    if id == MEAS_EPOCH {
      var rows := Rows(frame.body);
      AntennasBelowEight(frame.body, ant);
      RowsOfOwner(rows, ant);
      OpenedEntries(OfEpoch(frame.rawId, rows), 8, ant);
      if RowsOf(rows, ant) == [] {
        NoShare(OfEpoch(frame.rawId, rows), ant);
      } else {
        SomeShare(frame.rawId, rows, ant);
      }
    } else if id == MEAS_EXTRA {
      if p.owners != [] && BodyTime(frame.body) == p.time {
        OpenedEntries(OfExtra(frame, p.owners), 8, ant);
        if ant !in p.owners { NoShare(OfExtra(frame, p.owners), ant); }
      }
    } else if id == END_OF_MEAS {
      OpenedEntries(OfEnd(frame, p.owners), 8, ant);
      if ant !in p.owners { NoShare(OfEnd(frame, p.owners), ant); }
    } else if IsCommon(id) {
      OneFrame(frame.rawId, frame.body);
      CommonOpensNone(PrintOne(frame.rawId, frame.body).value[0], ant);
    }
  }

  lemma SomeShare(rawId: word, rows: seq<Row>, ant: nat)
    requires RowsOf(rows, ant) != []
    ensures Share(OfEpoch(rawId, rows), ant) != Some([])
  {
    hide RowsOf, Padded, BuildMeasEpochBody;
  }

  lemma CommonOpensNone(f: Frame, ant: nat)
    ensures !Opened([Common(f)], ant)
  {
  }

  /** A file is written for exactly the antennas with an observation in the recording. */
  lemma {:induction false} OpenedIffObserved(frames: seq<Frame>, ant: nat)
    requires Run(frames).Going?
    ensures Opened(Run(frames).log, ant) <==> Observed(frames, ant)
    ensures ant in Run(frames).pending.owners ==> Observed(frames, ant)
  {
    hide Step, Opened, ObservedBy, OpenAfter, Below8;
    if frames == [] {
      NeverOpened(ant);
    } else {
      var init, n := frames[..|frames| - 1], |frames| - 1;
      var p := Run(init).pending;
      OpenedIffObserved(init, ant);
      PendingIsOpen(init);
      OpenBelow8(init);
      StepOpens(p, frames[n], ant);
      OpenedAppend(Run(init).log, Step(p, frames[n]).log, ant);
      assert forall k :: 0 <= k < n ==> init[k] == frames[k];
      assert Observed(frames, ant) <==> Observed(init, ant) || ObservedBy(frames[n], ant) by {
        if ObservedBy(frames[n], ant) { assert frames[n] == frames[|frames| - 1]; }
        if Observed(init, ant) {
          var k :| 0 <= k < n && ObservedBy(init[k], ant);
          assert ObservedBy(frames[k], ant);
        }
      }
    }
  }

  // --- The common frames -------------------------------------------------------

  /** The navigation and context frames of a recording, in order. */
  function CommonBlocks(frames: seq<Frame>): seq<Frame> {
    if frames == [] then []
    else
      var f := frames[|frames| - 1];
      CommonBlocks(frames[..|frames| - 1]) + if IsCommon(f.BlockId()) then [f] else []
  }

  lemma {:induction false} CommonsAppend(a: Log, b: Log)
    ensures Commons(a + b) == Commons(a) + Commons(b)
  {
    if b == [] {
      assert a + b == a;
    } else {
      var init := b[..|b| - 1];
      assert (a + b)[..|a + b| - 1] == a + init;
      CommonsAppend(a, init);
    }
  }

  lemma {:induction false} CommonsOwn(ant: nat, frames: seq<Frame>)
    ensures Commons(OwnEvents(ant, frames)) == []
  {
    if frames != [] {
      var n := |frames| - 1;
      assert OwnEvents(ant, frames)[..n] == OwnEvents(ant, frames[..n]);
      CommonsOwn(ant, frames[..n]);
    }
  }

  lemma {:induction false} CommonsEntries(split: Split, m: nat)
    requires Entries(split, m).Some?
    ensures Commons(Entries(split, m).value) == []
  {
    hide Share, OwnEvents;
    if m > 0 {
      CommonsEntries(split, m - 1);
      var before, share := Entries(split, m - 1).value, Share(split, m - 1).value;
      CommonsAppend(before, OwnEvents(m - 1, share));
      CommonsOwn(m - 1, share);
    }
  }

  lemma StepCommons(p: OpenEpoch, frame: Frame)
    requires frame.Valid() && Step(p, frame).Going?
    ensures Commons(Step(p, frame).log) == if IsCommon(frame.BlockId()) then [frame] else []
  {
    hide Entries, Rows, IsCommon, PrintOne, Owners, Frame.Valid;
    var id := frame.BlockId();
    if IsCommon(id) { CommonIsOther(id); }
    if id == MEAS_EPOCH {
      CommonsEntries(OfEpoch(frame.rawId, Rows(frame.body)), 8);
    } else if id == MEAS_EXTRA {
      if p.owners != [] && BodyTime(frame.body) == p.time { CommonsEntries(OfExtra(frame, p.owners), 8); }
    } else if id == END_OF_MEAS {
      CommonsEntries(OfEnd(frame, p.owners), 8);
    } else {
      CopiedUnchanged(frame);
    }
  }

  /** The common part of every file is the common frames of the recording, unchanged. */
  lemma {:induction false} CommonsOfRun(frames: seq<Frame>)
    requires AllValid(frames) && Run(frames).Going?
    ensures Commons(Run(frames).log) == CommonBlocks(frames)
  {
    hide Step, Frame.Valid, IsCommon;
    if frames != [] {
      var init, f := frames[..|frames| - 1], frames[|frames| - 1];
      CommonsOfRun(init);
      StepCommons(Run(init).pending, f);
      CommonsAppend(Run(init).log, Step(Run(init).pending, f).log);
    }
  }
}
