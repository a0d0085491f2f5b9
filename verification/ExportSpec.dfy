/**
 The per-antenna export as a state machine over the frames of a recording: what each frame adds
 to which file, when the export fails, and the shape of the files it leaves.
 */
module ExportSpec {
  import opened Bytes
  import opened Framing
  import opened OfflineScanner
  import opened Observation
  import opened ObservationRoundTrip
  import opened MeasEpoch
  import opened MeasExtra
  import opened SbfSink

  const MEAS_EPOCH: nat := 4027
  const MEAS_EXTRA: nat := 4000
  const END_OF_MEAS: nat := 5922

  /** Navigation and context blocks, which go into every file. */
  predicate IsCommon(id: nat) {
    id in {
      4002, 4003, 4004, 4005, 4015, 4017, 4018, 4019, 4020, 4021, 4022, 4023, 4026,
      4030, 4031, 4032, 4034, 4036, 4042, 4047, 4049, 4066, 4067, 4068,
      4081, 4095, 4116, 4119, 4120, 4121, 4245,
      5891, 5892, 5893, 5894, 5896, 5897, 5902, 5917, 5918, 5919,
      5925, 5926, 5927, 5928, 5929, 5930, 5931, 5932, 5933, 5934, 5949}
  }

  lemma CommonIsOther(id: nat)
    requires IsCommon(id)
    ensures id != MEAS_EPOCH && id != MEAS_EXTRA && id != END_OF_MEAS
  {
  }

  datatype Time = Time(tow: dword, wnc: word)

  /** The time stamp at the head of a block body. */
  function BodyTime(body: seq<byte>): Option<Time> {
    if |body| >= 6 then Some(Time(U32(body, 0), U16(body, 4))) else None
  }

  /** The time of an epoch that has any rows. */
  function EpochTime(rows: seq<Row>): Option<Time> {
    if rows == [] then None else Some(Time(rows[0].epoch.tow, rows[0].epoch.wnc))
  }

  function Owners(rows: seq<Row>): (r: seq<nat>)
    ensures |r| == |rows| && forall k :: 0 <= k < |r| ==> r[k] == rows[k].antenna
  {
    seq(|rows|, k requires 0 <= k < |rows| => rows[k].antenna)
  }

  /** The rows of one antenna, in order. */
  function RowsOf(rows: seq<Row>, ant: nat): (r: seq<Row>)
    ensures forall k :: 0 <= k < |r| ==> r[k] in rows && r[k].antenna == ant
  {
    if rows == [] then []
    else
      var row := rows[|rows| - 1];
      RowsOf(rows[..|rows| - 1], ant) + if row.antenna == ant then [row] else []
  }

  // --- One frame ---------------------------------------------------------------

  /** What the last measurement epoch left behind: whose row each index is, and its time. */
  datatype OpenEpoch = OpenEpoch(owners: seq<nat>, time: Option<Time>)

  type Log = seq<Event<Frame>>

  /** What a frame is split into, one part for each antenna. */
  datatype Split =
    | OfEpoch(rawId: word, rows: seq<Row>)
    | OfExtra(frame: Frame, owners: seq<nat>)
    | OfEnd(frame: Frame, owners: seq<nat>)

  /** One frame with this body, unless it would be too long. */
  function PrintOne(rawId: word, body: seq<byte>): Option<seq<Frame>> {
    if 8 + |Padded(body)| > MAX_SBF_LENGTH then None else Some([Sealed(rawId, Padded(body))])
  }

  /** The frames that go to an antenna; none when they cannot be built. */
  function Share(split: Split, ant: nat): Option<seq<Frame>> {
    match split
    case OfEpoch(rawId, rows) =>
      var own := RowsOf(rows, ant);
      if own == [] then Some([])
      else
        var body := BuildMeasEpochBody(own);
        if body.None? then None else PrintOne(rawId, body.value)
    case OfExtra(frame, owners) =>
      if ant !in owners then Some([])
      else
        var body := BuildMeasExtraBody(frame.body, Indices(owners, ant));
        if body.None? then Some([]) else PrintOne(frame.rawId, body.value)
    case OfEnd(frame, owners) =>
      if ant !in owners then Some([]) else PrintOne(frame.rawId, frame.body)
  }

  function OwnEvents(ant: nat, frames: seq<Frame>): Log {
    seq(|frames|, k requires 0 <= k < |frames| => Own(ant, frames[k]))
  }

  /** What the antennas below `m` get, in order; none as soon as one part cannot be built. */
  function Entries(split: Split, m: nat): Option<Log> {
    if m == 0 then Some([])
    else
      var before := Entries(split, m - 1);
      var share := Share(split, m - 1);
      if before.None? || share.None? then None else Some(before.value + OwnEvents(m - 1, share.value))
  }

  datatype Outcome = Failed | Going(pending: OpenEpoch, log: Log)

  function Add(pending: OpenEpoch, entries: Option<Log>): Outcome {
    if entries.None? then Failed else Going(pending, entries.value)
  }

  /** What a frame adds to the files, and what is pending after it. */
  function Step(p: OpenEpoch, frame: Frame): Outcome {
    var id := frame.BlockId();
    if id == MEAS_EPOCH then
      var rows := Rows(frame.body);
      Add(OpenEpoch(Owners(rows), EpochTime(rows)), Entries(OfEpoch(frame.rawId, rows), 8))
    else if id == MEAS_EXTRA then
      if p.owners != [] && BodyTime(frame.body) == p.time then Add(p, Entries(OfExtra(frame, p.owners), 8))
      else Going(p, [])
    else if id == END_OF_MEAS then
      Add(OpenEpoch([], None), Entries(OfEnd(frame, p.owners), 8))
    else if IsCommon(id) then
      var one := PrintOne(frame.rawId, frame.body);
      if one.None? then Failed else Going(p, [Common(one.value[0])])
    else Going(p, [])
  }

  /** The export of a list of frames. */
  function Run(frames: seq<Frame>): Outcome {
    if frames == [] then Going(OpenEpoch([], None), [])
    else
      var before := Run(frames[..|frames| - 1]);
      if before.Failed? then Failed
      else
        var step := Step(before.pending, frames[|frames| - 1]);
        if step.Failed? then Failed else Going(step.pending, before.log + step.log)
  }

  // --- Shares ------------------------------------------------------------------

  lemma {:induction false} FileOfAppend<T>(a: seq<Event<T>>, b: seq<Event<T>>, ant: int)
    ensures FileOf(a + b, ant) == FileOf(a, ant) + FileOf(b, ant)
  {
    if b == [] {
      assert a + b == a;
    } else {
      var init := b[..|b| - 1];
      assert (a + b)[..|a + b| - 1] == a + init;
      FileOfAppend(a, init, ant);
    }
  }

  lemma {:induction false} FileOfOwn(ant: nat, frames: seq<Frame>, a: nat)
    ensures FileOf(OwnEvents(ant, frames), a) == if a == ant then frames else []
  {
    if frames != [] {
      var n := |frames| - 1;
      assert OwnEvents(ant, frames)[..n] == OwnEvents(ant, frames[..n]);
      FileOfOwn(ant, frames[..n], a);
    }
  }

  lemma EmptyFile(ant: nat)
    ensures FileOf<Frame>([], ant) == []
  {
  }

  /** Each antenna's file grows by exactly its share. */
  lemma {:induction false} EntriesShare(split: Split, m: nat, ant: nat)
    requires Entries(split, m).Some?
    ensures ant < m ==> Share(split, ant).Some?
    ensures FileOf(Entries(split, m).value, ant) == if ant < m then Share(split, ant).value else []
  {
    hide Share, FileOf, OwnEvents;
    if m == 0 {
      EmptyFile(ant);
    } else {
      EntriesShare(split, m - 1, ant);
      var before, share := Entries(split, m - 1).value, Share(split, m - 1).value;
      FileOfAppend(before, OwnEvents(m - 1, share), ant);
      FileOfOwn(m - 1, share, ant);
    }
  }

  lemma {:induction false} EntriesFail(split: Split, m: nat)
    ensures Entries(split, m).None? <==> exists ant: nat :: ant < m && Share(split, ant).None?
  {
    hide Share;
    if m > 0 { EntriesFail(split, m - 1); }
  }

  lemma {:induction false} RowsOfOwner(rows: seq<Row>, ant: nat)
    ensures RowsOf(rows, ant) != [] <==> ant in Owners(rows)
  {
    if rows != [] {
      var n := |rows| - 1;
      RowsOfOwner(rows[..n], ant);
      assert Owners(rows) == Owners(rows[..n]) + [rows[n].antenna];
    }
  }

  // --- When the export fails ---------------------------------------------------

  /** An epoch with more rows for one antenna than the count byte of a MeasEpoch can hold. */
  ghost predicate TooManyRows(frame: Frame) {
    frame.BlockId() == MEAS_EPOCH && exists ant: nat :: ant < 8 && |RowsOf(Rows(frame.body), ant)| > 255
  }

  lemma PrintFits(rawId: word, body: seq<byte>)
    requires |body| <= MAX_SBF_LENGTH - 8
    ensures PrintOne(rawId, body).Some? && Sealed(rawId, Padded(body)).Valid()
    ensures PrintOne(rawId, body) == Some([Sealed(rawId, Padded(body))])
  {
    SealedValid(rawId, Padded(body));
  }

  lemma EpochShareFails(rawId: word, rows: seq<Row>, ant: nat)
    ensures Share(OfEpoch(rawId, rows), ant).None? <==> |RowsOf(rows, ant)| > 255
  {
    hide RowsOf, Padded, PrintOne, EncodeType1, Records;
    var own := RowsOf(rows, ant);
    if own != [] && |own| <= 255 {
      PrintFits(rawId, BuildMeasEpochBody(own).value);
    }
  }

  /** The part of a MeasExtra frame is never longer than the frame itself. */
  lemma ExtraFits(frame: Frame, owners: seq<nat>, ant: nat)
    requires frame.Valid() && BuildMeasExtraBody(frame.body, Indices(owners, ant)).Some?
    ensures |BuildMeasExtraBody(frame.body, Indices(owners, ant)).value| <= |frame.body| <= MAX_SBF_LENGTH - 8
  {
    var x := SubBlocks(frame.body);
    assert |frame.body| <= MAX_SBF_LENGTH - 8;
    hide Frame.Valid, Selected, Owned, Indices, SubBlocks;
    assert x.len > 0;
    ExtraReadsBack(frame.body, Indices(owners, ant));
    hide BuildMeasExtraBody;
    SelectedAreOwned(x.blocks, owners, ant);
    SubBlocksFit(frame.body);
    TimesMonotone(|Owned(x.blocks, owners, ant)|, |x.blocks|, x.len);
  }

  lemma StepFails(p: OpenEpoch, frame: Frame)
    requires frame.Valid()
    ensures Step(p, frame).Failed? <==> TooManyRows(frame)
  {
    hide Entries, Share, Rows, Owners, IsCommon;
    var id := frame.BlockId();
    if id == MEAS_EPOCH {
      var rows := Rows(frame.body);
      EntriesFail(OfEpoch(frame.rawId, rows), 8);
      forall ant: nat ensures Share(OfEpoch(frame.rawId, rows), ant).None? <==> |RowsOf(rows, ant)| > 255 {
        EpochShareFails(frame.rawId, rows, ant);
      }
    } else if id == MEAS_EXTRA {
      EntriesFail(OfExtra(frame, p.owners), 8);
      forall ant: nat ensures Share(OfExtra(frame, p.owners), ant).Some? {
        ExtraShareFits(frame, p.owners, ant);
      }
    } else if id == END_OF_MEAS {
      EntriesFail(OfEnd(frame, p.owners), 8);
      forall ant: nat ensures Share(OfEnd(frame, p.owners), ant).Some? {
        EndShareFits(frame, p.owners, ant);
      }
    } else {
      PrintFits(frame.rawId, frame.body);
    }
  }

  lemma ExtraShareFits(frame: Frame, owners: seq<nat>, ant: nat)
    requires frame.Valid()
    ensures Share(OfExtra(frame, owners), ant).Some?
  {
    hide BuildMeasExtraBody, Padded, PrintOne;
    if BuildMeasExtraBody(frame.body, Indices(owners, ant)).Some? {
      ExtraFits(frame, owners, ant);
      PrintFits(frame.rawId, BuildMeasExtraBody(frame.body, Indices(owners, ant)).value);
    }
  }

  lemma EndShareFits(frame: Frame, owners: seq<nat>, ant: nat)
    requires frame.Valid()
    ensures Share(OfEnd(frame, owners), ant).Some?
  {
    PrintFits(frame.rawId, frame.body);
  }

  /** The export of valid frames fails exactly when some epoch has over 255 rows for one antenna. */
  lemma {:induction false} ExportFails(frames: seq<Frame>)
    requires AllValid(frames)
    ensures Run(frames).Failed? <==> exists k :: 0 <= k < |frames| && TooManyRows(frames[k])
  {
    hide TooManyRows, Step, Frame.Valid;
    if frames != [] {
      var init, n := frames[..|frames| - 1], |frames| - 1;
      ExportFails(init);
      assert forall k :: 0 <= k < n ==> init[k] == frames[k];
      if Run(init).Going? { StepFails(Run(init).pending, frames[n]); }
    }
  }

  /** The body of a MeasEpoch with one first-level record, all zero, and 255 second-level ones. */
  function CrowdedBody(): (body: seq<byte>)
    ensures |body| == 3092 && body[6] == 1 && body[7] == 20 && body[8] == 12 && body[31] == 255
    ensures forall k :: 12 <= k < 3092 && k != 31 ==> body[k] == 0
  {
    seq(3092, k => if k == 6 then 1 else if k == 7 then 20 else if k == 8 then 12 else if k == 31 then 255 else 0)
  }

  /** Second-level records that all fit are all read, each for the antenna that its first byte names. */
  lemma {:induction false} ChildrenOfZero(body: seq<byte>, off: nat, n: nat, parent: Parsed)
    requires parent.freq.Some? ==> parent.freq.value > 0.0
    requires off + 12 * n <= |body| && forall k :: off <= k < |body| ==> body[k] == 0
    ensures var rows := Children(body, off, n, 12, parent);
            |rows| == n && forall k :: 0 <= k < n ==> rows[k].antenna == 0
    decreases n
  {
    hide CarrierFrequency, CarrierOf, DopplerFrom, CodeFrom, SignalType, Signed;
    if n > 0 { ChildrenOfZero(body, off + 12, n - 1, parent); }
  }

  lemma {:induction false} AllOfOne(rows: seq<Row>, ant: nat)
    requires forall k :: 0 <= k < |rows| ==> rows[k].antenna == ant
    ensures RowsOf(rows, ant) == rows
  {
    if rows != [] { AllOfOne(rows[..|rows| - 1], ant); }
  }

  lemma CrowdedRows()
    ensures |RowsOf(Rows(CrowdedBody()), 0)| == 256
  {
    var body := CrowdedBody();
    hide CrowdedBody, ParseType1, Children;
    var epoch := EpochOf(body);
    var parent := ParseType1(epoch, body[12..32]);
    assert parent.row.antenna == 0 by { ZeroAntenna(epoch, body[12..32]); }
    SatellitesStep(body, 12, 1, 20, 12, epoch);
    SatellitesEnd(body, 12 + Stride(20, 255, 12), 0, 20, 12, epoch);
    ChildrenOfZero(body, 32, 255, parent);
    assert Rows(body) == [parent.row] + Children(body, 32, 255, 12, parent);
    AllOfOne(Rows(body), 0);
  }

  lemma ZeroAntenna(epoch: Epoch, r: seq<byte>)
    requires |r| == 20 && r[1] == 0
    ensures ParseType1(epoch, r).row.antenna == 0
  {
    hide CarrierFrequency, CarrierOf, DopplerOf, CodeOf, SignalType, Signed;
  }

  /** The export can fail: 256 observations of one antenna fit into one valid frame. */
  lemma ExportCanFail()
    ensures var f := Sealed(MEAS_EPOCH, CrowdedBody());
            f.Valid() && f.length == 3100 && TooManyRows(f) && Run([f]).Failed?
  {
    hide Rows, RowsOf, CrowdedBody, Run, Frame.Valid, Sealed, TooManyRows;
    var f := CrowdedFrame();
    assert AllValid([f]) && [f][0] == f;
    ExportFails([f]);
  }

  lemma CrowdedFrame() returns (f: Frame)
    ensures f == Sealed(MEAS_EPOCH, CrowdedBody()) && f.Valid() && f.length == 3100 && TooManyRows(f)
  {
    hide Rows, RowsOf, CrowdedBody, Frame.Valid, Sealed;
    f := Sealed(MEAS_EPOCH, CrowdedBody());
    SealedValid(MEAS_EPOCH, CrowdedBody());
    SealedFields(MEAS_EPOCH, CrowdedBody());
    CrowdedRows();
  }

  lemma SealedFields(rawId: word, body: seq<byte>)
    requires |body| <= MAX_SBF_LENGTH - 8
    ensures var f := Sealed(rawId, body);
            f.rawId == rawId && f.length == 8 + |body| && f.body == body && f.BlockId() == rawId % 0x2000
  {
  }

  // --- The shape of the files --------------------------------------------------

  /**
   Reading a file as (MeasEpoch MeasExtra* EndOfMeas?)*, other blocks apart: between epochs, or
   within the epoch of a given time.
   */
  datatype Shape = Broken | Between | Within(time: Option<Time>)

  function Read(s: Shape, frame: Frame): Shape {
    var id := frame.BlockId();
    if s.Broken? then Broken
    else if id == MEAS_EPOCH then Within(BodyTime(frame.body))
    else if id == MEAS_EXTRA then if s == Within(BodyTime(frame.body)) then s else Broken
    else if id == END_OF_MEAS then if s.Within? then Between else Broken
    else s
  }

  function ShapeOf(frames: seq<Frame>): Shape {
    if frames == [] then Between else Read(ShapeOf(frames[..|frames| - 1]), frames[|frames| - 1])
  }

  /** Position `j` holds the epoch that the block at `k` belongs to. */
  ghost predicate Nearest(frames: seq<Frame>, j: nat, k: nat) {
    && j < k < |frames| && frames[j].BlockId() == MEAS_EPOCH
    && forall i :: j < i < k ==> frames[i].BlockId() != MEAS_EPOCH && frames[i].BlockId() != END_OF_MEAS
  }

  lemma {:induction false} ShapePrefix(frames: seq<Frame>, k: nat)
    requires k <= |frames| && !ShapeOf(frames).Broken?
    ensures !ShapeOf(frames[..k]).Broken?
    decreases |frames|
  {
    if k == |frames| {
      assert frames[..k] == frames;
    } else {
      var init := frames[..|frames| - 1];
      assert init[..k] == frames[..k];
      ShapePrefix(init, k);
    }
  }

  lemma {:induction false} WithinEpoch(frames: seq<Frame>) returns (j: nat)
    requires ShapeOf(frames).Within?
    ensures j < |frames| && frames[j].BlockId() == MEAS_EPOCH
    ensures BodyTime(frames[j].body) == ShapeOf(frames).time
    ensures forall i :: j < i < |frames| ==>
                          frames[i].BlockId() != MEAS_EPOCH && frames[i].BlockId() != END_OF_MEAS
  {
    var n := |frames| - 1;
    if frames[n].BlockId() == MEAS_EPOCH {
      j := n;
    } else {
      j := WithinEpoch(frames[..n]);
    }
  }

  /**
   What an unbroken shape means: every MeasExtra and EndOfMeas has a MeasEpoch before it with no
   other MeasEpoch or EndOfMeas in between, and a MeasExtra carries that epoch's time.
   */
  lemma ShapeMeaning(frames: seq<Frame>, k: nat)
    requires !ShapeOf(frames).Broken? && k < |frames|
    requires frames[k].BlockId() == MEAS_EXTRA || frames[k].BlockId() == END_OF_MEAS
    ensures exists j: nat :: Nearest(frames, j, k)
                        && (frames[k].BlockId() == MEAS_EXTRA ==>
                              BodyTime(frames[j].body) == BodyTime(frames[k].body))
  {
    hide ShapeOf;
    var before := frames[..k];
    ShapePrefix(frames, k + 1);
    assert frames[..k + 1] == before + [frames[k]];
    ShapePush(before, frames[k]);
    var j := WithinEpoch(before);
    assert forall i :: 0 <= i < k ==> before[i] == frames[i];
    assert Nearest(frames, j, k);
  }

  /** What holds of every file at any moment of the export. */
  ghost predicate WellShaped(p: OpenEpoch, log: Log) {
    && (p.owners != [] ==> p.time.Some?)
    && (forall k :: 0 <= k < |p.owners| ==> p.owners[k] < 8)
    && forall ant: nat :: AntShaped(p, FileOf(log, ant), ant)
  }

  ghost predicate AntShaped(p: OpenEpoch, file: seq<Frame>, ant: nat) {
    && AllValid(file) && !ShapeOf(file).Broken?
    && (ant in p.owners ==> ShapeOf(file) == Within(p.time))
  }

  lemma ShapePush(frames: seq<Frame>, f: Frame)
    ensures ShapeOf(frames + [f]) == Read(ShapeOf(frames), f)
  {
    assert (frames + [f])[..|frames|] == frames;
  }

  lemma AntPush(p: OpenEpoch, p': OpenEpoch, file: seq<Frame>, f: Frame, ant: nat)
    requires AntShaped(p, file, ant) && f.Valid() && !Read(ShapeOf(file), f).Broken?
    requires ant in p'.owners ==> Read(ShapeOf(file), f) == Within(p'.time)
    ensures AntShaped(p', file + [f], ant)
  {
    ShapePush(file, f);
    hide ShapeOf, Frame.Valid, Read;
  }

  lemma SealedHead(rawId: word, body: seq<byte>)
    requires |Padded(body)| <= MAX_SBF_LENGTH - 8 && |body| >= 6
    ensures BodyTime(Sealed(rawId, Padded(body)).body) == BodyTime(body)
    ensures Sealed(rawId, Padded(body)).BlockId() == rawId % 0x2000
  {
    var padded := Padded(body);
    assert forall i :: 0 <= i < 6 ==> padded[i] == body[i];
    assert U32(padded, 0) == U32(body, 0) && U16(padded, 4) == U16(body, 4);
  }

  lemma EpochShaped(rawId: word, body: seq<byte>, ant: nat, file: seq<Frame>, p: OpenEpoch)
    requires rawId % 0x2000 == MEAS_EPOCH && AntShaped(p, file, ant)
    requires Share(OfEpoch(rawId, Rows(body)), ant).Some?
    ensures var rows := Rows(body);
            AntShaped(OpenEpoch(Owners(rows), EpochTime(rows)), file + Share(OfEpoch(rawId, rows), ant).value, ant)
  {
    var rows := Rows(body);
    var own := RowsOf(rows, ant);
    RowsOfOwner(rows, ant);
    hide Rows, Owners, Records, Padded, ShapeOf;
    if own == [] {
      assert file + [] == file;
    } else {
      SameEpoch(body);
      assert own[0] in rows && rows[0] in rows;
      var built := BuildMeasEpochBody(own).value;
      EpochBodyTime(own);
      PrintFits(rawId, built);
      SealedHead(rawId, built);
      var p' := OpenEpoch(Owners(rows), EpochTime(rows));
      hide Frame.Valid, AntShaped, Sealed;
      assert !ShapeOf(file).Broken? by { NotBroken(p, file, ant); }
      AntPush(p, p', file, Sealed(rawId, Padded(built)), ant);
    }
  }

  lemma NotBroken(p: OpenEpoch, file: seq<Frame>, ant: nat)
    requires AntShaped(p, file, ant)
    ensures !ShapeOf(file).Broken? && (ant in p.owners ==> ShapeOf(file) == Within(p.time))
  {
  }

  lemma SameEpoch(body: seq<byte>)
    requires Rows(body) != []
    ensures |body| >= 12 && forall row :: row in Rows(body) ==> row.epoch == EpochOf(body)
  {
    RowsDecoded(body);
  }

  lemma EpochBodyTime(own: seq<Row>)
    requires 0 < |own| <= 255
    ensures BodyTime(BuildMeasEpochBody(own).value) == Some(Time(own[0].epoch.tow, own[0].epoch.wnc))
    ensures |BuildMeasEpochBody(own).value| <= MAX_SBF_LENGTH - 8
  {
    hide Records, Rows, Reread;
    BuiltRows(own);
  }

  lemma SameHead(a: seq<byte>, b: seq<byte>)
    requires |a| >= 6 && |b| >= 6 && a[..6] == b[..6]
    ensures BodyTime(a) == BodyTime(b)
  {
    assert forall i :: 0 <= i < 6 ==> a[i] == a[..6][i] == b[..6][i] == b[i];
  }

  lemma ExtraTime(body: seq<byte>, indices: seq<nat>)
    requires BuildMeasExtraBody(body, indices).Some?
    ensures |BuildMeasExtraBody(body, indices).value| >= 12
    ensures BodyTime(BuildMeasExtraBody(body, indices).value) == BodyTime(body)
  {
    hide BuildMeasExtraBody, SubBlocks, Selected, Padded, BodyTime;
    ExtraReadsBack(body, indices);
    SameHead(BuildMeasExtraBody(body, indices).value, body);
  }

  lemma ExtraShaped(frame: Frame, ant: nat, file: seq<Frame>, p: OpenEpoch)
    requires frame.Valid() && frame.BlockId() == MEAS_EXTRA && AntShaped(p, file, ant)
    requires p.time.Some? && BodyTime(frame.body) == p.time
    requires Share(OfExtra(frame, p.owners), ant).Some?
    ensures AntShaped(p, file + Share(OfExtra(frame, p.owners), ant).value, ant)
  {
    hide Padded, ShapeOf, BuildMeasExtraBody, SubBlocks, Selected, Indices, BodyTime, AntShaped;
    var body := BuildMeasExtraBody(frame.body, Indices(p.owners, ant));
    if ant !in p.owners || body.None? {
      assert file + [] == file;
    } else {
      ExtraTime(frame.body, Indices(p.owners, ant));
      ExtraFits(frame, p.owners, ant);
      var built := body.value;
      PrintFits(frame.rawId, built);
      SealedHead(frame.rawId, built);
      NotBroken(p, file, ant);
      hide Frame.Valid, AntShaped, Sealed;
      AntPush(p, p, file, Sealed(frame.rawId, Padded(built)), ant);
    }
  }

  lemma EndShaped(frame: Frame, ant: nat, file: seq<Frame>, p: OpenEpoch)
    requires frame.Valid() && frame.BlockId() == END_OF_MEAS && AntShaped(p, file, ant)
    requires Share(OfEnd(frame, p.owners), ant).Some?
    ensures AntShaped(OpenEpoch([], None), file + Share(OfEnd(frame, p.owners), ant).value, ant)
  {
    hide Padded, ShapeOf;
    if ant !in p.owners {
      assert file + [] == file;
    } else {
      PrintFits(frame.rawId, frame.body);
      ShapePush(file, Sealed(frame.rawId, Padded(frame.body)));
    }
  }

  lemma CommonShaped(frame: Frame, ant: nat, file: seq<Frame>, p: OpenEpoch)
    requires frame.Valid() && IsCommon(frame.BlockId()) && AntShaped(p, file, ant)
    ensures |Padded(frame.body)| <= MAX_SBF_LENGTH - 8
    ensures AntShaped(p, file + [Sealed(frame.rawId, Padded(frame.body))], ant)
  {
    hide Padded, ShapeOf, IsCommon;
    CommonIsOther(frame.BlockId());
    PrintFits(frame.rawId, frame.body);
    ShapePush(file, Sealed(frame.rawId, Padded(frame.body)));
  }

  lemma AntennasBelowEight(body: seq<byte>, ant: nat)
    ensures forall k :: 0 <= k < |Owners(Rows(body))| ==> Owners(Rows(body))[k] < 8
    ensures RowsOf(Rows(body), ant) != [] ==> ant < 8
  {
    hide Rows, RowsOf;
    if |body| < 12 { ShortBody(body); }
    RowsDecoded(body);
    forall k | 0 <= k < |Rows(body)| ensures Rows(body)[k].antenna < 8 {
      assert Rows(body)[k] in Rows(body);
    }
    RowsOfOwner(Rows(body), ant);
  }

  lemma ShortBody(body: seq<byte>)
    requires |body| < 12
    ensures Rows(body) == []
  {
  }

  lemma NoShare(split: Split, ant: nat)
    requires if split.OfEpoch? then RowsOf(split.rows, ant) == [] else ant !in split.owners
    ensures Share(split, ant) == Some([])
  {
  }

  /** The files after the parts of a split frame were appended. */
  lemma SplitShares(split: Split, log: Log, ant: nat)
    requires Entries(split, 8).Some?
    requires ant >= 8 ==> Share(split, ant) == Some([])
    ensures Share(split, ant).Some?
    ensures FileOf(log + Entries(split, 8).value, ant) == FileOf(log, ant) + Share(split, ant).value
  {
    hide Share, Entries, FileOf;
    EntriesShare(split, 8, ant);
    FileOfAppend(log, Entries(split, 8).value, ant);
  }

  lemma EpochStep(p: OpenEpoch, log: Log, frame: Frame)
    requires WellShaped(p, log) && frame.BlockId() == MEAS_EPOCH && Step(p, frame).Going?
    ensures WellShaped(Step(p, frame).pending, log + Step(p, frame).log)
  {
    hide Entries, FileOf, AntShaped, Rows, Share, RowsOf, IsCommon;
    var split := OfEpoch(frame.rawId, Rows(frame.body));
    AntennasBelowEight(frame.body, 0);
    forall ant: nat ensures AntShaped(Step(p, frame).pending, FileOf(log + Step(p, frame).log, ant), ant) {
      AntennasBelowEight(frame.body, ant);
      if ant >= 8 { NoShare(split, ant); }
      SplitShares(split, log, ant);
      EpochShaped(frame.rawId, frame.body, ant, FileOf(log, ant), p);
    }
  }

  lemma ExtraStep(p: OpenEpoch, log: Log, frame: Frame)
    requires WellShaped(p, log) && frame.Valid() && frame.BlockId() == MEAS_EXTRA && Step(p, frame).Going?
    ensures WellShaped(Step(p, frame).pending, log + Step(p, frame).log)
  {
    hide Entries, FileOf, AntShaped, Rows, Share, RowsOf, IsCommon, Frame.Valid;
    if p.owners != [] && BodyTime(frame.body) == p.time {
      var split := OfExtra(frame, p.owners);
      forall ant: nat ensures AntShaped(p, FileOf(log + Step(p, frame).log, ant), ant) {
        if ant >= 8 { NoShare(split, ant); }
        SplitShares(split, log, ant);
        ExtraShaped(frame, ant, FileOf(log, ant), p);
      }
    } else {
      assert log + [] == log;
    }
  }

  lemma EndStep(p: OpenEpoch, log: Log, frame: Frame)
    requires WellShaped(p, log) && frame.Valid() && frame.BlockId() == END_OF_MEAS && Step(p, frame).Going?
    ensures WellShaped(Step(p, frame).pending, log + Step(p, frame).log)
  {
    hide Entries, FileOf, AntShaped, Rows, Share, RowsOf, IsCommon, Frame.Valid;
    var split := OfEnd(frame, p.owners);
    forall ant: nat ensures AntShaped(OpenEpoch([], None), FileOf(log + Step(p, frame).log, ant), ant) {
      if ant >= 8 { NoShare(split, ant); }
      SplitShares(split, log, ant);
      EndShaped(frame, ant, FileOf(log, ant), p);
    }
  }

  lemma CommonStep(p: OpenEpoch, log: Log, frame: Frame)
    requires WellShaped(p, log) && frame.Valid() && IsCommon(frame.BlockId()) && Step(p, frame).Going?
    ensures WellShaped(Step(p, frame).pending, log + Step(p, frame).log)
  {
    hide FileOf, AntShaped, Rows, Padded, Entries, IsCommon;
    CommonIsOther(frame.BlockId());
    PrintFits(frame.rawId, frame.body);
    hide Frame.Valid;
    var f := Sealed(frame.rawId, Padded(frame.body));
    assert Step(p, frame).log == [Common(f)];
    forall ant: nat ensures AntShaped(p, FileOf(log + [Common(f)], ant), ant) {
      LogPush(log, Common(f), ant);
      CommonShaped(frame, ant, FileOf(log, ant), p);
    }
  }

  /** The step keeps every file well shaped. */
  lemma StepShaped(p: OpenEpoch, log: Log, frame: Frame)
    requires WellShaped(p, log) && frame.Valid() && Step(p, frame).Going?
    ensures WellShaped(Step(p, frame).pending, log + Step(p, frame).log)
  {
    hide WellShaped, Entries, Rows, PrintOne, Frame.Valid, IsCommon;
    var id := frame.BlockId();
    if id == MEAS_EPOCH {
      EpochStep(p, log, frame);
    } else if id == MEAS_EXTRA {
      ExtraStep(p, log, frame);
    } else if id == END_OF_MEAS {
      EndStep(p, log, frame);
    } else if IsCommon(id) {
      CommonStep(p, log, frame);
    } else {
      assert log + [] == log;
    }
  }

  /** Over every recording that exports, every file is well shaped. */
  lemma {:induction false} ExportShaped(frames: seq<Frame>)
    requires AllValid(frames) && Run(frames).Going?
    ensures WellShaped(Run(frames).pending, Run(frames).log)
  {
    hide Step, WellShaped, Frame.Valid;
    if frames == [] {
      NothingShaped();
    } else {
      var init := frames[..|frames| - 1];
      ExportShaped(init);
      StepShaped(Run(init).pending, Run(init).log, frames[|frames| - 1]);
    }
  }

  lemma NothingShaped()
    ensures WellShaped(OpenEpoch([], None), [])
  {
  }

  // --- What the frames carry ---------------------------------------------------

  /**
   An antenna's MeasEpoch frame decodes row for row to its rows, in order and as far as each can be
   represented; to exactly its rows, Doppler shifts rounded, if and only if all of them can.
   */
  lemma EpochContents(frame: Frame, ant: nat)
    requires 0 < |RowsOf(Rows(frame.body), ant)| <= 255
    ensures var own := RowsOf(Rows(frame.body), ant);
            var share := Share(OfEpoch(frame.rawId, Rows(frame.body)), ant);
            && |frame.body| >= 12 && share.Some? && |share.value| == 1 && share.value[0].rawId == frame.rawId
            && Rows(share.value[0].body) == Reread(EpochOf(frame.body), own)
            && RowsAgree(Rows(share.value[0].body), own)
            && (Rows(share.value[0].body) == FlattenedRows(EpochOf(frame.body), own)
                <==> forall k :: 0 <= k < |own| ==> Representable(own[k]))
  {
    hide Rows, RowsOf, BuildMeasEpochBody, Representable, FlattenedRows, RowsAgree, Reread, Share;
    var own := RowsOf(Rows(frame.body), ant);
    OwnDecoded(frame.body, ant);
    ShareOfRows(frame.rawId, Rows(frame.body), ant);
    BuiltRows(own);
    EpochRoundTrip(own, EpochOf(frame.body));
  }

  lemma OwnDecoded(body: seq<byte>, ant: nat)
    requires 0 < |RowsOf(Rows(body), ant)|
    ensures |body| >= 12
    ensures forall k :: 0 <= k < |RowsOf(Rows(body), ant)| ==> DecodedFor(EpochOf(body), RowsOf(Rows(body), ant)[k])
    ensures RowsOf(Rows(body), ant)[0].epoch == EpochOf(body)
  {
    hide Rows, RowsOf, Decoded;
    var own := RowsOf(Rows(body), ant);
    assert forall k :: 0 <= k < |own| ==> own[k] in Rows(body);
    assert own[0] in Rows(body);
    SameEpoch(body);
    RowsDecoded(body);
  }

  lemma ShareOfRows(rawId: word, rows: seq<Row>, ant: nat)
    requires 0 < |RowsOf(rows, ant)| <= 255
    ensures var share := Share(OfEpoch(rawId, rows), ant);
            && share.Some? && |share.value| == 1 && share.value[0].rawId == rawId
            && share.value[0].body == BuildMeasEpochBody(RowsOf(rows, ant)).value
  {
    hide RowsOf, Padded, Sealed, PrintOne, Records, EncodeType1;
    var body := BuildMeasEpochBody(RowsOf(rows, ant)).value;
    assert |body| % 4 == 0;
    hide BuildMeasEpochBody;
    PrintFits(rawId, body);
    SealedFields(rawId, Padded(body));
  }

  /**
   An antenna's MeasExtra frame holds exactly the sub-blocks of its rows, in order, behind the
   header as it was, the count apart.
   */
  lemma ExtraContents(frame: Frame, owners: seq<nat>, ant: nat)
    requires frame.Valid() && ant in owners
    ensures var blocks := Owned(SubBlocks(frame.body).blocks, owners, ant);
            var share := Share(OfExtra(frame, owners), ant);
            && share.Some? && |share.value| <= 1
            && (|share.value| == 1 ==>
                  && share.value[0].rawId == frame.rawId
                  && SubBlocks(share.value[0].body).blocks == blocks
                  && SubBlocks(share.value[0].body).len == SubBlocks(frame.body).len
                  && Head(share.value[0].body) == Head(frame.body)
                  && |share.value[0].body| >= 12 && |frame.body| >= 12
                  && share.value[0].body[..6] == frame.body[..6]
                  && share.value[0].body[7..12] == frame.body[7..12])
            && (share.value == [] <==> blocks == [])
  {
    ExtraShareFits(frame, owners, ant);
    var x := SubBlocks(frame.body);
    var own := Owned(x.blocks, owners, ant);
    hide Frame.Valid, SubBlocks, Indices, Owned, Padded, Concat, Head;
    SelectedAreOwned(x.blocks, owners, ant);
    var body := BuildMeasExtraBody(frame.body, Indices(owners, ant));
    KeptIffOwned(frame.body, Indices(owners, ant));
    if body.Some? {
      ExtraReadsBack(frame.body, Indices(owners, ant));
    }
  }

  lemma KeptIffOwned(body: seq<byte>, indices: seq<nat>)
    ensures BuildMeasExtraBody(body, indices).None? <==> Selected(SubBlocks(body).blocks, indices) == []
  {
    var x := SubBlocks(body);
    if x.len > 0 {
      hide SubBlocks;
      SelectedLength(x.blocks, indices, x.len);
      var sel := Selected(x.blocks, indices);
      hide Selected;
      ConcatLength(sel, x.len);
      if sel != [] { TimesMonotone(1, |sel|, x.len); }
    } else {
      assert x.blocks == [];
      NothingSelected(indices);
    }
  }

  lemma {:induction false} NothingSelected(indices: seq<nat>)
    ensures Selected([], indices) == []
  {
    if indices != [] { NothingSelected(indices[..|indices| - 1]); }
  }

  /** EndOfMeas and the common blocks are passed on unchanged. */
  lemma CopiedUnchanged(frame: Frame)
    requires frame.Valid()
    ensures PrintOne(frame.rawId, frame.body) == Some([frame])
  {
    hide Frame.Valid, Sealed, PrintOne, Padded;
    AlreadySealed(frame);
    PrintFits(frame.rawId, frame.body);
  }
}
