/** Nothing is lost between a recording and its exported files: the amounts agree. */
module Conservation {
  import opened Bytes
  import opened Framing
  import opened Observation
  import opened MeasEpoch
  import opened MeasExtra
  import opened SbfSink
  import opened ExportSpec
  import opened ExportContents

  /** How many observations and how many MeasExtra sub-blocks. */
  datatype Amount = Amount(rows: nat, blocks: nat)

  function Sum(a: Amount, b: Amount): Amount { Amount(a.rows + b.rows, a.blocks + b.blocks) }

  function ItemAmount(item: Item): Amount {
    match item
    case Observations(_, rows) => Amount(|rows|, 0)
    case Extras(_, _, blocks) => Amount(0, |blocks|)
    case Copied(_) => Amount(0, 0)
  }

  function AmountOf(items: seq<Item>): Amount {
    if items == [] then Amount(0, 0) else Sum(AmountOf(items[..|items| - 1]), ItemAmount(items[|items| - 1]))
  }

  /** What the files of the antennas below `m` hold together. */
  function InFiles(log: Log, m: nat): Amount {
    if m == 0 then Amount(0, 0) else Sum(InFiles(log, m - 1), AmountOf(Carries(FileOf(log, m - 1))))
  }

  /** What a frame holds that arrives while `p` is open; only sub-blocks with an owning row count. */
  function InFrame(p: OpenEpoch, f: Frame): Amount {
    if f.BlockId() == MEAS_EPOCH then Amount(|Rows(f.body)|, 0)
    else if f.BlockId() == MEAS_EXTRA && Taken(p, f) then
      var n := |SubBlocks(f.body).blocks|;
      Amount(0, if n < |p.owners| then n else |p.owners|)
    else Amount(0, 0)
  }

  function InRecording(frames: seq<Frame>): Amount {
    if frames == [] then Amount(0, 0)
    else
      var init := frames[..|frames| - 1];
      Sum(InRecording(init), InFrame(OpenAfter(init), frames[|frames| - 1]))
  }

  /** What the antennas below `m` are due together. */
  function DueBelow(frames: seq<Frame>, m: nat): Amount {
    if m == 0 then Amount(0, 0) else Sum(DueBelow(frames, m - 1), AmountOf(AllDue(frames, m - 1)))
  }

  function DueOfFrame(p: OpenEpoch, f: Frame, m: nat): Amount {
    if m == 0 then Amount(0, 0) else Sum(DueOfFrame(p, f, m - 1), AmountOf(Due(p, f, m - 1)))
  }

  lemma {:induction false} AmountAppend(a: seq<Item>, b: seq<Item>)
    ensures AmountOf(a + b) == Sum(AmountOf(a), AmountOf(b))
  {
    hide ItemAmount;
    if b == [] {
      assert a + b == a;
    } else {
      var init := b[..|b| - 1];
      assert (a + b)[..|a + b| - 1] == a + init;
      AmountAppend(a, init);
    }
  }

  lemma {:induction false} AgreesAmount(got: seq<Item>, due: seq<Item>)
    requires Agrees(got, due)
    ensures AmountOf(got) == AmountOf(due)
  {
    if due != [] {
      var n := |due| - 1;
      assert ItemAgrees(got[n], due[n]);
      AgreesAmount(got[..n], due[..n]);
    }
  }

  // --- One frame ---------------------------------------------------------------

  function RowsBelow(rows: seq<Row>, m: nat): nat {
    if m == 0 then 0 else RowsBelow(rows, m - 1) + |RowsOf(rows, m - 1)|
  }

  lemma {:induction false} RowsBelowStep(rows: seq<Row>, m: nat)
    requires rows != []
    ensures var n := |rows| - 1;
            RowsBelow(rows, m) == RowsBelow(rows[..n], m) + if rows[n].antenna < m then 1 else 0
  {
    if m > 0 { RowsBelowStep(rows, m - 1); }
  }

  lemma {:induction false} NoRowsBelow(m: nat)
    ensures RowsBelow([], m) == 0
  {
    if m > 0 { NoRowsBelow(m - 1); }
  }

  lemma {:induction false} AllRowsBelow(rows: seq<Row>, m: nat)
    requires forall k :: 0 <= k < |rows| ==> rows[k].antenna < m
    ensures RowsBelow(rows, m) == |rows|
  {
    if rows == [] {
      NoRowsBelow(m);
    } else {
      RowsBelowStep(rows, m);
      AllRowsBelow(rows[..|rows| - 1], m);
    }
  }

  lemma OneAmount(items: seq<Item>)
    ensures |items| <= 1 ==> AmountOf(items) == if items == [] then Amount(0, 0) else ItemAmount(items[0])
  {
    if |items| == 1 { assert items[..0] == []; }
  }

  /** Whether the sub-blocks of a MeasExtra that arrives while `p` is open are taken. */
  predicate Taken(p: OpenEpoch, f: Frame) { p.owners != [] && BodyTime(f.body) == p.time }

  lemma DueAmount(p: OpenEpoch, f: Frame, ant: nat)
    ensures AmountOf(Due(p, f, ant))
         == if f.BlockId() == MEAS_EPOCH then Amount(|RowsOf(Rows(f.body), ant)|, 0)
            else if f.BlockId() == MEAS_EXTRA && Taken(p, f) then
              Amount(0, |Owned(SubBlocks(f.body).blocks, p.owners, ant)|)
            else Amount(0, 0)
  {
    hide Rows, RowsOf, IsCommon, SubBlocks, Owned, AmountOf, BodyTime;
    OneAmount(Due(p, f, ant));
  }

  lemma {:induction false} DueOfEpoch(p: OpenEpoch, f: Frame, m: nat)
    requires f.BlockId() == MEAS_EPOCH
    ensures DueOfFrame(p, f, m) == Amount(RowsBelow(Rows(f.body), m), 0)
  {
    hide Rows, RowsOf, Due, AmountOf, SubBlocks, Owned;
    if m > 0 {
      DueOfEpoch(p, f, m - 1);
      DueAmount(p, f, m - 1);
    }
  }

  lemma {:induction false} DueOfExtra(p: OpenEpoch, f: Frame, m: nat)
    requires f.BlockId() == MEAS_EXTRA && Taken(p, f)
    ensures DueOfFrame(p, f, m) == Amount(0, KeptBelow(SubBlocks(f.body).blocks, p.owners, m))
  {
    hide Rows, RowsOf, Due, AmountOf, SubBlocks, Owned, Taken;
    if m > 0 {
      DueOfExtra(p, f, m - 1);
      DueAmount(p, f, m - 1);
    }
  }

  lemma {:induction false} DueOfOther(p: OpenEpoch, f: Frame, m: nat)
    requires f.BlockId() != MEAS_EPOCH && !(f.BlockId() == MEAS_EXTRA && Taken(p, f))
    ensures DueOfFrame(p, f, m) == Amount(0, 0)
  {
    hide Rows, RowsOf, Due, AmountOf, SubBlocks, Owned, Taken;
    if m > 0 {
      DueOfOther(p, f, m - 1);
      DueAmount(p, f, m - 1);
    }
  }

  lemma DueOfAll(p: OpenEpoch, f: Frame)
    requires Below8(p.owners)
    ensures DueOfFrame(p, f, 8) == InFrame(p, f)
  {
    hide Rows, SubBlocks, Owned, DueOfFrame, Taken, RowsBelow, KeptBelow;
    if f.BlockId() == MEAS_EPOCH {
      DueOfEpoch(p, f, 8);
      AntennasBelowEight(f.body, 0);
      assert forall k :: 0 <= k < |Rows(f.body)| ==> Rows(f.body)[k].antenna == Owners(Rows(f.body))[k];
      AllRowsBelow(Rows(f.body), 8);
    } else if f.BlockId() == MEAS_EXTRA && Taken(p, f) {
      DueOfExtra(p, f, 8);
      NothingLost(SubBlocks(f.body).blocks, p.owners);
    } else {
      DueOfOther(p, f, 8);
    }
  }

  // --- Whole recordings --------------------------------------------------------

  lemma {:induction false} DueBelowStep(frames: seq<Frame>, m: nat)
    requires frames != []
    ensures var init := frames[..|frames| - 1];
            DueBelow(frames, m) == Sum(DueBelow(init, m), DueOfFrame(OpenAfter(init), frames[|frames| - 1], m))
  {
    hide Due, OpenAfter, AllDue, AmountOf;
    if m > 0 {
      var init, f := frames[..|frames| - 1], frames[|frames| - 1];
      DueBelowStep(frames, m - 1);
      AllDueStep(frames, m - 1);
      AmountAppend(AllDue(init, m - 1), Due(OpenAfter(init), f, m - 1));
    }
  }

  lemma AllDueStep(frames: seq<Frame>, ant: nat)
    requires frames != []
    ensures var init := frames[..|frames| - 1];
            AllDue(frames, ant) == AllDue(init, ant) + Due(OpenAfter(init), frames[|frames| - 1], ant)
  {
    hide Due, OpenAfter;
  }

  lemma {:induction false} DueIsRecorded(frames: seq<Frame>)
    ensures DueBelow(frames, 8) == InRecording(frames)
  {
    hide Due, OpenAfter, InFrame, DueOfFrame, DueBelow, Below8;
    if frames == [] {
      NothingDue(8);
    } else {
      var init, f := frames[..|frames| - 1], frames[|frames| - 1];
      DueIsRecorded(init);
      DueBelowStep(frames, 8);
      OpenBelow8(init);
      DueOfAll(OpenAfter(init), f);
    }
  }

  lemma {:induction false} NothingDue(m: nat)
    ensures DueBelow([], m) == Amount(0, 0)
  {
    if m > 0 { NothingDue(m - 1); }
  }

  lemma {:induction false} FilesHoldDue(frames: seq<Frame>, m: nat)
    requires AllValid(frames) && Run(frames).Going?
    ensures InFiles(Run(frames).log, m) == DueBelow(frames, m)
  {
    hide Run, Agrees, Carries, AllDue, AmountOf, Frame.Valid;
    if m > 0 {
      FilesHoldDue(frames, m - 1);
      FilesCarry(frames, m - 1);
      AgreesAmount(Carries(FileOf(Run(frames).log, m - 1)), AllDue(frames, m - 1));
    }
  }

  /**
   Over every recording that exports, the files of the eight antennas hold together as many
   observations as the recording, and as many sub-blocks as have an owning row in it.
   */
  lemma NothingLostInExport(frames: seq<Frame>)
    requires AllValid(frames) && Run(frames).Going?
    ensures InFiles(Run(frames).log, 8) == InRecording(frames)
  {
    FilesHoldDue(frames, 8);
    DueIsRecorded(frames);
  }
}
