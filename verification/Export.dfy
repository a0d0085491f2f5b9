/** The export of a recording into per-antenna files. */
module Export {
  import opened Bytes
  import opened Framing
  import opened OfflineScanner
  import opened Observation
  import opened MeasEpoch
  import opened MeasExtra
  import opened SbfSink
  import opened ExportSpec
  import opened ExportContents

  /** What is on disk and in the report after an export. */
  datatype Exported = Exported(files: map<int, seq<byte>>, frames: map<int, nat>, bytes: map<int, nat>,
                               verified: map<int, (nat, nat)>, commonFrames: nat)

  function WireEvent(e: Event<Frame>): Event<seq<byte>> {
    match e
    case Own(ant, frame) => Own(ant, frame.Wire())
    case Common(frame) => Common(frame.Wire())
  }

  /** The log as the sink sees it. */
  function WireLog(log: Log): seq<Event<seq<byte>>> {
    seq(|log|, k requires 0 <= k < |log| => WireEvent(log[k]))
  }

  lemma WireLogAppend(a: Log, b: Log)
    ensures WireLog(a + b) == WireLog(a) + WireLog(b)
  {
  }

  lemma {:induction false} WireFile(log: Log, ant: int)
    ensures FileOf(WireLog(log), ant) == Wires(FileOf(log, ant))
  {
    hide Frame.Wire;
    if log != [] {
      var n := |log| - 1;
      assert WireLog(log)[..n] == WireLog(log[..n]);
      WireFile(log[..n], ant);
    }
  }

  lemma {:induction false} WireCommons(log: Log)
    ensures |Commons(WireLog(log))| == |Commons(log)|
  {
    hide Frame.Wire;
    if log != [] {
      var n := |log| - 1;
      assert WireLog(log)[..n] == WireLog(log[..n]);
      WireCommons(log[..n]);
    }
  }

  // --- Grouping ----------------------------------------------------------------

  method RowsByAntenna(rows: seq<Row>) returns (grouped: map<int, seq<Row>>)
    ensures forall a: nat :: a in grouped <==> a in Owners(rows)
    ensures forall a: nat :: a in grouped ==> grouped[a] == RowsOf(rows, a)
  {
    hide RowsOf;
    grouped := map[];
    for i := 0 to |rows|
      invariant forall a: nat :: a in grouped <==> a in Owners(rows[..i])
      invariant forall a: nat :: a in grouped ==> grouped[a] == RowsOf(rows[..i], a)
    {
      var a: nat := rows[i].antenna;
      NextRow(rows, i);
      grouped := grouped[a := (if a in grouped then grouped[a] else []) + [rows[i]]];
    }
    assert rows[..|rows|] == rows;
  }

  lemma NextRow(rows: seq<Row>, i: nat)
    requires i < |rows|
    ensures forall a: nat :: a in Owners(rows[..i + 1]) <==> a in Owners(rows[..i]) || a == rows[i].antenna
    ensures forall a: nat :: RowsOf(rows[..i + 1], a)
                          == RowsOf(rows[..i], a) + if rows[i].antenna == a then [rows[i]] else []
    ensures forall a: nat :: a !in Owners(rows[..i]) ==> RowsOf(rows[..i], a) == []
    ensures forall a: nat :: RowsOf(rows[..i], a) + [] == RowsOf(rows[..i], a)
  {
    assert rows[..i + 1][..i] == rows[..i];
    assert Owners(rows[..i + 1]) == Owners(rows[..i]) + [rows[i].antenna];
    forall a: nat ensures a !in Owners(rows[..i]) ==> RowsOf(rows[..i], a) == [] { RowsOfOwner(rows[..i], a); }
  }

  /** The row indices of each antenna. */
  method IndicesByAntenna(rows: seq<Row>) returns (m: map<int, seq<nat>>)
    ensures forall a: nat :: a in m <==> a in Owners(rows)
    ensures forall a: nat :: a in m ==> m[a] == Indices(Owners(rows), a)
    ensures m == map[] <==> rows == []
  {
    hide Indices;
    m := map[];
    for i := 0 to |rows|
      invariant forall a: nat :: a in m <==> a in Owners(rows[..i])
      invariant forall a: nat :: a in m ==> m[a] == Indices(Owners(rows[..i]), a)
      invariant m == map[] <==> i == 0
    {
      var a: nat := rows[i].antenna;
      NextIndex(rows, i);
      m := m[a := (if a in m then m[a] else []) + [i]];
      assert a in m;
    }
    assert rows[..|rows|] == rows;
  }

  lemma NextIndex(rows: seq<Row>, i: nat)
    requires i < |rows|
    ensures forall a: nat :: a in Owners(rows[..i + 1]) <==> a in Owners(rows[..i]) || a == rows[i].antenna
    ensures forall a: nat :: Indices(Owners(rows[..i + 1]), a)
                          == Indices(Owners(rows[..i]), a) + if rows[i].antenna == a then [i] else []
    ensures forall a: nat :: a !in Owners(rows[..i]) ==> Indices(Owners(rows[..i]), a) == []
    ensures forall a: nat :: Indices(Owners(rows[..i]), a) + [] == Indices(Owners(rows[..i]), a)
  {
    var now, next := Owners(rows[..i]), Owners(rows[..i + 1]);
    assert next == now + [rows[i].antenna] && next[..i] == now;
    forall a: nat ensures a !in now ==> Indices(now, a) == [] {
      IndicesExact(now, a);
      if a !in now && Indices(now, a) != [] { assert Indices(now, a)[0] in Indices(now, a); }
    }
  }

  // --- Writing the parts of a frame --------------------------------------------

  lemma NextEntries(split: Split, m: nat, log: seq<Event<seq<byte>>>)
    requires Entries(split, m).Some?
    ensures Share(split, m).None? ==> Entries(split, m + 1).None?
    ensures Share(split, m) == Some([]) ==> Entries(split, m + 1) == Entries(split, m)
    ensures Share(split, m).Some? && |Share(split, m).value| == 1 ==>
              && Entries(split, m + 1).Some?
              && log + WireLog(Entries(split, m + 1).value)
                 == log + WireLog(Entries(split, m).value) + [Own(m, Share(split, m).value[0].Wire())]
  {
    hide Share, Frame.Wire;
    if Share(split, m).Some? {
      var before := Entries(split, m).value;
      WireLogAppend(before, OwnEvents(m, Share(split, m).value));
      assert before + [] == before;
    }
  }

  lemma {:induction false} EntriesFailLater(split: Split, m: nat, n: nat)
    requires Entries(split, m).None? && m <= n
    ensures Entries(split, n).None?
    decreases n - m
  {
    if m < n { EntriesFailLater(split, m + 1, n); }
  }

  lemma PrintedShare(rawId: word, body: seq<byte>)
    ensures RebuildSbfFrame(rawId, body).None? <==> PrintOne(rawId, body).None?
    ensures PrintOne(rawId, body).Some? ==>
              |PrintOne(rawId, body).value| == 1
              && RebuildSbfFrame(rawId, body) == Some(PrintOne(rawId, body).value[0].Wire())
  {
    RebuiltIsFrame(rawId, body);
  }

  method WriteEpoch(sink: Sink, rawId: word, rows: seq<Row>) returns (ok: bool)
    requires sink.Valid()
    modifies sink
    ensures sink.Valid() && ok == Entries(OfEpoch(rawId, rows), 8).Some?
    ensures ok ==> sink.log == old(sink.log) + WireLog(Entries(OfEpoch(rawId, rows), 8).value)
  {
    hide Entries, RowsOf, PrintOne, RebuildSbfFrame, BuildMeasEpochBody, Frame.Wire, Owners, WireLog, Sink.Valid;
    ghost var split := OfEpoch(rawId, rows);
    var grouped := RowsByAntenna(rows);
    NoEntries(split, sink.log);
    for ant := 0 to 8
      invariant sink.Valid() && Entries(split, ant).Some?
      invariant sink.log == old(sink.log) + WireLog(Entries(split, ant).value)
    {
      NextEntries(split, ant, old(sink.log));
      RowsOfOwner(rows, ant);
      if ant in grouped {
        var body := BuildMeasEpochBody(grouped[ant]);
        if body.None? {
          EntriesFailLater(split, ant + 1, 8);
          return false;
        }
        PrintedShare(rawId, body.value);
        var bytes := RebuildSbfFrame(rawId, body.value);
        if bytes.None? {
          EntriesFailLater(split, ant + 1, 8);
          return false;
        }
        sink.Write(ant, bytes.value);
      }
    }
    return true;
  }

  lemma NoEntries(split: Split, log: seq<Event<seq<byte>>>)
    ensures Entries(split, 0) == Some([]) && log + WireLog([]) == log
  {
  }

  /** The pending indices of the parser, against the owners of the last epoch's rows. */
  ghost predicate IndicesOf(indices: map<int, seq<nat>>, owners: seq<nat>) {
    && (forall a: nat :: a in indices <==> a in owners)
    && (forall a: nat :: a in indices ==> indices[a] == Indices(owners, a))
    && (indices == map[] <==> owners == [])
  }

  method WriteExtra(sink: Sink, frame: Frame, indices: map<int, seq<nat>>, ghost owners: seq<nat>) returns (ok: bool)
    requires sink.Valid() && IndicesOf(indices, owners)
    modifies sink
    ensures sink.Valid() && ok == Entries(OfExtra(frame, owners), 8).Some?
    ensures ok ==> sink.log == old(sink.log) + WireLog(Entries(OfExtra(frame, owners), 8).value)
  {
    hide Entries, PrintOne, RebuildSbfFrame, BuildMeasExtraBody, Frame.Wire, Indices, WireLog, Sink.Valid;
    ghost var split := OfExtra(frame, owners);
    NoEntries(split, sink.log);
    for ant := 0 to 8
      invariant sink.Valid() && Entries(split, ant).Some?
      invariant sink.log == old(sink.log) + WireLog(Entries(split, ant).value)
    {
      NextEntries(split, ant, old(sink.log));
      if ant in indices {
        var body := KeepSubblocks(frame.body, indices[ant]);
        if body.Some? {
          PrintedShare(frame.rawId, body.value);
          var bytes := RebuildSbfFrame(frame.rawId, body.value);
          if bytes.None? {
            EntriesFailLater(split, ant + 1, 8);
            return false;
          }
          sink.Write(ant, bytes.value);
        }
      }
    }
    return true;
  }

  method WriteEnd(sink: Sink, frame: Frame, antennas: set<int>, ghost owners: seq<nat>) returns (ok: bool)
    requires sink.Valid() && forall a: nat :: a in antennas <==> a in owners
    modifies sink
    ensures sink.Valid() && ok == Entries(OfEnd(frame, owners), 8).Some?
    ensures ok ==> sink.log == old(sink.log) + WireLog(Entries(OfEnd(frame, owners), 8).value)
  {
    hide Entries, PrintOne, RebuildSbfFrame, Frame.Wire, WireLog, Sink.Valid;
    ghost var split := OfEnd(frame, owners);
    NoEntries(split, sink.log);
    for ant := 0 to 8
      invariant sink.Valid() && Entries(split, ant).Some?
      invariant sink.log == old(sink.log) + WireLog(Entries(split, ant).value)
    {
      NextEntries(split, ant, old(sink.log));
      if ant in antennas {
        PrintedShare(frame.rawId, frame.body);
        var bytes := RebuildSbfFrame(frame.rawId, frame.body);
        if bytes.None? {
          EntriesFailLater(split, ant + 1, 8);
          return false;
        }
        sink.Write(ant, bytes.value);
      }
    }
    return true;
  }

  // --- One frame, and all of them ----------------------------------------------

  /** The parser's pending state. */
  datatype PendingState = PendingState(indices: map<int, seq<nat>>, antennas: set<int>, time: Option<Time>)

  ghost predicate Tracks(s: PendingState, p: OpenEpoch) {
    && IndicesOf(s.indices, p.owners) && s.time == p.time
    && forall a: nat :: a in s.antennas <==> a in p.owners
  }

  method HandleEpoch(sink: Sink, frame: Frame, ghost p: OpenEpoch) returns (ok: bool, next: PendingState)
    requires sink.Valid() && frame.BlockId() == MEAS_EPOCH
    modifies sink
    ensures sink.Valid() && ok == Step(p, frame).Going?
    ensures ok ==> Tracks(next, Step(p, frame).pending) && sink.log == old(sink.log) + WireLog(Step(p, frame).log)
  {
    hide Entries, Rows;
    var rows := DecodeMeasEpoch(frame.body);
    var indices := IndicesByAntenna(rows);
    ghost var owners := Owners(rows);
    hide Owners, Indices;
    next := PendingState(indices, indices.Keys, EpochTime(rows));
    ok := WriteEpoch(sink, frame.rawId, rows);
  }

  method HandleFrame(sink: Sink, frame: Frame, s: PendingState, ghost p: OpenEpoch)
    returns (ok: bool, next: PendingState)
    requires sink.Valid() && Tracks(s, p)
    modifies sink
    ensures sink.Valid() && ok == Step(p, frame).Going?
    ensures ok ==> Tracks(next, Step(p, frame).pending) && sink.log == old(sink.log) + WireLog(Step(p, frame).log)
  {
    hide Entries, Rows, IsCommon, PrintOne, RebuildSbfFrame, Frame.Wire;
    var id := frame.BlockId();
    next := s;
    if id == MEAS_EPOCH {
      ok, next := HandleEpoch(sink, frame, p);
      return;
    }
    hide Indices, Owners;
    if id == MEAS_EXTRA {
      ok := true;
      if s.indices != map[] && BodyTime(frame.body) == s.time {
        ok := WriteExtra(sink, frame, s.indices, p.owners);
      } else {
        assert sink.log + WireLog([]) == sink.log;
      }
    } else if id == END_OF_MEAS {
      ok := WriteEnd(sink, frame, s.antennas, p.owners);
      next := PendingState(map[], {}, None);
    } else if IsCommon(id) {
      PrintedShare(frame.rawId, frame.body);
      var bytes := RebuildSbfFrame(frame.rawId, frame.body);
      ok := bytes.Some?;
      if ok {
        sink.WriteCommon(bytes.value);
      }
    } else {
      ok := true;
      assert sink.log + WireLog([]) == sink.log;
    }
  }

  /** The exported file of an antenna: readable frame by frame, of the right shape, and verified. */
  ghost predicate GoodFile(out: Exported, log: Log, ant: nat) {
    var frames := FileOf(log, ant);
    && ant in out.files && ant in out.frames && ant in out.bytes && ant in out.verified
    && AllValid(frames) && out.files[ant] == Stream(frames)
    && Frames(Offline(out.files[ant], 0).frames) == frames
    && !ShapeOf(frames).Broken?
    && out.frames[ant] == |frames| && out.bytes[ant] == |out.files[ant]|
    && out.verified[ant] == (|frames|, 0)
  }

  /**
   Read back, the file says what the antenna is due from the recording, item by item; nothing but
   Doppler rounding is lost exactly when all its observations can be represented.
   */
  ghost predicate FullFile(file: seq<byte>, frames: seq<Frame>, ant: nat) {
    var got, due := Carries(Frames(Offline(file, 0).frames)), AllDue(frames, ant);
    && Agrees(got, due)
    && (got == AllAsWritten(due) <==> forall k :: 0 <= k < |due| ==> Faithful(due[k]))
  }

  lemma FullFiles(out: Exported, frames: seq<Frame>)
    requires AllValid(frames) && Run(frames).Going?
    requires forall ant: nat :: (ant in out.files <==> Opened(Run(frames).log, ant))
                                && (ant in out.files ==> GoodFile(out, Run(frames).log, ant))
    ensures forall ant: nat :: (ant in out.files <==> Observed(frames, ant))
                               && (ant in out.files ==> FullFile(out.files[ant], frames, ant))
  {
    hide Run, Opened, Observed, Offline, Frames, FileOf, ShapeOf, Frame.Valid, Agrees, Carries, AllDue,
      AllAsWritten, Faithful;
    forall ant: nat
      ensures (ant in out.files <==> Observed(frames, ant))
              && (ant in out.files ==> FullFile(out.files[ant], frames, ant))
    {
      OpenedIffObserved(frames, ant);
      FilesCarry(frames, ant);
      AgreesWhole(Carries(FileOf(Run(frames).log, ant)), AllDue(frames, ant));
    }
  }

  /**
   Exports a recording. It fails exactly when some epoch has more than 255 rows for one antenna;
   otherwise every antenna with an observation in the recording has a good file, which carries
   all that the antenna is due from the recording and nothing else.
   */
  method ExportRecording(data: seq<byte>) returns (r: Option<Exported>)
    ensures var frames := Frames(Offline(data, 0).frames);
            && (r.None? <==> exists k :: 0 <= k < |frames| && TooManyRows(frames[k]))
            && (r.None? <==> Run(frames).Failed?)
            && (r.Some? ==> r.value.commonFrames == |CommonBlocks(frames)|)
            && (r.Some? ==> forall ant: nat ::
                              (ant in r.value.files <==> Observed(frames, ant))
                              && (ant in r.value.files ==> GoodFile(r.value, Run(frames).log, ant)
                                                           && FullFile(r.value.files[ant], frames, ant)))
  {
    hide Offline, Run, TooManyRows, GoodFile, Frames, FileOf, WellShaped, Opened, Commons, KeysOpened, AllHold,
      Observed, FullFile, CommonBlocks;
    var located := IterFrames(data);
    var frames := Frames(located);
    ScannedValid(data);
    ExportFails(frames);
    var sink := new Sink();
    var ok := HandleFrames(sink, frames);
    if !ok {
      return None;
    }
    ExportShaped(frames);
    ghost var end := Run(frames);
    var verified := VerifyAll(sink, end.log, end.pending);
    r := Some(Exported(sink.files, sink.frames, sink.bytes, verified, sink.commonFrames));
    GoodFiles(r.value, end.pending, end.log, sink.log);
    FullFiles(r.value, frames);
    CommonsOfRun(frames);
    WireCommons(end.log);
  }

  /** The export loop. */
  method HandleFrames(sink: Sink, frames: seq<Frame>) returns (ok: bool)
    requires sink.Valid() && sink.log == []
    modifies sink
    ensures sink.Valid() && ok == Run(frames).Going?
    ensures ok ==> sink.log == WireLog(Run(frames).log)
  {
    hide Step, Tracks, FileOf, Opened, Commons, KeysOpened, AllHold;
    var state := PendingState(map[], {}, None);
    NothingPending();
    assert WireLog([]) == [];
    for i := 0 to |frames|
      invariant sink.Valid() && Run(frames[..i]).Going?
      invariant Tracks(state, Run(frames[..i]).pending)
      invariant sink.log == WireLog(Run(frames[..i]).log)
    {
      ghost var before := Run(frames[..i]);
      assert frames[..i + 1][..i] == frames[..i];
      ok, state := HandleFrame(sink, frames[i], state, before.pending);
      if !ok {
        RunFails(frames, i + 1);
        return false;
      }
      WireLogAppend(before.log, Step(before.pending, frames[i]).log);
    }
    assert frames[..|frames|] == frames;
    return true;
  }

  lemma NothingPending()
    ensures Tracks(PendingState(map[], {}, None), OpenEpoch([], None))
  {
  }

  lemma ScannedValid(data: seq<byte>)
    ensures AllValid(Frames(Offline(data, 0).frames))
  {
    hide Offline, Frame.Valid;
    forall k | 0 <= k < |Offline(data, 0).frames| ensures Offline(data, 0).frames[k].frame.Valid() {
      RebuildScanned(data, k);
    }
  }

  lemma {:induction false} RunFails(frames: seq<Frame>, k: nat)
    requires k <= |frames| && Run(frames[..k]).Failed?
    ensures Run(frames).Failed?
    decreases |frames| - k
  {
    hide Step;
    if k == |frames| {
      assert frames[..k] == frames;
    } else {
      assert frames[..k + 1][..k] == frames[..k];
      RunFails(frames, k + 1);
    }
  }

  /** A file of the sink is the back-to-back stream of its frames. */
  lemma SinkFile(log: Log, p: OpenEpoch, ant: nat, file: seq<byte>, frames: nat, bytes: nat)
    requires WellShaped(p, log) && Holds(file, frames, bytes, FileOf(WireLog(log), ant))
    ensures var fs := FileOf(log, ant);
            && AllValid(fs) && !ShapeOf(fs).Broken? && file == Stream(fs)
            && frames == |fs| && bytes == |file|
            && Frames(Offline(file, 0).frames) == fs
            && |Offline(file, 0).frames| == |fs| && Offline(file, 0).crcFailed == 0
  {
    var fs := FileOf(log, ant);
    assert AntShaped(p, fs, ant);
    WireFile(log, ant);
    hide FileOf, ShapeOf, Frame.Valid, Offline;
    OfflineStream(fs);
    ContiguousFrames(fs);
    assert |Frames(Contiguous(fs))| == |Contiguous(fs)|;
  }

  method VerifyAll(sink: Sink, ghost log: Log, ghost p: OpenEpoch) returns (verified: map<int, (nat, nat)>)
    requires sink.Valid() && sink.log == WireLog(log) && WellShaped(p, log)
    ensures verified.Keys == sink.files.Keys
    ensures forall ant: nat :: ant in verified ==> verified[ant] == (|FileOf(log, ant)|, 0)
  {
    hide FileOf, WellShaped, Offline, Holds, Opened, Commons, KeysOpened;
    verified := map[];
    var todo := sink.files.Keys;
    while todo != {}
      invariant verified.Keys + todo == sink.files.Keys && verified.Keys !! todo
      invariant forall ant: nat :: ant in verified ==> verified[ant] == (|FileOf(log, ant)|, 0)
    {
      var ant :| ant in todo;
      var frames, crcFails := VerifySbfBytes(sink.files[ant]);
      if ant >= 0 { SinkFile(log, p, ant, sink.files[ant], sink.frames[ant], sink.bytes[ant]); }
      verified := verified[ant := (frames, crcFails)];
      todo := todo - {ant};
    }
  }

  lemma GoodFiles(out: Exported, p: OpenEpoch, log: Log, wire: seq<Event<seq<byte>>>)
    requires WellShaped(p, log) && wire == WireLog(log)
    requires AllHold(out.files, out.frames, out.bytes, Shares(wire, out.files.Keys))
    requires KeysOpened(out.files.Keys, wire) && out.verified.Keys == out.files.Keys
    requires forall ant: nat :: ant in out.verified ==> out.verified[ant] == (|FileOf(log, ant)|, 0)
    ensures forall ant: nat :: (ant in out.files <==> Opened(log, ant))
                               && (ant in out.files ==> GoodFile(out, log, ant))
  {
    hide FileOf, WellShaped, Offline, Holds, Opened, Frame.Valid, ShapeOf;
    forall ant: nat ensures (ant in out.files <==> Opened(log, ant)) && (ant in out.files ==> GoodFile(out, log, ant)) {
      OpenedWire(log, ant);
      if ant in out.files {
        SinkFile(log, p, ant, out.files[ant], out.frames[ant], out.bytes[ant]);
      }
    }
  }

  lemma OpenedWire(log: Log, ant: nat)
    ensures Opened(WireLog(log), ant) <==> Opened(log, ant)
  {
    hide Frame.Wire;
    if Opened(log, ant) {
      var k :| 0 <= k < |log| && log[k].Own? && log[k].ant == ant;
      assert WireLog(log)[k].Own? && WireLog(log)[k].ant == ant;
    }
    if Opened(WireLog(log), ant) {
      var k :| 0 <= k < |WireLog(log)| && WireLog(log)[k].Own? && WireLog(log)[k].ant == ant;
      assert log[k].Own? && log[k].ant == ant;
    }
  }
}
