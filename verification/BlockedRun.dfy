/** A run after which a table cannot be reopened, although no file was damaged:
    the process ends between creating the first segment and appending to it, the
    next day's segment takes a row, and retention retires that row. */
module BlockedRun {
  import opened Bytes
  import opened Frames
  import opened Logs
  import opened Segments
  import opened History
  import opened Recovery
  import opened Reopen
  import opened Durability
  import opened Images
  import opened CrashSafety
  import opened Runs

  ghost predicate Reaches(t: Table, s: State, s': State) {
    exists states, steps :: IsPath(t, states, steps) && states[0] == s && states[|states| - 1] == s'
  }

  lemma ReachNothing(t: Table, s: State)
    ensures Reaches(t, s, s)
  {
    hide Moves;
    assert IsPath(t, [s], []);
  }

  lemma ReachStep(t: Table, s: State, mid: State, s': State, step: Step)
    requires Reaches(t, s, mid) && Moves(t, mid, s', step)
    ensures Reaches(t, s, s')
  {
    hide Moves;
    var states, steps :| IsPath(t, states, steps) && states[0] == s && states[|states| - 1] == mid;
    var longer, more := states + [s'], steps + [step];
    forall i | 0 <= i < |more| ensures Moves(t, longer[i], longer[i + 1], more[i]) {
      if i < |steps| {
        assert Moves(t, states[i], states[i + 1], steps[i]);
      }
    }
    assert IsPath(t, longer, more);
  }

  /** Creating a segment, without failures, from an idle state. */
  lemma CreateReaches(t: Table, start: State, s: State, seg: Seg) returns (s': State)
    requires Reaches(t, start, s) && s.Open? && s.pc == Idle && s.disk.installing == None
    requires seg.frames == [] && seg.id != 0 && s.mem.image.nextId <= seg.id && seg.first == s.mem.last + 1
    requires seg.day >= 0 && seg.day % DAY_US == 0 && SegKey(seg) !in s.disk.files
    ensures Reaches(t, start, s') && s'.Open? && s'.pc == Idle && s'.disk.installing == None
    ensures s'.hist == s.hist + [seg] && s'.mem == s.mem.(image := RotateImage(s.mem.image, seg)) && s'.acked == s.acked
    ensures s'.disk.manifest == s'.mem.image
    ensures s'.disk.files == s.disk.files[SegKey(seg) := File(HeaderBytesOf(t, seg), [], true)]
  {
    hide Reaches, HeaderBytesOf, RotateImage;
    var k, h, fs := SegKey(seg), HeaderBytesOf(t, seg), s.disk.files;
    var s1 := s.(pc := Creating(seg), disk := s.disk.(files := fs[k := File([], [], false)]));
    ReachStep(t, start, s, s1, StepStartCreate(seg));
    assert h[..|h|] == h;
    var s2 := s1.(disk := s1.disk.(files := s1.disk.files[k := File([], h, false)]));
    ReachStep(t, start, s1, s2, StepWriteNewFile(|h|));
    var s3 := s2.(disk := s2.disk.(files := s2.disk.files[k := File(h, [], false)]));
    ReachStep(t, start, s2, s3, StepSyncNewFile);
    var s4 := s3.(disk := s3.disk.(files := s3.disk.files[k := File(h, [], true)]));
    ReachStep(t, start, s3, s4, StepLinkNewFile);
    var image := RotateImage(s.mem.image, seg);
    var s5 := s4.(pc := Renamed, disk := s4.disk.(installing := Some(Install(image, Rotated(seg)))));
    ReachStep(t, start, s4, s5, StepRenameRotated);
    s' := s5.(pc := Idle, disk := s5.disk.(manifest := image, installing := None), mem := s5.mem.(image := image),
              hist := s5.hist + [seg]);
    ReachStep(t, start, s5, s', StepSyncManifest);
  }

  /** Committing a frame, without failures, from an idle state. */
  lemma AppendReaches(t: Table, start: State, s: State, f: Frame) returns (s': State)
    requires Reaches(t, start, s) && s.Open? && s.pc == Idle && s.hist != [] && HasActive(s.mem.image)
    requires FrameFits(t, LastSeg(s.hist).day, LastSeg(s.hist).frames, f, s.mem.last, s.mem.time)
    requires |SegBytes(t, LastSeg(s.hist))| + |EncodeFrame(f)| <= I64_MAX && SegKey(LastSeg(s.hist)) in s.disk.files
    ensures Reaches(t, start, s') && s'.Open? && s'.pc == Idle && s'.disk.installing == s.disk.installing
    ensures s'.mem.image == s.mem.image.(segments := Published(s.mem.image, f))
  {
    hide Reaches, EncodeFrame, FrameValid, SegBytes;
    var k, b := SegKey(LastSeg(s.hist)), EncodeFrame(f);
    var s1 := s.(pc := Appending(f));
    ReachStep(t, start, s, s1, StepStartAppend(f));
    assert b[..|b|] == b;
    var s2 := s1.(disk := s1.disk.(files := s1.disk.files[k := s1.disk.files[k].(pending := b)]));
    ReachStep(t, start, s1, s2, StepWriteChunk(|b|));
    s' := Open(
      s2.disk.(files := s2.disk.files[k := s2.disk.files[k].(synced := s2.disk.files[k].synced + b, pending := [])]),
      Memory(s.mem.image.(segments := Published(s.mem.image, f)), f.firstSequence + f.rowCount - 1, f.maxTime),
      Idle, AddFrame(s.hist, f), s.acked + [f]);
    ReachStep(t, start, s2, s', StepSyncData);
  }

  lemma ReachedInv(t: Table, start: State, s: State)
    requires TableValid(t) && Initial(start) && Reaches(t, start, s)
    ensures Inv(t, s)
  {
    hide Inv, Initial, Moves;
    var states, steps :| IsPath(t, states, steps) && states[0] == start && states[|states| - 1] == s;
    RunKeeps(t, states, steps, |states| - 1);
  }

  /** The process ends while idle, nothing pending being lost. */
  lemma StopReaches(t: Table, start: State, s: State) returns (s': State)
    requires TableValid(t) && Initial(start) && Reaches(t, start, s)
    requires s.Open? && s.pc == Idle && s.disk.installing == None
    ensures Reaches(t, start, s') && s'.Closed? && s'.disk.manifest == s.disk.manifest && s'.disk.installing == None
    ensures s'.hist == s.hist && s'.acked == s.acked && s'.disk.files.Keys <= s.disk.files.Keys
  {
    hide Reaches, Initial;
    var d := Disk(s.disk.manifest, None, map k | k in s.disk.files && s.disk.files[k].linked ::
                  File(s.disk.files[k].synced, [], true));
    forall k | k in s.disk.files && s.disk.files[k].linked ensures Kept(s.disk.files[k], d.files[k]) {
      var b := s.disk.files[k];
      assert b.synced + b.pending[..0] == b.synced;
    }
    s' := Closed(d, s.hist, s.acked);
    assert HistAfter(t, s, d) == s.hist;
    ReachStep(t, start, s, s', StepCrash);
  }

  /** What recovery makes of the files of an idle table is what the table had in memory. */
  lemma RecoversMemory(t: Table, s: State, s': State)
    requires Inv(t, s) && Inv(t, s') && s.Open? && s.pc == Idle && s'.Closed? && s'.hist == s.hist
    requires s'.disk.manifest == s.mem.image && !Blocked(s.mem.image)
    ensures Recover(t, s'.disk.manifest, Contents(s'.disk), {}) == Reopened(s.mem.image, s.mem.last, s.mem.time)
  {
    hide Matches, HistFits, Blocked, FilesHold, FilesOpen, Recover;
    RecoveryIff(t, s'.disk.manifest, s.hist, Contents(s'.disk), {});
    assert Exact(t, s.mem.image.segments, s.hist) == s.mem.image.segments;
  }

  /** The process ends while idle and the table is reopened. */
  lemma RestartReaches(t: Table, start: State, s: State) returns (s': State)
    requires TableValid(t) && Initial(start) && Reaches(t, start, s)
    requires s.Open? && s.pc == Idle && s.disk.installing == None && s.disk.manifest == s.mem.image
             && !Blocked(s.mem.image)
    ensures Reaches(t, start, s') && s'.Open? && s'.pc == Idle && s'.disk.installing == None
    ensures s'.hist == s.hist && s'.mem == s.mem && s'.disk.files.Keys <= s.disk.files.Keys
  {
    hide Reaches, Blocked, Recover, Initial, Inv, Contents;
    var s1 := StopReaches(t, start, s);
    ReachedInv(t, start, s);
    ReachedInv(t, start, s1);
    RecoversMemory(t, s, s1);
    s' := Open(s1.disk.(files := CutActive(s1.disk, s.mem.image)), s.mem, Idle, s.hist, s.acked);
    ReachStep(t, start, s1, s', StepRestart({}));
  }

  /** A retention run and then the end of the process. */
  lemma RetireReaches(t: Table, start: State, s: State, cutoff: int) returns (s': State)
    requires Reaches(t, start, s) && s.Open? && s.pc == Idle && s.disk.installing == None
    ensures Reaches(t, start, s') && s'.Closed? && s'.disk.manifest == RetireImage(s.mem.image, cutoff)
  {
    hide Reaches, RetireImage, HistAfter;
    var image := RetireImage(s.mem.image, cutoff);
    var s1 := s.(pc := Renamed, disk := s.disk.(installing := Some(Install(image, Rewritten))));
    ReachStep(t, start, s, s1, StepRenameRewritten(image));
    var s2 := s1.(pc := Idle, disk := s1.disk.(manifest := image, installing := None), mem := s1.mem.(image := image));
    ReachStep(t, start, s1, s2, StepSyncManifest);
    var d := Disk(image, None, map k | k in s2.disk.files && s2.disk.files[k].linked ::
                  File(s2.disk.files[k].synced, [], true));
    forall k | k in s2.disk.files && s2.disk.files[k].linked ensures Kept(s2.disk.files[k], d.files[k]) {
      var b := s2.disk.files[k];
      assert b.synced + b.pending[..0] == b.synced;
    }
    s' := Closed(d, HistAfter(t, s2, d), s2.acked);
    ReachStep(t, start, s2, s', StepCrash);
  }

  /** One row of eight bytes, whose only field is its time: the start of the second day. */
  lemma DayFrame() returns (f: Frame)
    ensures FrameValid(f) && f.schemaHash == 0 && f.rowWidth == 8 && f.firstSequence == 1 && f.rowCount == 1
    ensures f.minTime == DAY_US && f.maxTime == DAY_US
  {
    f := Frame(0, 1, DAY_US, DAY_US, 1, 8, 0, [], Put(DAY_US, 8));
    assert RowBytes(1, 8) == RowBytes(0, 8) + 8;
    Spans();
    GetPut(DAY_US, 8);
    assert f.rows[0..8] == f.rows;
    assert TimeAt(f, 0) == DAY_US;
    assert TimesValid(f);
  }

  /** The fault, on a concrete table: a run without corruption, and without any failed call, ends in a state that cannot
      be reopened. */
  lemma BlockedExample() returns (t: Table, s: State)
    ensures TableValid(t)
    ensures exists start :: Initial(start) && Reaches(t, start, s)
    ensures s.Closed? && Blocked(s.disk.manifest)
    ensures forall indexed, s' :: !Restart(t, s, s', indexed)
  {
    hide Reaches, FrameValid, EncodeFrame, SegBytes;
    t := Table(1, 0, 8, (earlier, f) => true);
    var image := Manifest(1, 0, 0, 0, 1, []);
    var start := Open(Disk(image, None, map[]), Memory(image, 0, 0), Idle, [], []);
    ReachNothing(t, start);
    var seg1, seg2 := Seg(1, 0, 1, []), Seg(2, DAY_US, 1, []);
    var s0 := CreateReaches(t, start, start, seg1);
    var s1 := RestartReaches(t, start, s0);
    var s2 := CreateReaches(t, start, s1, seg2);
    var f := DayFrame();
    EmptyMeta(t, seg2);
    EncodeLength(f);
    assert FrameFits(t, seg2.day, [], f, 0, 0);
    FrameSmall(f);
    var s3 := AppendReaches(t, start, s2, f);
    s := RetireReaches(t, start, s3, DAY_US + 1);
    var m := s.disk.manifest;
    assert m.segments[0].state == Sealed && m.segments[0].last == 0 && m.segments[1].state == Retired;
    forall indexed, s' ensures !Restart(t, s, s', indexed) {
      CannotRestart(t, start, s, s', indexed);
    }
  }

  lemma FrameSmall(f: Frame)
    requires FrameValid(f)
    ensures |EncodeFrame(f)| <= MAX_FRAME_BYTES
  {
    hide EncodeFrame, ContentValid, RowBytes;
    EncodeLength(f);
  }

  lemma CannotRestart(t: Table, start: State, s: State, s': State, indexed: set<U64>)
    requires TableValid(t) && Initial(start) && Reaches(t, start, s) && s.Closed? && Blocked(s.disk.manifest)
    ensures !Restart(t, s, s', indexed)
  {
    hide Restart, Blocked, Initial, Moves;
    var states, steps :| IsPath(t, states, steps) && states[0] == start && states[|states| - 1] == s;
    RestartIff(t, states, steps, |states| - 1, indexed);
  }
}
