/** Crash safety over whole runs of the durability protocol: what is committed
    stays committed, an interrupted frame appears whole or not at all, and a
    table reopens with exactly its unretired rows unless it is blocked. */
module CrashSafety {
  import opened Bytes
  import opened Frames
  import opened Logs
  import opened Segments
  import opened History
  import opened Recovery
  import opened Reopen
  import opened Durability
  import opened Images

  // ---- the invariant ----

  /** The synced bytes of a segment's file are the segment. */
  ghost predicate Stored(t: Table, d: Disk, s: Seg) {
    SegKey(s) in d.files && d.files[SegKey(s)].linked && d.files[SegKey(s)].synced == SegBytes(t, s)
  }

  /** Nothing is pending, except that the in-flight frame may be partly written behind the last segment. */
  ghost predicate PendingOk(s: State, i: nat)
    requires s.Open? && i < |s.hist| && SegKey(s.hist[i]) in s.disk.files
  {
    var p, f := s.disk.files[SegKey(s.hist[i])].pending, Inflight(s);
    p == [] || (i + 1 == |s.hist| && f.Some? && FrameValid(f.value) && p <= EncodeFrame(f.value))
  }

  ghost predicate FileOk(t: Table, s: State, i: nat)
    requires s.Open? && i < |s.hist|
  {
    Stored(t, s.disk, s.hist[i]) && PendingOk(s, i)
  }

  ghost predicate FilesOpen(t: Table, s: State)
    requires s.Open? && |s.mem.image.segments| == |s.hist|
  {
    forall i :: 0 <= i < |s.hist| && s.mem.image.segments[i].state != Retired ==> FileOk(t, s, i)
  }

  predicate SameStates(a: Manifest, b: Manifest) {
    |a.segments| == |b.segments| && forall i :: 0 <= i < |a.segments| ==> a.segments[i].state == b.segments[i].state
  }

  ghost predicate InflightOk(t: Table, s: State, f: Frame)
    requires s.Open?
  {
    && s.hist != [] && HasActive(s.mem.image)
    && FrameFits(t, LastSeg(s.hist).day, LastSeg(s.hist).frames, f, s.mem.last, s.mem.time)
    && |SegBytes(t, LastSeg(s.hist))| + |EncodeFrame(f)| <= I64_MAX
  }

  ghost predicate NewSegOk(t: Table, s: State, seg: Seg)
    requires s.Open?
  {
    && seg.frames == [] && s.mem.image.nextId <= seg.id && HistFits(t, s.hist + [seg])
    && SegKey(seg) in s.disk.files
  }

  /** A manifest under installation describes the history, with the new segment when it lists one. */
  ghost predicate InstallOk(t: Table, s: State, i: Install)
    requires s.Open?
  {
    match i.goal
    case Rewritten =>
      && Matches(t, i.image, s.hist) && IsExact(t, i.image, s.hist)
      && |s.mem.image.segments| == |s.hist|
      && forall k :: 0 <= k < |s.hist| && i.image.segments[k].state != Retired ==>
         s.mem.image.segments[k].state != Retired
    case Rotated(seg) =>
      && seg.frames == [] && HistFits(t, s.hist + [seg])
      && Matches(t, i.image, s.hist + [seg]) && IsExact(t, i.image, s.hist + [seg])
      && |s.mem.image.segments| == |s.hist|
      && (forall k :: 0 <= k < |s.hist| && i.image.segments[k].state != Retired ==>
          s.mem.image.segments[k].state != Retired)
      && HasActive(i.image)
      && Stored(t, s.disk, seg) && s.disk.files[SegKey(seg)].pending == []
  }

  ghost predicate PcOk(t: Table, s: State)
    requires s.Open?
  {
    match s.pc
    case Idle => s.disk.installing == None
    case Creating(seg) => s.disk.installing == None && NewSegOk(t, s, seg)
    case Renamed => s.disk.installing.Some? && InstallOk(t, s, s.disk.installing.value)
    case Appending(f) => s.disk.installing == None && InflightOk(t, s, f)
    case Failed(None) => s.disk.installing.Some? && InstallOk(t, s, s.disk.installing.value)
    case Failed(Some(f)) => s.disk.installing == None && InflightOk(t, s, f)
  }

  ghost predicate AckedOk(s: State) { forall k :: 0 <= k < |s.acked| ==> s.acked[k] in Log(s.hist) }

  /** The memory of an open table is its history. */
  ghost predicate MemoryOk(t: Table, s: State)
    requires s.Open?
  {
    && HistFits(t, s.hist)
    && |s.mem.image.segments| == |s.hist| && Matches(t, s.mem.image, s.hist) && IsExact(t, s.mem.image, s.hist)
    && s.mem.last == LastSequence(s.hist) && s.mem.time == LastTime(s.hist)
  }

  ghost predicate DiskOk(t: Table, s: State)
    requires s.Open? && |s.mem.image.segments| == |s.hist|
  {
    && Matches(t, s.disk.manifest, s.hist) && SameStates(s.disk.manifest, s.mem.image)
    && FilesOpen(t, s)
  }

  /** The files of a closed table are its history, up to a torn tail of the active one. */
  ghost predicate ClosedOk(t: Table, s: State)
    requires s.Closed?
  {
    && HistFits(t, s.hist)
    && |s.disk.manifest.segments| == |s.hist| && Matches(t, s.disk.manifest, s.hist) && s.disk.installing == None
    && FilesHold(t, Contents(s.disk), s.disk.manifest, s.hist)
    && forall k :: k in s.disk.files ==> s.disk.files[k].pending == [] && s.disk.files[k].linked
  }

  ghost predicate Inv(t: Table, s: State) {
    && TableValid(t) && AckedOk(s)
    && (s.Open? ==> MemoryOk(t, s) && DiskOk(t, s) && PcOk(t, s))
    && (s.Closed? ==> ClosedOk(t, s))
  }

  /** What one step may do to the committed frames: nothing, or add the frame that was in flight. Acknowledgements only
      grow. */
  ghost predicate Effect(s: State, s': State) {
    && (Log(s'.hist) == Log(s.hist) || (Inflight(s).Some? && Log(s'.hist) == Log(s.hist) + [Inflight(s).value]))
    && s.acked <= s'.acked
  }

  // ---- keys ----

  lemma KeysDiffer(t: Table, hist: seq<Seg>, i: nat, j: nat)
    requires HistFits(t, hist) && i < |hist| && j < |hist| && i != j
    ensures SegKey(hist[i]) != SegKey(hist[j])
  {
    hide HistFits;
    if i < j { IdsIncrease(t, hist, i, j); } else { IdsIncrease(t, hist, j, i); }
  }

  lemma RecordKey(t: Table, m: Manifest, hist: seq<Seg>, i: nat)
    requires Matches(t, m, hist) && i < |hist|
    ensures KeyOf(m.segments[i]) == SegKey(hist[i]) && hist[i].id < m.nextId
  {
    hide RetiredPrefix, RetiredEnd, LastSequence, LastTime, SegBytes;
    assert RecordMatches(t, m, hist, i);
  }

  /** Changing one file that belongs to no retained segment keeps the others. */
  lemma OtherFile(t: Table, s: State, s': State, k: Key)
    requires s.Open? && s'.Open? && |s.mem.image.segments| == |s.hist| && FilesOpen(t, s)
    requires s'.hist == s.hist && s'.mem.image == s.mem.image && Inflight(s') == Inflight(s)
    requires forall x :: x != k && x in s.disk.files ==> x in s'.disk.files && s'.disk.files[x] == s.disk.files[x]
    requires forall i :: 0 <= i < |s.hist| && s.mem.image.segments[i].state != Retired ==> SegKey(s.hist[i]) != k
    ensures FilesOpen(t, s')
  {
    hide SegBytes, FrameValid, EncodeFrame;
    forall i | 0 <= i < |s'.hist| && s'.mem.image.segments[i].state != Retired ensures FileOk(t, s', i) {
      assert FileOk(t, s, i);
    }
  }

  lemma NewKey(t: Table, s: State, seg: Seg, i: nat)
    requires s.Open? && Matches(t, s.mem.image, s.hist) && s.mem.image.nextId <= seg.id && i < |s.hist|
    ensures SegKey(s.hist[i]) != SegKey(seg)
  {
    hide Matches;
    RecordKey(t, s.mem.image, s.hist, i);
  }

  // ---- creating a segment ----

  lemma StartCreateKeeps(t: Table, s: State, s': State, seg: Seg)
    requires Inv(t, s) && StartCreate(t, s, s', seg)
    ensures Inv(t, s') && Effect(s, s')
  {
    hide Matches, HistFits, IsExact, FilesOpen, Log, LastSequence, LastTime;
    if s.hist != [] {
      RecordKey(t, s.mem.image, s.hist, |s.hist| - 1);
    }
    AddSegFits(t, s.hist, seg);
    OtherFile(t, s, s', SegKey(seg)) by {
      forall i | 0 <= i < |s.hist| ensures SegKey(s.hist[i]) != SegKey(seg) {
        NewKey(t, s, seg, i);
      }
    }
  }

  /** Writing, syncing or linking the file of the segment under creation. */
  lemma NewFileKeeps(t: Table, s: State, s': State)
    requires Inv(t, s) && s.Open? && s.pc.Creating?
    requires s'.Open? && s' == s.(disk := s.disk.(files := s'.disk.files))
    requires SegKey(s.pc.seg) in s'.disk.files
    requires forall x :: x != SegKey(s.pc.seg) && x in s.disk.files ==>
               x in s'.disk.files && s'.disk.files[x] == s.disk.files[x]
    ensures Inv(t, s') && Effect(s, s')
  {
    hide Matches, HistFits, IsExact, FilesOpen, Log;
    OtherFile(t, s, s', SegKey(s.pc.seg)) by {
      forall i | 0 <= i < |s.hist| ensures SegKey(s.hist[i]) != SegKey(s.pc.seg) {
        NewKey(t, s, s.pc.seg, i);
      }
    }
  }

  lemma RenameRotatedKeeps(t: Table, s: State, s': State)
    requires Inv(t, s) && RenameRotated(t, s, s')
    ensures Inv(t, s') && Effect(s, s')
  {
    hide Matches, HistFits, IsExact, Log, RotateImage, SegBytes, FrameFits, FilesOpen, LastSequence, LastTime;
    var seg := s.pc.seg;
    RotateMatches(t, s.mem.image, s.hist, seg);
    RotateStates(s.mem.image, seg);
    assert seg.(frames := []) == seg;
    SamePending(t, s, s');
  }

  /** Files and in-flight frame unchanged: the files stay as they should be. */
  lemma SamePending(t: Table, s: State, s': State)
    requires s.Open? && s'.Open? && |s.mem.image.segments| == |s.hist| && FilesOpen(t, s)
    requires s'.hist == s.hist && s'.mem.image == s.mem.image && s'.disk.files == s.disk.files
    requires Inflight(s) == Inflight(s') || Inflight(s).None?
    ensures FilesOpen(t, s')
  {
    hide SegBytes, FrameValid, EncodeFrame;
    forall i | 0 <= i < |s'.hist| && s'.mem.image.segments[i].state != Retired ensures FileOk(t, s', i) {
      assert FileOk(t, s, i);
    }
  }

  lemma RenameRewrittenKeeps(t: Table, s: State, s': State, image: Manifest)
    requires Inv(t, s) && RenameRewritten(s, s', image)
    ensures Inv(t, s') && Effect(s, s')
  {
    hide Matches, HistFits, IsExact, Log, RetireImage, FilesOpen, FrameFits;
    SamePending(t, s, s');
    if cutoff :| image == RetireImage(s.mem.image, cutoff) {
      RetireMatches(t, s.mem.image, s.hist, cutoff);
    } else {
      var retention: nat :| retention <= I64_MAX && image == ConfigureImage(s.mem.image, retention);
      ConfigureMatches(t, s.mem.image, s.hist, retention);
    }
  }

  lemma SyncRotatedKeeps(t: Table, s: State, s': State)
    requires Inv(t, s) && SyncManifest(s, s') && s.disk.installing.value.goal.Rotated?
    ensures Inv(t, s') && Effect(s, s')
  {
    hide Matches, HistFits, IsExact, Log, SegBytes, LastSequence, LastTime, FrameFits, EncodeFrame, FrameValid;
    var i := s.disk.installing.value;
    NewSegEnds(t, s.hist, i.goal.seg);
    SameLength(t, i.image, s'.hist);
    forall k | 0 <= k < |s'.hist| && s'.mem.image.segments[k].state != Retired ensures FileOk(t, s', k) {
      if k < |s.hist| { assert FileOk(t, s, k); }
    }
  }

  lemma SyncRewrittenKeeps(t: Table, s: State, s': State)
    requires Inv(t, s) && SyncManifest(s, s') && s.disk.installing.value.goal.Rewritten?
    ensures Inv(t, s') && Effect(s, s')
  {
    hide Matches, HistFits, IsExact, Log, SegBytes, LastSequence, LastTime, FrameFits, EncodeFrame, FrameValid;
    var i := s.disk.installing.value;
    SameLength(t, i.image, s.hist);
    forall k | 0 <= k < |s'.hist| && s'.mem.image.segments[k].state != Retired ensures FileOk(t, s', k) {
      assert FileOk(t, s, k);
    }
  }

  lemma NewSegEnds(t: Table, hist: seq<Seg>, seg: Seg)
    requires HistFits(t, hist + [seg]) && seg.frames == []
    ensures Log(hist + [seg]) == Log(hist)
    ensures LastSequence(hist + [seg]) == LastSequence(hist) && LastTime(hist + [seg]) == LastTime(hist)
  {
    hide HistFits;
    assert (hist + [seg])[..|hist|] == hist;
    assert Log(hist) + [] == Log(hist);
  }

  // ---- appending ----

  lemma WriteChunkKeeps(t: Table, s: State, s': State, n: nat)
    requires Inv(t, s) && WriteChunk(s, s', n)
    ensures Inv(t, s') && Effect(s, s')
  {
    hide Matches, HistFits, IsExact, Log, SegBytes, FrameFits, EncodeFrame, FrameValid;
    var last := |s.hist| - 1;
    forall i | 0 <= i < |s'.hist| && s'.mem.image.segments[i].state != Retired ensures FileOk(t, s', i) {
      assert FileOk(t, s, i);
      if i != last { KeysDiffer(t, s.hist, i, last); }
    }
  }

  lemma ActiveStored(t: Table, s: State)
    requires s.Open? && MemoryOk(t, s) && FilesOpen(t, s) && s.hist != [] && HasActive(s.mem.image)
    ensures FileOk(t, s, |s.hist| - 1)
  {
    hide Matches, HistFits, IsExact, FileOk;
  }

  lemma SyncDataKeeps(t: Table, s: State, s': State)
    requires Inv(t, s) && SyncData(t, s, s')
    ensures Inv(t, s') && Effect(s, s')
  {
    hide Matches, HistFits, IsExact, Log, SegBytes, FrameFits, EncodeFrame, FrameValid, LastSequence, LastTime, Publish;
    var f, last := s.pc.frame, |s.hist| - 1;
    AddFrameFits(t, s.hist, f);
    PublishMatches(t, s.mem.image, s.hist, f);
    ActiveOnDisk(s.disk.manifest, s.mem.image);
    StaleMatches(t, s.disk.manifest, s.hist, f);
    ActiveStored(t, s);
    assert AckedOk(s') by {
      assert f in Log(s.hist) + [f];
    }
    PublishStates(s.mem.image, f);
    forall i | 0 <= i < |s'.hist| && s'.mem.image.segments[i].state != Retired ensures FileOk(t, s', i) {
      assert FileOk(t, s, i);
      if i != last { KeysDiffer(t, s.hist, i, last); }
    }
  }

  lemma ActiveOnDisk(a: Manifest, b: Manifest)
    requires SameStates(a, b) && HasActive(b)
    ensures HasActive(a)
  {
  }

  lemma PublishStates(m: Manifest, f: Frame)
    requires HasActive(m) && FrameValid(f)
    ensures SameStates(m, m.(segments := Published(m, f)))
  {
    hide FrameValid;
  }

  lemma UnlinkKeeps(t: Table, s: State, s': State, i: nat)
    requires Inv(t, s) && Unlink(s, s', i)
    ensures Inv(t, s') && Effect(s, s')
  {
    hide Matches, HistFits, IsExact, Log, FilesOpen, FrameFits;
    RecordKey(t, s.mem.image, s.hist, i);
    if s.disk.installing.Some? && s.disk.installing.value.goal.Rotated? {
      var all := s.hist + [s.disk.installing.value.goal.seg];
      KeysDiffer(t, all, i, |s.hist|);
      assert all[i] == s.hist[i] && SegKey(all[|s.hist|]) != SegKey(s.hist[i]);
    }
    OtherFile(t, s, s', SegKey(s.hist[i])) by {
      forall k | 0 <= k < |s.hist| && s.mem.image.segments[k].state != Retired
        ensures SegKey(s.hist[k]) != SegKey(s.hist[i]) {
        KeysDiffer(t, s.hist, i, k);
      }
    }
  }

  // ---- crash ----

  /** What a crash leaves behind a retained segment: its bytes, and at most a piece of the in-flight frame. */
  ghost predicate Leaves(t: Table, s: State, d': Disk, i: nat, tail: seq<Byte>)
    requires s.Open? && i < |s.hist|
  {
    && SegKey(s.hist[i]) in d'.files && d'.files[SegKey(s.hist[i])].synced == SegBytes(t, s.hist[i]) + tail
    && (tail == [] ||
        (i + 1 == |s.hist| && Inflight(s).Some? && FrameValid(Inflight(s).value)
         && tail <= EncodeFrame(Inflight(s).value)))
  }

  lemma CrashLeaves(t: Table, s: State, d': Disk, i: nat) returns (tail: seq<Byte>)
    requires s.Open? && i < |s.hist| && FileOk(t, s, i) && Survives(s.disk, d')
    ensures Leaves(t, s, d', i, tail)
  {
    hide SegBytes, FrameValid, EncodeFrame;
    var k := SegKey(s.hist[i]);
    assert Kept(s.disk.files[k], d'.files[k]);
    var n: nat :| n <= |s.disk.files[k].pending| && d'.files[k] ==
        File(s.disk.files[k].synced + s.disk.files[k].pending[..n], [], true);
    tail := s.disk.files[k].pending[..n];
  }

  lemma LeavesTorn(t: Table, s: State, d': Disk, i: nat, tail: seq<Byte>)
    requires s.Open? && i < |s.hist| && Leaves(t, s, d', i, tail)
    requires Inflight(s).None? || !FrameValid(Inflight(s).value) || tail != EncodeFrame(Inflight(s).value)
    ensures TornTail(tail)
  {
    hide SegBytes, FrameValid, EncodeFrame;
    if tail == [] {
      EmptyTail();
    } else {
      assert IsTorn(Inflight(s).value, |tail|, tail);
    }
  }

  /** Without an in-flight frame that survives whole, the files hold the history as it was. */
  lemma CrashFilesSame(t: Table, s: State, d': Disk, m: Manifest)
    requires Inv(t, s) && s.Open? && Survives(s.disk, d') && Matches(t, m, s.hist) && |m.segments| == |s.hist|
    requires forall k :: 0 <= k < |s.hist| && m.segments[k].state != Retired ==>
               s.mem.image.segments[k].state != Retired
    requires Inflight(s).Some? ==> SameStates(m, s.mem.image)
    requires HistAfter(t, s, d') == s.hist
    requires s.disk.installing.Some? ==> Inflight(s).None?
    ensures FilesHold(t, Contents(d'), m, s.hist)
  {
    hide Matches, HistFits, IsExact, Log, SegBytes, FrameFits, EncodeFrame, FrameValid, Survives;
    forall i | 0 <= i < |s.hist| && m.segments[i].state != Retired
      ensures FileHolds(t, Contents(d'), m.segments[i], s.hist[i]) {
      assert FileOk(t, s, i);
      var tail := CrashLeaves(t, s, d', i);
      RecordKey(t, m, s.hist, i);
      NotWhole(t, s, d', i, tail);
      LeavesTorn(t, s, d', i, tail);
      if tail != [] {
        assert m.segments[i].state == Active;
      }
    }
  }

  lemma NotWhole(t: Table, s: State, d': Disk, i: nat, tail: seq<Byte>)
    requires s.Open? && i < |s.hist| && Leaves(t, s, d', i, tail) && HistAfter(t, s, d') == s.hist
    requires s.disk.installing.Some? ==> Inflight(s).None?
    ensures Inflight(s).None? || !FrameValid(Inflight(s).value) || tail != EncodeFrame(Inflight(s).value)
  {
    hide SegBytes, FrameValid;
    if Inflight(s).Some? && FrameValid(Inflight(s).value) && tail == EncodeFrame(Inflight(s).value) {
      EncodeLength(Inflight(s).value);
      AddFrameDiffers(s.hist, Inflight(s).value);
    }
  }

  lemma AddFrameDiffers(hist: seq<Seg>, f: Frame)
    requires hist != []
    ensures AddFrame(hist, f) != hist
  {
    assert |AddFrame(hist, f)[|hist| - 1].frames| == |hist[|hist| - 1].frames| + 1;
  }

  /** A crash while a manifest is being installed that lists a new segment, and the manifest survives. */
  lemma CrashRotated(t: Table, s: State, s': State)
    requires Inv(t, s) && Crash(t, s, s')
    requires s.disk.installing.Some? && s.disk.installing.value.goal.Rotated?
             && s'.disk.manifest == s.disk.installing.value.image
    ensures Inv(t, s') && Effect(s, s')
  {
    hide Matches, HistFits, IsExact, Log, SegBytes, FrameFits, EncodeFrame, FrameValid, LastSequence, LastTime;
    var i := s.disk.installing.value;
    var m, hist' := i.image, s.hist + [i.goal.seg];
    NewSegEnds(t, s.hist, i.goal.seg);
    SameLength(t, m, hist');
    EmptyTail();
    forall k | 0 <= k < |hist'| && m.segments[k].state != Retired
      ensures FileHolds(t, Contents(s'.disk), m.segments[k], hist'[k]) {
      RecordKey(t, m, hist', k);
      if k < |s.hist| {
        assert FileOk(t, s, k);
        var tail := CrashLeaves(t, s, s'.disk, k);
        assert s'.disk.files[SegKey(hist'[k])].synced == SegBytes(t, hist'[k]) + [];
      } else {
        assert Kept(s.disk.files[SegKey(i.goal.seg)], s'.disk.files[SegKey(i.goal.seg)]);
        assert s'.disk.files[SegKey(hist'[k])].synced == SegBytes(t, hist'[k]) + [];
      }
    }
  }

  /** A crash that leaves the history as it was. */
  lemma CrashSame(t: Table, s: State, s': State)
    requires Inv(t, s) && Crash(t, s, s') && s'.hist == s.hist
    requires !(s.disk.installing.Some? && s.disk.installing.value.goal.Rotated?
               && s'.disk.manifest == s.disk.installing.value.image)
    ensures Inv(t, s') && Effect(s, s')
  {
    hide Matches, HistFits, IsExact, Log, SegBytes, FrameFits, EncodeFrame, FrameValid, LastSequence, LastTime,
         FilesOpen, FilesHold, HistAfter;
    var m := s'.disk.manifest;
    SameLength(t, s.disk.manifest, s.hist);
    if s.disk.installing.Some? && s.disk.installing.value.goal.Rewritten? {
      SameLength(t, s.disk.installing.value.image, s.hist);
    }
    CrashFilesSame(t, s, s'.disk, m);
  }

  /** A crash after which the in-flight frame turns out to be complete. */
  lemma CrashWhole(t: Table, s: State, s': State)
    requires Inv(t, s) && Crash(t, s, s') && s'.hist != s.hist
    requires !(s.disk.installing.Some? && s.disk.installing.value.goal.Rotated?
               && s'.disk.manifest == s.disk.installing.value.image)
    ensures Inv(t, s') && Effect(s, s')
  {
    hide Matches, HistFits, IsExact, Log, SegBytes, FrameFits, EncodeFrame, FrameValid, LastSequence, LastTime, Publish;
    var f, last, m := Inflight(s).value, |s.hist| - 1, s.disk.manifest;
    assert s'.hist == AddFrame(s.hist, f) && s'.disk.manifest == m;
    SameLength(t, m, s.hist);
    AddFrameFits(t, s.hist, f);
    PublishMatches(t, s.mem.image, s.hist, f);
    ActiveOnDisk(m, s.mem.image);
    StaleMatches(t, m, s.hist, f);
    EmptyTail();
    forall k | 0 <= k < |s'.hist| && m.segments[k].state != Retired
      ensures FileHolds(t, Contents(s'.disk), m.segments[k], s'.hist[k]) {
      RecordKey(t, m, s.hist, k);
      if k < last {
        assert FileOk(t, s, k);
        var tail := CrashLeaves(t, s, s'.disk, k);
      }
      assert s'.disk.files[SegKey(s.hist[k])].synced == SegBytes(t, s'.hist[k]) + [];
    }
    AckedStay(s, s');
  }

  lemma AckedStay(s: State, s': State)
    requires AckedOk(s) && Log(s.hist) <= Log(s'.hist) && s'.acked == s.acked
    ensures AckedOk(s')
  {
    hide Log;
    forall k | 0 <= k < |s'.acked| ensures s'.acked[k] in Log(s'.hist) {
      var j :| 0 <= j < |Log(s.hist)| && Log(s.hist)[j] == s.acked[k];
      assert Log(s'.hist)[j] == s.acked[k];
    }
  }

  lemma CrashKeeps(t: Table, s: State, s': State)
    requires Inv(t, s) && Crash(t, s, s')
    ensures Inv(t, s') && Effect(s, s')
  {
    hide Inv, Effect, Crash;
    if s.disk.installing.Some? && s.disk.installing.value.goal.Rotated?
    && s'.disk.manifest == s.disk.installing.value.image {
      CrashRotated(t, s, s');
    } else if s'.hist == s.hist {
      CrashSame(t, s, s');
    } else {
      CrashWhole(t, s, s');
    }
  }

  // ---- while closed ----

  lemma TornPrefix(tail: seq<Byte>, n: nat)
    requires TornTail(tail) && n <= |tail|
    ensures TornTail(tail[..n])
  {
    hide FrameValid, EncodeFrame;
    var f, k :| IsTorn(f, k, tail);
    assert tail[..n] == EncodeFrame(f)[..n];
    assert IsTorn(f, n, tail[..n]);
  }

  lemma TruncateKeeps(t: Table, s: State, s': State, n: nat)
    requires Inv(t, s) && Truncate(t, s, s', n)
    ensures Inv(t, s') && Effect(s, s')
  {
    hide Matches, HistFits, Log, SegBytes, TornTail;
    var last, m := |s.hist| - 1, s.disk.manifest;
    forall k | 0 <= k < |s'.hist| && m.segments[k].state != Retired
      ensures FileHolds(t, Contents(s'.disk), m.segments[k], s'.hist[k]) {
      assert FileHolds(t, Contents(s.disk), m.segments[k], s.hist[k]);
      RecordKey(t, m, s.hist, k);
      var tail :| TornTail(tail) && (m.segments[k].state != Active ==> tail == [])
          && Contents(s.disk)[KeyOf(m.segments[k])] == SegBytes(t, s.hist[k]) + tail;
      if k == last {
        var b := SegBytes(t, s.hist[k]);
        TornPrefix(tail, n - |b|);
        assert (b + tail)[..n] == b + tail[..n - |b|];
      } else {
        KeysDiffer(t, s.hist, k, last);
      }
    }
  }

  lemma ExactMatches(t: Table, m: Manifest, hist: seq<Seg>)
    requires Matches(t, m, hist) && |m.segments| == |hist|
    ensures var r := m.(segments := Exact(t, m.segments, hist));
            Matches(t, r, hist) && IsExact(t, r, hist) && SameStates(m, r)
  {
    hide SegBytes, LastSequence, LastTime;
    var r := m.(segments := Exact(t, m.segments, hist));
    forall i | 0 <= i < |hist| ensures RecordMatches(t, r, hist, i) {
      assert RecordMatches(t, m, hist, i);
      ExactDescribes(t, r.segments[i], hist[i]);
    }
    EndByStates(m.segments, r.segments);
  }

  lemma ExactRecord(t: Table, s: Seg, state: SegState)
    ensures var m := MetaOf(t, s, state);
            KeyOf(m) == SegKey(s) && m.state == state && m.bytes == |SegBytes(t, s)|
  {
    hide SegBytes;
  }

  lemma RestartFile(t: Table, s: State, image: Manifest, i: nat)
    requires Inv(t, s) && s.Closed? && i < |s.hist| && |image.segments| == |s.hist|
    requires IsExact(t, image, s.hist) && SameStates(s.disk.manifest, image) && image.segments[i].state != Retired
    ensures var files := CutActive(s.disk, image);
            && SegKey(s.hist[i]) in files
            && files[SegKey(s.hist[i])] == File(SegBytes(t, s.hist[i]), [], true)
  {
    hide Matches, HistFits, Log, SegBytes, TornTail, MetaOf;
    var m, last := s.disk.manifest, |s.hist| - 1;
    assert FileHolds(t, Contents(s.disk), m.segments[i], s.hist[i]);
    RecordKey(t, m, s.hist, i);
    ExactRecord(t, s.hist[i], image.segments[i].state);
    ExactRecord(t, s.hist[last], image.segments[last].state);
    var b := SegBytes(t, s.hist[i]);
    var tail :| TornTail(tail) && (m.segments[i].state != Active ==> tail == [])
        && Contents(s.disk)[KeyOf(m.segments[i])] == b + tail;
    if i == last {
      assert tail == [] ==> b + tail == b;
      assert (b + tail)[..|b|] == b;
    } else {
      KeysDiffer(t, s.hist, i, last);
      ActiveIsLast(t, m, s.hist, i);
      assert b + [] == b;
    }
  }

  lemma ActiveIsLast(t: Table, m: Manifest, hist: seq<Seg>, i: nat)
    requires Matches(t, m, hist) && i + 1 < |hist|
    ensures m.segments[i].state != Active
  {
    hide RetiredPrefix, RetiredEnd, SegBytes;
    assert RecordMatches(t, m, hist, i);
  }

  lemma RestartKeeps(t: Table, s: State, s': State, indexed: set<U64>)
    requires Inv(t, s) && Restart(t, s, s', indexed)
    ensures Inv(t, s') && Effect(s, s')
  {
    hide Matches, HistFits, Log, SegBytes, Recover, Blocked, Exact, FilesHold, CutActive, LastSequence, LastTime;
    var m := s.disk.manifest;
    RecoveryIff(t, m, s.hist, Contents(s.disk), indexed);
    ExactMatches(t, m, s.hist);
    forall i | 0 <= i < |s'.hist| && s'.mem.image.segments[i].state != Retired ensures FileOk(t, s', i) {
      RestartFile(t, s, s'.mem.image, i);
    }
  }
}
