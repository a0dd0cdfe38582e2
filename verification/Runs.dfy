/** Whole runs of the durability protocol, any number of commits, rotations,
    retention runs, failures, crashes and restarts long. */
module Runs {
  import opened Bytes
  import opened Frames
  import opened Logs
  import opened Segments
  import opened History
  import opened Recovery
  import opened Reopen
  import opened Durability
  import opened Images
  import opened CrashSafety
  import Manifests

  // ---- every step keeps the invariant ----

  lemma StepKeeps(t: Table, s: State, s': State, step: Step)
    requires Inv(t, s) && Moves(t, s, s', step)
    ensures Inv(t, s') && Effect(s, s')
  {
    hide Inv, Effect, Crash, Restart, Truncate, SyncData, Unlink, RenameRewritten, RenameRotated, StartCreate,
         StartAppend, WriteChunk, WriteNewFile, SyncNewFile, LinkNewFile, SyncManifest, FailCreate, FailManifest,
         FailAppend;
    match step
    case StepStartCreate(seg) => StartCreateKeeps(t, s, s', seg);
    case StepWriteNewFile(n) => HeaderKeeps(t, s, s', n);
    case StepSyncNewFile => HeaderKeeps(t, s, s', 0);
    case StepLinkNewFile => HeaderKeeps(t, s, s', 0);
    case StepRenameRotated => RenameRotatedKeeps(t, s, s');
    case StepRenameRewritten(image) => RenameRewrittenKeeps(t, s, s', image);
    case StepSyncManifest => SyncManifestKeeps(t, s, s');
    case StepFailCreate => PcOnlyKeeps(t, s, s');
    case StepFailManifest => PcOnlyKeeps(t, s, s');
    case StepStartAppend(f) => StartAppendKeeps(t, s, s', f);
    case StepWriteChunk(n) => WriteChunkKeeps(t, s, s', n);
    case StepSyncData => SyncDataKeeps(t, s, s');
    case StepFailAppend => PcOnlyKeeps(t, s, s');
    case StepUnlink(i) => UnlinkKeeps(t, s, s', i);
    case StepCrash => CrashKeeps(t, s, s');
    case StepTruncate(n) => TruncateKeeps(t, s, s', n);
    case StepRestart(indexed) => RestartKeeps(t, s, s', indexed);
  }

  lemma HeaderKeeps(t: Table, s: State, s': State, n: nat)
    requires Inv(t, s) && (WriteNewFile(t, s, s', n) || SyncNewFile(t, s, s') || LinkNewFile(s, s'))
    ensures Inv(t, s') && Effect(s, s')
  {
    hide Inv, Effect, HeaderBytesOf;
    NewFileKeeps(t, s, s');
  }

  lemma SyncManifestKeeps(t: Table, s: State, s': State)
    requires Inv(t, s) && SyncManifest(s, s')
    ensures Inv(t, s') && Effect(s, s')
  {
    hide Inv, Effect;
    if s.disk.installing.value.goal.Rotated? {
      SyncRotatedKeeps(t, s, s');
    } else {
      SyncRewrittenKeeps(t, s, s');
    }
  }

  /** Steps that only move the writer: failures. */
  lemma PcOnlyKeeps(t: Table, s: State, s': State)
    requires Inv(t, s) && (FailCreate(s, s') || FailManifest(s, s') || FailAppend(s, s'))
    ensures Inv(t, s') && Effect(s, s')
  {
    hide Matches, HistFits, IsExact, Log, SegBytes, FrameFits, EncodeFrame, FilesOpen;
    SamePending(t, s, s');
  }

  lemma StartAppendKeeps(t: Table, s: State, s': State, f: Frame)
    requires Inv(t, s) && StartAppend(t, s, s', f)
    ensures Inv(t, s') && Effect(s, s')
  {
    hide Matches, HistFits, IsExact, Log, SegBytes, FrameFits, EncodeFrame, FrameValid, FilesOpen;
    SamePending(t, s, s');
  }

  lemma InitialKeeps(t: Table, s: State)
    requires TableValid(t) && Initial(s)
    ensures Inv(t, s)
  {
  }

  // ---- what readers see ----

  /** The frames in the committed part of a segment's file. */
  ghost function StoredFrames(files: Files, m: Meta): seq<Frame> {
    if KeyOf(m) in files && 128 <= m.bytes <= |files[KeyOf(m)]| then ReadLog(files[KeyOf(m)][128..m.bytes]).frames
    else []
  }

  /** The frames a full scan of the retained segments reads. */
  ghost function Visible(files: Files, metas: seq<Meta>): seq<Frame> {
    if metas == [] then []
    else
      var n := |metas| - 1;
      Visible(files, metas[..n]) + if metas[n].state == Retired then [] else StoredFrames(files, metas[n])
  }

  lemma StoredIsSegment(t: Table, files: Files, s: Seg, state: SegState, last: int, time: int)
    requires TableValid(t) && SegFits(t, s, last, time)
    requires SegKey(s) in files && files[SegKey(s)] == SegBytes(t, s)
    ensures StoredFrames(files, MetaOf(t, s, state)) == s.frames
  {
    hide FramesFit, FrameValid, LogBytes, ReadLog, SegBytes, DecodeSegment, MetaOf, TornTail;
    ExactRecord(t, s, state);
    SegWritable(t, s, last, time);
    SegParts(t, s, []);
    assert SegBytes(t, s) + [] == SegBytes(t, s);
    EmptyTail();
    ReadWritten(s.frames, []);
    assert LogBytes(s.frames) + [] == LogBytes(s.frames);
    var b := SegBytes(t, s);
    assert b[128..|b|] == b[128..];
  }

  lemma {:induction false} VisibleAfter(files: Files, metas: seq<Meta>, hist: seq<Seg>, c: nat, n: nat)
    requires |metas| == |hist| && n <= |hist| && c <= |hist|
    requires forall i :: 0 <= i < |hist| && metas[i].state != Retired ==>
               StoredFrames(files, metas[i]) == hist[i].frames
    requires forall i :: 0 <= i < c ==> metas[i].state == Retired || hist[i].frames == []
    requires forall i :: c <= i < |hist| ==> metas[i].state != Retired
    ensures var v := Visible(files, metas[..n]);
            if n <= c then v == [] else Log(hist[..n]) == Log(hist[..c]) + v
  {
    hide StoredFrames;
    if n > 0 {
      VisibleAfter(files, metas, hist, c, n - 1);
      assert metas[..n][..n - 1] == metas[..n - 1];
      assert hist[..n][..n - 1] == hist[..n - 1];
      if n == c + 1 {
        assert Log(hist[..c]) + [] == Log(hist[..c]);
      }
    }
  }

  /** Up to the retired end nothing is visible; from there on everything is. */
  lemma {:induction false} VisiblePrefix(t: Table, s: State, n: nat)
    requires Inv(t, s) && s.Open? && n <= |s.hist|
    ensures var c := RetiredEnd(s.mem.image.segments);
            var v := Visible(Contents(s.disk), s.mem.image.segments[..n]);
            if n <= c then v == [] else Log(s.hist[..n]) == Log(s.hist[..c]) + v
  {
    hide HistFits, IsExact, RecordMatches, RetiredPrefix, RetiredEnd, DiskOk, PcOk, LastSequence, LastTime,
         StoredFrames, Contents, Visible, Log;
    var files, metas, hist, c := Contents(s.disk), s.mem.image.segments, s.hist, RetiredEnd(s.mem.image.segments);
    forall i | 0 <= i < |hist| && metas[i].state != Retired ensures StoredFrames(files, metas[i]) == hist[i].frames {
      VisibleRecord(t, s, i);
    }
    forall i | 0 <= i < c ensures metas[i].state == Retired || hist[i].frames == [] {
      RetiredOrEmpty(t, s, i);
    }
    VisibleAfter(files, metas, hist, c, n);
  }

  lemma VisibleRecord(t: Table, s: State, i: nat)
    requires Inv(t, s) && s.Open? && i < |s.hist| && s.mem.image.segments[i].state != Retired
    ensures StoredFrames(Contents(s.disk), s.mem.image.segments[i]) == s.hist[i].frames
  {
    hide HistFits, SegBytes, Matches, MetaOf, SegFits, StoredFrames, LastSequence, LastTime;
    FitsAt(t, s.hist, i);
    assert FileOk(t, s, i);
    StoredIsSegment(t, Contents(s.disk), s.hist[i], s.mem.image.segments[i].state, LastSequence(s.hist[..i]),
                    LastTime(s.hist[..i]));
  }

  lemma RetiredOrEmpty(t: Table, s: State, i: nat)
    requires Inv(t, s) && s.Open? && i < RetiredEnd(s.mem.image.segments)
    ensures s.mem.image.segments[i].state == Retired || s.hist[i].frames == []
  {
    hide HistFits, IsExact, RecordMatches, DiskOk, PcOk;
  }

  /** The rows of a frame of the history stand at their sequence numbers. */
  lemma RowsAt(t: Table, hist: seq<Seg>, f: Frame)
    requires HistFits(t, hist) && f in Log(hist) && f.rowCount > 0
    ensures 1 <= f.firstSequence && f.firstSequence - 1 + f.rowCount <= |Rows(Log(hist))|
    ensures Rows(Log(hist))[f.firstSequence - 1..f.firstSequence - 1 + f.rowCount] == FrameRows(f)
  {
    hide HistFits, Log;
    RowsNumbered(t, hist);
    var log := Log(hist);
    var k :| 0 <= k < |log| && log[k] == f;
    RowsSplit(log, k);
    var n := |Rows(log[..k])|;
    assert Rows(log)[n..n + f.rowCount] == FrameRows(f);
    assert Rows(log)[n] == FrameRows(f)[0];
  }

  lemma RowsSplit(log: seq<Frame>, k: nat)
    requires k < |log|
    ensures Rows(log) == Rows(log[..k]) + FrameRows(log[k]) + Rows(log[k + 1..])
  {
    hide FrameRows, Rows;
    RowsOn(log, k);
    assert log == log[..k + 1] + log[k + 1..];
    RowsConcat(log[..k + 1], log[k + 1..]);
  }

  lemma RowsOn(log: seq<Frame>, k: nat)
    requires k < |log|
    ensures Rows(log[..k + 1]) == Rows(log[..k]) + FrameRows(log[k])
  {
    hide FrameRows;
    assert log[..k + 1][..k] == log[..k];
  }

  /** An open table shows exactly the rows of its history beyond the retired ones, in order, none missing, none
      twice. */
  lemma VisibleRows(t: Table, s: State)
    requires Inv(t, s) && s.Open?
    ensures var all := Rows(Log(s.hist));
            && 0 <= s.mem.image.preservedSequence <= |all| == s.mem.last
            && Rows(Visible(Contents(s.disk), s.mem.image.segments)) == all[s.mem.image.preservedSequence..]
  {
    hide HistFits, SegBytes, FilesOpen, IsExact, RecordMatches, Visible, Rows, Log, DiskOk, PcOk;
    var m, hist, c := s.mem.image, s.hist, RetiredEnd(s.mem.image.segments);
    VisiblePrefix(t, s, |hist|);
    assert m.segments[..|hist|] == m.segments && hist[..|hist|] == hist;
    var v := Visible(Contents(s.disk), m.segments);
    RowsNumbered(t, hist);
    LogRows(hist[..c]);
    RowsLength(Log(hist[..c]));
    if |hist| <= c {
      assert hist[..c] == hist;
      NoRows();
    } else {
      RowsConcat(Log(hist[..c]), v);
    }
  }

  lemma NoRows()
    ensures Rows([]) == []
  {
  }

  // ---- runs ----

  ghost predicate IsPath(t: Table, states: seq<State>, steps: seq<Step>) {
    && |states| == |steps| + 1
    && forall i :: 0 <= i < |steps| ==> Moves(t, states[i], states[i + 1], steps[i])
  }

  ghost predicate IsRun(t: Table, states: seq<State>, steps: seq<Step>) {
    IsPath(t, states, steps) && Initial(states[0])
  }

  lemma {:induction false} RunKeeps(t: Table, states: seq<State>, steps: seq<Step>, i: nat)
    requires TableValid(t) && IsRun(t, states, steps) && i < |states|
    ensures Inv(t, states[i])
  {
    hide Inv, Moves, Initial;
    if i == 0 {
      InitialKeeps(t, states[0]);
    } else {
      RunKeeps(t, states, steps, i - 1);
      assert Moves(t, states[i - 1], states[i - 1 + 1], steps[i - 1]);
      StepKeeps(t, states[i - 1], states[i], steps[i - 1]);
    }
  }

  /** Committed frames stay committed, in place, and so do acknowledgements. */
  lemma {:induction false} RunGrows(t: Table, states: seq<State>, steps: seq<Step>, i: nat, j: nat)
    requires TableValid(t) && IsRun(t, states, steps) && i <= j < |states|
    ensures Log(states[i].hist) <= Log(states[j].hist) && states[i].acked <= states[j].acked
    decreases j
  {
    hide Inv, Moves, Initial, Log;
    if i < j {
      RunGrows(t, states, steps, i, j - 1);
      RunKeeps(t, states, steps, j - 1);
      assert Moves(t, states[j - 1], states[j - 1 + 1], steps[j - 1]);
      StepKeeps(t, states[j - 1], states[j], steps[j - 1]);
    }
  }

  // ---- exactly which frames are committed ----

  /** The frame in flight, if a crash left the whole of it behind the synced bytes of the active file. */
  ghost function Rescued(s: State, d': Disk): seq<Frame> {
    var f := Inflight(s);
    if f.Some? && FrameValid(f.value) && s.mem.image.segments != []
    && Whole(s.disk, d', KeyOf(LastMeta(s.mem.image)), f.value)
    then [f.value] else []
  }

  ghost predicate Whole(d: Disk, d': Disk, k: Key, f: Frame)
    requires FrameValid(f)
  {
    k in d.files && k in d'.files && d'.files[k].synced == d.files[k].synced + EncodeFrame(f)
  }

  /** The frame that a step acknowledges: the one whose sync succeeds. */
  function Acks(s: State, step: Step): seq<Frame> {
    if step.StepSyncData? && s.Open? && s.pc.Appending? then [s.pc.frame] else []
  }

  /** The frames that a step commits: what it acknowledges, and what a crash rescues. */
  ghost function Gains(s: State, s': State, step: Step): seq<Frame> {
    if step.StepCrash? then Rescued(s, s'.disk) else Acks(s, step)
  }

  /** The frames acknowledged in the first i steps, in order. */
  function Acknowledged(states: seq<State>, steps: seq<Step>, i: nat): seq<Frame>
    requires |states| == |steps| + 1 && i < |states|
  {
    if i == 0 then [] else Acknowledged(states, steps, i - 1) + Acks(states[i - 1], steps[i - 1])
  }

  /** The frames whose sync succeeded in the first i steps and those that a crash rescued, in order. */
  ghost function Survivors(states: seq<State>, steps: seq<Step>, i: nat): seq<Frame>
    requires |states| == |steps| + 1 && i < |states|
  {
    if i == 0 then [] else Survivors(states, steps, i - 1) + Gains(states[i - 1], states[i], steps[i - 1])
  }

  lemma {:induction false} LogLonger(hist: seq<Seg>, seg: Seg)
    requires seg.frames == []
    ensures Log(hist + [seg]) == Log(hist)
  {
    assert (hist + [seg])[..|hist|] == hist;
  }

  lemma {:induction false} LogFrame(hist: seq<Seg>, f: Frame)
    requires hist != []
    ensures Log(AddFrame(hist, f)) == Log(hist) + [f]
  {
    var more, n := AddFrame(hist, f), |hist| - 1;
    assert more[..n] == hist[..n];
    assert Log(hist[..n]) + (hist[n].frames + [f]) == (Log(hist[..n]) + hist[n].frames) + [f];
  }

  lemma {:induction false} CrashExact(t: Table, s: State, s': State)
    requires Inv(t, s) && Crash(t, s, s')
    ensures Log(s'.hist) == Log(s.hist) + Rescued(s, s'.disk)
  {
    hide Matches, HistFits, IsExact, Log, SegBytes, FrameFits, EncodeFrame, FrameValid, FilesOpen, Survives;
    var f := Inflight(s);
    if f.None? {
      if s.disk.installing.Some? && s.disk.installing.value.goal.Rotated? {
        LogLonger(s.hist, s.disk.installing.value.goal.seg);
      }
      assert Log(s.hist) + [] == Log(s.hist);
    } else {
      FitsFrame(t, s, f.value);
      ActiveStored(t, s);
      RecordKey(t, s.mem.image, s.hist, |s.hist| - 1);
      LogFrame(s.hist, f.value);
      assert Log(s.hist) + [] == Log(s.hist);
    }
  }

  lemma {:induction false} FitsFrame(t: Table, s: State, f: Frame)
    requires s.Open? && InflightOk(t, s, f)
    ensures FrameValid(f)
  {
    hide FrameValid;
  }

  lemma {:induction false} SyncManifestExact(t: Table, s: State, s': State)
    requires Inv(t, s) && SyncManifest(s, s')
    ensures Log(s'.hist) == Log(s.hist) && s'.acked == s.acked
  {
    hide Matches, HistFits, IsExact, Log, SegBytes, FilesOpen;
    if s.disk.installing.value.goal.Rotated? { LogLonger(s.hist, s.disk.installing.value.goal.seg); }
  }

  lemma {:induction false} SyncDataExact(t: Table, s: State, s': State)
    requires SyncData(t, s, s')
    ensures Log(s'.hist) == Log(s.hist) + [s.pc.frame] && s'.acked == s.acked + [s.pc.frame]
  {
    hide Log, SegBytes, EncodeFrame, FrameValid;
    LogFrame(s.hist, s.pc.frame);
  }

  /** Every step commits exactly what it gains and acknowledges exactly what it acks. */
  lemma {:induction false} StepExact(t: Table, s: State, s': State, step: Step)
    requires Inv(t, s) && Moves(t, s, s', step)
    ensures Log(s'.hist) == Log(s.hist) + Gains(s, s', step) && s'.acked == s.acked + Acks(s, step)
  {
    hide Inv, Log, Rescued, SegBytes, EncodeFrame, FrameValid, FrameFits, Recover, CutActive;
    if step == StepCrash {
      CrashExact(t, s, s');
    } else if step == StepSyncData {
      SyncDataExact(t, s, s');
    } else if step == StepSyncManifest {
      SyncManifestExact(t, s, s');
    } else {
      QuietStep(t, s, s', step);
      assert Log(s.hist) + [] == Log(s.hist) && s.acked + [] == s.acked;
    }
    assert s.acked + [] == s.acked;
  }

  lemma {:induction false} QuietStep(t: Table, s: State, s': State, step: Step)
    requires Moves(t, s, s', step) && step != StepCrash && step != StepSyncData && step != StepSyncManifest
    ensures s'.hist == s.hist && s'.acked == s.acked
  {
    hide SegBytes, EncodeFrame, FrameValid, FrameFits, Recover, CutActive, HeaderBytesOf, RotateImage, RetireImage;
  }

  /** At every moment of every run the committed log is exactly the frames that were acknowledged and those that a crash
      rescued, in order, and nothing else is acknowledged. */
  lemma {:induction false} LogIs(t: Table, states: seq<State>, steps: seq<Step>, i: nat)
    requires TableValid(t) && IsRun(t, states, steps) && i < |states|
    ensures Log(states[i].hist) == Survivors(states, steps, i) && states[i].acked == Acknowledged(states, steps, i)
  {
    hide Inv, Moves, Log, Gains, Acks, Initial;
    if i == 0 {
      StartsEmpty(states[0]);
    } else {
      LogIs(t, states, steps, i - 1);
      RunKeeps(t, states, steps, i - 1);
      assert Moves(t, states[i - 1], states[i - 1 + 1], steps[i - 1]);
      StepExact(t, states[i - 1], states[i], steps[i - 1]);
    }
  }

  lemma {:induction false} StartsEmpty(s: State)
    requires Initial(s)
    ensures Log(s.hist) == [] && s.acked == []
  {
  }

  /** Between crashes the log grows by exactly what is acknowledged. */
  lemma {:induction false} CalmGrowth(t: Table, states: seq<State>, steps: seq<Step>, i: nat, j: nat)
    requires TableValid(t) && IsRun(t, states, steps) && i <= j < |states|
    requires forall k :: i <= k < j ==> steps[k] != StepCrash
    ensures states[i].acked <= states[j].acked
    ensures Log(states[j].hist) == Log(states[i].hist) + states[j].acked[|states[i].acked|..]
    decreases j
  {
    hide Inv, Moves, Log, Initial, Acks;
    if i < j {
      CalmGrowth(t, states, steps, i, j - 1);
      RunKeeps(t, states, steps, j - 1);
      assert Moves(t, states[j - 1], states[j - 1 + 1], steps[j - 1]);
      StepExact(t, states[j - 1], states[j], steps[j - 1]);
      var a, b, x := states[i].acked, states[j - 1].acked, Acks(states[j - 1], steps[j - 1]);
      assert (b + x)[|a|..] == b[|a|..] + x;
      assert (Log(states[i].hist) + b[|a|..]) + x == Log(states[i].hist) + (b[|a|..] + x);
    } else {
      assert Log(states[i].hist) + [] == Log(states[i].hist);
    }
  }

  lemma InvRows(t: Table, s: State)
    requires Inv(t, s)
    ensures HistFits(t, s.hist)
    ensures forall k :: 0 <= k < |s.acked| ==> s.acked[k] in Log(s.hist)
  {
    hide HistFits, Matches, DiskOk, PcOk, FilesHold, IsExact;
  }

  lemma {:induction false} LogFrameValid(t: Table, hist: seq<Seg>, f: Frame)
    requires HistFits(t, hist) && f in Log(hist)
    ensures FrameValid(f)
  {
    hide FrameValid;
    var front, s := hist[..|hist| - 1], hist[|hist| - 1];
    if f in Log(front) {
      LogFrameValid(t, front, f);
    } else {
      FramesFitValid(t, s.day, s.frames, LastSequence(front), LastTime(front));
    }
  }

  /** The rows acknowledged for frame f are in the table's history, whole, at the sequence numbers of the receipt. */
  ghost predicate Holds(all: seq<Row>, f: Frame) {
    && 1 <= f.firstSequence && f.firstSequence - 1 + f.rowCount <= |all|
    && all[f.firstSequence - 1..f.firstSequence - 1 + f.rowCount] == FrameRows(f)
  }

  /** Crash safety. At every moment of every run: the committed frames are exactly those that were acknowledged and
      those that a crash rescued whole, in order; their rows are numbered 1, 2, 3 and so on; every acknowledged frame is
      among them at its sequence numbers; and an open table, freshly restarted or not, shows exactly the committed rows
      beyond the retention watermark, in order. */
  lemma CrashSafe(t: Table, states: seq<State>, steps: seq<Step>, i: nat)
    requires TableValid(t) && IsRun(t, states, steps) && i < |states|
    ensures var s, all := states[i], Rows(Log(states[i].hist));
            && Log(s.hist) == Survivors(states, steps, i) && s.acked == Acknowledged(states, steps, i)
            && (forall k :: 0 <= k < |all| ==> all[k].sequence == k + 1)
            && (forall k :: 0 <= k < |s.acked| ==> Holds(all, s.acked[k]))
            && (s.Open? ==>
                  && 0 <= s.mem.image.preservedSequence <= |all| == s.mem.last
                  && Rows(Visible(Contents(s.disk), s.mem.image.segments)) == all[s.mem.image.preservedSequence..])
  {
    hide Inv, Log, Rows, HistFits, Visible, FrameRows, Survivors, Acknowledged;
    var s := states[i];
    LogIs(t, states, steps, i);
    RunKeeps(t, states, steps, i);
    InvRows(t, s);
    RowsNumbered(t, s.hist);
    forall k | 0 <= k < |s.acked| ensures Holds(Rows(Log(s.hist)), s.acked[k]) {
      AckedHeld(t, s.hist, s.acked[k]);
    }
    if s.Open? {
      VisibleRows(t, s);
    }
  }

  lemma AckedHeld(t: Table, hist: seq<Seg>, f: Frame)
    requires HistFits(t, hist) && f in Log(hist)
    ensures Holds(Rows(Log(hist)), f)
  {
    hide HistFits, Log, Rows, FrameRows, ContentValid, RowBytes;
    LogFrameValid(t, hist, f);
    RowsAt(t, hist, f);
  }

  /** What a crash does: nothing is lost, and what appears is nothing or the whole in-flight frame. */
  lemma CrashLosesNothing(t: Table, states: seq<State>, steps: seq<Step>, i: nat)
    requires TableValid(t) && IsRun(t, states, steps) && i < |steps| && steps[i] == StepCrash
    ensures var s, s' := states[i], states[i + 1];
            Log(s'.hist) == Log(s.hist) || (Inflight(s).Some? && Log(s'.hist) == Log(s.hist) + [Inflight(s).value])
  {
    hide Inv, Moves, Initial, Log;
    RunKeeps(t, states, steps, i);
    assert Moves(t, states[i], states[i + 1], steps[i]);
    StepKeeps(t, states[i], states[i + 1], steps[i]);
  }

  /** A closed table can be restarted exactly when its manifest lists no empty, unretired segment before a retired
      one. */
  lemma RestartIff(t: Table, states: seq<State>, steps: seq<Step>, i: nat, indexed: set<U64>)
    requires TableValid(t) && IsRun(t, states, steps) && i < |states| && states[i].Closed?
    ensures (exists s' :: Restart(t, states[i], s', indexed)) <==> !Blocked(states[i].disk.manifest)
  {
    hide Moves, Initial, Log, HistFits, Matches, FilesHold, Blocked, Recover, CutActive, Exact;
    var s := states[i];
    RunKeeps(t, states, steps, i);
    RecoveryIff(t, s.disk.manifest, s.hist, Contents(s.disk), indexed);
    if !Blocked(s.disk.manifest) {
      var r := Recover(t, s.disk.manifest, Contents(s.disk), indexed);
      var s' := Open(s.disk.(files := CutActive(s.disk, r.image)), Memory(r.image, r.last, r.time), Idle, s.hist,
                     s.acked);
      assert Restart(t, s, s', indexed);
    }
  }

  /** Every manifest file that any run writes, installed or being installed, loads back as what was saved. */
  lemma ManifestsLoad(t: Table, states: seq<State>, steps: seq<Step>, i: nat, m: Manifest)
    requires TableValid(t) && IsRun(t, states, steps) && i < |states| && Manifests.Storable(m)
    requires m == states[i].disk.manifest || (states[i].disk.installing.Some?
                                              && m == states[i].disk.installing.value.image)
    ensures Manifests.LoadManifest(t.id, Manifests.SaveManifest(t.id, m)) == Some(m)
  {
    hide Moves, Initial, HistFits, Matches, Manifests.Storable, Manifests.LoadManifest, Manifests.SaveManifest,
         ManifestLoads, FilesOpen, FilesHold, IsExact, NewSegOk, InflightOk, Log;
    var s := states[i];
    RunKeeps(t, states, steps, i);
    if m == s.disk.manifest {
      MatchesLoads(t, m, s.hist);
    } else if s.disk.installing.value.goal.Rotated? {
      MatchesLoads(t, m, s.hist + [s.disk.installing.value.goal.seg]);
    } else {
      MatchesLoads(t, m, s.hist);
    }
    Manifests.LoadIff(t.id, m, Manifests.SaveManifest(t.id, m));
  }
}
