/** Readers, the writer and the cleaner of retired segments, interleaved
    (src/storage/retention.c:10-37 and 92-154, src/query/snapshot.c:5-61,
    src/storage/index.c:166-181). Every step is one region under the database mutex, or
    one file operation outside it. */
module Pinning {
  import opened Positions

  /** A segment as the table knows it: retired or not, and how many frames are committed. */
  datatype Segment = Segment(retired: bool, committed: nat)

  /** Its files: the log, of which the frames are listed, and the derived index. */
  datatype File = File(log: bool, index: bool, frames: seq<nat>)

  /** What a snapshot holds of a segment: its position and the frames committed at the time. */
  datatype Held = Held(segment: nat, frames: seq<nat>)

  /** The holder of writer_mutex: nobody, or the cleaner, about to remove a file of segment i. */
  datatype Writer = Idle | Cleaning(i: nat, indexNext: bool)

  datatype State = State(segments: seq<Segment>, files: seq<File>, readable: seq<nat>, readers: nat,
                         snapshots: map<nat, seq<Held>>, pending: bool, writer: Writer)

  datatype Step =
    | Acquire(id: nat, from: nat, to: nat)      // wadb_snapshot_acquire
    | Release(id: nat)                          // wadb_snapshot_release
    | Repair(id: nat, k: nat)                   // a reader installs the index of a segment it holds
    | Write(frame: nat)                         // bytes reach the active file
    | Publish                                   // a written frame becomes committed
    | Create                                    // create_active, which saves the index of the segment it seals
    | Retire(upto: nat)                         // the mutex region of wadb_retention_apply
    | Check                                     // cleanup looks at the reader count
    | Remove                                    // one unlink
    | Stop(failed: bool)                        // cleanup ends
    | Restart(upto: nat, kept: nat, created: bool, indexed: nat -> bool)  // the process ends and the table is reopened

  function HeldOf(s: State, i: nat): Held
    requires i < |s.segments| && |s.files| == |s.segments| && s.segments[i].committed <= |s.files[i].frames|
  {
    Held(i, s.files[i].frames[..s.segments[i].committed])
  }

  predicate Shaped(s: State) {
    && |s.files| == |s.segments|
    && (forall i :: 0 <= i < |s.segments| ==> s.segments[i].committed <= |s.files[i].frames|)
    && (forall k :: 0 <= k < |s.readable| ==> s.readable[k] < |s.segments|)
  }

  /** The segments a retention pass retires: some that are not empty, up to a position. */
  function Retired(segments: seq<Segment>, upto: nat): (r: seq<Segment>)
    ensures |r| == |segments|
    ensures forall i :: 0 <= i < |r| ==>
              r[i] == if i < upto && segments[i].committed > 0 then segments[i].(retired := true) else segments[i]
  {
    seq(|segments|, i requires 0 <= i < |segments| =>
          if i < upto && segments[i].committed > 0 then segments[i].(retired := true) else segments[i])
  }

  function Unretired(segments: seq<Segment>): nat -> bool { (p: nat) => p < |segments| && !segments[p].retired }

  function Slice(s: State, from: nat, to: nat): (r: seq<Held>)
    requires Shaped(s) && from <= to <= |s.readable|
    ensures |r| == to - from && forall k :: 0 <= k < |r| ==> r[k] == HeldOf(s, s.readable[from + k])
  {
    seq(to - from, k requires 0 <= k < to - from => HeldOf(s, s.readable[from + k]))
  }

  /** The files once the active segment, if there is one, has its index. */
  function Indexed(s: State): seq<File>
    requires Shaped(s)
  {
    var n := |s.segments|;
    if n == 0 || s.segments[n - 1].retired then s.files else s.files[n - 1 := s.files[n - 1].(index := true)]
  }

  ghost predicate Moves(s: State, step: Step, s': State)
    requires Shaped(s)
  {
    match step
    case Acquire(id, from, to) =>
      && id !in s.snapshots && from <= to <= |s.readable|
      && s' == s.(snapshots := s.snapshots[id := Slice(s, from, to)], readers := s.readers + 1)
    case Release(id) =>
      && id in s.snapshots && s.readers > 0
      && s' == s.(snapshots := s.snapshots - {id}, readers := s.readers - 1)
    case Repair(id, k) =>
      && id in s.snapshots && k < |s.snapshots[id]| && s.snapshots[id][k].segment < |s.files|
      && var i := s.snapshots[id][k].segment; s' == s.(files := s.files[i := s.files[i].(index := true)])
    case Write(frame) =>
      && s.writer.Idle? && s.segments != [] && !s.segments[|s.segments| - 1].retired
      && var i := |s.segments| - 1; s' == s.(files := s.files[i := s.files[i].(frames := s.files[i].frames + [frame])])
    case Publish =>
      && s.writer.Idle? && s.segments != [] && !s.segments[|s.segments| - 1].retired
      && var i := |s.segments| - 1;
         && s.segments[i].committed < |s.files[i].frames|
         && s' == s.(segments := s.segments[i := s.segments[i].(committed := s.segments[i].committed + 1)],
                     readable := if s.segments[i].committed == 0 then s.readable + [i] else s.readable)
    case Create =>
      && s.writer.Idle?
      && s' == s.(segments := s.segments + [Segment(false, 0)], files := Indexed(s) + [File(true, false, [])])
    case Retire(upto) =>
      && s.writer.Idle?
      && s' == s.(segments := Retired(s.segments, upto),
                  readable := Compacted(s.readable, Unretired(Retired(s.segments, upto))),
                  pending := true)
    case Check =>
      && s.writer.Idle? && s.pending && s.readers == 0
      && s' == s.(writer := Cleaning(0, false))
    case Remove =>
      && s.writer.Cleaning? && s.writer.i < |s.segments|
      && s' == Removed(s, s.writer.i, s.writer.indexNext)
    case Stop(failed) =>
      && s.writer.Cleaning? && (!failed ==> s.writer.i == |s.segments|)
      && s' == s.(pending := failed, writer := Idle)
    case Restart(upto, kept, created, indexed) =>
      KeptOk(s, kept) && s' == Reopened(s, upto, kept, created, indexed)
  }

  function Removed(s: State, i: nat, index: bool): State
    requires Shaped(s) && i < |s.segments|
  {
    var f := s.files[i];
    var f' := if index then f.(index := false) else f.(log := false);
    s.(files := if !s.segments[i].retired then s.files else s.files[i := f'],
       writer := if index then Cleaning(i + 1, false) else Cleaning(i, true))
  }

  /** What a restart finds of segment i: of the active one, kept frames, which may be more than were committed. */
  function Found(s: State, i: nat, kept: nat): nat
    requires i < |s.segments|
  {
    if i == |s.segments| - 1 && !s.segments[i].retired then kept else s.segments[i].committed
  }

  /** The segments after a restart, if the manifest of a retention run or of a new segment was installed without the
      program having heard of it. */
  function FoundSegments(s: State, upto: nat, kept: nat, created: bool): seq<Segment> {
    Retired(seq(|s.segments|, i requires 0 <= i < |s.segments| => s.segments[i].(committed := Found(s, i, kept))), upto)
      + if created then [Segment(false, 0)] else []
  }

  /** The files after a restart: logs are cut to what was found, and the indexes of live segments may be there or
      not. */
  function FoundFiles(s: State, kept: nat, created: bool, indexed: nat -> bool): seq<File>
    requires Shaped(s) && KeptOk(s, kept)
  {
    seq(|s.files|, i requires 0 <= i < |s.files| =>
          File(s.files[i].log, if s.segments[i].retired then s.files[i].index else indexed(i),
               s.files[i].frames[..Found(s, i, kept)]))
      + if created then [File(true, false, [])] else []
  }

  predicate KeptOk(s: State, kept: nat)
    requires Shaped(s)
  {
    var n := |s.segments|;
    n > 0 && !s.segments[n - 1].retired ==> s.segments[n - 1].committed <= kept <= |s.files[n - 1].frames|
  }

  /** The segments that wadb_storage_recover makes readable. */
  function Live(segments: seq<Segment>): (r: seq<nat>)
    ensures forall k :: 0 <= k < |r| ==> r[k] < |segments| && !segments[r[k]].retired
  {
    if segments == [] then [] else
      var n := |segments| - 1;
      Live(segments[..n]) + if segments[n].retired || segments[n].committed == 0 then [] else [n]
  }

  function Reopened(s: State, upto: nat, kept: nat, created: bool, indexed: nat -> bool): State
    requires Shaped(s) && KeptOk(s, kept)
  {
    var segments := FoundSegments(s, upto, kept, created);
    State(segments, FoundFiles(s, kept, created, indexed), Live(segments), 0, map[], AnyRetired(segments), Idle)
  }

  predicate AnyRetired(segments: seq<Segment>) { exists i :: 0 <= i < |segments| && segments[i].retired }

  function Initial(): State { State([], [], [], 0, map[], false, Idle) }

  // ---- the invariant ----

  /** A snapshot's segment: its log is there, and still begins with what the snapshot saw. */
  predicate Pinned(s: State, h: Held) {
    && h.segment < |s.segments| == |s.files|
    && s.files[h.segment].log && h.frames <= s.files[h.segment].frames[..]
    && |h.frames| <= s.segments[h.segment].committed
  }

  /** The files of retired segments before a position are gone. */
  predicate Gone(s: State, i: nat)
    requires |s.files| == |s.segments|
  {
    forall k :: 0 <= k < |s.segments| && k < i && s.segments[k].retired ==> !s.files[k].log && !s.files[k].index
  }

  ghost predicate Inv(s: State) {
    && Shaped(s)
    && s.readers == |s.snapshots|
    && (forall k :: 0 <= k < |s.readable| ==> !s.segments[s.readable[k]].retired)
    && (forall i :: 0 <= i < |s.segments| && !s.segments[i].retired ==> s.files[i].log)
    && (forall id, k :: id in s.snapshots && 0 <= k < |s.snapshots[id]| ==> Pinned(s, s.snapshots[id][k]))
    && (!s.pending ==> Gone(s, |s.segments|))
    && (!s.pending || s.writer.Cleaning? ==> NoRetiredHeld(s))
    && (s.writer.Cleaning? ==> s.pending && Gone(s, s.writer.i) && (s.writer.indexNext ==> HalfGone(s, s.writer.i)))
  }

  ghost predicate NoRetiredHeld(s: State)
    requires Shaped(s)
  {
    forall id, k :: id in s.snapshots && 0 <= k < |s.snapshots[id]| && s.snapshots[id][k].segment < |s.segments| ==>
      !s.segments[s.snapshots[id][k].segment].retired
  }

  predicate HalfGone(s: State, i: nat)
    requires |s.files| == |s.segments|
  {
    i < |s.segments| && s.segments[i].retired ==> !s.files[i].log
  }

  // ---- every step keeps it ----

  lemma {:induction false} AcquireKeeps(s: State, id: nat, from: nat, to: nat, s': State)
    requires Inv(s) && Moves(s, Acquire(id, from, to), s')
    ensures Inv(s')
  {
    hide Reopened, Removed, Retired, Indexed, KeptOk, Compacted;
    assert s'.snapshots.Keys == s.snapshots.Keys + {id};
    forall k | 0 <= k < to - from ensures Pinned(s', Slice(s, from, to)[k]) { }
  }

  lemma {:induction false} ReleaseKeeps(s: State, id: nat, s': State)
    requires Inv(s) && Moves(s, Release(id), s')
    ensures Inv(s')
  {
    hide Reopened, Removed, Retired, Indexed, KeptOk, Compacted, Slice;
    assert s'.snapshots.Keys == s.snapshots.Keys - {id};
    assert forall x :: x in s'.snapshots ==> s'.snapshots[x] == s.snapshots[x];
  }

  lemma {:induction false} RepairKeeps(s: State, id: nat, k: nat, s': State)
    requires Inv(s) && Moves(s, Repair(id, k), s')
    ensures Inv(s')
  {
    assert Pinned(s, s.snapshots[id][k]);
  }

  lemma {:induction false} WriteKeeps(s: State, frame: nat, s': State)
    requires Inv(s) && Moves(s, Write(frame), s')
    ensures Inv(s')
  {
  }

  lemma {:induction false} PublishKeeps(s: State, s': State)
    requires Inv(s) && Moves(s, Publish, s')
    ensures Inv(s')
  {
  }

  lemma {:induction false} CreateKeeps(s: State, s': State)
    requires Inv(s) && Moves(s, Create, s')
    ensures Inv(s')
  {
  }

  lemma {:induction false} RetireKeeps(s: State, upto: nat, s': State)
    requires Inv(s) && Moves(s, Retire(upto), s')
    ensures Inv(s')
  {
  }

  lemma {:induction false} CheckKeeps(s: State, s': State)
    requires Inv(s) && Moves(s, Check, s')
    ensures Inv(s')
  {
    assert |s.snapshots| == 0;
    assert s.snapshots == map[];
  }

  lemma {:induction false} RemoveKeeps(s: State, s': State)
    requires Inv(s) && Moves(s, Remove, s')
    ensures Inv(s')
  {
  }

  lemma {:induction false} StopKeeps(s: State, failed: bool, s': State)
    requires Inv(s) && Moves(s, Stop(failed), s')
    ensures Inv(s')
  {
  }

  lemma {:induction false} RestartKeeps(s: State, upto: nat, kept: nat, created: bool, indexed: nat -> bool, s': State)
    requires Inv(s) && Moves(s, Restart(upto, kept, created, indexed), s')
    ensures Inv(s')
  {
    hide Live;
    var n := |s.segments|;
    assert |s'.segments| == |s'.files| == n + if created then 1 else 0;
    forall i | 0 <= i < |s'.segments| ensures s'.segments[i].committed <= |s'.files[i].frames|
    && (!s'.segments[i].retired ==> s'.files[i].log) {
      if i < n { assert s.segments[i].committed <= |s.files[i].frames|; }
    }
  }

  lemma {:induction false} StepKeeps(s: State, step: Step, s': State)
    requires Inv(s) && Moves(s, step, s')
    ensures Inv(s')
  {
    hide Inv, Moves;
    match step
    case Acquire(id, from, to) => AcquireKeeps(s, id, from, to, s');
    case Release(id) => ReleaseKeeps(s, id, s');
    case Repair(id, k) => RepairKeeps(s, id, k, s');
    case Write(frame) => WriteKeeps(s, frame, s');
    case Publish => PublishKeeps(s, s');
    case Create => CreateKeeps(s, s');
    case Retire(upto) => RetireKeeps(s, upto, s');
    case Check => CheckKeeps(s, s');
    case Remove => RemoveKeeps(s, s');
    case Stop(failed) => StopKeeps(s, failed, s');
    case Restart(upto, kept, created, indexed) => RestartKeeps(s, upto, kept, created, indexed, s');
  }

  // ---- whole runs ----

  ghost predicate StepAt(states: seq<State>, steps: seq<Step>, i: nat)
    requires i < |steps| && |states| == |steps| + 1
  {
    Shaped(states[i]) && Moves(states[i], steps[i], states[i + 1])
  }

  ghost predicate IsRun(states: seq<State>, steps: seq<Step>) {
    && |states| == |steps| + 1 && states[0] == Initial()
    && forall i :: 0 <= i < |steps| ==> StepAt(states, steps, i)
  }

  lemma {:induction false} RunKeeps(states: seq<State>, steps: seq<Step>, i: nat)
    requires IsRun(states, steps) && i < |states|
    ensures Inv(states[i])
    decreases i
  {
    hide Inv, Moves;
    if i == 0 {
      InitialHolds();
    } else {
      RunKeeps(states, steps, i - 1);
      assert StepAt(states, steps, i - 1);
      StepKeeps(states[i - 1], steps[i - 1], states[i]);
    }
  }

  lemma {:induction false} InitialHolds()
    ensures Inv(Initial())
  {
  }

  /** A retired segment stays retired. */
  lemma {:induction false} StaysRetired(states: seq<State>, steps: seq<Step>, i: nat, j: nat, x: nat)
    requires IsRun(states, steps) && i <= j < |states| && x < |states[i].segments| && states[i].segments[x].retired
    ensures x < |states[j].segments| && states[j].segments[x].retired
    decreases j
  {
    if i < j {
      StaysRetired(states, steps, i, j - 1, x);
      assert StepAt(states, steps, j - 1);
    }
  }

  ghost predicate HeldBy(s: State, id: nat, x: nat) {
    id in s.snapshots && exists k :: 0 <= k < |s.snapshots[id]| && s.snapshots[id][k].segment == x
  }

  /** In every reachable state of every interleaving: whatever a live snapshot holds is still in place and begins with
      the frames it saw, and with no removal pending every file of a retired segment is gone. */
  lemma {:induction false} ReadersSafe(states: seq<State>, steps: seq<Step>, i: nat)
    requires IsRun(states, steps) && i < |states|
    ensures forall id, k :: id in states[i].snapshots && 0 <= k < |states[i].snapshots[id]| ==>
              Pinned(states[i], states[i].snapshots[id][k])
    ensures !states[i].pending ==>
              forall x :: 0 <= x < |states[i].segments| && states[i].segments[x].retired ==>
                x < |states[i].files| && !states[i].files[x].log && !states[i].files[x].index
  {
    RunKeeps(states, steps, i);
  }

  /** A file is removed only when no live snapshot holds its segment. */
  lemma {:induction false} RemovalSafe(states: seq<State>, steps: seq<Step>, i: nat)
    requires IsRun(states, steps) && i < |steps| && steps[i] == Remove
    ensures states[i].writer.Cleaning? && states[i].writer.i < |states[i].segments|
    ensures states[i].files != states[i + 1].files ==> forall id :: !HeldBy(states[i], id, states[i].writer.i)
  {
    assert StepAt(states, steps, i);
    RunKeeps(states, steps, i);
    var s := states[i];
    if exists id :: HeldBy(s, id, s.writer.i) {
      var id :| HeldBy(s, id, s.writer.i);
      var k :| 0 <= k < |s.snapshots[id]| && s.snapshots[id][k].segment == s.writer.i;
      assert Pinned(s, s.snapshots[id][k]);
    }
  }

  /** A snapshot taken after a segment was retired does not contain it. */
  lemma {:induction false} LaterSnapshotsOmit(states: seq<State>, steps: seq<Step>, i: nat, j: nat, x: nat)
    requires IsRun(states, steps) && i <= j < |steps| && steps[j].Acquire?
    requires x < |states[i].segments| && states[i].segments[x].retired
    ensures !HeldBy(states[j + 1], steps[j].id, x)
  {
    StaysRetired(states, steps, i, j, x);
    RunKeeps(states, steps, j);
    assert StepAt(states, steps, j);
  }
}
