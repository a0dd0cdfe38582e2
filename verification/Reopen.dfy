/** Reopening a whole table: wadb_load_manifest followed by wadb_storage_recover
    (src/storage/metadata.c, src/storage/segments.c), for files that this table
    wrote. Recovery succeeds exactly when no empty sealed segment stands before a
    retired one. */
module Reopen {
  import opened Bytes
  import opened Frames
  import opened Logs
  import opened Segments
  import opened History
  import opened Recovery

  datatype Key = Key(day: I64, id: U64)

  function KeyOf(m: Meta): Key { Key(m.day, m.id) }

  type Files = map<Key, seq<Byte>>

  function Lookup(files: Files, k: Key): Option<seq<Byte>> { if k in files then Some(files[k]) else None }

  datatype Reopened = Unreadable | Reopened(image: Manifest, last: int, time: int)

  datatype Passed = Stopped | Passed(metas: seq<Meta>, last: int, time: int)

  /** The segments from position i on, given the position after the ones before. indexed holds the identifiers of
      sealed segments whose derived index opens. */
  function RecoverFrom(t: Table, m: Manifest, files: Files, indexed: set<U64>, i: nat, last: int, time: int): Passed
    requires i <= |m.segments|
    decreases |m.segments| - i
  {
    if i == |m.segments| then Passed([], last, time)
    else
      var s := m.segments[i];
      if s.state == Retired then Prepend(s, RecoverFrom(t, m, files, indexed, i + 1, last, time))
      else
        var r := RecoverSegment(t, s, Lookup(files, KeyOf(s)), last, time, s.id in indexed);
        if r.Refused? then Stopped
        else Prepend(r.meta, RecoverFrom(t, m, files, indexed, i + 1, r.last, r.time))
  }

  function Prepend(s: Meta, rest: Passed): Passed {
    if rest.Stopped? then Stopped else rest.(metas := [s] + rest.metas)
  }

  /** Loading the manifest and recovering its segments, starting at the preserved watermark. */
  function Recover(t: Table, m: Manifest, files: Files, indexed: set<U64>): Reopened {
    if !ManifestLoads(m) then Unreadable
    else
      var r := RecoverFrom(t, m, files, indexed, 0, m.preservedSequence, m.preservedTime);
      if r.Stopped? then Unreadable else Reopened(m.(segments := r.metas), r.last, r.time)
  }

  // ---- the loop, with the counters and the readable list it fills ----

  /** retained_segments, retained_bytes, retained_rows and retired_segments of the table. */
  datatype Counters = Counters(segments: nat, bytes: nat, rows: int, retired: nat)

  /** What the counters mean: sums over the segment list. */
  function Count(metas: seq<Meta>): Counters {
    if metas == [] then Counters(0, 0, 0, 0) else CountOne(Count(metas[..|metas| - 1]), metas[|metas| - 1])
  }

  function CountOne(c: Counters, s: Meta): Counters {
    if s.state == Retired then c.(retired := c.retired + 1)
    else c.(segments := c.segments + 1, bytes := c.bytes + s.bytes,
            rows := c.rows + (if s.last != 0 then s.last - s.first + 1 else 0))
  }

  /** The positions a reader may visit: retained segments that hold rows. */
  function Readable(metas: seq<Meta>): seq<nat> {
    if metas == [] then []
    else
      var n := |metas| - 1;
      Readable(metas[..n]) + if metas[n].state != Retired && metas[n].last != 0 then [n] else []
  }

  /** wadb_storage_recover. */
  method StorageRecover(t: Table, m: Manifest, files: Files, indexed: set<U64>)
    returns (out: Reopened, counters: Counters, readable: seq<nat>, pending: bool)
    ensures out == Recover(t, m, files, indexed)
    ensures out.Reopened? ==> counters == Count(out.image.segments)
    ensures out.Reopened? ==> readable == Readable(out.image.segments)
    ensures out.Reopened? ==> (pending <==> counters.retired > 0)
  {
    hide RecoverSegment, MetaLoads;
    out, counters, readable, pending := Unreadable, Counters(0, 0, 0, 0), [], false;
    if !ManifestLoads(m) { return; }
    var last, time: int, metas: seq<Meta>, i := m.preservedSequence, m.preservedTime, [], 0;
    while i < |m.segments|
      invariant 0 <= i <= |m.segments| && |metas| == i && out == Unreadable
      invariant counters == Count(metas) && readable == Readable(metas)
      invariant pending <==> counters.retired > 0
      invariant RecoverFrom(t, m, files, indexed, 0, m.preservedSequence, m.preservedTime) ==
                PrependAll(metas, RecoverFrom(t, m, files, indexed, i, last, time))
    {
      var s := m.segments[i];
      var kept := s;
      if s.state == Retired {
        pending, counters := true, counters.(retired := counters.retired + 1);
      } else {
        var r := RecoverSegment(t, s, Lookup(files, KeyOf(s)), last, time, s.id in indexed);
        if r.Refused? { return; }
        KeepsState(t, s, Lookup(files, KeyOf(s)), last, time, s.id in indexed);
        kept, last, time := r.meta, r.last, r.time;
        counters := counters.(segments := counters.segments + 1, bytes := counters.bytes + kept.bytes);
        if kept.last != 0 {
          counters := counters.(rows := counters.rows + (kept.last - kept.first + 1));
          readable := readable + [i];
        }
      }
      PrependOne(metas, kept, RecoverFrom(t, m, files, indexed, i + 1, last, time));
      assert (metas + [kept])[..i] == metas;
      metas, i := metas + [kept], i + 1;
    }
    PrependNone(metas, last, time);
    out := Reopened(m.(segments := metas), last, time);
  }

  ghost function PrependAll(metas: seq<Meta>, rest: Passed): Passed {
    if rest.Stopped? then Stopped else rest.(metas := metas + rest.metas)
  }

  lemma PrependOne(metas: seq<Meta>, s: Meta, rest: Passed)
    ensures PrependAll(metas, Prepend(s, rest)) == PrependAll(metas + [s], rest)
  {
    if rest.Passed? {
      assert metas + ([s] + rest.metas) == metas + [s] + rest.metas;
    }
  }

  lemma PrependNone(metas: seq<Meta>, last: int, time: int)
    ensures PrependAll(metas, Passed([], last, time)) == Passed(metas, last, time)
  {
    assert metas + [] == metas;
  }

  lemma KeepsState(t: Table, m: Meta, file: Option<seq<Byte>>, last: int, time: int, indexed: bool)
    ensures var r := RecoverSegment(t, m, file, last, time, indexed);
            r.Accepted? ==> r.meta.state == m.state && r.meta.first == m.first
  {
    hide DecodeSegment, ReadLog, FramesFit;
  }

  // ---- manifests that describe a history ----

  /** One past the last retired segment. */
  function RetiredEnd(metas: seq<Meta>): (c: nat)
    ensures c <= |metas|
    ensures forall i :: c <= i < |metas| ==> metas[i].state != Retired
    ensures c > 0 ==> metas[c - 1].state == Retired
  {
    if metas == [] then 0
    else if metas[|metas| - 1].state == Retired then |metas|
    else RetiredEnd(metas[..|metas| - 1])
  }

  ghost predicate RecordMatches(t: Table, m: Manifest, hist: seq<Seg>, i: nat)
    requires |m.segments| == |hist| && i < |hist|
  {
    var s := m.segments[i];
    && Describes(t, s, hist[i])
    && (s.state == Retired ==> hist[i].frames != [])
    && (s.state == Active ==> i + 1 == |hist|)
    && hist[i].id < m.nextId
    && |SegBytes(t, hist[i])| <= I64_MAX
  }

  /** Rows are retired from the old end only. */
  ghost predicate RetiredPrefix(m: Manifest, hist: seq<Seg>)
    requires |m.segments| == |hist|
  {
    forall i, j :: 0 <= i < j < |hist| && m.segments[j].state == Retired && hist[i].frames != [] ==>
      m.segments[i].state == Retired
  }

  /** The manifest describes the history: one record per segment, retired ones from the old end, watermark at the last
      of them. */
  ghost predicate Matches(t: Table, m: Manifest, hist: seq<Seg>) {
    && m.nextId != 0 && m.generation != 0 && m.retention <= I64_MAX
    && |m.segments| == |hist|
    && (forall i :: 0 <= i < |hist| ==> RecordMatches(t, m, hist, i))
    && RetiredPrefix(m, hist)
    && m.preservedSequence == LastSequence(hist[..RetiredEnd(m.segments)])
    && m.preservedTime == LastTime(hist[..RetiredEnd(m.segments)])
  }

  ghost predicate FileHolds(t: Table, files: Files, s: Meta, seg: Seg) {
    && KeyOf(s) in files
    && exists tail :: TornTail(tail) && (s.state != Active ==> tail == []) && files[KeyOf(s)] == SegBytes(t, seg) + tail
  }

  ghost predicate FilesHold(t: Table, files: Files, m: Manifest, hist: seq<Seg>)
    requires |m.segments| == |hist|
  {
    forall i :: 0 <= i < |hist| && m.segments[i].state != Retired ==> FileHolds(t, files, m.segments[i], hist[i])
  }

  /** The case recovery cannot handle: an empty segment, never retired, that stands before a retired one. */
  predicate Blocked(m: Manifest) {
    exists i, j :: 0 <= i < j < |m.segments| && m.segments[i].state != Retired && m.segments[i].last == 0 &&
      m.segments[j].state == Retired
  }

  /** The exact records of a history, with the states of a manifest. */
  ghost function Exact(t: Table, metas: seq<Meta>, hist: seq<Seg>): (r: seq<Meta>)
    requires |metas| == |hist|
    ensures |r| == |hist|
    ensures forall i :: 0 <= i < |hist| ==> r[i] == MetaOf(t, hist[i], metas[i].state)
  {
    seq(|hist|, i requires 0 <= i < |hist| => MetaOf(t, hist[i], metas[i].state))
  }

  // ---- every manifest that describes a history loads ----

  /** What a segment record must satisfy by itself to load. */
  predicate SummaryLoads(m: Meta) {
    && m.bytes >= SEGMENT_HEADER_BYTES
    && (m.last != 0 ==>
          m.first <= m.last && m.day <= m.minTime <= m.maxTime && m.maxTime / DAY_US == m.day / DAY_US)
    && (m.last == 0 ==> m.minTime == 0 && m.maxTime == 0 && m.bytes == SEGMENT_HEADER_BYTES)
  }

  lemma ExactLoads(t: Table, s: Seg, state: SegState, last: int, time: int)
    requires TableValid(t) && SegFits(t, s, last, time) && time >= 0
    ensures SummaryLoads(MetaOf(t, s, state)) && MetaOf(t, s, state).bytes == |SegBytes(t, s)|
    ensures MetaOf(t, s, state).last != 0 <==> s.frames != []
  {
    hide FramesFit, FrameValid, DecodeSegment, SegBytes, LogBytes, Writable;
    SegWritable(t, s, last, time);
    SegParts(t, s, []);
    assert SegBytes(t, s) + [] == SegBytes(t, s);
    assert s.frames == [] ==> LogBytes(s.frames) == [] by { NoFrames(); }
    if s.frames != [] {
      LastNumber(t, s.day, s.frames, last, time);
      FramesEndLater(t, s.day, s.frames, last, time);
      DayFloor(s.frames[0].minTime, s.day);
    }
  }

  lemma DescribedLoads(t: Table, m: Meta, s: Seg, last: int, time: int)
    requires TableValid(t) && SegFits(t, s, last, time) && time >= 0 && Describes(t, m, s)
    ensures SummaryLoads(m) && m.bytes <= |SegBytes(t, s)|
    ensures s.frames == [] ==> m.last == 0
    ensures m.id == s.id && m.day == s.day && m.first == s.first
  {
    hide FramesFit, FrameValid, SegBytes, SummaryLoads;
    if m.state == Active {
      var k: nat :| k <= |s.frames| && m == MetaOf(t, Earlier(s, k), Active);
      EarlierSmaller(t, s, k, last, time);
      ExactLoads(t, Earlier(s, k), Active, last, time);
    } else {
      ExactLoads(t, s, m.state, last, time);
    }
  }

  lemma NoFrames()
    ensures LogBytes([]) == []
  {
  }

  lemma DayFloor(time: int, day: int)
    requires day >= 0 && day % DAY_US == 0 && time / DAY_US == day / DAY_US
    ensures day <= time
  {
  }

  lemma {:induction false} TimePositive(t: Table, hist: seq<Seg>, i: nat)
    requires HistFits(t, hist) && i <= |hist|
    ensures LastTime(hist[..i]) >= 0
  {
    hide HistFits;
    TimeGrows(t, hist, 0, i);
  }

  lemma RecordLoads(t: Table, m: Manifest, hist: seq<Seg>, i: nat)
    requires TableValid(t) && HistFits(t, hist) && Matches(t, m, hist) && i < |hist|
    ensures MetaLoads(m, i)
    ensures m.segments[i].last == 0 <== hist[i].frames == []
    ensures m.segments[i].id == hist[i].id && m.segments[i].day == hist[i].day && m.segments[i].first == hist[i].first
  {
    hide HistFits, FramesFit, SegBytes, RetiredPrefix, Describes, RetiredEnd, LastSequence, LastTime;
    assert RecordMatches(t, m, hist, i);
    FitsAt(t, hist, i);
    TimePositive(t, hist, i);
    DescribedLoads(t, m.segments[i], hist[i], LastSequence(hist[..i]), LastTime(hist[..i]));
    if i > 0 {
      PreviousId(t, m, hist, i);
    }
  }

  lemma PreviousId(t: Table, m: Manifest, hist: seq<Seg>, i: nat)
    requires Matches(t, m, hist) && 0 < i < |hist|
    ensures m.segments[i - 1].id == hist[i - 1].id
  {
    hide RetiredPrefix, RetiredEnd, LastSequence, LastTime;
    assert RecordMatches(t, m, hist, i - 1);
  }

  /** Every manifest that describes a history passes the checks of wadb_load_manifest. */
  lemma MatchesLoads(t: Table, m: Manifest, hist: seq<Seg>)
    requires TableValid(t) && HistFits(t, hist) && Matches(t, m, hist)
    ensures ManifestLoads(m)
  {
    hide HistFits, RecordMatches, RetiredPrefix, MetaLoads;
    TimePositive(t, hist, RetiredEnd(m.segments));
    forall i | 0 <= i < |hist| ensures MetaLoads(m, i) {
      RecordLoads(t, m, hist, i);
    }
  }

  // ---- recovery succeeds when nothing is blocked ----

  lemma RecoverOne(t: Table, m: Manifest, hist: seq<Seg>, files: Files, indexed: bool, i: nat)
    requires TableValid(t) && HistFits(t, hist) && Matches(t, m, hist) && FilesHold(t, files, m, hist)
    requires i < |hist| && m.segments[i].state != Retired
    ensures RecoverSegment(t, m.segments[i], Lookup(files, KeyOf(m.segments[i])), LastSequence(hist[..i]),
                           LastTime(hist[..i]), indexed) ==
            Accepted(MetaOf(t, hist[i], m.segments[i].state), LastSequence(hist[..i + 1]), LastTime(hist[..i + 1]))
  {
    hide HistFits, RetiredPrefix, RetiredEnd, RecoverSegment, SegFits, TornTail, SegBytes, LastSequence, LastTime,
         MetaOf;
    var s := m.segments[i];
    assert RecordMatches(t, m, hist, i) && FileHolds(t, files, s, hist[i]);
    var tail :| TornTail(tail) && (s.state != Active ==> tail == []) && files[KeyOf(s)] == SegBytes(t, hist[i]) + tail;
    FitsAt(t, hist, i);
    RecoverWritten(t, hist[i], s, tail, LastSequence(hist[..i]), LastTime(hist[..i]), indexed);
  }

  lemma {:induction false} RecoverRetained(t: Table, m: Manifest, hist: seq<Seg>, files: Files, indexed: set<U64>,
                                           i: nat)
    requires TableValid(t) && HistFits(t, hist) && Matches(t, m, hist) && FilesHold(t, files, m, hist)
    requires RetiredEnd(m.segments) <= i <= |hist|
    ensures RecoverFrom(t, m, files, indexed, i, LastSequence(hist[..i]), LastTime(hist[..i])) ==
            Passed(Exact(t, m.segments, hist)[i..], LastSequence(hist), LastTime(hist))
    decreases |hist| - i
  {
    hide HistFits, RetiredPrefix, RetiredEnd, RecoverSegment, RecordMatches, FilesHold, MetaOf, LastSequence, LastTime;
    if i == |hist| {
      assert hist[..i] == hist;
    } else {
      EndAfter(m.segments, i);
      RecoverOne(t, m, hist, files, m.segments[i].id in indexed, i);
      RecoverRetained(t, m, hist, files, indexed, i + 1);
      var exact := Exact(t, m.segments, hist);
      assert exact[i..] == [exact[i]] + exact[i + 1..];
    }
  }

  lemma EndAfter(metas: seq<Meta>, i: nat)
    requires RetiredEnd(metas) <= i < |metas|
    ensures metas[i].state != Retired
  {
  }

  lemma ExactUnlessActive(t: Table, m: Manifest, hist: seq<Seg>, i: nat)
    requires Matches(t, m, hist) && i < |hist| && m.segments[i].state != Active
    ensures m.segments[i] == MetaOf(t, hist[i], m.segments[i].state)
  {
    hide RetiredPrefix, RetiredEnd, MetaOf;
    assert RecordMatches(t, m, hist, i);
  }

  lemma {:induction false} RecoverRetired(t: Table, m: Manifest, hist: seq<Seg>, files: Files, indexed: set<U64>,
                                          i: nat)
    requires TableValid(t) && HistFits(t, hist) && Matches(t, m, hist) && FilesHold(t, files, m, hist)
    requires i <= RetiredEnd(m.segments) && forall k :: i <= k < RetiredEnd(m.segments) ==>
               m.segments[k].state == Retired
    ensures RecoverFrom(t, m, files, indexed, i, m.preservedSequence, m.preservedTime) ==
            Passed(Exact(t, m.segments, hist)[i..], LastSequence(hist), LastTime(hist))
    decreases RetiredEnd(m.segments) - i
  {
    hide HistFits, RetiredPrefix, RetiredEnd, RecoverSegment, FilesHold, RecordMatches, MetaOf, LastSequence, LastTime;
    if i == RetiredEnd(m.segments) {
      RecoverRetained(t, m, hist, files, indexed, i);
    } else {
      ExactUnlessActive(t, m, hist, i);
      RecoverRetired(t, m, hist, files, indexed, i + 1);
      var exact := Exact(t, m.segments, hist);
      assert exact[i..] == [exact[i]] + exact[i + 1..];
    }
  }

  /** A segment that is not retired although a later one is holds no rows. */
  lemma SkippedIsEmpty(t: Table, m: Manifest, hist: seq<Seg>, i: nat, j: nat)
    requires TableValid(t) && HistFits(t, hist) && Matches(t, m, hist)
    requires i < j < |hist| && m.segments[i].state != Retired && m.segments[j].state == Retired
    ensures hist[i].frames == [] && m.segments[i].last == 0
  {
    hide HistFits, RecordMatches, RetiredEnd;
    RecordLoads(t, m, hist, i);
  }

  lemma UnblockedPrefix(t: Table, m: Manifest, hist: seq<Seg>, k: nat)
    requires TableValid(t) && HistFits(t, hist) && Matches(t, m, hist) && !Blocked(m) && k < RetiredEnd(m.segments)
    ensures m.segments[k].state == Retired
  {
    hide HistFits, RecordMatches, RetiredPrefix;
    var c := RetiredEnd(m.segments);
    if m.segments[k].state != Retired {
      SkippedIsEmpty(t, m, hist, k, c - 1);
    }
  }

  /** An unblocked table reopens with exactly its history, whichever derived indexes open. */
  lemma RecoverSucceeds(t: Table, m: Manifest, hist: seq<Seg>, files: Files, indexed: set<U64>)
    requires TableValid(t) && HistFits(t, hist) && Matches(t, m, hist) && FilesHold(t, files, m, hist)
    requires !Blocked(m)
    ensures Recover(t, m, files, indexed) ==
            Reopened(m.(segments := Exact(t, m.segments, hist)), LastSequence(hist), LastTime(hist))
  {
    hide HistFits, RetiredPrefix, FilesHold, ManifestLoads, RecoverFrom, Blocked, RecordMatches, RetiredEnd;
    MatchesLoads(t, m, hist);
    forall k | 0 <= k < RetiredEnd(m.segments) ensures m.segments[k].state == Retired {
      UnblockedPrefix(t, m, hist, k);
    }
    RecoverRetired(t, m, hist, files, indexed, 0);
    var exact := Exact(t, m.segments, hist);
    assert exact[0..] == exact;
  }

  // ---- and only then ----

  /** Up to the first segment that is not retired, recovery only skips; there it is refused. */
  lemma {:induction false} RecoverRefuses(t: Table, m: Manifest, files: Files, indexed: set<U64>, i: nat, k: nat)
    requires i <= k < |m.segments| && (forall x :: i <= x < k ==> m.segments[x].state == Retired)
    requires m.segments[k].state != Retired && m.segments[k].first != m.preservedSequence + 1
    ensures RecoverFrom(t, m, files, indexed, i, m.preservedSequence, m.preservedTime) == Stopped
    decreases k - i
  {
    hide DecodeSegment, ScanSegment;
    if i < k {
      RecoverRefuses(t, m, files, indexed, i + 1, k);
    }
  }

  lemma BehindWatermark(t: Table, m: Manifest, hist: seq<Seg>, k: nat, j: nat)
    requires TableValid(t) && HistFits(t, hist) && Matches(t, m, hist)
    requires k < j < |hist| && m.segments[k].state != Retired && m.segments[j].state == Retired
    ensures m.segments[k].first != m.preservedSequence + 1
  {
    hide HistFits, RetiredPrefix, FramesFit, Describes, LastSequence, LastTime, MetaLoads;
    var c := RetiredEnd(m.segments);
    RecordLoads(t, m, hist, k);
    FitsAt(t, hist, k);
    FitsAt(t, hist, j);
    assert RecordMatches(t, m, hist, j);
    FramesEndLater(t, hist[j].day, hist[j].frames, LastSequence(hist[..j]), LastTime(hist[..j]));
    SequenceGrows(hist, k, j);
    SequenceGrows(hist, j + 1, c);
  }

  lemma FirstRetained(metas: seq<Meta>, i: nat) returns (k: nat)
    requires i < |metas| && metas[i].state != Retired
    ensures k <= i && metas[k].state != Retired && forall x :: 0 <= x < k ==> metas[x].state == Retired
  {
    k := 0;
    while metas[k].state == Retired
      invariant k <= i && forall x :: 0 <= x < k ==> metas[x].state == Retired
      decreases i - k
    {
      k := k + 1;
    }
  }

  lemma BlockedFails(t: Table, m: Manifest, hist: seq<Seg>, files: Files, indexed: set<U64>)
    requires TableValid(t) && HistFits(t, hist) && Matches(t, m, hist) && Blocked(m)
    ensures Recover(t, m, files, indexed) == Unreadable
  {
    hide HistFits, Matches, RecoverFrom, ManifestLoads;
    var i, j :| 0 <= i < j < |m.segments| && m.segments[i].state != Retired && m.segments[i].last == 0 &&
      m.segments[j].state == Retired;
    var k := FirstRetained(m.segments, i);
    assert |m.segments| == |hist| by { SameLength(t, m, hist); }
    BehindWatermark(t, m, hist, k, j);
    RecoverRefuses(t, m, files, indexed, 0, k);
  }

  lemma SameLength(t: Table, m: Manifest, hist: seq<Seg>)
    requires Matches(t, m, hist)
    ensures |m.segments| == |hist|
  {
  }

  /** A table whose files are as its history left them reopens exactly when its manifest lists no empty, unretired
      segment before a retired one; and then it reopens as that history. */
  lemma RecoveryIff(t: Table, m: Manifest, hist: seq<Seg>, files: Files, indexed: set<U64>)
    requires TableValid(t) && HistFits(t, hist) && Matches(t, m, hist) && FilesHold(t, files, m, hist)
    ensures Recover(t, m, files, indexed).Reopened? <==> !Blocked(m)
    ensures !Blocked(m) ==>
              Recover(t, m, files, indexed) ==
              Reopened(m.(segments := Exact(t, m.segments, hist)), LastSequence(hist), LastTime(hist))
  {
    hide HistFits, Matches, FilesHold, Recover, Blocked;
    if Blocked(m) {
      BlockedFails(t, m, hist, files, indexed);
    } else {
      RecoverSucceeds(t, m, hist, files, indexed);
    }
  }
}
