/** Taking a snapshot (src/query/snapshot.c:5-48): which segments it copies, and that
    the rows of a table's history are in the order a scan relies on. */
module Snapshots {
  import opened Bytes
  import opened Frames
  import opened Logs
  import H = History
  import opened Items
  import opened Scans

  // ---- the rows of a history ----

  function FrameItems(f: Frame): seq<Item> {
    if !FrameValid(f) then []
    else seq(f.rowCount, i requires 0 <= i < f.rowCount => Item(f.firstSequence + i, TimeAt(f, i), H.RowSlice(f, i)))
  }

  function BatchOf(f: Frame): Batch { Batch(FrameItems(f), 96 + |f.definitions| + |f.rows|) }

  /** What reading a frame is charged is its size in the file. */
  lemma {:induction false} BatchSize(f: Frame)
    requires FrameValid(f)
    ensures BatchOf(f).size == |EncodeFrame(f)|
  {
    hide EncodeFrame, ContentValid, RowBytes, FrameItems;
    EncodeLength(f);
  }

  function BatchesOf(frames: seq<Frame>): (r: seq<Batch>)
    ensures |r| == |frames| && forall i :: 0 <= i < |r| ==> r[i] == BatchOf(frames[i])
  {
    seq(|frames|, i requires 0 <= i < |frames| => BatchOf(frames[i]))
  }

  /** The readable segments of a history: those with rows that are not retired. The dictionary of segment i has size(i)
      bytes: the block in a sealed segment's index, or the definitions of all frames of the active one. */
  function ReadableParts(hist: seq<H.Seg>, retired: nat -> bool, size: nat -> nat): seq<Part> {
    if hist == [] then [] else
      var n := |hist| - 1;
      ReadableParts(hist[..n], retired, size) + if hist[n].frames == [] || retired(n) then []
                                                else [Part(BatchesOf(hist[n].frames), size(n))]
  }

  /** Rows numbered after last and up to some number, with times between two times. */
  predicate Within(items: seq<Item>, last: int, to: int, time: int, end: int) {
    forall i :: 0 <= i < |items| ==> last < items[i].sequence <= to && time <= items[i].time <= end
  }

  lemma {:induction false} FrameOrdered(f: Frame)
    requires FrameValid(f)
    ensures FrameItems(f) != [] && Ordered(FrameItems(f))
    ensures Within(FrameItems(f), f.firstSequence - 1, f.firstSequence + f.rowCount - 1, f.minTime, f.maxTime)
  {
    hide RowBytes, DefinitionsValid, TimeAt, H.RowSlice;
    var items := FrameItems(f);
    forall i | 0 <= i < |items| ensures f.minTime <= items[i].time <= f.maxTime {
      assert TimeAt(f, 0) <= TimeAt(f, i) <= TimeAt(f, f.rowCount - 1);
    }
  }

  lemma {:induction false} OrderedConcat(a: seq<Item>, b: seq<Item>, last: int, mid: int, to: int, t0: int, t1: int,
                                         t2: int)
    requires Ordered(a) && Ordered(b) && Within(a, last, mid, t0, t1) && Within(b, mid, to, t1, t2)
             && last <= mid <= to && t0 <= t1 <= t2
    ensures Ordered(a + b) && Within(a + b, last, to, t0, t2)
  {
    var all := a + b;
    forall i, j | 0 <= i < j < |all| ensures all[i].sequence < all[j].sequence && all[i].time <= all[j].time {
      if j < |a| {
        assert all[i] == a[i] && all[j] == a[j];
      } else if i >= |a| {
        assert all[i] == b[i - |a|] && all[j] == b[j - |a|];
      } else {
        assert all[i] == a[i] && all[j] == b[j - |a|];
      }
    }
  }

  lemma {:induction false} FramesOrdered(t: H.Table, day: int, frames: seq<Frame>, last: int, time: int)
    requires H.FramesFit(t, day, frames, last, time)
    ensures BatchesFull(BatchesOf(frames)) && Ordered(ItemsOf(BatchesOf(frames)))
    ensures Within(ItemsOf(BatchesOf(frames)), last, last + H.RowTotal(frames), time, H.EndTime(frames, time))
            && time <= H.EndTime(frames, time)
    decreases |frames|
  {
    hide FrameValid, FrameItems, Ordered, Within, BatchesOf, ItemsOf, BatchesFull;
    H.FramesEndLater(t, day, frames, last, time);
    if frames == [] {
      Nothing(last, time);
    } else {
      var front, f := frames[..|frames| - 1], frames[|frames| - 1];
      FramesOrdered(t, day, front, last, time);
      FrameOrdered(f);
      var mid, t1 := last + H.RowTotal(front), H.EndTime(front, time);
      Widen(FrameItems(f), f.firstSequence - 1, f.firstSequence + f.rowCount - 1, f.minTime, f.maxTime, t1);
      TimesOrdered(f);
      OrderedConcat(ItemsOf(BatchesOf(front)), FrameItems(f), last, mid, last + H.RowTotal(frames), time, t1,
                    f.maxTime);
      assert frames == front + [f];
      BatchAdded(front, f);
    }
  }

  lemma {:induction false} BatchAdded(front: seq<Frame>, f: Frame)
    requires BatchesFull(BatchesOf(front)) && FrameItems(f) != []
    ensures BatchesFull(BatchesOf(front + [f])) && ItemsOf(BatchesOf(front + [f])) ==
              ItemsOf(BatchesOf(front)) + FrameItems(f)
  {
    hide FrameItems;
    assert BatchesOf(front + [f]) == BatchesOf(front) + [BatchOf(f)];
    assert (BatchesOf(front) + [BatchOf(f)])[..|front|] == BatchesOf(front);
  }

  lemma {:induction false} TimesOrdered(f: Frame)
    requires FrameValid(f)
    ensures f.minTime <= f.maxTime
  {
    hide ContentValid, RowBytes;
  }

  lemma {:induction false} Nothing(last: int, time: int)
    ensures BatchesFull(BatchesOf([])) && ItemsOf(BatchesOf([])) == [] && Ordered([])
            && Within([], last, last, time, time)
  {
  }

  lemma {:induction false} Widen(items: seq<Item>, last: int, to: int, time: int, end: int, t0: int)
    requires Within(items, last, to, time, end) && t0 <= time
    ensures Within(items, last, to, t0, end)
  {
  }

  lemma {:induction false} PartAdded(a: seq<Part>, p: Part)
    requires PartsFull(a) && p.batches != [] && BatchesFull(p.batches)
    ensures PartsFull(a + [p]) && AllItems(a + [p]) == AllItems(a) + ItemsOf(p.batches)
  {
    hide ItemsOf, BatchesFull;
    assert (a + [p])[..|a|] == a;
  }

  lemma {:induction false} ReadableNext(front: seq<H.Seg>, s: H.Seg, retired: nat -> bool, size: nat -> nat)
    ensures ReadableParts(front + [s], retired, size) ==
            ReadableParts(front, retired, size) + if s.frames == [] || retired(|front|) then []
                                                  else [Part(BatchesOf(s.frames), size(|front|))]
  {
    hide BatchesOf;
    assert (front + [s])[..|front|] == front;
  }

  /** The readable segments of any table are in the order that scans rely on. */
  lemma {:induction false} HistoryScannable(t: H.Table, hist: seq<H.Seg>, retired: nat -> bool, size: nat -> nat)
    requires H.HistFits(t, hist)
    ensures Scannable(ReadableParts(hist, retired, size)) && 0 <= H.LastTime(hist)
    ensures Within(AllItems(ReadableParts(hist, retired, size)), 0, H.LastSequence(hist), 0, H.LastTime(hist))
  {
    hide FrameItems, Ordered, Within, H.FramesFit, ItemsOf, BatchesOf, ReadableParts, AllItems, BatchesFull, PartsFull;
    NoHistory(retired, size);
    if hist == [] {
    } else {
      var front, s := hist[..|hist| - 1], hist[|hist| - 1];
      assert hist == front + [s];
      HistoryScannable(t, front, retired, size);
      FramesOrdered(t, s.day, s.frames, H.LastSequence(front), H.LastTime(front));
      ReadableNext(front, s, retired, size);
      var a := ReadableParts(front, retired, size);
      if s.frames != [] && !retired(|front|) {
        var p := Part(BatchesOf(s.frames), size(|front|));
        Nonempty(s.frames);
        PartAdded(a, p);
        OrderedConcat(AllItems(a), ItemsOf(p.batches), 0, H.LastSequence(front), H.LastSequence(hist), 0,
                      H.LastTime(front), H.LastTime(hist));
      } else {
        assert a + [] == a;
        Longer(AllItems(a), 0, H.LastSequence(front), H.LastSequence(hist), 0, H.LastTime(front), H.LastTime(hist));
      }
    }
  }

  lemma {:induction false} Longer(items: seq<Item>, last: int, mid: int, to: int, time: int, between: int, end: int)
    requires Within(items, last, mid, time, between) && mid <= to && between <= end
    ensures Within(items, last, to, time, end)
  {
  }

  lemma {:induction false} Nonempty(frames: seq<Frame>)
    requires frames != []
    ensures BatchesOf(frames) != []
  {
  }

  lemma {:induction false} NoHistory(retired: nat -> bool, size: nat -> nat)
    ensures ReadableParts([], retired, size) == [] && AllItems(ReadableParts([], retired, size)) == [] && Ordered([])
            && Within([], 0, 0, 0, 0) && PartsFull([])
  {
  }

  // ---- choosing the segments ----

  lemma {:induction false} PartsBehind(o: Options, parts: seq<Part>, k: nat)
    requires Scannable(parts) && k <= |parts| && (k < |parts| ==> Rows(parts[k]) != [] && Behind(o, Rows(parts[k])))
    ensures Filter(o, AllItems(parts[k..])) == []
    decreases |parts| - k
  {
    hide Scannable, Filter, ItemsOf, AllItems, Before;
    NoItems(o);
    if k == |parts| {
      assert parts[k..] == [];
    } else {
      PartOrdered(parts, k);
      BeforeNone(o, Rows(parts[k]));
      assert parts[k..] == [parts[k]] + parts[k + 1..];
      AllConcat([parts[k]], parts[k + 1..]);
      OnePart(parts[k]);
      FilterConcat(o, Rows(parts[k]), AllItems(parts[k + 1..]));
      if k + 1 < |parts| { PartsGrow(parts, k, k + 1); }
      PartsBehind(o, parts, k + 1);
    }
  }

  lemma {:induction false} OnePart(p: Part)
    ensures AllItems([p]) == Rows(p)
  {
    hide ItemsOf;
    assert [p][..0] == [];
    assert AllItems([]) == [];
  }

  /** The second binary search: the first segment that starts at or after the end of the interval. */
  method EndPart(o: Options, parts: seq<Part>, from: nat) returns (end: nat)
    requires Scannable(parts) && from <= |parts|
    ensures from <= end <= |parts|
    ensures end < |parts| ==> Rows(parts[end]) != [] && Behind(o, Rows(parts[end]))
    ensures forall k :: from <= k < end ==> Rows(parts[k]) != [] && !Behind(o, Rows(parts[k]))
  {
    hide Scannable, ItemsOf;
    var lo, hi := from, |parts|;
    while lo < hi
      invariant from <= lo <= hi <= |parts|
      invariant hi < |parts| ==> Rows(parts[hi]) != [] && Behind(o, Rows(parts[hi]))
      invariant forall k :: from <= k < lo ==> Rows(parts[k]) != [] && !Behind(o, Rows(parts[k]))
    {
      var mid := lo + (hi - lo) / 2;
      PartOrdered(parts, mid);
      if Rows(parts[mid])[0].time < o.end {
        forall k | from <= k < mid ensures Rows(parts[k]) != [] && !Behind(o, Rows(parts[k])) {
          PartsGrow(parts, k, mid);
        }
        lo := mid + 1;
      } else {
        hi := mid;
      }
    }
    end := lo;
  }

  lemma {:induction false} NotBeforeLater(o: Options, a: seq<Item>, b: seq<Item>)
    requires a != [] && b != [] && !Before(o, a) && Last(a).sequence <= Last(b).sequence && Last(a).time <= Last(b).time
    ensures !Before(o, b)
  {
  }

  /** A stretch of the readable segments, each of which reaches into the interval and past the position. */
  ghost predicate Chosen(o: Options, readable: seq<Part>, parts: seq<Part>, a: nat, b: nat) {
    && a <= b <= |readable| && parts == readable[a..b]
    && forall k :: a <= k < b ==>
       Rows(readable[k]) != [] && !Before(o, Rows(readable[k])) && !Behind(o, Rows(readable[k]))
  }

  /** The segments that wadb_snapshot_acquire copies hold every wanted row of the table. */
  method Acquire(o: Options, readable: seq<Part>) returns (parts: seq<Part>, first: nat, end: nat)
    requires Scannable(readable)
    ensures Scannable(parts) && Filter(o, AllItems(parts)) == Filter(o, AllItems(readable))
    ensures Chosen(o, readable, parts, first, end)
  {
    hide Scannable, ItemsOf, AllItems, Filter, Before, Behind;
    first := FirstPart(o, readable);
    end := EndPart(o, readable, first);
    PartsBefore(o, readable, first);
    PartsBehind(o, readable, end);
    Slices(o, readable, first, end);
    SliceScannable(readable, first, end);
    parts := readable[first..end];
    forall k | first <= k < end ensures Rows(readable[k]) != [] && !Before(o, Rows(readable[k])) {
      PartOrdered(readable, k);
      if first < k {
        PartsGrow(readable, first, k);
        NotBeforeLater(o, Rows(readable[first]), Rows(readable[k]));
      }
    }
    assert Chosen(o, readable, parts, first, end);
    if o.start == o.end {
      assert Chosen(o, readable, [], first, first);
      EmptyInterval(o, AllItems(readable));
      NoItems(o);
      SliceScannable(readable, 0, 0);
      assert readable[0..0] == [];
      parts, end := [], first;
    }
  }

  lemma {:induction false} EmptyInterval(o: Options, items: seq<Item>)
    requires o.start == o.end
    ensures Filter(o, items) == []
  {
    hide Filter;
    FilterNone(o, items);
  }

  lemma {:induction false} Slices(o: Options, parts: seq<Part>, a: nat, b: nat)
    requires a <= b <= |parts| && Filter(o, AllItems(parts[..a])) == [] && Filter(o, AllItems(parts[b..])) == []
    ensures Filter(o, AllItems(parts[a..b])) == Filter(o, AllItems(parts))
  {
    hide *;
    assert parts == parts[..a] + parts[a..b] + parts[b..];
    AllConcat(parts[..a] + parts[a..b], parts[b..]);
    AllConcat(parts[..a], parts[a..b]);
    FilterConcat(o, AllItems(parts[..a]) + AllItems(parts[a..b]), AllItems(parts[b..]));
    FilterConcat(o, AllItems(parts[..a]), AllItems(parts[a..b]));
  }

  lemma {:induction false} SliceScannable(parts: seq<Part>, a: nat, b: nat)
    requires Scannable(parts) && a <= b <= |parts|
    ensures Scannable(parts[a..b])
  {
    hide ItemsOf, AllItems, Ordered, BatchesFull;
    assert parts == parts[..a] + parts[a..b] + parts[b..];
    AllConcat(parts[..a] + parts[a..b], parts[b..]);
    AllConcat(parts[..a], parts[a..b]);
    OrderedPart(AllItems(parts[..a]), AllItems(parts[a..b]), AllItems(parts[b..]));
  }

  lemma {:induction false} CostConcat(a: seq<Part>, b: seq<Part>)
    ensures TotalCost(a + b) == TotalCost(a) + TotalCost(b)
  {
    hide PartCost;
    if a == [] {
      assert a + b == b;
    } else {
      assert (a + b)[1..] == a[1..] + b;
      CostConcat(a[1..], b);
    }
  }

  lemma {:induction false} SliceCost(parts: seq<Part>, a: nat, b: nat)
    requires a <= b <= |parts|
    ensures TotalCost(parts[a..b]) <= TotalCost(parts)
  {
    hide TotalCost;
    assert parts == parts[..a] + parts[a..b] + parts[b..];
    CostConcat(parts[..a] + parts[a..b], parts[b..]);
    CostConcat(parts[..a], parts[a..b]);
  }

  /** wadb_scan on a table: a snapshot and a scan of it answer for all readable rows of the table. */
  method Scan(o: Options, consume: Callback, readable: seq<Part>, lets: Lets, rebuilt: Rebuilt)
    returns (r: Option<State>)
    requires Scannable(readable)
    ensures r.None? <==> o.end < o.start || o.limit == 0 || o.budget == 0
    ensures r.Some? ==> Agrees(o, consume, r.value, AllItems(readable))
    ensures r.Some? && Calm(lets, rebuilt) && TotalCost(readable) <= o.budget ==> !r.value.phase.Failed?
  {
    hide Scannable, AllItems, Filter, Calm, TotalCost, TotalNeed, PartCost;
    if o.end < o.start || o.limit == 0 || o.budget == 0 { return None; }
    var parts, first, end := Acquire(o, readable);
    SliceCost(readable, first, end);
    var st := ScanSnapshot(o, consume, parts, lets, rebuilt);
    r := Some(st);
  }
}
