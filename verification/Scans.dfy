/** Scanning a snapshot (src/query/scan.c:48-187, src/storage/index.c:215-228). The
    environment is a parameter: lets(n) says whether the n-th thing that can fail, such
    as a read, an allocation or a look at the clock, lets the scan go on, and
    rebuilt(n) how many bytes of index had to be rebuilt at that point. */
module Scans {
  import opened Bytes
  import opened Items

  /** The callback: given the rows it was handed before and the next one, whether it accepts. */
  type Callback = (seq<Item>, Item) -> bool

  /** How far a scan is: still going, stopped at its limit, refused by the callback, or failed. */
  datatype Phase = Going | AtLimit | Refused | Failed

  datatype State = State(handed: seq<Item>, bytes: nat, tick: nat, phase: Phase)

  type Lets = nat -> bool

  type Rebuilt = nat -> nat

  /** A snapshot that is in order. */
  predicate Scannable(parts: seq<Part>) { PartsFull(parts) && Ordered(AllItems(parts)) }

  function Rows(p: Part): seq<Item> { ItemsOf(p.batches) }

  // ---- facts about parts in order ----

  lemma {:induction false} ItemsNonempty(batches: seq<Batch>)
    requires batches != [] && BatchesFull(batches)
    ensures ItemsOf(batches) != []
  {
  }

  lemma {:induction false} PartOrdered(parts: seq<Part>, k: nat)
    requires Scannable(parts) && k < |parts|
    ensures Rows(parts[k]) != [] && Ordered(Rows(parts[k])) && BatchesFull(parts[k].batches)
  {
    hide ItemsOf, AllItems, Ordered;
    ItemsNonempty(parts[k].batches);
    PartSplit(parts, k);
    OrderedPart(AllItems(parts[..k]), Rows(parts[k]), AllItems(parts[k + 1..]));
  }

  lemma {:induction false} BatchOrdered(batches: seq<Batch>, k: nat)
    requires BatchesFull(batches) && Ordered(ItemsOf(batches)) && k < |batches|
    ensures batches[k].items != [] && Ordered(batches[k].items)
  {
    hide ItemsOf, Ordered;
    BatchSplit(batches, k);
    OrderedPart(ItemsOf(batches[..k]), batches[k].items, ItemsOf(batches[k + 1..]));
  }

  lemma {:induction false} MiddleLast(a: seq<Item>, b: seq<Item>, c: seq<Item>)
    requires b != []
    ensures |a| + |b| - 1 < |a + b + c| && (a + b + c)[|a| + |b| - 1] == Last(b)
  {
  }

  /** Later frames end later and start later. */
  lemma {:induction false} BatchesGrow(batches: seq<Batch>, i: nat, j: nat)
    requires BatchesFull(batches) && Ordered(ItemsOf(batches)) && i < j < |batches|
    ensures Last(batches[i].items).sequence < batches[j].items[0].sequence
            && Last(batches[i].items).time <= batches[j].items[0].time
    ensures batches[j].items[0].sequence <= Last(batches[j].items).sequence
            && batches[j].items[0].time <= Last(batches[j].items).time
    ensures batches[i].items[0].time <= batches[j].items[0].time
  {
    hide ItemsOf;
    BatchSplit(batches, j);
    OrderedPart(ItemsOf(batches[..j]), batches[j].items, ItemsOf(batches[j + 1..]));
    BatchSplit(batches[..j], i);
    assert batches[..j][i] == batches[i];
    BatchOrdered(batches, j);
    BatchOrdered(batches, i);
    LastBounds(batches[j].items, |batches[j].items| - 1);
    LastBounds(batches[i].items, |batches[i].items| - 1);
    MiddleLast(ItemsOf(batches[..j][..i]), batches[i].items, ItemsOf(batches[..j][i + 1..]));
  }

  lemma {:induction false} PartsGrow(parts: seq<Part>, i: nat, j: nat)
    requires Scannable(parts) && i < j < |parts|
    ensures Rows(parts[i]) != [] && Rows(parts[j]) != []
    ensures Last(Rows(parts[i])).sequence < Rows(parts[j])[0].sequence
            && Last(Rows(parts[i])).time <= Rows(parts[j])[0].time
    ensures Rows(parts[j])[0].sequence <= Last(Rows(parts[j])).sequence
            && Rows(parts[j])[0].time <= Last(Rows(parts[j])).time
    ensures Rows(parts[i])[0].time <= Rows(parts[j])[0].time
  {
    hide ItemsOf, AllItems;
    PartSplit(parts, j);
    OrderedPart(AllItems(parts[..j]), Rows(parts[j]), AllItems(parts[j + 1..]));
    PartSplit(parts[..j], i);
    assert parts[..j][i] == parts[i];
    PartOrdered(parts, j);
    PartOrdered(parts, i);
    LastBounds(Rows(parts[j]), |Rows(parts[j])| - 1);
    LastBounds(Rows(parts[i]), |Rows(parts[i])| - 1);
    MiddleLast(AllItems(parts[..j][..i]), Rows(parts[i]), AllItems(parts[..j][i + 1..]));
  }

  // ---- what reading costs ----

  function BatchesCost(batches: seq<Batch>): nat {
    if batches == [] then 0 else batches[0].size + BatchesCost(batches[1..])
  }

  function PartCost(p: Part): nat { p.dictionary + BatchesCost(p.batches) }

  function TotalCost(parts: seq<Part>): nat {
    if parts == [] then 0 else PartCost(parts[0]) + TotalCost(parts[1..])
  }

  /** The frames that hold a wanted row cannot be left out. */
  function BatchesNeed(o: Options, batches: seq<Batch>): nat {
    if batches == [] then 0
    else (if Filter(o, batches[0].items) == [] then 0 else batches[0].size) + BatchesNeed(o, batches[1..])
  }

  /** Neither can the dictionary of a segment with such a frame. */
  function PartNeed(o: Options, p: Part): nat {
    if Filter(o, Rows(p)) == [] then 0 else p.dictionary + BatchesNeed(o, p.batches)
  }

  function TotalNeed(o: Options, parts: seq<Part>): nat {
    if parts == [] then 0 else PartNeed(o, parts[0]) + TotalNeed(o, parts[1..])
  }

  /** Some wanted row of these stands at or before a sequence number. */
  predicate Reaches(o: Options, items: seq<Item>, last: int) {
    Filter(o, items) != [] && Filter(o, items)[0].sequence <= last
  }

  /** What a scan has to read to get as far as a sequence number: the frames that hold a wanted row up to there, and the
      dictionaries of their segments. */
  function BatchesRead(o: Options, batches: seq<Batch>, last: int): nat {
    if batches == [] then 0
    else (if Reaches(o, batches[0].items, last) then batches[0].size else 0) + BatchesRead(o, batches[1..], last)
  }

  function PartRead(o: Options, p: Part, last: int): nat {
    if !Reaches(o, Rows(p), last) then 0 else p.dictionary + BatchesRead(o, p.batches, last)
  }

  function TotalRead(o: Options, parts: seq<Part>, last: int): nat {
    if parts == [] then 0 else PartRead(o, parts[0], last) + TotalRead(o, parts[1..], last)
  }

  /** The number of the last row handed over. */
  function LastOf(st: State): int { if st.handed == [] then -1 else Last(st.handed).sequence }

  /** What is read to get somewhere is part of what is needed in all, without what lies behind. */
  lemma {:induction false} BatchesReadBound(o: Options, batches: seq<Batch>, k: nat, last: int)
    requires k <= |batches| && forall i :: k <= i < |batches| ==> !Reaches(o, batches[i].items, last)
    ensures BatchesRead(o, batches, last) + BatchesNeed(o, batches[k..]) <= BatchesNeed(o, batches)
    decreases |batches|
  {
    hide Filter;
    if batches != [] {
      var rest := batches[1..];
      assert forall i :: 0 <= i < |rest| ==> rest[i] == batches[i + 1];
      if k == 0 {
        assert !Reaches(o, batches[0].items, last);
        BatchesReadBound(o, rest, 0, last);
        assert rest[0..] == rest && batches[0..] == batches;
      } else {
        BatchesReadBound(o, rest, k - 1, last);
        assert rest[k - 1..] == batches[k..];
      }
    }
  }

  lemma {:induction false} ReadSkipped(o: Options, batches: seq<Batch>, k: nat, last: int)
    requires k <= |batches| && forall i :: 0 <= i < k ==> Filter(o, batches[i].items) == []
    ensures BatchesRead(o, batches[k..], last) == BatchesRead(o, batches, last)
    decreases k
  {
    hide Filter;
    if k == 0 {
      assert batches[0..] == batches;
    } else {
      ReadSkipped(o, batches, k - 1, last);
      assert batches[k - 1..][1..] == batches[k..];
    }
  }

  lemma {:induction false} PartReadBound(o: Options, p: Part, last: int)
    ensures PartRead(o, p, last) <= PartNeed(o, p)
  {
    hide Filter, BatchesRead, BatchesNeed;
    BatchesReadBound(o, p.batches, |p.batches|, last);
    assert p.batches[|p.batches|..] == [];
  }

  lemma {:induction false} TotalReadBound(o: Options, parts: seq<Part>, i: nat, last: int)
    requires i <= |parts| && forall j :: i < j < |parts| ==> !Reaches(o, Rows(parts[j]), last)
    ensures TotalRead(o, parts, last) + TotalNeed(o, parts[i..]) <=
              TotalNeed(o, parts) + if i < |parts| then PartRead(o, parts[i], last) else 0
    decreases |parts|
  {
    hide PartRead, PartNeed, Reaches;
    if parts != [] {
      var rest := parts[1..];
      assert forall j :: 0 <= j < |rest| ==> rest[j] == parts[j + 1];
      PartReadBound(o, parts[0], last);
      if i == 0 {
        assert parts[0..] == parts;
        NoneRead(o, rest, last);
      } else {
        TotalReadBound(o, rest, i - 1, last);
        assert rest[i - 1..] == parts[i..];
      }
    }
  }

  lemma {:induction false} NoneRead(o: Options, parts: seq<Part>, last: int)
    requires forall j :: 0 <= j < |parts| ==> !Reaches(o, Rows(parts[j]), last)
    ensures TotalRead(o, parts, last) == 0
  {
    hide Reaches;
    if parts != [] {
      assert forall j :: 0 <= j < |parts[1..]| ==> parts[1..][j] == parts[j + 1];
      NoneRead(o, parts[1..], last);
    }
  }

  /** The first wanted row stays the first when some rows before it are no longer wanted. */
  lemma {:induction false} FirstStays(o: Options, o': Options, items: seq<Item>)
    requires (forall x :: Wanted(o', x) ==> Wanted(o, x)) && Filter(o, items) != [] && Wanted(o', Filter(o, items)[0])
    ensures Filter(o', items) != [] && Filter(o', items)[0] == Filter(o, items)[0]
  {
    hide Wanted;
    var front := items[..|items| - 1];
    if Filter(o, front) != [] {
      FirstStays(o, o', front);
    } else {
      FilterLess(o, o', front);
    }
  }

  lemma {:induction false} FilterLess(o: Options, o': Options, items: seq<Item>)
    requires (forall x :: Wanted(o', x) ==> Wanted(o, x)) && Filter(o, items) == []
    ensures Filter(o', items) == []
  {
    hide Wanted;
    if items != [] { FilterLess(o, o', items[..|items| - 1]); }
  }

  lemma {:induction false} ReachesSplit(o: Options, items: seq<Item>, mid: nat, last: int)
    requires o.after <= mid && Reaches(o, items, last)
    ensures Reaches(o, items, mid) || Reaches(o.(after := mid), items, last)
  {
    hide Filter;
    var x := Filter(o, items)[0];
    var i := FilterIn(o, items, 0);
    if x.sequence > mid { FirstStays(o, o.(after := mid), items); }
  }

  lemma {:induction false} BatchesSplit(o: Options, batches: seq<Batch>, mid: nat, last: int)
    requires o.after <= mid
    ensures BatchesRead(o, batches, last) <=
              BatchesRead(o, batches, mid) + BatchesRead(o.(after := mid), batches, last)
  {
    hide Reaches;
    if batches != [] {
      if Reaches(o, batches[0].items, last) { ReachesSplit(o, batches[0].items, mid, last); }
      BatchesSplit(o, batches[1..], mid, last);
    }
  }

  /** Getting somewhere in two steps reads no less than getting there in one. */
  lemma {:induction false} ReadInSteps(o: Options, parts: seq<Part>, mid: nat, last: int)
    requires o.after <= mid <= last && Scannable(parts)
    ensures TotalRead(o, parts, last) <= TotalRead(o, parts, mid) + TotalRead(o.(after := mid), parts, last)
  {
    hide Scannable, PartRead, TotalRead, Ordered, ItemsOf;
    forall i | 0 <= i < |parts| ensures Ordered(Rows(parts[i])) { PartOrdered(parts, i); }
    PartsInSteps(o, parts, mid, last);
  }

  /** If the first wanted row of a segment is beyond a number, no frame of it has one up to there. */
  lemma {:induction false} Unreached(o: Options, batches: seq<Batch>, last: int)
    requires Ordered(ItemsOf(batches)) && !Reaches(o, ItemsOf(batches), last)
    ensures BatchesRead(o, batches, last) == 0
  {
    hide ItemsOf, Filter, BatchesRead, BatchesNeed;
    forall i | 0 <= i < |batches| ensures !Reaches(o, batches[i].items, last) {
      BatchSplit(batches, i);
      var a, b, c := ItemsOf(batches[..i]), batches[i].items, ItemsOf(batches[i + 1..]);
      FilterConcat(o, a + b, c);
      FilterConcat(o, a, b);
      if Filter(o, a) != [] && Filter(o, b) != [] {
        var k := FilterIn(o, a, 0);
        var n := FilterIn(o, b, 0);
        assert (a + b + c)[k] == a[k] && (a + b + c)[|a| + n] == b[n];
      }
    }
    BatchesReadBound(o, batches, 0, last);
    assert batches[0..] == batches;
  }

  lemma {:induction false} PartsInSteps(o: Options, parts: seq<Part>, mid: nat, last: int)
    requires o.after <= mid <= last && forall i :: 0 <= i < |parts| ==> Ordered(Rows(parts[i]))
    ensures TotalRead(o, parts, last) <= TotalRead(o, parts, mid) + TotalRead(o.(after := mid), parts, last)
  {
    hide PartRead, Ordered, ItemsOf;
    if parts != [] {
      PartInSteps(o, parts[0], mid, last);
      PartsInSteps(o, parts[1..], mid, last);
    }
  }

  lemma {:induction false} PartInSteps(o: Options, p: Part, mid: nat, last: int)
    requires o.after <= mid <= last && Ordered(Rows(p))
    ensures PartRead(o, p, last) <= PartRead(o, p, mid) + PartRead(o.(after := mid), p, last)
  {
    hide Filter, ItemsOf, BatchesRead, Reaches, Ordered;
    BatchesSplit(o, p.batches, mid, last);
    if Reaches(o, Rows(p), last) { ReachesSplit(o, Rows(p), mid, last); }
    if !Reaches(o, Rows(p), mid) { Unreached(o, p.batches, mid); }
    if !Reaches(o.(after := mid), Rows(p), last) { Unreached(o.(after := mid), p.batches, last); }
  }

  /** A scan that ended among the first rows has handed over none of the others. */
  lemma {:induction false} NotReached(o: Options, consume: Callback, st: State, seen: seq<Item>, more: seq<Item>)
    requires Agrees(o, consume, st, seen) && st.handed != [] && Ordered(seen + more)
    ensures !Reaches(o, more, LastOf(st))
  {
    hide Ordered;
    var w, k := Filter(o, seen), |st.handed| - 1;
    assert st.handed <= w && w[k] == Last(st.handed);
    var i := FilterIn(o, seen, k);
    if Filter(o, more) != [] {
      var j := FilterIn(o, more, 0);
      OrderedAcross(seen, more, i, j);
    }
  }

  lemma {:induction false} OrderedAcross(a: seq<Item>, b: seq<Item>, i: nat, j: nat)
    requires Ordered(a + b) && i < |a| && j < |b|
    ensures a[i].sequence < b[j].sequence
  {
    assert (a + b)[i] == a[i] && (a + b)[|a| + j] == b[j];
  }

  /** Nothing fails and no index has to be rebuilt. */
  ghost predicate Calm(lets: Lets, rebuilt: Rebuilt) { forall n: nat :: lets(n) && rebuilt(n) == 0 }

  /** A stretch of a scan charges at least what is needed if it goes through, and what it has to read to get where it
      ends; and when all is calm and the budget covers the stretch, it does not fail and charges no more than the
      stretch costs. */
  ghost predicate Fair(o: Options, st: State, r: State, calm: bool, cost: nat, need: nat, read: nat) {
    && (calm && st.bytes + cost <= o.budget ==> !r.phase.Failed? && r.bytes <= st.bytes + cost)
    && (r.phase.Going? ==> r.bytes >= st.bytes + need)
    && (!r.phase.Failed? ==> r.bytes >= st.bytes + read)
  }

  lemma {:induction false} BatchesFrom(o: Options, batches: seq<Batch>, i: nat)
    requires i < |batches|
    ensures BatchesCost(batches[i..]) == batches[i].size + BatchesCost(batches[i + 1..])
    ensures BatchesNeed(o, batches[i..]) == (if Filter(o, batches[i].items) == [] then 0 else batches[i].size) +
              BatchesNeed(o, batches[i + 1..])
  {
    hide Filter;
    assert batches[i..][1..] == batches[i + 1..];
  }

  lemma {:induction false} NothingNeeded(o: Options, batches: seq<Batch>)
    requires forall i :: 0 <= i < |batches| ==> Filter(o, batches[i].items) == []
    ensures BatchesNeed(o, batches) == 0
  {
    hide Filter;
    if batches != [] {
      assert forall i :: 0 <= i < |batches[1..]| ==> batches[1..][i] == batches[i + 1];
      NothingNeeded(o, batches[1..]);
    }
  }

  /** Skipping frames before which nothing is wanted saves cost and misses nothing needed. */
  lemma {:induction false} SkippedFree(o: Options, batches: seq<Batch>, k: nat)
    requires k <= |batches| && forall i :: 0 <= i < k ==> Filter(o, batches[i].items) == []
    ensures BatchesCost(batches[k..]) <= BatchesCost(batches) && BatchesNeed(o, batches[k..]) == BatchesNeed(o, batches)
    decreases k
  {
    hide Filter;
    if k == 0 {
      assert batches[0..] == batches;
    } else {
      SkippedFree(o, batches, k - 1);
      BatchesFrom(o, batches, k - 1);
    }
  }

  // ---- what has been handed over ----

  predicate Accepted(consume: Callback, handed: seq<Item>, n: nat)
    requires n <= |handed|
  {
    forall k :: 0 <= k < n ==> consume(handed[..k], handed[k])
  }

  /** After looking at some rows, the callback has had exactly the wanted ones among them while the scan is going,
      and a prefix of them when it ended early. */
  predicate Agrees(o: Options, consume: Callback, st: State, seen: seq<Item>) {
    && st.bytes <= o.budget
    && match st.phase
       case Going => st.handed == Filter(o, seen) && |st.handed| < o.limit && Accepted(consume, st.handed, |st.handed|)
       case AtLimit => st.handed <= Filter(o, seen) && |st.handed| == o.limit
       && Accepted(consume, st.handed, |st.handed|)
       case Failed => st.handed <= Filter(o, seen) && |st.handed| < o.limit && Accepted(consume, st.handed, |st.handed|)
       case Refused =>
         && st.handed <= Filter(o, seen) && 0 < |st.handed| <= o.limit && Accepted(consume, st.handed, |st.handed| - 1)
         && !consume(st.handed[..|st.handed| - 1], Last(st.handed))
  }

  /** Rows that come later do not disturb an ended scan; rows that are not wanted disturb none. */
  lemma {:induction false} AgreesLater(o: Options, consume: Callback, st: State, seen: seq<Item>, more: seq<Item>)
    requires Agrees(o, consume, st, seen) && (st.phase.Going? ==> Filter(o, more) == [])
    ensures Agrees(o, consume, st, seen + more)
  {
    hide Filter;
    FilterConcat(o, seen, more);
  }

  /** One row: the body of the row loop after the deadline check. */
  method ScanRow(o: Options, consume: Callback, st: State, x: Item, lets: Lets, ghost seen: seq<Item>)
    returns (r: State)
    requires st.phase.Going? && Agrees(o, consume, st, seen)
    ensures Agrees(o, consume, r, seen + [x]) && r.bytes == st.bytes
            && ((forall n: nat :: lets(n)) ==> !r.phase.Failed?)
  {
    hide Filter;
    FilterConcat(o, seen, [x]);
    FilterOne(o, x);
    if !Wanted(o, x) { return st; }
    if !lets(st.tick) { return st.(tick := st.tick + 1, phase := Failed); }
    r := st.(handed := st.handed + [x], tick := st.tick + 1);
    ghost var n := |st.handed|;
    assert r.handed[..n] == st.handed;
    forall k | 0 <= k < n ensures r.handed[..k] == st.handed[..k] && r.handed[k] == st.handed[k] { }
    if !consume(st.handed, x) { return r.(phase := Refused); }
    if |r.handed| == o.limit { return r.(phase := AtLimit); }
  }

  lemma {:induction false} FilterOne(o: Options, x: Item)
    ensures Filter(o, [x]) == if Wanted(o, x) then [x] else []
  {
    assert [x][..0] == [];
    assert Filter(o, []) == [];
  }

  /** The row loop over one frame. */
  method ScanRows(o: Options, consume: Callback, st: State, items: seq<Item>, lets: Lets, ghost seen: seq<Item>)
    returns (r: State)
    requires st.phase.Going? && Agrees(o, consume, st, seen)
    ensures Agrees(o, consume, r, seen + items) && r.bytes == st.bytes
            && ((forall n: nat :: lets(n)) ==> !r.phase.Failed?)
  {
    hide Agrees;
    r := st;
    var i := 0;
    assert seen + items[..0] == seen;
    while i < |items| && r.phase.Going?
      invariant 0 <= i <= |items| && Agrees(o, consume, r, seen + items[..i]) && r.bytes == st.bytes
      invariant (forall n: nat :: lets(n)) ==> !r.phase.Failed?
    {
      if i % 256 == 0 && !lets(r.tick) {
        FailedAgrees(o, consume, r, seen + items[..i]);
        r := Fail(r);
        break;
      }
      r := ScanRow(o, consume, r, items[i], lets, seen + items[..i]);
      assert seen + items[..i + 1] == seen + items[..i] + [items[i]];
      i := i + 1;
    }
    assert seen + items == seen + items[..i] + items[i..];
    NothingLeft(o, items, i, r);
    AgreesLater(o, consume, r, seen + items[..i], items[i..]);
  }

  /** The state after a failure. */
  function Fail(st: State): State { st.(tick := st.tick + 1, phase := Failed) }

  /** The state after a step that went well and read some bytes. */
  function Spend(st: State, bytes: nat): State { st.(bytes := st.bytes + bytes, tick := st.tick + 1) }

  lemma {:induction false} FailedAgrees(o: Options, consume: Callback, st: State, seen: seq<Item>)
    requires st.phase.Going? && Agrees(o, consume, st, seen)
    ensures Agrees(o, consume, Fail(st), seen) && st.bytes <= o.budget
  {
  }

  lemma {:induction false} SpentAgrees(o: Options, consume: Callback, st: State, seen: seq<Item>, bytes: nat)
    requires st.phase.Going? && Agrees(o, consume, st, seen) && bytes <= o.budget - st.bytes
    ensures Agrees(o, consume, Spend(st, bytes), seen)
  {
  }

  lemma {:induction false} NothingLeft(o: Options, items: seq<Item>, i: nat, st: State)
    requires i <= |items| && (st.phase.Going? ==> i == |items|)
    ensures st.phase.Going? ==> Filter(o, items[i..]) == []
  {
  }

  // ---- one segment ----

  /** A step that may fail, or may find that some index bytes had to be rebuilt: they count against the budget. */
  method Account(o: Options, consume: Callback, st: State, lets: Lets, rebuilt: Rebuilt, ghost seen: seq<Item>)
    returns (r: State)
    requires st.phase.Going? && Agrees(o, consume, st, seen)
    ensures Agrees(o, consume, r, seen) && r.phase in {Going, Failed} && r.handed == st.handed
            && Fair(o, st, r, Calm(lets, rebuilt), 0, 0, 0)
  {
    hide Agrees;
    FailedAgrees(o, consume, st, seen);
    if !lets(st.tick) { return Fail(st); }
    var extra := rebuilt(st.tick);
    if extra > o.budget - st.bytes { return Fail(st); }
    SpentAgrees(o, consume, st, seen, extra);
    r := Spend(st, extra);
  }

  /** wadb_index_lower_bound: the first frame that is not Before. Each probe of the index may fail. */
  method LowerBound(o: Options, batches: seq<Batch>, lets: Lets, tick: nat) returns (position: Option<nat>, next: nat)
    requires BatchesFull(batches) && Ordered(ItemsOf(batches))
    ensures position.Some? ==> position.value <= |batches|
    ensures position.Some? ==> forall k :: 0 <= k < position.value ==> Before(o, batches[k].items)
    ensures position.Some? && position.value < |batches| ==> !Before(o, batches[position.value].items)
    ensures (forall n: nat :: lets(n)) ==> position.Some?
  {
    hide ItemsOf, Ordered;
    var lo, hi := 0, |batches|;
    next := tick;
    while lo < hi
      invariant 0 <= lo <= hi <= |batches|
      invariant forall k :: 0 <= k < lo ==> Before(o, batches[k].items)
      invariant hi < |batches| ==> !Before(o, batches[hi].items)
    {
      var mid := lo + (hi - lo) / 2;
      if !lets(next) { return None, next + 1; }
      next := next + 1;
      if Before(o, batches[mid].items) {
        forall k | 0 <= k < mid ensures Before(o, batches[k].items) {
          BatchesGrow(batches, k, mid);
          BatchOrdered(batches, k);
          BeforeEarlier(o, batches[k].items, batches[mid].items);
        }
        lo := mid + 1;
      } else {
        hi := mid;
      }
    }
    position := Some(lo);
  }

  lemma {:induction false} BatchesBefore(o: Options, batches: seq<Batch>, k: nat)
    requires BatchesFull(batches) && Ordered(ItemsOf(batches)) && k <= |batches|
    requires forall i :: 0 <= i < k ==> Before(o, batches[i].items)
    ensures Filter(o, ItemsOf(batches[..k])) == []
    decreases k
  {
    hide Ordered, Filter, Before;
    if k == 0 {
      NoItems(o);
    } else {
      BatchesBefore(o, batches, k - 1);
      BatchNext(batches, k - 1);
      BatchOrdered(batches, k - 1);
      BeforeNone(o, batches[k - 1].items);
      FilterConcat(o, ItemsOf(batches[..k - 1]), batches[k - 1].items);
    }
  }

  lemma {:induction false} NoItems(o: Options)
    ensures ItemsOf([]) == [] && AllItems([]) == [] && Filter(o, []) == []
  {
  }

  /** From a frame that starts at or after the end of the interval on, nothing is wanted. */
  lemma {:induction false} BatchesBehind(o: Options, batches: seq<Batch>, k: nat)
    requires BatchesFull(batches) && Ordered(ItemsOf(batches)) && k < |batches| && Behind(o, batches[k].items)
    ensures Filter(o, ItemsOf(batches[k..])) == []
    decreases |batches| - k
  {
    hide Ordered, Filter, ItemsOf;
    BatchOrdered(batches, k);
    BeforeNone(o, batches[k].items);
    NoItems(o);
    assert batches[k..] == [batches[k]] + batches[k + 1..];
    ItemsConcat([batches[k]], batches[k + 1..]);
    OneBatch(batches[k]);
    FilterConcat(o, batches[k].items, ItemsOf(batches[k + 1..]));
    if k + 1 < |batches| {
      BatchesGrow(batches, k, k + 1);
      BatchesBehind(o, batches, k + 1);
    } else {
      assert batches[k + 1..] == [];
    }
  }

  lemma {:induction false} OneBatch(b: Batch)
    ensures ItemsOf([b]) == b.items
  {
    assert [b][..0] == [];
    assert ItemsOf([]) == [];
  }

  /** The frame loop of a segment, from a position before which nothing is wanted. */
  method ScanBatches(o: Options, consume: Callback, st: State, batches: seq<Batch>, from: nat, lets: Lets,
                     rebuilt: Rebuilt, ghost seen: seq<Item>) returns (r: State)
    requires st.phase.Going? && BatchesFull(batches) && Ordered(ItemsOf(batches)) && from <= |batches|
    requires Agrees(o, consume, st, seen + ItemsOf(batches[..from])) && Ordered(seen + ItemsOf(batches)) && o.limit > 0
    ensures Agrees(o, consume, r, seen + ItemsOf(batches))
    ensures Fair(o, st, r, Calm(lets, rebuilt), BatchesCost(batches[from..]), BatchesNeed(o, batches[from..]),
                 BatchesRead(o, batches[from..], LastOf(r)))
  {
    hide Agrees, ItemsOf, Ordered, Filter, BatchesCost, BatchesNeed, BatchesRead, LastOf, Reaches, Calm;
    ghost var calm := Calm(lets, rebuilt);
    CalmLets(lets, rebuilt);
    r := st;
    var i := from;
    while i < |batches| && r.phase.Going?
      invariant from <= i <= |batches| && Agrees(o, consume, r, seen + ItemsOf(batches[..i]))
      invariant OnBudget(o, st, r, calm, batches, from, i)
    {
      BatchesFrom(o, batches, i);
      ghost var done := seen + ItemsOf(batches[..i]);
      r := Account(o, consume, r, lets, rebuilt, done);
      if !r.phase.Going? { break; }
      if Behind(o, batches[i].items) { break; }
      FailedAgrees(o, consume, r, done);
      if batches[i].size > o.budget - r.bytes {
        r := Fail(r);
        break;
      }
      SpentAgrees(o, consume, r, done, batches[i].size);
      r := Spend(r, batches[i].size);
      r := ScanRows(o, consume, r, batches[i].items, lets, done);
      BatchNext(batches, i);
      assert done + batches[i].items == seen + ItemsOf(batches[..i + 1]);
      i := i + 1;
    }
    assert batches == batches[..i] + batches[i..];
    ItemsConcat(batches[..i], batches[i..]);
    assert seen + ItemsOf(batches) == seen + ItemsOf(batches[..i]) + ItemsOf(batches[i..]);
    NoItems(o);
    if i < |batches| && Behind(o, batches[i].items) {
      BatchesBehind(o, batches, i);
      BehindFree(o, batches, i);
    }
    if i == |batches| {
      assert batches[i..] == [];
      NothingNeeded(o, batches[i..]);
    }
    if !r.phase.Failed? { ReadSoFar(o, consume, r, batches, from, i, seen); }
    AgreesLater(o, consume, r, seen + ItemsOf(batches[..i]), ItemsOf(batches[i..]));
  }

  lemma {:induction false} ReadSoFar(o: Options, consume: Callback, r: State, batches: seq<Batch>, from: nat, i: nat,
                                     seen: seq<Item>)
    requires from <= i <= |batches| && Ordered(seen + ItemsOf(batches)) && !r.phase.Failed? && o.limit > 0
    requires Agrees(o, consume, r, seen + ItemsOf(batches[..i]))
    requires r.phase.Going? ==> BatchesNeed(o, batches[i..]) == 0
    ensures BatchesRead(o, batches[from..], LastOf(r)) + BatchesNeed(o, batches[i..]) <= BatchesNeed(o, batches[from..])
  {
    hide Ordered, ItemsOf, BatchesRead, BatchesNeed, Reaches, Filter;
    var rest := batches[from..];
    if r.phase.Going? {
      BatchesReadBound(o, rest, |rest|, LastOf(r));
      NothingNeeded(o, rest[|rest|..]);
    } else {
      EndedNonempty(o, consume, r, seen + ItemsOf(batches[..i]));
      forall j | i - from <= j < |rest| ensures !Reaches(o, rest[j].items, LastOf(r)) {
        var n := from + j;
        BatchSplit(batches, n);
        assert batches[..n] == batches[..i] + batches[i..n];
        ItemsConcat(batches[..i], batches[i..n]);
        var a, b, c := seen + ItemsOf(batches[..i]), ItemsOf(batches[i..n]), ItemsOf(batches[n + 1..]);
        assert seen + ItemsOf(batches) == (a + b) + batches[n].items + c;
        OrderedSplit(a, b, batches[n].items, c);
        NotReached(o, consume, r, a, batches[n].items);
      }
      BatchesReadBound(o, rest, i - from, LastOf(r));
      assert rest[i - from..] == batches[i..];
    }
  }

  lemma {:induction false} EndedNonempty(o: Options, consume: Callback, st: State, seen: seq<Item>)
    requires Agrees(o, consume, st, seen) && st.phase in {AtLimit, Refused} && o.limit > 0
    ensures st.handed != []
  {
  }

  lemma {:induction false} OrderedSplit(a: seq<Item>, b: seq<Item>, c: seq<Item>, d: seq<Item>)
    requires Ordered((a + b) + c + d)
    ensures Ordered(a + c)
  {
    var all, n := (a + b) + c + d, |a| + |b|;
    forall i, j | 0 <= i < j < |a + c|
      ensures (a + c)[i].sequence < (a + c)[j].sequence && (a + c)[i].time <= (a + c)[j].time
    {
      var x, y := if i < |a| then i else i + |b|, if j < |a| then j else j + |b|;
      assert all[x] == (a + c)[i] && all[y] == (a + c)[j];
    }
  }

  /** What is spent on the frames between two positions, told by what the frames from either on cost and need. */
  ghost predicate OnBudget(o: Options, st: State, r: State, calm: bool, batches: seq<Batch>, from: nat, i: nat)
    requires from <= i <= |batches|
  {
    && (calm && st.bytes + BatchesCost(batches[from..]) <= o.budget ==>
        !r.phase.Failed? && r.bytes + (if r.phase.Going? then BatchesCost(batches[i..]) else 0) <= st.bytes +
          BatchesCost(batches[from..]))
    && (!r.phase.Failed? ==> r.bytes + BatchesNeed(o, batches[i..]) >= st.bytes + BatchesNeed(o, batches[from..]))
  }

  lemma {:induction false} CalmLets(lets: Lets, rebuilt: Rebuilt)
    ensures Calm(lets, rebuilt) ==> forall n: nat :: lets(n)
  {
  }

  lemma {:induction false} BehindFree(o: Options, batches: seq<Batch>, k: nat)
    requires BatchesFull(batches) && Ordered(ItemsOf(batches)) && k < |batches| && Behind(o, batches[k].items)
    ensures BatchesNeed(o, batches[k..]) == 0
  {
    hide Ordered, Filter, ItemsOf, BatchesNeed;
    forall i | 0 <= i < |batches[k..]| ensures Filter(o, batches[k..][i].items) == [] {
      var j := k + i;
      BatchOrdered(batches, j);
      if k < j { BatchesGrow(batches, k, j); }
      BeforeNone(o, batches[j].items);
    }
    NothingNeeded(o, batches[k..]);
  }

  /** One segment: open it, charge its dictionary, find the first frame, and scan on from there. */
  method ScanPart(o: Options, consume: Callback, st: State, part: Part, lets: Lets, rebuilt: Rebuilt,
                  ghost seen: seq<Item>) returns (r: State)
    requires st.phase.Going? && Agrees(o, consume, st, seen) && BatchesFull(part.batches) && Ordered(Rows(part))
    requires Ordered(seen + Rows(part)) && o.limit > 0
    ensures Agrees(o, consume, r, seen + Rows(part))
    ensures Fair(o, st, r, Calm(lets, rebuilt), PartCost(part), PartNeed(o, part), PartRead(o, part, LastOf(r)))
  {
    hide Agrees, ItemsOf, Ordered, Filter, BatchesCost, BatchesNeed, BatchesRead, LastOf, Reaches, Calm;
    CalmLets(lets, rebuilt);
    r := Account(o, consume, st, lets, rebuilt, seen);
    if !r.phase.Going? { AgreesLater(o, consume, r, seen, Rows(part)); return; }
    FailedAgrees(o, consume, r, seen);
    if part.dictionary > o.budget - r.bytes {
      r := Fail(r);
      AgreesLater(o, consume, r, seen, Rows(part));
      return;
    }
    SpentAgrees(o, consume, r, seen, part.dictionary);
    r := Spend(r, part.dictionary);
    r := Account(o, consume, r, lets, rebuilt, seen);
    if !r.phase.Going? { AgreesLater(o, consume, r, seen, Rows(part)); return; }
    var position, next := LowerBound(o, part.batches, lets, r.tick);
    FailedAgrees(o, consume, r, seen);
    if position.None? {
      r := Fail(r);
      AgreesLater(o, consume, r, seen, Rows(part));
      return;
    }
    r := Account(o, consume, r, lets, rebuilt, seen);
    if !r.phase.Going? { AgreesLater(o, consume, r, seen, Rows(part)); return; }
    BatchesBefore(o, part.batches, position.value);
    forall i | 0 <= i < position.value ensures Filter(o, part.batches[i].items) == [] {
      BatchOrdered(part.batches, i);
      BeforeNone(o, part.batches[i].items);
    }
    SkippedFree(o, part.batches, position.value);
    AgreesLater(o, consume, r, seen, ItemsOf(part.batches[..position.value]));
    r := ScanBatches(o, consume, r, part.batches, position.value, lets, rebuilt, seen);
    ReadSkipped(o, part.batches, position.value, LastOf(r));
  }

  // ---- all segments ----

  lemma {:induction false} PartsBefore(o: Options, parts: seq<Part>, k: nat)
    requires Scannable(parts) && k <= |parts|
    requires forall i :: 0 <= i < k ==> Rows(parts[i]) != [] && Before(o, Rows(parts[i]))
    ensures Filter(o, AllItems(parts[..k])) == []
    decreases k
  {
    hide Scannable, Filter, Before, ItemsOf;
    if k == 0 {
      NoItems(o);
    } else {
      PartsBefore(o, parts, k - 1);
      PartNext(parts, k - 1);
      PartOrdered(parts, k - 1);
      BeforeNone(o, Rows(parts[k - 1]));
      FilterConcat(o, AllItems(parts[..k - 1]), Rows(parts[k - 1]));
    }
  }

  /** A segment seen through its metadata: the bounds that its rows keep. */
  predicate Ends(o: Options, p: Part)
    requires Rows(p) != []
  {
    Last(Rows(p)).sequence <= o.after || Last(Rows(p)).time < o.start
  }

  /** The binary search for the first segment to look at, with the same test as the one over the table's readable
      segments. */
  method FirstPart(o: Options, parts: seq<Part>) returns (first: nat)
    requires Scannable(parts)
    ensures first <= |parts| && forall k :: 0 <= k < first ==> Rows(parts[k]) != [] && Before(o, Rows(parts[k]))
    ensures first < |parts| ==> Rows(parts[first]) != [] && !Before(o, Rows(parts[first]))
  {
    hide Scannable, ItemsOf;
    var lo, hi := 0, |parts|;
    while lo < hi
      invariant 0 <= lo <= hi <= |parts|
      invariant forall k :: 0 <= k < lo ==> Rows(parts[k]) != [] && Before(o, Rows(parts[k]))
      invariant hi < |parts| ==> Rows(parts[hi]) != [] && !Before(o, Rows(parts[hi]))
    {
      var mid := lo + (hi - lo) / 2;
      PartOrdered(parts, mid);
      if Ends(o, parts[mid]) {
        forall k | 0 <= k < mid ensures Rows(parts[k]) != [] && Before(o, Rows(parts[k])) {
          PartsGrow(parts, k, mid);
          BeforeEarlier(o, Rows(parts[k]), Rows(parts[mid]));
        }
        lo := mid + 1;
      } else {
        hi := mid;
      }
    }
    first := lo;
  }

  /** wadb_scan_snapshot: the callback gets a prefix of the wanted rows, all of them or the first limit when the scan
      succeeds, and the bytes read stay within the budget. */
  method ScanSnapshot(o: Options, consume: Callback, parts: seq<Part>, lets: Lets, rebuilt: Rebuilt) returns (r: State)
    requires Scannable(parts) && o.limit > 0
    ensures Agrees(o, consume, r, AllItems(parts))
    ensures Calm(lets, rebuilt) && TotalCost(parts) <= o.budget ==> !r.phase.Failed? && r.bytes <= TotalCost(parts)
    ensures r.phase.Going? ==> r.bytes >= TotalNeed(o, parts)
    ensures !r.phase.Failed? ==> r.bytes >= TotalRead(o, parts, LastOf(r))
  {
    hide Agrees, ItemsOf, AllItems, Filter, Scannable, TotalCost, TotalNeed, TotalRead, PartCost, PartNeed, PartRead,
         Calm, Ordered;
    ghost var calm := Calm(lets, rebuilt);
    CalmLets(lets, rebuilt);
    var first := FirstPart(o, parts);
    r := State([], 0, 0, Going);
    StartAgrees(o, consume, r);
    PartsBefore(o, parts, first);
    AgreesLater(o, consume, r, [], AllItems(parts[..first]));
    assert [] + AllItems(parts[..first]) == AllItems(parts[..first]);
    var i := first;
    forall k | 0 <= k < first ensures Filter(o, Rows(parts[k])) == [] {
      PartOrdered(parts, k);
      BeforeNone(o, Rows(parts[k]));
    }
    PartsSkipped(o, parts, first);
    while i < |parts| && r.phase.Going?
      invariant first <= i <= |parts| && Agrees(o, consume, r, AllItems(parts[..i]))
      invariant calm && TotalCost(parts) <= o.budget ==>
                  && !r.phase.Failed?
                  && r.bytes + (if r.phase.Going? then TotalCost(parts[i..]) else 0) <= TotalCost(parts)
      invariant r.phase.Going? ==> r.bytes + TotalNeed(o, parts[i..]) >= TotalNeed(o, parts)
      invariant r.phase in {AtLimit, Refused} ==> r.bytes >= TotalRead(o, parts, LastOf(r))
    {
      PartsOrdered(parts, i);
      PartsFrom(o, parts, i);
      PartOrdered(parts, i);
      PartNext(parts, i);
      FailedAgrees(o, consume, r, AllItems(parts[..i]));
      if !lets(r.tick) {
        r := Fail(r);
        break;
      }
      r := r.(tick := r.tick + 1);
      TickAgrees(o, consume, r, AllItems(parts[..i]));
      if Ends(o, parts[i]) || Behind(o, Rows(parts[i])) {
        BeforeNone(o, Rows(parts[i]));
        NoNeed(o, parts[i]);
        AgreesLater(o, consume, r, AllItems(parts[..i]), Rows(parts[i]));
      } else {
        r := ScanPart(o, consume, r, parts[i], lets, rebuilt, AllItems(parts[..i]));
        if r.phase in {AtLimit, Refused} {
          PartsNotReached(o, consume, r, parts, i);
          TotalReadBound(o, parts, i, LastOf(r));
        }
      }
      i := i + 1;
    }
    assert parts == parts[..i] + parts[i..];
    AllConcat(parts[..i], parts[i..]);
    NoItems(o);
    if i == |parts| {
      assert parts[i..] == [];
      NoParts(o);
      TotalReadBound(o, parts, i, LastOf(r));
    }
    AgreesLater(o, consume, r, AllItems(parts[..i]), AllItems(parts[i..]));
  }

  lemma {:induction false} PartsOrdered(parts: seq<Part>, i: nat)
    requires Scannable(parts) && i < |parts|
    ensures Ordered(AllItems(parts[..i]) + Rows(parts[i]))
  {
    hide ItemsOf, AllItems, Ordered;
    PartSplit(parts, i);
    var a, b, c := AllItems(parts[..i]), Rows(parts[i]), AllItems(parts[i + 1..]);
    assert (a + []) + b + c == a + b + c;
    OrderedSplit(a, [], b, c);
  }

  lemma {:induction false} PartsNotReached(o: Options, consume: Callback, r: State, parts: seq<Part>, i: nat)
    requires Scannable(parts) && i < |parts| && r.phase in {AtLimit, Refused} && o.limit > 0
    requires Agrees(o, consume, r, AllItems(parts[..i + 1]))
    ensures forall j :: i < j < |parts| ==> !Reaches(o, Rows(parts[j]), LastOf(r))
  {
    hide ItemsOf, AllItems, Ordered, Reaches, Filter;
    var seen := AllItems(parts[..i + 1]);
    EndedNonempty(o, consume, r, seen);
    forall j | i < j < |parts| ensures !Reaches(o, Rows(parts[j]), LastOf(r)) {
      PartSplit(parts, j);
      assert parts[..j] == parts[..i + 1] + parts[i + 1..j];
      AllConcat(parts[..i + 1], parts[i + 1..j]);
      OrderedSplit(seen, AllItems(parts[i + 1..j]), Rows(parts[j]), AllItems(parts[j + 1..]));
      NotReached(o, consume, r, seen, Rows(parts[j]));
    }
  }

  lemma {:induction false} NoParts(o: Options)
    ensures TotalCost([]) == 0 && TotalNeed(o, []) == 0
  {
  }

  lemma {:induction false} NoNeed(o: Options, p: Part)
    requires Filter(o, Rows(p)) == []
    ensures PartNeed(o, p) == 0
  {
  }

  lemma {:induction false} PartsFrom(o: Options, parts: seq<Part>, i: nat)
    requires i < |parts|
    ensures TotalCost(parts[i..]) == PartCost(parts[i]) + TotalCost(parts[i + 1..])
    ensures TotalNeed(o, parts[i..]) == PartNeed(o, parts[i]) + TotalNeed(o, parts[i + 1..])
  {
    hide PartCost, PartNeed;
    assert parts[i..][1..] == parts[i + 1..];
  }

  lemma {:induction false} PartsSkipped(o: Options, parts: seq<Part>, k: nat)
    requires k <= |parts| && forall i :: 0 <= i < k ==> Filter(o, Rows(parts[i])) == []
    ensures TotalCost(parts[k..]) <= TotalCost(parts) && TotalNeed(o, parts[k..]) == TotalNeed(o, parts)
    decreases k
  {
    hide Filter, PartCost, ItemsOf;
    if k == 0 {
      assert parts[0..] == parts;
    } else {
      PartsSkipped(o, parts, k - 1);
      PartsFrom(o, parts, k - 1);
      NoNeed(o, parts[k - 1]);
    }
  }

  lemma {:induction false} StartAgrees(o: Options, consume: Callback, st: State)
    requires st == State([], 0, 0, Going) && o.limit > 0
    ensures Agrees(o, consume, st, [])
  {
  }

  lemma {:induction false} TickAgrees(o: Options, consume: Callback, st: State, seen: seq<Item>)
    requires st.tick > 0 && Agrees(o, consume, st.(tick := st.tick - 1), seen)
    ensures Agrees(o, consume, st, seen)
  {
  }

  function Least(a: nat, b: nat): nat { if a < b then a else b }

  /** What the callback has had: always the first of the wanted rows; on success all of them, or as many as the
      limit. */
  lemma {:induction false} ScanResult(o: Options, consume: Callback, st: State, items: seq<Item>)
    requires Agrees(o, consume, st, items)
    ensures st.handed <= Filter(o, items) && st.bytes <= o.budget && |st.handed| <= o.limit
    ensures st.phase in {Going, AtLimit} ==> st.handed == Filter(o, items)[..Least(o.limit, |Filter(o, items)|)]
  {
    hide Filter;
    var wanted := Filter(o, items);
    if st.phase.Going? { assert wanted[..|wanted|] == wanted; }
  }
}
