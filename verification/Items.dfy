/** What a reader sees: rows with their sequence and time, grouped into frames and
    segments, and the plain filter that a scan must agree with. */
module Items {
  import opened Bytes

  datatype Item = Item(sequence: nat, time: int, bytes: seq<Byte>)

  /** A frame: its rows and its size in the file. */
  datatype Batch = Batch(items: seq<Item>, size: nat)

  /** A segment: its frames and the size of its dictionary. */
  datatype Part = Part(batches: seq<Batch>, dictionary: nat)

  datatype Options = Options(start: int, end: int, after: nat, limit: nat, budget: nat)

  predicate Wanted(o: Options, x: Item) { o.start <= x.time < o.end && o.after < x.sequence }

  function Filter(o: Options, items: seq<Item>): seq<Item> {
    if items == [] then []
    else Filter(o, items[..|items| - 1]) + if Wanted(o, items[|items| - 1]) then [items[|items| - 1]] else []
  }

  function ItemsOf(batches: seq<Batch>): seq<Item> {
    if batches == [] then [] else ItemsOf(batches[..|batches| - 1]) + batches[|batches| - 1].items
  }

  function AllItems(parts: seq<Part>): seq<Item> {
    if parts == [] then [] else AllItems(parts[..|parts| - 1]) + ItemsOf(parts[|parts| - 1].batches)
  }

  /** Sequences grow and times never go back. */
  predicate Ordered(items: seq<Item>) {
    forall i, j :: 0 <= i < j < |items| ==> items[i].sequence < items[j].sequence && items[i].time <= items[j].time
  }

  predicate BatchesFull(batches: seq<Batch>) { forall i :: 0 <= i < |batches| ==> batches[i].items != [] }

  predicate PartsFull(parts: seq<Part>) {
    forall i :: 0 <= i < |parts| ==> parts[i].batches != [] && BatchesFull(parts[i].batches)
  }

  // ---- lists ----

  lemma {:induction false} FilterConcat(o: Options, a: seq<Item>, b: seq<Item>)
    ensures Filter(o, a + b) == Filter(o, a) + Filter(o, b)
    decreases |b|
  {
    if b == [] {
      assert a + b == a;
    } else {
      assert (a + b)[..|a + b| - 1] == a + b[..|b| - 1];
      FilterConcat(o, a, b[..|b| - 1]);
    }
  }

  lemma {:induction false} FilterNone(o: Options, items: seq<Item>)
    requires forall i :: 0 <= i < |items| ==> !Wanted(o, items[i])
    ensures Filter(o, items) == []
  {
    if items != [] { FilterNone(o, items[..|items| - 1]); }
  }

  lemma {:induction false} FilterIn(o: Options, items: seq<Item>, k: nat) returns (i: nat)
    requires k < |Filter(o, items)|
    ensures i < |items| && items[i] == Filter(o, items)[k] && Wanted(o, items[i])
  {
    var n := |items| - 1;
    if k < |Filter(o, items[..n])| { i := FilterIn(o, items[..n], k); } else { i := n; }
  }

  lemma {:induction false} ItemsConcat(a: seq<Batch>, b: seq<Batch>)
    ensures ItemsOf(a + b) == ItemsOf(a) + ItemsOf(b)
    decreases |b|
  {
    if b == [] {
      assert a + b == a;
    } else {
      assert (a + b)[..|a + b| - 1] == a + b[..|b| - 1];
      ItemsConcat(a, b[..|b| - 1]);
    }
  }

  lemma {:induction false} AllConcat(a: seq<Part>, b: seq<Part>)
    ensures AllItems(a + b) == AllItems(a) + AllItems(b)
    decreases |b|
  {
    hide ItemsOf;
    if b == [] {
      assert a + b == a;
    } else {
      assert (a + b)[..|a + b| - 1] == a + b[..|b| - 1];
      AllConcat(a, b[..|b| - 1]);
    }
  }

  lemma {:induction false} BatchNext(batches: seq<Batch>, k: nat)
    requires k < |batches|
    ensures ItemsOf(batches[..k + 1]) == ItemsOf(batches[..k]) + batches[k].items
  {
    assert batches[..k + 1][..k] == batches[..k];
  }

  /** The rows before a frame, the frame, and the rows after it. */
  lemma {:induction false} BatchSplit(batches: seq<Batch>, k: nat)
    requires k < |batches|
    ensures ItemsOf(batches) == ItemsOf(batches[..k]) + batches[k].items + ItemsOf(batches[k + 1..])
  {
    hide *;
    assert batches == batches[..k + 1] + batches[k + 1..];
    BatchNext(batches, k);
    ItemsConcat(batches[..k + 1], batches[k + 1..]);
  }

  lemma {:induction false} PartNext(parts: seq<Part>, k: nat)
    requires k < |parts|
    ensures AllItems(parts[..k + 1]) == AllItems(parts[..k]) + ItemsOf(parts[k].batches)
  {
    hide ItemsOf;
    assert parts[..k + 1][..k] == parts[..k];
  }

  lemma {:induction false} PartSplit(parts: seq<Part>, k: nat)
    requires k < |parts|
    ensures AllItems(parts) == AllItems(parts[..k]) + ItemsOf(parts[k].batches) + AllItems(parts[k + 1..])
  {
    hide *;
    assert parts == parts[..k + 1] + parts[k + 1..];
    PartNext(parts, k);
    AllConcat(parts[..k + 1], parts[k + 1..]);
  }

  // ---- order ----

  lemma {:induction false} OrderedPart(a: seq<Item>, b: seq<Item>, c: seq<Item>)
    requires Ordered(a + b + c)
    ensures Ordered(b)
    ensures forall i, j :: 0 <= i < |a| && 0 <= j < |b| ==> a[i].sequence < b[j].sequence && a[i].time <= b[j].time
    ensures forall i, j :: 0 <= i < |b| && 0 <= j < |c| ==> b[i].sequence < c[j].sequence && b[i].time <= c[j].time
  {
    var all := a + b + c;
    forall i, j | 0 <= i < j < |b| ensures b[i].sequence < b[j].sequence && b[i].time <= b[j].time {
      assert all[|a| + i] == b[i] && all[|a| + j] == b[j];
    }
    forall i, j | 0 <= i < |a| && 0 <= j < |b| ensures a[i].sequence < b[j].sequence && a[i].time <= b[j].time {
      assert all[i] == a[i] && all[|a| + j] == b[j];
    }
    forall i, j | 0 <= i < |b| && 0 <= j < |c| ensures b[i].sequence < c[j].sequence && b[i].time <= c[j].time {
      assert all[|a| + i] == b[i] && all[|a| + |b| + j] == c[j];
    }
  }

  lemma {:induction false} OrderedPrefix(items: seq<Item>, i: nat, j: nat)
    requires Ordered(items) && i <= j <= |items|
    ensures Ordered(items[i..j])
  {
    assert items == items[..i] + items[i..j] + items[j..];
    OrderedPart(items[..i], items[i..j], items[j..]);
  }

  function Last(items: seq<Item>): Item
    requires items != []
  {
    items[|items| - 1]
  }

  /** In order, the last row bounds the others. */
  lemma {:induction false} LastBounds(items: seq<Item>, i: nat)
    requires Ordered(items) && i < |items|
    ensures items[0].sequence <= items[i].sequence <= Last(items).sequence
    ensures items[0].time <= items[i].time <= Last(items).time
  {
  }

  // ---- what cannot be wanted ----

  /** A run of rows ends before the interval or before the position. */
  predicate Before(o: Options, items: seq<Item>)
    requires items != []
  {
    Last(items).time < o.start || Last(items).sequence <= o.after
  }

  predicate Behind(o: Options, items: seq<Item>)
    requires items != []
  {
    items[0].time >= o.end
  }

  lemma {:induction false} BeforeNone(o: Options, items: seq<Item>)
    requires items != [] && Ordered(items) && (Before(o, items) || Behind(o, items))
    ensures Filter(o, items) == []
  {
    hide Filter;
    forall i | 0 <= i < |items| ensures !Wanted(o, items[i]) { LastBounds(items, i); }
    FilterNone(o, items);
  }

  /** Everything before a run that is Before is too; everything behind a run that is Behind is too. */
  lemma {:induction false} BeforeEarlier(o: Options, a: seq<Item>, b: seq<Item>)
    requires a != [] && b != [] && Before(o, b) && Last(a).sequence <= Last(b).sequence && Last(a).time <= Last(b).time
    ensures Before(o, a)
  {
  }

  // ---- filtering again ----

  lemma {:induction false} FilterAll(o: Options, items: seq<Item>)
    requires forall i :: 0 <= i < |items| ==> Wanted(o, items[i])
    ensures Filter(o, items) == items
  {
    if items != [] { FilterAll(o, items[..|items| - 1]); }
  }

  /** One filter is at least as strict as another. */
  predicate Narrower(o: Options, o': Options) { o.start == o'.start && o.end == o'.end && o.after <= o'.after }

  lemma {:induction false} FilterNarrow(o: Options, o': Options, items: seq<Item>)
    requires Narrower(o, o')
    ensures Filter(o', items) == Filter(o', Filter(o, items))
  {
    if items != [] {
      var n := |items| - 1;
      FilterNarrow(o, o', items[..n]);
      var f, x := Filter(o, items[..n]), items[n];
      if Wanted(o, x) { assert (f + [x])[..|f|] == f; } else { assert f + [] == f; }
    }
  }

  lemma {:induction false} FilterOrdered(o: Options, items: seq<Item>)
    requires Ordered(items)
    ensures Ordered(Filter(o, items))
    ensures items != [] && Filter(o, items) != [] ==>
              Last(Filter(o, items)).sequence <= Last(items).sequence && Last(Filter(o, items)).time <= Last(items).time
  {
    if items != [] {
      var n := |items| - 1;
      var front := items[..n];
      OrderedPrefix(items, 0, n);
      assert items[0..n] == front;
      FilterOrdered(o, front);
      var f := Filter(o, front);
      if Wanted(o, items[n]) {
        forall i | 0 <= i < |f| ensures f[i].sequence < items[n].sequence && f[i].time <= items[n].time {
          var k := FilterIn(o, front, i);
        }
      } else {
        assert Filter(o, items) == f + [] == f;
      }
    }
  }

  /** What is wanted after the last row of a first part of the wanted rows is the rest of them. */
  lemma {:induction false} FilterRest(o: Options, items: seq<Item>, h: seq<Item>)
    requires Ordered(items) && h != [] && h <= Filter(o, items)
    ensures o.after < Last(h).sequence
    ensures Filter(o.(after := Last(h).sequence), items) == Filter(o, items)[|h|..]
  {
    hide Filter;
    var f := Filter(o, items);
    var last := FilterIn(o, items, |h| - 1);
    var o' := o.(after := Last(h).sequence);
    FilterNarrow(o, o', items);
    FilterOrdered(o, items);
    var rest := f[|h|..];
    assert f == h + rest;
    FilterConcat(o', h, rest);
    forall i | 0 <= i < |h| ensures !Wanted(o', h[i]) { assert h[i] == f[i] && Last(h) == f[|h| - 1]; }
    FilterNone(o', h);
    forall i | 0 <= i < |rest| ensures Wanted(o', rest[i]) {
      assert rest[i] == f[|h| + i] && Last(h) == f[|h| - 1];
      var k := FilterIn(o, items, |h| + i);
    }
    FilterAll(o', rest);
  }
}
