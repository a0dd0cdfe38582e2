/** An aggregate query over a snapshot, from the filters to the groups and their
    order (src/query/query.c:86-99, 206-233 and 274-331). */
module Queries {
  import opened Bytes
  import opened Values
  import opened Reductions
  import opened Groups
  import opened Aggregation
  import opened Buckets
  import I = Items
  import S = Scans
  import C = Cursors
  import Ordering
  import Snapshots

  datatype Test = EQ | NE | LT | LE | GT | GE | IS_NULL | IS_NOT_NULL

  datatype Condition = Condition(test: Test, field: nat, value: Value)

  datatype Column = Column(op: Op, field: nat)

  /** A compiled query: the kinds of the table's fields, the filters, the bucket width (0 for none) and origin, the
      fields to group by, the aggregates, and the limits on groups and buckets. */
  datatype Query = Query(kinds: seq<Kind>, conditions: seq<Condition>, width: I64, origin: I64, groups: seq<nat>,
                         columns: seq<Column>, maxGroups: nat, maxBuckets: nat)

  predicate ConditionOk(q: Query, c: Condition) {
    c.field < |q.kinds| && OfKind(q.kinds[c.field], c.value)
    && (c.test != IS_NULL && c.test != IS_NOT_NULL ==> !c.value.Null?)
  }

  predicate ColumnOk(q: Query, c: Column) {
    c.field < |q.kinds| && (c.op == Sum ==> q.kinds[c.field] == Signed || q.kinds[c.field] == Unsigned)
  }

  /** What wadb_query_compile lets through; field 0 is the time. */
  predicate QueryOk(q: Query) {
    && |q.kinds| > 0 && q.kinds[0] == Signed && q.width >= 0
    && (forall i :: 0 <= i < |q.conditions| ==> ConditionOk(q, q.conditions[i]))
    && (forall i :: 0 <= i < |q.groups| ==> q.groups[i] < |q.kinds|)
    && (forall i :: 0 <= i < |q.columns| ==> ColumnOk(q, q.columns[i]))
  }

  /** The values of a row of the table. */
  predicate ValuesOk(q: Query, x: I.Item, values: seq<Value>) {
    && |values| == |q.kinds| > 0 && I64_MIN <= x.time <= I64_MAX && values[0] == Int(x.time)
    && forall i :: 0 <= i < |values| ==> OfKind(q.kinds[i], values[i])
  }

  type Decoder = I.Item -> seq<Value>

  predicate DecodesAll(q: Query, decode: Decoder, items: seq<I.Item>) {
    forall x :: x in items ==> ValuesOk(q, x, decode(x))
  }

  function At(values: seq<Value>, field: nat): Value { if field < |values| then values[field] else Null }

  /** One turn of the loop of matches: a null passes no comparison. */
  predicate Passes(c: Condition, v: Value) {
    match c.test
    case IS_NULL => v.Null?
    case IS_NOT_NULL => !v.Null?
    case _ => !v.Null? && Comparable(v, c.value) && Relates(c.test, Compare(v, c.value))
  }

  predicate Relates(test: Test, cmp: int) {
    match test
    case EQ => cmp == 0
    case NE => cmp != 0
    case LT => cmp < 0
    case LE => cmp <= 0
    case GT => cmp > 0
    case _ => cmp >= 0
  }

  /** matches. */
  function Matching(q: Query, decode: Decoder): C.Matches {
    (x: I.Item) => forall i :: 0 <= i < |q.conditions| ==> Passes(q.conditions[i], At(decode(x), q.conditions[i].field))
  }

  // ---- the rows that the groups are made of ----

  function BucketKey(q: Query, time: int): seq<Value> {
    if q.width <= 0 then [] else
      var floor := if I64_MIN <= time <= I64_MAX then BucketFloor(time, q.width, q.origin) else None;
      [if floor.Some? then Int(floor.value) else Null]
  }

  /** The keys of a row: its bucket, if there are buckets, and the fields to group by. */
  function RowOf(q: Query, x: I.Item, values: seq<Value>): Row {
    Row(BucketKey(q, x.time) + seq(|q.groups|, i requires 0 <= i < |q.groups| => At(values, q.groups[i])),
        seq(|q.columns|, i requires 0 <= i < |q.columns| =>
          At(values, if q.columns[i].op == CountAll then 0 else q.columns[i].field)))
  }

  function RowsOf(q: Query, decode: Decoder, items: seq<I.Item>): (r: seq<Row>)
    ensures |r| == |items| && forall i :: 0 <= i < |r| ==> r[i] == RowOf(q, items[i], decode(items[i]))
  {
    seq(|items|, i requires 0 <= i < |items| => RowOf(q, items[i], decode(items[i])))
  }

  function FieldKind(q: Query, field: nat): Kind { if field < |q.kinds| then q.kinds[field] else Signed }

  function ReductionOf(q: Query, c: Column): Reduction {
    Reduction(c.op, if c.op == CountAll then Signed else FieldKind(q, c.field))
  }

  function ShapeOf(q: Query): Shape {
    Shape((if q.width > 0 then [Signed] else [])
          + seq(|q.groups|, i requires 0 <= i < |q.groups| => FieldKind(q, q.groups[i])),
          seq(|q.columns|, i requires 0 <= i < |q.columns| => ReductionOf(q, q.columns[i])))
  }

  lemma {:induction false} ShapeFine(q: Query)
    requires QueryOk(q)
    ensures ShapeOk(ShapeOf(q))
  {
    var s := ShapeOf(q);
    forall i | 0 <= i < |s.aggregates| ensures Allowed(s.aggregates[i]) { assert ColumnOk(q, q.columns[i]); }
  }

  lemma {:induction false} RowFine(q: Query, x: I.Item, values: seq<Value>)
    requires QueryOk(q) && ValuesOk(q, x, values)
    ensures RowOk(ShapeOf(q), RowOf(q, x, values))
  {
    var s, r := ShapeOf(q), RowOf(q, x, values);
    var n := if q.width > 0 then 1 else 0;
    forall i | 0 <= i < |r.keys| ensures OfKind(s.kinds[i], r.keys[i]) {
      if i >= n { assert OfKind(q.kinds[q.groups[i - n]], values[q.groups[i - n]]); }
    }
    forall i | 0 <= i < |r.arguments| ensures OfKind(s.aggregates[i].kind, r.arguments[i]) {
      assert ColumnOk(q, q.columns[i]);
      assert OfKind(q.kinds[0], values[0]);
    }
  }

  lemma {:induction false} RowsFine(q: Query, decode: Decoder, items: seq<I.Item>)
    requires QueryOk(q) && DecodesAll(q, decode, items)
    ensures RowsOk(ShapeOf(q), RowsOf(q, decode, items))
  {
    hide QueryOk, ValuesOk, RowOk, RowOf;
    forall i | 0 <= i < |items| ensures RowOk(ShapeOf(q), RowsOf(q, decode, items)[i]) {
      RowFine(q, items[i], decode(items[i]));
    }
  }

  // ---- the groups made before any row ----

  /** The bucket part of wadb_query_compile says no. */
  predicate PlanRefused(q: Query, start: I64, end: I64)
    requires QueryOk(q)
  {
    q.width > 0 && start < end && PlanBuckets(start, end, q.width, q.origin, q.maxBuckets).Refused?
  }

  /** The keys that are there from the start: one group for a query without groups and buckets, the buckets of the
      interval for one with buckets only, none for one with groups. */
  ghost predicate IsMade(q: Query, start: I64, end: I64, made: seq<seq<Value>>)
    requires QueryOk(q) && !PlanRefused(q, start, end)
  {
    if q.groups != [] then made == []
    else if q.width == 0 then made == [[]]
    else if start >= end then made == []
    else
      var p := PlanBuckets(start, end, q.width, q.origin, q.maxBuckets);
      |made| == p.count && forall k :: 0 <= k < |made| ==> IsBucketKey(made[k], Nth(p.first, q.width, k))
  }

  predicate IsBucketKey(keys: seq<Value>, b: int) { I64_MIN <= b <= I64_MAX && keys == [Int(b)] }

  lemma {:induction false} MadeApart(q: Query, start: I64, end: I64, made: seq<seq<Value>>)
    requires QueryOk(q) && !PlanRefused(q, start, end) && IsMade(q, start, end, made)
    ensures Apart(made) && forall i :: 0 <= i < |made| ==> KeysOk(ShapeOf(q), made[i])
  {
    hide PlanBuckets, Nth;
    if q.groups == [] && q.width > 0 && start < end {
      var p := PlanBuckets(start, end, q.width, q.origin, q.maxBuckets);
      forall k | 0 <= k < |made| ensures made[k] == [Int(made[k][0].i)] && made[k][0].Int? {
        assert IsBucketKey(made[k], Nth(p.first, q.width, k));
      }
      var buckets: seq<I64> :=
          seq(|made|, k requires 0 <= k < |made| => assert IsBucketKey(made[k],
              Nth(p.first, q.width, k)); made[k][0].i);
      forall k | 0 <= k < |buckets| ensures buckets[k] == Nth(p.first, q.width, k) {
        assert IsBucketKey(made[k], Nth(p.first, q.width, k));
      }
      assert made == BucketGroups(buckets);
      BucketsApart(p.first, q.width, buckets);
    }
  }

  /** The loop over the buckets, before any row is read. */
  method MakeKeys(q: Query, start: I64, end: I64) returns (made: seq<seq<Value>>)
    requires QueryOk(q) && !PlanRefused(q, start, end)
    ensures IsMade(q, start, end, made)
  {
    hide PlanBuckets, Nth;
    if q.groups != [] { return []; }
    if q.width == 0 { return [[]]; }
    if start >= end { return []; }
    var buckets := BucketKeys(start, end, q.width, q.origin, q.maxBuckets);
    made := BucketGroups(buckets);
  }

  // ---- consume ----

  predicate FloorOk(q: Query, time: int) {
    q.width <= 0 || (I64_MIN <= time <= I64_MAX && BucketFloor(time, q.width, q.origin).Some?)
  }

  /** Whether consume takes a row that passes the filters, after others that did. */
  predicate Takes(q: Query, decode: Decoder, made: seq<seq<Value>>, room: nat -> bool, h: seq<I.Item>, x: I.Item) {
    var s, rows, row := ShapeOf(q), RowsOf(q, decode, h), RowOf(q, x, decode(x));
    && FloorOk(q, x.time) && ShapeOk(s) && RowsOk(s, rows) && RowOk(s, row)
    && Admits(s, q.maxGroups, made, rows, row, room(|made| + |rows|))
  }

  /** consume for a query with aggregates: its answer, told by the rows it was handed before. */
  function Consume(q: Query, decode: Decoder, made: seq<seq<Value>>, room: nat -> bool): S.Callback {
    (h: seq<I.Item>, x: I.Item) =>
      !Matching(q, decode)(x) || Takes(q, decode, made, room, C.Matched(Matching(q, decode), h), x)
  }

  lemma {:induction false} MatchedIn(m: C.Matches, items: seq<I.Item>)
    ensures |C.Matched(m, items)| <= |items| && forall x :: x in C.Matched(m, items) ==> x in items && m(x)
  {
    if items != [] { MatchedIn(m, items[..|items| - 1]); }
  }

  lemma {:induction false} FilterIn(o: I.Options, items: seq<I.Item>)
    ensures forall x :: x in I.Filter(o, items) ==> x in items && I.Wanted(o, x)
  {
    if items != [] { FilterIn(o, items[..|items| - 1]); }
  }

  /** What was taken so far, row by row, is what Execute asks for. */
  lemma {:induction false} AcceptedAdmits(q: Query, decode: Decoder, made: seq<seq<Value>>, room: nat -> bool,
                                          h: seq<I.Item>, n: nat)
    requires QueryOk(q) && DecodesAll(q, decode, h) && n <= |h| && S.Accepted(Consume(q, decode, made, room), h, n)
    ensures var s, rows := ShapeOf(q), RowsOf(q, decode, C.Matched(Matching(q, decode), h[..n]));
            ShapeOk(s) && RowsOk(s, rows) && AllAdmitted(s, q.maxGroups, made, rows, room, |rows|)
    decreases n
  {
    hide QueryOk, Matching, RowOk, RowOf, ValuesOk, Admits, FloorOk, ShapeOf, C.Matched;
    var m, s := Matching(q, decode), ShapeOf(q);
    ShapeFine(q);
    MatchedIn(m, h[..n]);
    RowsFine(q, decode, C.Matched(m, h[..n]));
    if n == 0 {
      C.NoneMatched(m);
      assert h[..0] == [];
    } else {
      AcceptedAdmits(q, decode, made, room, h, n - 1);
      var x, before := h[n - 1], C.Matched(m, h[..n - 1]);
      assert h[..n] == h[..n - 1] + [x];
      C.MatchedNext(m, h[..n - 1], x);
      assert Consume(q, decode, made, room)(h[..n - 1], h[n - 1]);
      if m(x) { TakesNext(q, decode, made, room, before, x); } else { assert before + [] == before; }
    }
  }

  lemma {:induction false} TakesNext(q: Query, decode: Decoder, made: seq<seq<Value>>, room: nat -> bool,
                                     before: seq<I.Item>, x: I.Item)
    requires Takes(q, decode, made, room, before, x)
    requires ShapeOk(ShapeOf(q)) && RowsOk(ShapeOf(q), RowsOf(q, decode, before))
             && RowsOk(ShapeOf(q), RowsOf(q, decode, before + [x]))
    requires AllAdmitted(ShapeOf(q), q.maxGroups, made, RowsOf(q, decode, before), room, |before|)
    ensures AllAdmitted(ShapeOf(q), q.maxGroups, made, RowsOf(q, decode, before + [x]), room, |before| + 1)
  {
    hide RowOk, RowOf, Admits, FloorOk, ShapeOf;
    var s, rows, more := ShapeOf(q), RowsOf(q, decode, before), RowsOf(q, decode, before + [x]);
    assert more == rows + [RowOf(q, x, decode(x))];
    forall j | 0 <= j <= |before| ensures AdmittedAt(s, q.maxGroups, made, more, room, j) {
      assert more[..j] == rows[..j];
      if j < |before| { assert AdmittedAt(s, q.maxGroups, made, rows, room, j); } else { assert rows[..j] == rows; }
    }
  }

  /** Times of the interval have a bucket, once the buckets are planned. */
  lemma {:induction false} FloorFine(q: Query, start: I64, end: I64, time: int)
    requires QueryOk(q) && !PlanRefused(q, start, end) && start <= time < end
    ensures FloorOk(q, time)
  {
    hide PlanBuckets, BucketFloor, Nth;
    if q.width > 0 {
      PlannedBuckets(start, end, q.width, q.origin, q.maxBuckets);
      assert FloorAmong(time, q.width, q.origin, PlanBuckets(start, end, q.width, q.origin, q.maxBuckets));
    }
  }

  /** The rows of a query: those of the interval that pass the filters. */
  function Selected(q: Query, o: I.Options, decode: Decoder, items: seq<I.Item>): seq<Row> {
    RowsOf(q, decode, C.Matched(Matching(q, decode), I.Filter(o, items)))
  }

  lemma {:induction false} SelectedFine(q: Query, o: I.Options, decode: Decoder, items: seq<I.Item>)
    requires QueryOk(q) && DecodesAll(q, decode, items)
    ensures ShapeOk(ShapeOf(q)) && RowsOk(ShapeOf(q), Selected(q, o, decode, items))
            && DecodesAll(q, decode, I.Filter(o, items))
  {
    hide QueryOk, Matching, ValuesOk, ShapeOf, RowOf;
    ShapeFine(q);
    FilterIn(o, items);
    MatchedIn(Matching(q, decode), I.Filter(o, items));
    RowsFine(q, decode, C.Matched(Matching(q, decode), I.Filter(o, items)));
  }

  // ---- what a query asks for, told by the values of the rows ----

  /** A value stands in the relation that a condition names. */
  ghost predicate Satisfies(c: Condition, v: Value)
    requires Comparable(v, c.value) && Comparable(c.value, v)
  {
    match c.test
    case IS_NULL => v.Null?
    case IS_NOT_NULL => !v.Null?
    case EQ => !v.Null? && Alike(v, c.value)
    case NE => !v.Null? && !Alike(v, c.value)
    case LT => !v.Null? && Below(v, c.value)
    case LE => !v.Null? && (Below(v, c.value) || Alike(v, c.value))
    case GT => !v.Null? && Below(c.value, v)
    case GE => !v.Null? && (Below(c.value, v) || Alike(v, c.value))
  }

  lemma {:induction false} PassesIff(c: Condition, v: Value)
    requires Comparable(v, c.value) && Comparable(c.value, v)
    requires c.test != IS_NULL && c.test != IS_NOT_NULL ==> !c.value.Null?
    ensures Passes(c, v) <==> Satisfies(c, v)
  {
    hide Compare, Below, Alike;
    CompareMeans(v, c.value);
  }

  /** Condition i is about this value of a row. */
  ghost predicate SatisfiedAt(q: Query, i: nat, values: seq<Value>) {
    && i < |q.conditions| && q.conditions[i].field < |values|
    && var v := values[q.conditions[i].field];
       Comparable(v, q.conditions[i].value) && Comparable(q.conditions[i].value, v) && Satisfies(q.conditions[i], v)
  }

  /** A row that the query is about: in the interval, after the position, and satisfying every condition. */
  ghost predicate Sought(q: Query, o: I.Options, decode: Decoder, x: I.Item) {
    && o.start <= x.time < o.end && o.after < x.sequence
    && forall i :: 0 <= i < |q.conditions| ==> SatisfiedAt(q, i, decode(x))
  }

  lemma {:induction false} SoughtIff(q: Query, o: I.Options, decode: Decoder, x: I.Item)
    requires QueryOk(q) && ValuesOk(q, x, decode(x))
    ensures Sought(q, o, decode, x) <==> I.Wanted(o, x) && Matching(q, decode)(x)
  {
    hide Passes, Satisfies;
    var values := decode(x);
    forall i | 0 <= i < |q.conditions|
      ensures SatisfiedAt(q, i, values) <==> Passes(q.conditions[i], At(values, q.conditions[i].field))
    {
      var c := q.conditions[i];
      assert ConditionOk(q, c) && OfKind(q.kinds[c.field], values[c.field]);
      PassesIff(c, values[c.field]);
    }
  }

  /** The keys of a row: the boundary at or before its time, if there are buckets, and the fields to group by. */
  ghost predicate KeyedBy(q: Query, x: I.Item, values: seq<Value>, keys: seq<Value>) {
    var n := if q.width > 0 then 1 else 0;
    && |keys| == n + |q.groups|
    && (q.width > 0 ==>
          && keys[0].Int? && keys[0].i <= x.time < keys[0].i + q.width
          && (keys[0].i - q.origin) % q.width == 0)
    && forall j :: 0 <= j < |q.groups| ==> KeyAt(q, j, values, keys)
  }

  ghost predicate KeyAt(q: Query, j: nat, values: seq<Value>, keys: seq<Value>) {
    var n := if q.width > 0 then 1 else 0;
    && j < |q.groups| && q.groups[j] < |values| && n + j < |keys|
    && Comparable(keys[n + j], values[q.groups[j]]) && Alike(keys[n + j], values[q.groups[j]])
  }

  lemma {:induction false} AlikeNormal(a: Value, b: Value)
    requires Comparable(a, b)
    ensures Alike(a, b) <==> Normal(a) == Normal(b)
  {
  }

  lemma {:induction false} KeyedIff(q: Query, x: I.Item, values: seq<Value>, keys: seq<Value>)
    requires QueryOk(q) && ValuesOk(q, x, values) && FloorOk(q, x.time) && KeysOk(ShapeOf(q), keys)
    ensures KeyedBy(q, x, values, keys) <==> NormalKeys(RowOf(q, x, values).keys) == NormalKeys(keys)
  {
    hide BucketFloor, Alike, Normal;
    var n, r := if q.width > 0 then 1 else 0, RowOf(q, x, values).keys;
    forall j | 0 <= j < |q.groups|
      ensures KeyAt(q, j, values, keys) <==> Normal(r[n + j]) == Normal(keys[n + j])
    {
      assert OfKind(ShapeOf(q).kinds[n + j], keys[n + j]) && OfKind(q.kinds[q.groups[j]], values[q.groups[j]]);
      AlikeNormal(keys[n + j], values[q.groups[j]]);
    }
    if q.width > 0 {
      assert OfKind(ShapeOf(q).kinds[0], keys[0]);
      BucketIff(q, x, keys[0]);
    }
    if KeyedBy(q, x, values, keys) {
      forall i | 0 <= i < |r| ensures Normal(r[i]) == Normal(keys[i]) {
        if i >= n { assert KeyAt(q, i - n, values, keys); }
      }
      assert NormalKeys(r) == NormalKeys(keys);
    }
    if NormalKeys(r) == NormalKeys(keys) {
      forall i | 0 <= i < |r| ensures Normal(r[i]) == Normal(keys[i]) {
        assert NormalKeys(r)[i] == NormalKeys(keys)[i];
      }
      forall j | 0 <= j < |q.groups| ensures KeyAt(q, j, values, keys) {
        assert Normal(r[n + j]) == Normal(keys[n + j]);
      }
    }
  }

  lemma {:induction false} BucketIff(q: Query, x: I.Item, key: Value)
    requires q.width > 0 && FloorOk(q, x.time) && OfKind(Signed, key)
    ensures var r := BucketKey(q, x.time)[0];
            (key.Int? && key.i <= x.time < key.i + q.width && (key.i - q.origin) % q.width == 0) <==>
              Normal(r) == Normal(key)
  {
    hide BucketFloor, FloorOf;
    FloorIs(x.time, q.width, q.origin);
    var f := FloorOf(x.time, q.width, q.origin);
    if key.Int? && key.i <= x.time < key.i + q.width && (key.i - q.origin) % q.width == 0 {
      assert Boundary(key.i, q.width, q.origin);
      if key.i <= f { BoundaryUnique(key.i, f, q.width, q.origin); }
      else { BoundaryUnique(f, key.i, q.width, q.origin); }
    }
  }

  /** The rows that the query is about and that have these keys. */
  ghost function Belonging(q: Query, o: I.Options, decode: Decoder, items: seq<I.Item>, keys: seq<Value>): seq<I.Item> {
    if items == [] then []
    else
      var front, x := items[..|items| - 1], items[|items| - 1];
      Belonging(q, o, decode, front, keys) +
        if Sought(q, o, decode, x) && KeyedBy(q, x, decode(x), keys) then [x] else []
  }

  /** The values of a field in some rows. */
  ghost function FieldOf(decode: Decoder, items: seq<I.Item>, field: nat): (r: seq<Value>)
    ensures |r| == |items|
    ensures forall i :: 0 <= i < |r| ==> r[i] == if field < |decode(items[i])| then decode(items[i])[field] else Null
  {
    seq(|items|, i requires 0 <= i < |items| =>
      if field < |decode(items[i])| then decode(items[i])[field] else Null)
  }

  /** The members of a group are the rows with its keys. */
  lemma {:induction false} MembersAre(q: Query, o: I.Options, decode: Decoder, items: seq<I.Item>, keys: seq<Value>)
    requires QueryOk(q) && DecodesAll(q, decode, items) && KeysOk(ShapeOf(q), keys)
    requires I64_MIN <= o.start <= I64_MAX && I64_MIN <= o.end <= I64_MAX && !PlanRefused(q, o.start, o.end)
    ensures Members(Selected(q, o, decode, items), keys) == RowsOf(q, decode, Belonging(q, o, decode, items, keys))
  {
    hide QueryOk, ValuesOk, KeysOk, ShapeOf, RowOf, Sought, KeyedBy, Matching, PlanRefused, NormalKeys, I.Wanted;
    if items != [] {
      var front, x := items[..|items| - 1], items[|items| - 1];
      MembersAre(q, o, decode, front, keys);
      assert x in items;
      SoughtIff(q, o, decode, x);
      var m, w := Matching(q, decode), I.Filter(o, front);
      var rows, r := Selected(q, o, decode, front), RowOf(q, x, decode(x));
      assert w + [] == w && rows + [] == rows;
      if I.Wanted(o, x) {
        C.MatchedNext(m, w, x);
        if m(x) {
          InInterval(q, o, x);
          KeyedIff(q, x, decode(x), keys);
          assert Selected(q, o, decode, items) == rows + [r];
          MembersNext(rows, r, keys);
        } else {
          assert C.Matched(m, w) + [] == C.Matched(m, w);
        }
      }
      assert Members(rows, keys) + [] == Members(rows, keys);
      assert Belonging(q, o, decode, front, keys) + [] == Belonging(q, o, decode, front, keys);
    }
  }

  lemma {:induction false} InInterval(q: Query, o: I.Options, x: I.Item)
    requires QueryOk(q) && I.Wanted(o, x)
    requires I64_MIN <= o.start <= I64_MAX && I64_MIN <= o.end <= I64_MAX && !PlanRefused(q, o.start, o.end)
    ensures FloorOk(q, x.time)
  {
    hide QueryOk, PlanRefused, FloorOk;
    FloorFine(q, o.start, o.end, x.time);
  }

  lemma {:induction false} MembersNext(rows: seq<Row>, r: Row, keys: seq<Value>)
    ensures Members(rows + [r], keys) ==
            Members(rows, keys) + if NormalKeys(r.keys) == NormalKeys(keys) then [r] else []
  {
    hide NormalKeys;
    assert (rows + [r])[..|rows|] == rows;
  }

  /** What aggregate a of a group is about: as many values as the group has rows, and for a field its values in them. */
  lemma {:induction false} ArguedIs(q: Query, o: I.Options, decode: Decoder, items: seq<I.Item>, keys: seq<Value>,
                                    a: nat)
    requires QueryOk(q) && DecodesAll(q, decode, items) && KeysOk(ShapeOf(q), keys) && a < |q.columns|
    requires I64_MIN <= o.start <= I64_MAX && I64_MIN <= o.end <= I64_MAX && !PlanRefused(q, o.start, o.end)
    requires RowsOk(ShapeOf(q), Selected(q, o, decode, items))
    ensures a < |ShapeOf(q).aggregates|
    ensures var vs := Argued(ShapeOf(q), Selected(q, o, decode, items), keys, a);
            var xs := Belonging(q, o, decode, items, keys);
            |vs| == |xs| && (q.columns[a].op != CountAll ==> vs == FieldOf(decode, xs, q.columns[a].field))
  {
    hide QueryOk, KeysOk, PlanRefused, Selected, RowOk, DecodesAll;
    MembersAre(q, o, decode, items, keys);
    MembersOk(ShapeOf(q), Selected(q, o, decode, items), keys);
  }

  /** Cell a of a group says what its aggregate promises about the rows with the group's keys: their number, the number
      of those with a value in the field, the exact sum of these values, or the first of the least or greatest. */
  ghost predicate CellIs(q: Query, o: I.Options, decode: Decoder, items: seq<I.Item>, g: Group, a: nat)
    requires a < |q.columns|
  {
    var c, xs := q.columns[a], Belonging(q, o, decode, items, g.keys);
    && a < |g.cells| && c.field < |q.kinds|
    && if c.op == CountAll then g.cells[a].out.Uint? && g.cells[a].out.u == |xs|
       else CellMeans(Reduction(c.op, q.kinds[c.field]), FieldOf(decode, xs, c.field), g.cells[a])
  }

  lemma {:induction false} CellIsRight(q: Query, o: I.Options, decode: Decoder, items: seq<I.Item>, g: Group, a: nat)
    requires QueryOk(q) && DecodesAll(q, decode, items) && KeysOk(ShapeOf(q), g.keys) && a < |q.columns|
    requires I64_MIN <= o.start <= I64_MAX && I64_MIN <= o.end <= I64_MAX && !PlanRefused(q, o.start, o.end)
    requires RowsOk(ShapeOf(q), Selected(q, o, decode, items))
    requires CellRight(q, Selected(q, o, decode, items), g, a)
    ensures CellIs(q, o, decode, items, g, a)
  {
    hide KeysOk, PlanRefused, Selected, RowOk, DecodesAll, Argued, Belonging, PrefixesFit, Total, Extreme;
    ArguedIs(q, o, decode, items, g.keys, a);
    assert ColumnOk(q, q.columns[a]);
    ReductionIs(q, a);
    if q.columns[a].op == CountAll {
      AllCounted(Argued(ShapeOf(q), Selected(q, o, decode, items), g.keys, a));
    }
  }

  lemma {:induction false} ReductionIs(q: Query, a: nat)
    requires QueryOk(q) && a < |q.columns|
    ensures |ShapeOf(q).aggregates| == |q.columns| && ShapeOf(q).aggregates[a].op == q.columns[a].op
    ensures q.columns[a].field < |q.kinds|
    ensures q.columns[a].op != CountAll ==> ShapeOf(q).aggregates[a].kind == q.kinds[q.columns[a].field]
  {
    assert ColumnOk(q, q.columns[a]);
  }

  lemma {:induction false} AllCounted(vs: seq<Value>)
    ensures |Counted(CountAll, vs)| == |vs|
  {
    if vs != [] { AllCounted(vs[..|vs| - 1]); }
  }

  // ---- every row in one group ----

  lemma {:induction false} FirstKeysAre(made: seq<seq<Value>>, rows: seq<Row>)
    requires Apart(made)
    ensures Apart(FirstKeys(made, rows)) && made <= FirstKeys(made, rows)
    ensures forall r :: r in rows ==> Occurs(FirstKeys(made, rows), r.keys)
  {
    hide NormalKeys;
    if rows != [] {
      var front, r := rows[..|rows| - 1], rows[|rows| - 1];
      FirstKeysAre(made, front);
      var before, all := FirstKeys(made, front), FirstKeys(made, rows);
      forall i | 0 <= i < |all| ensures !Occurs(all[..i], all[i]) {
        if i < |before| { assert all[..i] == before[..i]; } else { assert all[..i] == before; }
      }
      forall x | x in rows ensures Occurs(all, x.keys) {
        if x == r {
          if !Occurs(before, r.keys) { assert NormalKeys(all[|before|]) == NormalKeys(r.keys); }
        } else {
          assert x in front;
          var i :| 0 <= i < |before| && NormalKeys(before[i]) == NormalKeys(x.keys);
          assert NormalKeys(all[i]) == NormalKeys(x.keys);
        }
      }
    }
  }

  /** A group that was not made at the start has a row. */
  lemma {:induction false} FirstRow(made: seq<seq<Value>>, rows: seq<Row>, i: nat) returns (r: Row)
    requires |made| <= i < |FirstKeys(made, rows)|
    ensures r in rows && r.keys == FirstKeys(made, rows)[i]
  {
    hide Occurs;
    var n := |rows| - 1;
    if i < |FirstKeys(made, rows[..n])| { r := FirstRow(made, rows[..n], i); } else { r := rows[n]; }
  }

  /** Every row that the query is about has the keys of exactly one group; and a group was made at the start or has such
      a row. */
  ghost predicate Partitions(q: Query, o: I.Options, decode: Decoder, items: seq<I.Item>, made: seq<seq<Value>>,
                             groups: seq<Group>)
  {
    && (forall x :: x in items && Sought(q, o, decode, x) ==> InOneGroup(q, decode, groups, x))
    && |made| <= |groups|
    && (forall i :: 0 <= i < |made| ==> groups[i].keys == made[i])
    && forall i :: |made| <= i < |groups| ==> Belonging(q, o, decode, items, groups[i].keys) != []
  }

  ghost predicate InOneGroup(q: Query, decode: Decoder, groups: seq<Group>, x: I.Item) {
    exists i :: IsGroupOf(q, decode, groups, x, i)
  }

  ghost predicate IsGroupOf(q: Query, decode: Decoder, groups: seq<Group>, x: I.Item, i: nat) {
    && i < |groups| && KeyedBy(q, x, decode(x), groups[i].keys)
    && forall j :: 0 <= j < |groups| && KeyedBy(q, x, decode(x), groups[j].keys) ==> j == i
  }

  lemma {:induction false} GroupsPartition(q: Query, o: I.Options, decode: Decoder, items: seq<I.Item>,
                                           made: seq<seq<Value>>, groups: seq<Group>)
    requires QueryOk(q) && DecodesAll(q, decode, items) && Apart(made)
    requires I64_MIN <= o.start <= I64_MAX && I64_MIN <= o.end <= I64_MAX && !PlanRefused(q, o.start, o.end)
    requires KeysOf(groups) == FirstKeys(made, Selected(q, o, decode, items))
    requires forall i :: 0 <= i < |groups| ==> KeysOk(ShapeOf(q), groups[i].keys)
    ensures Partitions(q, o, decode, items, made, groups)
  {
    hide QueryOk, PlanRefused, DecodesAll, FirstKeys, KeysOk, NormalKeys, Selected, KeyedBy, Sought, ShapeOf, RowOf,
         Belonging, Occurs, Apart;
    var rows := Selected(q, o, decode, items);
    FirstKeysAre(made, rows);
    forall x | x in items && Sought(q, o, decode, x) ensures InOneGroup(q, decode, groups, x) {
      OneGroup(q, o, decode, items, made, groups, x);
    }
    forall i | 0 <= i < |made| ensures groups[i].keys == made[i] {
      assert KeysOf(groups)[i] == made[i];
    }
    forall i | |made| <= i < |groups| ensures Belonging(q, o, decode, items, groups[i].keys) != [] {
      var r := FirstRow(made, rows, i);
      MembersAre(q, o, decode, items, groups[i].keys);
      MemberIn(rows, r, groups[i].keys);
    }
  }

  lemma {:induction false} MemberIn(rows: seq<Row>, r: Row, keys: seq<Value>)
    requires r in rows && NormalKeys(r.keys) == NormalKeys(keys)
    ensures Members(rows, keys) != []
  {
    hide NormalKeys;
    if r != rows[|rows| - 1] { MemberIn(rows[..|rows| - 1], r, keys); }
  }

  lemma {:induction false} SoughtRow(q: Query, o: I.Options, decode: Decoder, items: seq<I.Item>, x: I.Item)
    requires QueryOk(q) && DecodesAll(q, decode, items) && x in items && Sought(q, o, decode, x)
    ensures RowOf(q, x, decode(x)) in Selected(q, o, decode, items)
  {
    hide QueryOk, ValuesOk, RowOf, Sought, Matching, I.Wanted;
    SoughtIff(q, o, decode, x);
    InFilter(o, items, x);
    InMatched(Matching(q, decode), I.Filter(o, items), x);
    var xs := C.Matched(Matching(q, decode), I.Filter(o, items));
    var i :| 0 <= i < |xs| && xs[i] == x;
    assert RowsOf(q, decode, xs)[i] == RowOf(q, x, decode(x));
  }

  lemma {:induction false} InFilter(o: I.Options, items: seq<I.Item>, x: I.Item)
    requires x in items && I.Wanted(o, x)
    ensures x in I.Filter(o, items)
  {
    if x != items[|items| - 1] { InFilter(o, items[..|items| - 1], x); }
  }

  lemma {:induction false} InMatched(m: C.Matches, items: seq<I.Item>, x: I.Item)
    requires x in items && m(x)
    ensures x in C.Matched(m, items)
  {
    if x != items[|items| - 1] { InMatched(m, items[..|items| - 1], x); }
  }

  lemma {:induction false} OneGroup(q: Query, o: I.Options, decode: Decoder, items: seq<I.Item>,
                                    made: seq<seq<Value>>, groups: seq<Group>, x: I.Item)
    requires QueryOk(q) && DecodesAll(q, decode, items) && Apart(KeysOf(groups))
    requires I64_MIN <= o.start <= I64_MAX && I64_MIN <= o.end <= I64_MAX && !PlanRefused(q, o.start, o.end)
    requires forall r :: r in Selected(q, o, decode, items) ==> Occurs(KeysOf(groups), r.keys)
    requires forall i :: 0 <= i < |groups| ==> KeysOk(ShapeOf(q), groups[i].keys)
    requires x in items && Sought(q, o, decode, x)
    ensures InOneGroup(q, decode, groups, x)
  {
    hide QueryOk, PlanRefused, ValuesOk, KeysOk, NormalKeys, Selected, KeyedBy, Sought, ShapeOf, RowOf, I.Wanted,
         Matching;
    SoughtRow(q, o, decode, items, x);
    SoughtIff(q, o, decode, x);
    InInterval(q, o, x);
    var r, keys := RowOf(q, x, decode(x)), KeysOf(groups);
    forall i | 0 <= i < |groups|
      ensures KeyedBy(q, x, decode(x), groups[i].keys) <==> NormalKeys(r.keys) == NormalKeys(keys[i])
    {
      KeyedIff(q, x, decode(x), groups[i].keys);
    }
    var i :| 0 <= i < |keys| && NormalKeys(keys[i]) == NormalKeys(r.keys);
    forall j | 0 <= j < |groups| && KeyedBy(q, x, decode(x), groups[j].keys) ensures j == i {
      if i < j { OccursAt(keys, i, j); } else if j < i { OccursAt(keys, j, i); }
    }
    assert IsGroupOf(q, decode, groups, x, i);
  }

  lemma {:induction false} OccursAt(keys: seq<seq<Value>>, i: nat, j: nat)
    requires i < j < |keys| && NormalKeys(keys[i]) == NormalKeys(keys[j])
    ensures Occurs(keys[..j], keys[j])
  {
    hide NormalKeys;
    assert keys[..j][i] == keys[i];
  }

  /** If all rows of the query are taken in turn, consume refuses none of them. */
  lemma {:induction false} NoneRefused(q: Query, o: I.Options, decode: Decoder, made: seq<seq<Value>>,
                                       room: nat -> bool, items: seq<I.Item>, n: nat)
    requires QueryOk(q) && DecodesAll(q, decode, items) && I64_MIN <= o.start <= I64_MAX && I64_MIN <= o.end <= I64_MAX
    requires !PlanRefused(q, o.start, o.end) && n < |I.Filter(o, items)|
    requires ShapeOk(ShapeOf(q)) && RowsOk(ShapeOf(q), Selected(q, o, decode, items))
    requires AllAdmitted(ShapeOf(q), q.maxGroups, made, Selected(q, o, decode, items), room,
                         |Selected(q, o, decode, items)|)
    ensures Consume(q, decode, made, room)(I.Filter(o, items)[..n], I.Filter(o, items)[n])
  {
    hide QueryOk, Matching, ValuesOk, ShapeOf, RowOf, RowOk, Admits, FloorOk, PlanRefused, C.Matched, I.Filter;
    var m, w, rows := Matching(q, decode), I.Filter(o, items), Selected(q, o, decode, items);
    var x, h := w[n], C.Matched(m, w[..n]);
    FilterIn(o, items);
    if m(x) {
      assert x in w;
      FloorFine(q, o.start, o.end, x.time);
      assert w[..n + 1] == w[..n] + [x] && w == w[..n + 1] + w[n + 1..];
      C.MatchedNext(m, w[..n], x);
      C.MatchedConcat(m, w[..n + 1], w[n + 1..]);
      var j := |h|;
      assert rows[..j] == RowsOf(q, decode, h) && rows[j] == RowOf(q, x, decode(x));
      assert AdmittedAt(ShapeOf(q), q.maxGroups, made, rows, room, j);
    }
  }

  /** Nothing disturbs the query: reads succeed, the budgets pay for the snapshot, the rows can be counted, and memory
      is there. */
  ghost predicate Undisturbed(o: I.Options, parts: seq<I.Part>, lets: S.Lets, rebuilt: S.Rebuilt, room: nat -> bool) {
    && S.Calm(lets, rebuilt) && S.TotalCost(parts) <= o.budget && |I.Filter(o, I.AllItems(parts))| < U32_MAX
    && forall n: nat :: room(n)
  }

  /** The aggregate part of wadb_query_execute, before the groups are put in order. Whatever the snapshot, the groups
      are those of the plain group-by over its rows that lie in the interval and pass the filters, each with the exact
      fold of its own rows; and an undisturbed query succeeds exactly when the groups fit and no aggregate overflows. */
  method Aggregate(q: Query, o: I.Options, decode: Decoder, hash: seq<Value> -> nat, parts: seq<I.Part>, lets: S.Lets,
                   rebuilt: S.Rebuilt, room: nat -> bool)
    returns (groups: Option<seq<Group>>, ghost made: seq<seq<Value>>)
    requires QueryOk(q) && S.Scannable(parts) && DecodesAll(q, decode, I.AllItems(parts))
    requires I64_MIN <= o.start <= o.end <= I64_MAX && !PlanRefused(q, o.start, o.end)
    ensures IsMade(q, o.start, o.end, made)
    ensures ShapeOk(ShapeOf(q)) && RowsOk(ShapeOf(q), Selected(q, o, decode, I.AllItems(parts)))
    ensures groups.Some? ==> Grouped(q, hash, made, Selected(q, o, decode, I.AllItems(parts)), groups.value)
    ensures groups.Some? ==> Summarizes(q, o, decode, I.AllItems(parts), made, groups.value)
    ensures groups.Some? ==> |Selected(q, o, decode, I.AllItems(parts))| < U32_MAX
    ensures groups.Some? ==> Fits(ShapeOf(q), q.maxGroups, made, Selected(q, o, decode, I.AllItems(parts)))
    ensures Undisturbed(o, parts, lets, rebuilt, room)
            && Fits(ShapeOf(q), q.maxGroups, made, Selected(q, o, decode, I.AllItems(parts))) ==>
              groups.Some?
  {
    hide QueryOk, Matching, ValuesOk, ShapeOf, RowOf, RowOk, PlanRefused, C.Matched, I.Filter, I.AllItems, S.Scannable,
         IsMade, Fits, GroupsOk, FirstKeys, KeysOk, Admits, S.Calm, S.TotalCost, S.TotalNeed, Apart, Takes, DecodesAll,
         Summarizes;
    ghost var items := I.AllItems(parts);
    SelectedFine(q, o, decode, items);
    var keys := MakeKeys(q, o.start, o.end);
    made := keys;
    MadeApart(q, o.start, o.end, made);
    var consume := Consume(q, decode, keys, room);
    var wide := o.(limit := U32_MAX);
    var st := S.ScanSnapshot(wide, consume, parts, lets, rebuilt);
    C.SameFilter(o, wide, items);
    ghost var wanted, s := I.Filter(o, items), ShapeOf(q);
    if Undisturbed(o, parts, lets, rebuilt, room) && Fits(s, q.maxGroups, made, Selected(q, o, decode, items)) {
      FitsAdmitted(s, q.maxGroups, made, Selected(q, o, decode, items), room);
      if st.phase.Refused? {
        var n := |st.handed| - 1;
        assert st.handed[..n] == wanted[..n] && st.handed[n] == wanted[n];
        NoneRefused(q, o, decode, made, room, items, n);
        assert false;
      }
    }
    if !st.phase.Going? { return None, made; }
    MatchedIn(Matching(q, decode), st.handed);
    AcceptedAdmits(q, decode, made, room, st.handed, |st.handed|);
    assert st.handed[..|st.handed|] == st.handed;
    var rows := RowsOf(q, decode, C.Matched(Matching(q, decode), st.handed));
    var found, ok := Execute(ShapeOf(q), hash, q.maxGroups, keys, rows, room);
    groups := if ok then Some(found) else None;
    if ok { GroupedSummarizes(q, o, decode, hash, items, made, found); }
  }

  ghost predicate Grouped(q: Query, hash: seq<Value> -> nat, made: seq<seq<Value>>, rows: seq<Row>,
                          groups: seq<Group>) {
    KeysOf(groups) == FirstKeys(made, rows) && GroupsOk(ShapeOf(q), hash, rows, groups)
  }

  // ---- what the cells of a group say ----

  /** The values that aggregate a of a group is about. */
  ghost function Argued(s: Shape, rows: seq<Row>, k: seq<Value>, a: nat): seq<Value>
    requires a < |s.aggregates| && RowsOk(s, rows)
  {
    MembersOk(s, rows, k);
    Groups.Column(s, Members(rows, k), a)
  }

  /** COUNT counts, SUM is the exact sum of values none of whose prefixes overflow, MIN and MAX are the first extreme
      value, over the rows with the keys of the group. */
  ghost predicate CellMeans(a: Reduction, vs: seq<Value>, c: Cell) {
    var w := Counted(a.op, vs);
    && c.count == |w|
    && match a.op
       case CountAll | Count => c.out.Uint? && c.out.u == |w|
       case Sum => PrefixesFit(a.kind, w) && (c.out.Null? <==> w == []) && Number(c.out) == Total(w)
       case Min | Max => AllOfKind(a.kind, w) && if w == [] then c.out == Null else Extreme(a.op, a.kind, w, c.out)
  }

  lemma {:induction false} CellsMean(s: Shape, hash: seq<Value> -> nat, rows: seq<Row>, groups: seq<Group>, i: nat,
                                     a: nat)
    requires GroupsOk(s, hash, rows, groups) && i < |groups| && a < |s.aggregates| && |rows| <= U64_MAX
    ensures |groups[i].cells| == |s.aggregates|
    ensures CellMeans(s.aggregates[a], Argued(s, rows, groups[i].keys, a), groups[i].cells[a])
  {
    hide PrefixesFit, Counted, Total, Extreme, KeysOk, NormalKeys, RowOk;
    var k := groups[i].keys;
    assert GroupOk(s, hash, rows, groups[i]);
    MembersOk(s, rows, k);
    MembersFew(rows, k);
    ColumnKind(s, Members(rows, k), a);
    assert Allowed(s.aggregates[a]);
    var r, vs := s.aggregates[a], Argued(s, rows, k, a);
    if r.op == CountAll || r.op == Count { CountIs(r, vs); }
    else if r.op == Sum { SumIs(r, vs); }
    else { ExtremeIs(r, vs); }
  }

  lemma {:induction false} MembersFew(rows: seq<Row>, k: seq<Value>)
    ensures |Members(rows, k)| <= |rows|
  {
    hide NormalKeys;
    if rows != [] { MembersFew(rows[..|rows| - 1], k); }
  }

  /** The groups of a plain group-by, told by the values of the rows: every row that the query is about in one group,
      and every cell about the rows of its group. */
  ghost predicate Summarizes(q: Query, o: I.Options, decode: Decoder, items: seq<I.Item>, made: seq<seq<Value>>,
                             groups: seq<Group>)
  {
    && Partitions(q, o, decode, items, made, groups)
    && forall i, a :: 0 <= i < |groups| && 0 <= a < |q.columns| ==> CellIs(q, o, decode, items, groups[i], a)
  }

  lemma {:induction false} GroupedSummarizes(q: Query, o: I.Options, decode: Decoder, hash: seq<Value> -> nat,
                                             items: seq<I.Item>, made: seq<seq<Value>>, groups: seq<Group>)
    requires QueryOk(q) && DecodesAll(q, decode, items)
    requires I64_MIN <= o.start <= I64_MAX && I64_MIN <= o.end <= I64_MAX && !PlanRefused(q, o.start, o.end)
    requires IsMade(q, o.start, o.end, made) && |Selected(q, o, decode, items)| <= U64_MAX
    requires Grouped(q, hash, made, Selected(q, o, decode, items), groups)
    ensures Summarizes(q, o, decode, items, made, groups)
  {
    hide QueryOk, DecodesAll, PlanRefused, IsMade, Selected, ShapeOf, RowsOk, Fold, NormalKeys, FirstKeys, Partitions,
         CellIs, CellMeans, Apart, KeysOk, Belonging;
    var rows := Selected(q, o, decode, items);
    SelectedFine(q, o, decode, items);
    MadeApart(q, o.start, o.end, made);
    ShapeColumns(q);
    forall i | 0 <= i < |groups| ensures KeysOk(ShapeOf(q), groups[i].keys) {
      assert GroupOk(ShapeOf(q), hash, rows, groups[i]);
    }
    GroupsPartition(q, o, decode, items, made, groups);
    forall i, a | 0 <= i < |groups| && 0 <= a < |q.columns| ensures CellIs(q, o, decode, items, groups[i], a) {
      CellsMean(ShapeOf(q), hash, rows, groups, i, a);
      CellIsRight(q, o, decode, items, groups[i], a);
    }
  }

  // ---- the answer ----

  /** The column of the result that an order is on: a key, or else an aggregate. */
  function SortValue(g: Group, column: nat): Value {
    if column < |g.keys| then g.keys[column]
    else if column - |g.keys| < |g.cells| then g.cells[column - |g.keys|].out
    else Null
  }

  function SortOf(groups: seq<Group>, column: nat, descending: bool): (r: Ordering.Sort)
    ensures |r.column| == |groups|
  {
    Ordering.Sort(seq(|groups|, i requires 0 <= i < |groups| => SortValue(groups[i], column)), descending)
  }

  /** The values to sort by: the key or the aggregate that the column of the result shows. */
  ghost predicate SortsBy(s: Ordering.Sort, groups: seq<Group>, column: nat, descending: bool) {
    && s.descending == descending && |s.column| == |groups|
    && forall i :: 0 <= i < |groups| ==>
         && (column < |groups[i].keys| ==> s.column[i] == groups[i].keys[column])
         && (0 <= column - |groups[i].keys| < |groups[i].cells| ==>
               s.column[i] == groups[i].cells[column - |groups[i].keys|].out)
  }

  /** The kind of a cell's value. */
  function OutKind(a: Reduction): Kind { if a.op == CountAll || a.op == Count then Unsigned else a.kind }

  lemma {:induction false} CellKind(a: Reduction, vs: seq<Value>, c: Cell)
    requires Allowed(a) && AllOfKind(a.kind, vs) && Fold(a, vs) == Some(c) && |vs| <= U64_MAX
    ensures OfKind(OutKind(a), c.out)
  {
    hide Fold;
    if a.op == CountAll || a.op == Count { CountIs(a, vs); }
  }

  lemma {:induction false} Sortable(s: Shape, hash: seq<Value> -> nat, rows: seq<Row>, groups: seq<Group>, column: nat,
                                    descending: bool)
    requires GroupsOk(s, hash, rows, groups) && |rows| <= U64_MAX
    ensures Ordering.SortOk(SortOf(groups, column, descending))
  {
    hide NormalKeys, RowOk, Fold;
    var n := |s.kinds|;
    var kind := if column < n then s.kinds[column]
                else if column - n < |s.aggregates| then OutKind(s.aggregates[column - n]) else Signed;
    forall i | 0 <= i < |groups| ensures OfKind(kind, SortValue(groups[i], column)) {
      assert GroupOk(s, hash, rows, groups[i]);
      var k, a := groups[i].keys, column - n;
      if 0 <= a < |s.aggregates| {
        MembersOk(s, rows, k);
        MembersFew(rows, k);
        ColumnKind(s, Members(rows, k), a);
        assert Allowed(s.aggregates[a]);
        CellKind(s.aggregates[a], Groups.Column(s, Members(rows, k), a), groups[i].cells[a]);
      }
    }
  }

  /** A snapshot of the segments that matter selects the same rows and costs no more. */
  lemma {:induction false} FromSnapshot(q: Query, o: I.Options, decode: Decoder, readable: seq<I.Part>,
                                        parts: seq<I.Part>, a: nat, b: nat, lets: S.Lets, rebuilt: S.Rebuilt,
                                        room: nat -> bool)
    requires DecodesAll(q, decode, I.AllItems(readable))
    requires I.Filter(o, I.AllItems(parts)) == I.Filter(o, I.AllItems(readable))
    requires Snapshots.Chosen(o, readable, parts, a, b)
    ensures DecodesAll(q, decode, I.AllItems(parts))
    ensures Selected(q, o, decode, I.AllItems(parts)) == Selected(q, o, decode, I.AllItems(readable))
    ensures Undisturbed(o, readable, lets, rebuilt, room) ==> Undisturbed(o, parts, lets, rebuilt, room)
  {
    hide ValuesOk, Matching, I.Filter, I.AllItems, S.Calm, S.TotalCost, C.Matched, RowOf;
    Snapshots.SliceCost(readable, a, b);
    assert readable == readable[..a] + readable[a..b] + readable[b..];
    I.AllConcat(readable[..a] + readable[a..b], readable[b..]);
    I.AllConcat(readable[..a], readable[a..b]);
  }

  /** wadb_query with aggregates, on the readable segments of a table: the groups of the plain group-by over the rows in
      the interval that pass the filters, with cells that mean what they should, and the positions of the first of them
      in the order asked for, or of first occurrence. */
  method Answer(q: Query, o: I.Options, decode: Decoder, hash: seq<Value> -> nat, readable: seq<I.Part>, lets: S.Lets,
                rebuilt: S.Rebuilt, room: nat -> bool, order: Option<nat>, descending: bool)
    returns (groups: Option<seq<Group>>, emitted: seq<nat>, ghost made: seq<seq<Value>>)
    requires QueryOk(q) && S.Scannable(readable) && DecodesAll(q, decode, I.AllItems(readable))
    requires I64_MIN <= o.start <= o.end <= I64_MAX && !PlanRefused(q, o.start, o.end)
    ensures IsMade(q, o.start, o.end, made)
    ensures ShapeOk(ShapeOf(q)) && RowsOk(ShapeOf(q), Selected(q, o, decode, I.AllItems(readable)))
    ensures groups.Some? ==> Grouped(q, hash, made, Selected(q, o, decode, I.AllItems(readable)), groups.value)
    ensures groups.Some? ==> Summarizes(q, o, decode, I.AllItems(readable), made, groups.value)
    ensures groups.Some? ==> |emitted| == Ordering.Least(o.limit, |groups.value|)
    ensures groups.Some? && order.None? ==> forall i :: 0 <= i < |emitted| ==> emitted[i] == i
    ensures groups.Some? && order.Some? ==>
              var s := SortOf(groups.value, order.value, descending);
              && SortsBy(s, groups.value, order.value, descending)
              && (exists p :: Ordering.InOrder(s, p))
              && forall p :: Ordering.InOrder(s, p) ==> |p| == |groups.value| && emitted == p[..|emitted|]
    ensures Undisturbed(o, readable, lets, rebuilt, room) ==>
              (groups.Some? <==> Fits(ShapeOf(q), q.maxGroups, made, Selected(q, o, decode, I.AllItems(readable))))
  {
    hide QueryOk, ShapeOf, PlanRefused, Selected, I.AllItems, S.Scannable, IsMade, Fits, GroupsOk, FirstKeys,
         Undisturbed, DecodesAll, RowsOk, ShapeOk, I.Filter, Ordering.InOrder, Summarizes;
    var parts, first, end := Snapshots.Acquire(o, readable);
    FromSnapshot(q, o, decode, readable, parts, first, end, lets, rebuilt, room);
    groups, made := Aggregate(q, o, decode, hash, parts, lets, rebuilt, room);
    emitted := [];
    if groups.None? { return; }
    ghost var rows := Selected(q, o, decode, I.AllItems(readable));
    GroupedSummarizes(q, o, decode, hash, I.AllItems(readable), made, groups.value);
    var column := if order.Some? then order.value else 0;
    Sortable(ShapeOf(q), hash, rows, groups.value, column, descending);
    emitted := Ordering.Emit(SortOf(groups.value, column, descending), order.Some?, o.limit);
  }

  /** Cell a of a group means what its aggregate promises, over the rows of the group. */
  ghost predicate CellRight(q: Query, rows: seq<Row>, g: Group, a: nat)
    requires RowsOk(ShapeOf(q), rows)
  {
    && a < |ShapeOf(q).aggregates| == |g.cells|
    && CellMeans(ShapeOf(q).aggregates[a], Argued(ShapeOf(q), rows, g.keys, a), g.cells[a])
  }

  lemma {:induction false} ShapeColumns(q: Query)
    ensures |ShapeOf(q).aggregates| == |q.columns|
  {
  }
}
