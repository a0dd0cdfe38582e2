/** Aggregates (src/query/query.c:170-205): reducing one value after the other, against
    what COUNT, SUM, MIN and MAX mean for the whole list. Averages and sums of
    floating-point numbers are not part of this model. */
module Reductions {
  import opened Bytes
  import opened Values

  datatype Op = CountAll | Count | Sum | Min | Max

  datatype Kind = Signed | Unsigned | Floating | Octets

  predicate OfKind(k: Kind, v: Value) {
    v.Null? || match k case Signed => v.Int? case Unsigned => v.Uint? case Floating => v.Float? case Octets => v.Data?
  }

  /** A reduction over a field: sums are over whole numbers. */
  datatype Reduction = Reduction(op: Op, kind: Kind)

  predicate Allowed(a: Reduction) { a.op == Sum ==> a.kind == Signed || a.kind == Unsigned }

  /** A group's running result: nonnull and the output value. */
  datatype Cell = Cell(count: nat, out: Value)

  function Start(op: Op): Cell { Cell(0, if op == CountAll || op == Count then Uint(0) else Null) }

  /** The checked addition of two values of one kind. */
  function Add(x: Value, y: Value): Option<Value>
    requires (x.Int? && y.Int?) || (x.Uint? && y.Uint?)
  {
    if x.Int? then
      if (y.i > 0 && x.i > I64_MAX - y.i) || (y.i < 0 && x.i < I64_MIN - y.i) then None else Some(Int(x.i + y.i))
    else if y.u > U64_MAX - x.u then None else Some(Uint(x.u + y.u))
  }

  predicate CellOk(a: Reduction, c: Cell) {
    OfKind(a.kind, c.out) && (c.count > 0 ==> !c.out.Null?)
  }

  /** One turn of the loop of reduce; None is the overflow. */
  function Reduce(a: Reduction, c: Cell, v: Value): Option<Cell>
    requires Allowed(a) && OfKind(a.kind, v) && (a.op != CountAll && a.op != Count ==> CellOk(a, c))
  {
    if a.op != CountAll && v.Null? then Some(c)
    else if c.count == U64_MAX then None
    else
      var n := c.count + 1;
      match a.op
      case CountAll | Count => if n <= U64_MAX then Some(Cell(n, Uint(n))) else None
      case Sum =>
        if n == 1 then Some(Cell(n, v)) else
          var sum := Add(c.out, v);
          if sum.None? then None else Some(Cell(n, sum.value))
      case Min => Some(Cell(n, if n == 1 || Compare(v, c.out) < 0 then v else c.out))
      case Max => Some(Cell(n, if n == 1 || Compare(v, c.out) > 0 then v else c.out))
  }

  predicate AllOfKind(k: Kind, vs: seq<Value>) { forall i :: 0 <= i < |vs| ==> OfKind(k, vs[i]) }

  /** Reducing a whole list. */
  function Fold(a: Reduction, vs: seq<Value>): (r: Option<Cell>)
    requires Allowed(a) && AllOfKind(a.kind, vs)
    ensures r.Some? && a.op != CountAll && a.op != Count ==> CellOk(a, r.value)
  {
    if vs == [] then Some(Start(a.op)) else
      var c := Fold(a, vs[..|vs| - 1]);
      if c.None? then None else Reduce(a, c.value, vs[|vs| - 1])
  }

  // ---- what the results mean ----

  /** The values that count. */
  function Counted(op: Op, vs: seq<Value>): (r: seq<Value>)
    ensures |r| <= |vs|
  {
    if vs == [] then []
    else Counted(op, vs[..|vs| - 1]) + if op == CountAll || !vs[|vs| - 1].Null? then [vs[|vs| - 1]] else []
  }

  function Number(v: Value): int { match v case Int(i) => i case Uint(u) => u case _ => 0 }

  function Total(vs: seq<Value>): int {
    if vs == [] then 0 else Total(vs[..|vs| - 1]) + Number(vs[|vs| - 1])
  }

  predicate InRange(k: Kind, n: int) { if k == Signed then I64_MIN <= n <= I64_MAX else 0 <= n <= U64_MAX }

  /** No prefix sum leaves the range. */
  predicate PrefixesFit(k: Kind, vs: seq<Value>) {
    forall n :: 0 <= n <= |vs| ==> InRange(k, Total(vs[..n]))
  }

  lemma {:induction false} PrefixesNext(k: Kind, vs: seq<Value>, v: Value)
    ensures PrefixesFit(k, vs + [v]) <==> PrefixesFit(k, vs) && InRange(k, Total(vs) + Number(v))
  {
    hide InRange;
    var more := vs + [v];
    assert more[..|vs|] == vs && vs[..|vs|] == vs;
    assert more[..|more|] == more;
    forall n | 0 <= n <= |vs| ensures more[..n] == vs[..n] { }
    if PrefixesFit(k, more) {
      forall n | 0 <= n <= |vs| ensures InRange(k, Total(vs[..n])) { assert InRange(k, Total(more[..n])); }
      assert InRange(k, Total(more[..|more|]));
    }
    if PrefixesFit(k, vs) && InRange(k, Total(vs) + Number(v)) {
      forall n | 0 <= n <= |more| ensures InRange(k, Total(more[..n])) {
        if n <= |vs| { assert InRange(k, Total(vs[..n])); }
      }
    }
  }

  /** COUNT is the number of values that count. */
  lemma {:induction false} CountIs(a: Reduction, vs: seq<Value>)
    requires Allowed(a) && AllOfKind(a.kind, vs) && |vs| <= U64_MAX && (a.op == CountAll || a.op == Count)
    ensures Fold(a, vs) == Some(Cell(|Counted(a.op, vs)|, Uint(|Counted(a.op, vs)|)))
  {
    if vs != [] { CountIs(a, vs[..|vs| - 1]); }
  }

  /** SUM is the exact sum, and fails exactly when some prefix sum is out of range. */
  lemma {:induction false} SumIs(a: Reduction, vs: seq<Value>)
    requires Allowed(a) && AllOfKind(a.kind, vs) && |vs| <= U64_MAX && a.op == Sum
    ensures var w := Counted(Sum, vs);
            && (Fold(a, vs).Some? <==> PrefixesFit(a.kind, w))
            && (Fold(a, vs).Some? ==>
                  && Fold(a, vs).value.count == |w|
                  && OfKind(a.kind, Fold(a, vs).value.out) && (Fold(a, vs).value.out.Null? <==> w == [])
                  && Number(Fold(a, vs).value.out) == Total(w))
  {
    hide PrefixesFit, Add, Total, InRange;
    if vs == [] {
      NothingToAdd(a.kind);
    } else {
      var front, v := vs[..|vs| - 1], vs[|vs| - 1];
      SumIs(a, front);
      var w := Counted(Sum, front);
      if !v.Null? {
        PrefixesNext(a.kind, w, v);
        TotalNext(w, v);
        OneFits(a.kind, v);
        if Fold(a, front).Some? && w != [] { AddIs(a.kind, Fold(a, front).value.out, v); }
      } else {
        assert w + [] == w;
      }
    }
  }

  /** The check is on every prefix: a sum can fail although the total is in range. */
  lemma {:induction false} SumFailsEarly() returns (vs: seq<Value>)
    ensures vs == [Int(I64_MAX), Int(1), Int(-1)] && AllOfKind(Signed, vs)
    ensures Total(Counted(Sum, vs)) == I64_MAX && InRange(Signed, Total(Counted(Sum, vs)))
    ensures Fold(Reduction(Sum, Signed), vs).None?
  {
    vs := [Int(I64_MAX), Int(1), Int(-1)];
    assert vs[..2] == [Int(I64_MAX), Int(1)] && vs[..2][..1] == [Int(I64_MAX)] && vs[..2][..1][..0] == [];
    assert Counted(Sum, vs[..2][..1]) == [Int(I64_MAX)];
    assert Counted(Sum, vs[..2]) == [Int(I64_MAX), Int(1)];
    assert Counted(Sum, vs) == vs;
    TotalNext([], Int(I64_MAX));
    TotalNext([Int(I64_MAX)], Int(1));
    TotalNext([Int(I64_MAX), Int(1)], Int(-1));
    assert [] + [Int(I64_MAX)] == [Int(I64_MAX)];
    assert [Int(I64_MAX)] + [Int(1)] == vs[..2] && vs[..2] + [Int(-1)] == vs;
    SumIs(Reduction(Sum, Signed), vs);
    assert !InRange(Signed, Total(vs[..2]));
  }

  lemma {:induction false} TotalNext(w: seq<Value>, v: Value)
    ensures Total(w + [v]) == Total(w) + Number(v) && Total([]) == 0
  {
    assert (w + [v])[..|w|] == w;
  }

  lemma {:induction false} OneFits(k: Kind, v: Value)
    requires (k == Signed || k == Unsigned) && OfKind(k, v)
    ensures InRange(k, Number(v))
  {
  }

  /** The overflow test refuses exactly the sums out of range. */
  lemma {:induction false} AddIs(k: Kind, x: Value, y: Value)
    requires (k == Signed || k == Unsigned) && OfKind(k, x) && OfKind(k, y) && !x.Null? && !y.Null?
    ensures Add(x, y).Some? <==> InRange(k, Number(x) + Number(y))
    ensures Add(x, y).Some? ==>
              OfKind(k, Add(x, y).value) && !Add(x, y).value.Null? && Number(Add(x, y).value) == Number(x) + Number(y)
  {
  }

  lemma {:induction false} NothingToAdd(k: Kind)
    ensures PrefixesFit(k, []) && Counted(Sum, []) == [] && Total([]) == 0
  {
    var none: seq<Value> := [];
    assert none[..0] == [];
  }

  /** x goes before y for MIN, after it for MAX, or ties with it. */
  predicate Leads(op: Op, x: Value, y: Value)
    requires Comparable(x, y)
  {
    if op == Min then Compare(x, y) <= 0 else Compare(x, y) >= 0
  }

  /** x stands at position p, no value of the list is ahead of it, and those before position p do not even tie with
      it. */
  ghost predicate LeadsAt(op: Op, k: Kind, w: seq<Value>, x: Value, p: nat)
    requires AllOfKind(k, w)
  {
    && p < |w| && w[p] == x && OfKind(k, x) && !x.Null?
    && (forall i :: 0 <= i < |w| ==> !w[i].Null? && Leads(op, x, w[i]))
    && (forall i :: 0 <= i < p ==> !Leads(op, w[i], x))
  }

  /** x is the first of the values that no other goes below (or above, for MAX). */
  ghost predicate Leader(op: Op, k: Kind, w: seq<Value>, x: Value)
    requires AllOfKind(k, w)
  {
    exists p :: LeadsAt(op, k, w, x, p)
  }

  lemma {:induction false} CountedKind(op: Op, k: Kind, vs: seq<Value>)
    requires AllOfKind(k, vs)
    ensures AllOfKind(k, Counted(op, vs)) && (op != CountAll ==> forall i :: 0 <= i < |Counted(op, vs)| ==>
                                              !Counted(op, vs)[i].Null?)
  {
    if vs != [] { CountedKind(op, k, vs[..|vs| - 1]); }
  }

  /** Value p of the list is below no other (for MAX, above no other), and is not alike one before it. */
  ghost predicate FirstAt(op: Op, k: Kind, w: seq<Value>, p: nat)
    requires AllOfKind(k, w) && p < |w|
  {
    && !w[p].Null?
    && (forall i :: 0 <= i < |w| ==>
          !w[i].Null? && Comparable(w[p], w[i]) && !(if op == Min then Below(w[i], w[p]) else Below(w[p], w[i])))
    && forall i :: 0 <= i < p ==> Comparable(w[p], w[i]) && !Alike(w[p], w[i])
  }

  /** x is the first of the least values of the list (of the greatest, for MAX). */
  ghost predicate Extreme(op: Op, k: Kind, w: seq<Value>, x: Value)
    requires AllOfKind(k, w)
  {
    exists p :: 0 <= p < |w| && w[p] == x && FirstAt(op, k, w, p)
  }

  lemma {:induction false} LeaderExtreme(op: Op, k: Kind, w: seq<Value>, x: Value)
    requires AllOfKind(k, w) && Leader(op, k, w, x) && (op == Min || op == Max)
    ensures Extreme(op, k, w, x)
  {
    hide Compare, Below, Alike;
    var p: nat :| LeadsAt(op, k, w, x, p);
    forall i | 0 <= i < |w| ensures Comparable(w[p], w[i]) {
      assert OfKind(k, w[p]) && OfKind(k, w[i]);
      CompareMeans(w[p], w[i]);
      CompareMeans(w[i], w[p]);
      Order(w[p], w[i], w[p]);
    }
    forall i | 0 <= i < |w| ensures !(if op == Min then Below(w[i], w[p]) else Below(w[p], w[i])) {
      assert Leads(op, x, w[i]);
      CompareMeans(w[p], w[i]);
    }
    forall i | 0 <= i < p ensures !Alike(w[p], w[i]) {
      assert !Leads(op, w[i], x);
      CompareMeans(w[p], w[i]);
      Order(w[p], w[i], w[p]);
    }
    assert FirstAt(op, k, w, p);
  }

  /** MIN and MAX are the first of the least or greatest values of the list; they never fail. */
  lemma {:induction false} ExtremeIs(a: Reduction, vs: seq<Value>)
    requires Allowed(a) && AllOfKind(a.kind, vs) && |vs| <= U64_MAX && (a.op == Min || a.op == Max)
    ensures Fold(a, vs).Some? && AllOfKind(a.kind, Counted(a.op, vs)) && Fold(a, vs).value.count == |Counted(a.op, vs)|
    ensures Counted(a.op, vs) != [] ==> Extreme(a.op, a.kind, Counted(a.op, vs), Fold(a, vs).value.out)
    ensures Counted(a.op, vs) == [] ==> Fold(a, vs).value.out == Null
  {
    hide Leader, Extreme, Fold, Counted;
    LeaderIs(a, vs);
    if Counted(a.op, vs) != [] { LeaderExtreme(a.op, a.kind, Counted(a.op, vs), Fold(a, vs).value.out); }
  }

  lemma {:induction false} LeaderIs(a: Reduction, vs: seq<Value>)
    requires Allowed(a) && AllOfKind(a.kind, vs) && |vs| <= U64_MAX && (a.op == Min || a.op == Max)
    ensures Fold(a, vs).Some? && AllOfKind(a.kind, Counted(a.op, vs)) && Fold(a, vs).value.count == |Counted(a.op, vs)|
    ensures Counted(a.op, vs) != [] ==> Leader(a.op, a.kind, Counted(a.op, vs), Fold(a, vs).value.out)
    ensures Counted(a.op, vs) == [] ==> Fold(a, vs).value.out == Null
  {
    hide Compare;
    CountedKind(a.op, a.kind, vs);
    if vs != [] {
      var front, v := vs[..|vs| - 1], vs[|vs| - 1];
      LeaderIs(a, front);
      var w := Counted(a.op, front);
      CountedKind(a.op, a.kind, front);
      if !v.Null? {
        ExtremeNext(a, w, v, Fold(a, front).value.out);
      } else {
        assert w + [] == w;
      }
    }
  }

  lemma {:induction false} ExtremeNext(a: Reduction, w: seq<Value>, v: Value, x: Value)
    requires (a.op == Min || a.op == Max) && AllOfKind(a.kind, w) && OfKind(a.kind, v) && !v.Null?
             && AllOfKind(a.kind, w + [v])
    requires w != [] ==> Leader(a.op, a.kind, w, x)
    ensures w == [] ==> Leader(a.op, a.kind, w + [v], v)
    ensures w != [] ==> Comparable(v, x) && Leader(a.op, a.kind, w + [v], if Passes(a.op, v, x) then v else x)
  {
    hide Compare;
    var more := w + [v];
    Order(v, v, v);
    if w == [] {
      assert LeadsAt(a.op, a.kind, more, v, 0);
    } else {
      var p: nat :| LeadsAt(a.op, a.kind, w, x, p);
      assert OfKind(a.kind, w[p]);
      Order(v, x, v);
      Order(x, v, x);
      forall i | 0 <= i < |w| ensures more[i] == w[i] && Comparable(v, w[i])
      && (Passes(a.op, v, x) ==> Leads(a.op, v, w[i]) && !Leads(a.op, w[i], v)) {
        assert OfKind(a.kind, w[i]) && Leads(a.op, x, w[i]);
        Overtakes(a.op, v, x, w[i]);
      }
      if Passes(a.op, v, x) {
        assert LeadsAt(a.op, a.kind, more, v, |w|);
      } else {
        assert LeadsAt(a.op, a.kind, more, x, p);
      }
    }
  }

  /** The test by which reduce replaces the running extreme. */
  predicate Passes(op: Op, v: Value, x: Value)
    requires Comparable(v, x)
  {
    if op == Min then Compare(v, x) < 0 else Compare(v, x) > 0
  }

  /** What passes the running extreme is strictly ahead of all it was ahead of. */
  lemma {:induction false} Overtakes(op: Op, v: Value, x: Value, y: Value)
    requires Comparable(v, x) && Comparable(x, y) && Comparable(v, y) && Comparable(y, v) && Comparable(y, x)
             && Comparable(x, v)
    requires Leads(op, x, y)
    ensures Passes(op, v, x) ==> Leads(op, v, y) && !Leads(op, y, v)
  {
    hide Compare;
    Order(v, x, y);
    Order(y, x, v);
    Order(v, y, x);
    Order(y, v, x);
    Order(x, y, v);
    Order(x, v, y);
  }
}
