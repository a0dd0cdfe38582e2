/** The meaning of a segment's dictionary: a list of distinct definitions, each a
    text for one field, whose identifier is its rank among the definitions of that
    field (docs/architecture.md, Dictionary fields). */
module Symbols {
  import opened Bytes

  datatype Def = Def(field: nat, text: seq<Byte>)

  predicate Distinct(defs: seq<Def>) { forall i, j :: 0 <= i < j < |defs| ==> defs[i] != defs[j] }

  /** How many definitions a field has. */
  function FieldCount(defs: seq<Def>, field: nat): nat {
    if defs == [] then 0
    else FieldCount(defs[..|defs| - 1], field) + if defs[|defs| - 1].field == field then 1 else 0
  }

  /** The identifier of the definition at position i: dense from 1 in each field. */
  function IdAt(defs: seq<Def>, i: nat): nat
    requires i < |defs|
  {
    FieldCount(defs[..i], defs[i].field) + 1
  }

  /** Identifier id of a field stands for a text. */
  ghost predicate Means(defs: seq<Def>, field: nat, id: nat, text: seq<Byte>) {
    exists i :: 0 <= i < |defs| && defs[i] == Def(field, text) && IdAt(defs, i) == id
  }

  lemma {:induction false} CountPrefix(defs: seq<Def>, field: nat, i: nat, j: nat)
    requires i <= j <= |defs|
    ensures FieldCount(defs[..i], field) <= FieldCount(defs[..j], field)
    ensures i < j && defs[i].field == field ==> FieldCount(defs[..i], field) < FieldCount(defs[..j], field)
    decreases j
  {
    if i < j {
      CountPrefix(defs, field, i, j - 1);
      assert defs[..j][..j - 1] == defs[..j - 1];
    }
  }

  lemma IdPrefix(defs: seq<Def>, n: nat, i: nat)
    requires i < n <= |defs|
    ensures IdAt(defs[..n], i) == IdAt(defs, i)
  {
    assert defs[..n][..i] == defs[..i];
  }

  /** An identifier stands for one text, and a text has one identifier. */
  lemma MeansUnique(defs: seq<Def>, field: nat, id: nat, a: seq<Byte>, id': nat, b: seq<Byte>)
    requires Distinct(defs) && Means(defs, field, id, a) && Means(defs, field, id', b)
    ensures id == id' <==> a == b
  {
    var i :| 0 <= i < |defs| && defs[i] == Def(field, a) && IdAt(defs, i) == id;
    var j :| 0 <= j < |defs| && defs[j] == Def(field, b) && IdAt(defs, j) == id';
    if i < j { CountPrefix(defs, field, i, j); }
    if j < i { CountPrefix(defs, field, j, i); }
  }

  /** Adding definitions changes no identifier. */
  lemma MeansGrows(defs: seq<Def>, more: seq<Def>, field: nat, id: nat, text: seq<Byte>)
    requires Means(defs, field, id, text)
    ensures Means(defs + more, field, id, text)
  {
    var i :| 0 <= i < |defs| && defs[i] == Def(field, text) && IdAt(defs, i) == id;
    assert (defs + more)[..i] == defs[..i];
    assert (defs + more)[i] == defs[i] && IdAt(defs + more, i) == id;
  }

  /** The identifiers in use are exactly 1 to the field's count. */
  lemma MeansDense(defs: seq<Def>, field: nat, id: nat)
    ensures (exists text :: Means(defs, field, id, text)) <==> 1 <= id <= FieldCount(defs, field)
  {
    if text :| Means(defs, field, id, text) {
      var i :| 0 <= i < |defs| && defs[i] == Def(field, text) && IdAt(defs, i) == id;
      CountPrefix(defs, field, i, |defs|);
      assert defs[..|defs|] == defs;
    }
    if 1 <= id <= FieldCount(defs, field) {
      var i := Positioned(defs, field, id - 1);
      assert Means(defs, field, id, defs[i].text);
    }
  }

  // ---- positions of a field's definitions ----

  function Positions(defs: seq<Def>, field: nat): (r: seq<nat>)
    ensures |r| == FieldCount(defs, field)
    ensures forall k :: 0 <= k < |r| ==> r[k] < |defs|
  {
    if defs == [] then []
    else Positions(defs[..|defs| - 1], field) + if defs[|defs| - 1].field == field then [|defs| - 1] else []
  }

  lemma {:induction false} PositionsAt(defs: seq<Def>, field: nat, k: nat)
    requires k < FieldCount(defs, field)
    ensures var i := Positions(defs, field)[k];
            defs[i].field == field && FieldCount(defs[..i], field) == k
  {
    var n := |defs| - 1;
    var front := defs[..n];
    if k < FieldCount(front, field) {
      PositionsAt(front, field, k);
      var i := Positions(front, field)[k];
      assert front[..i] == defs[..i];
    }
  }

  lemma Positioned(defs: seq<Def>, field: nat, k: nat) returns (i: nat)
    requires k < FieldCount(defs, field)
    ensures i < |defs| && defs[i].field == field && IdAt(defs, i) == k + 1 && Positions(defs, field)[k] == i
  {
    PositionsAt(defs, field, k);
    i := Positions(defs, field)[k];
  }

  lemma PositionsOn(defs: seq<Def>, d: Def, field: nat)
    ensures Positions(defs + [d], field) == Positions(defs, field) + if d.field == field then [|defs|] else []
    ensures FieldCount(defs + [d], field) == FieldCount(defs, field) + if d.field == field then 1 else 0
  {
    assert (defs + [d])[..|defs|] == defs;
  }

  // ---- memory ----

  /** The first of start, 2 start, 4 start and so on that is at least n. */
  function DoubleTo(start: nat, n: nat): (c: nat)
    requires start > 0
    ensures c >= n && c >= start
    decreases n - start
  {
    if start >= n then start else DoubleTo(2 * start, n)
  }

  /** c is reached from s by doubling. */
  predicate Doubling(s: nat, c: nat)
    requires s > 0
    decreases c - s
  {
    s == c || (2 * s <= c && Doubling(2 * s, c))
  }

  lemma {:induction false} DoublingMore(s: nat, c: nat)
    requires s > 0 && Doubling(s, c)
    ensures Doubling(s, 2 * c) && c >= s
    decreases c - s
  {
    if s != c {
      DoublingMore(2 * s, c);
    }
  }

  /** A capacity got by doubling is at least the smallest one that suffices. */
  lemma {:induction false} DoubleToLeast(s: nat, c: nat, n: nat)
    requires s > 0 && Doubling(s, c) && n <= c
    ensures DoubleTo(s, n) <= c
    decreases c - s
  {
    if s < n {
      DoubleToLeast(2 * s, c, n);
    } else {
      DoublingMore(s, c);
    }
  }

  lemma {:induction false} DoubleToMonotone(s: nat, m: nat, n: nat)
    requires s > 0 && m <= n
    ensures DoubleTo(s, m) <= DoubleTo(s, n)
    decreases n - s
  {
    if s < m {
      DoubleToMonotone(2 * s, m, n);
    }
  }

  /** One more than a smallest sufficient capacity needs one doubling. */
  lemma {:induction false} DoubleToNext(s: nat, n: nat)
    requires s > 0 && DoubleTo(s, n) == n
    ensures DoubleTo(s, n + 1) == 2 * n
    decreases n - s
  {
    if s < n {
      DoubleToNext(2 * s, n);
    }
  }

  lemma {:induction false} DoubleToSame(s: nat, n: nat, m: nat)
    requires s > 0 && n <= m <= DoubleTo(s, n)
    ensures DoubleTo(s, m) == DoubleTo(s, n)
    decreases n - s
  {
    if s < n {
      DoubleToSame(2 * s, n, m);
    }
  }

  /** Capacity of a list that grew from nothing to n entries, starting at a first size. */
  function Grown(first: nat, n: nat): nat
    requires first > 0
  {
    if n == 0 then 0 else DoubleTo(first, n)
  }

  const SYMBOL_BYTES: nat := 32
  const DICTIONARY_BYTES: nat := 72
  const COLUMN_BYTES: nat := 24

  function TextBytes(defs: seq<Def>): nat {
    if defs == [] then 0 else TextBytes(defs[..|defs| - 1]) + |defs[|defs| - 1].text| + 1
  }

  function Sum(xs: seq<nat>): nat {
    if xs == [] then 0 else Sum(xs[..|xs| - 1]) + xs[|xs| - 1]
  }

  /** The column capacities of a dictionary that never held more than these definitions. */
  function FreshColumns(defs: seq<Def>, fields: nat): (r: seq<nat>)
    ensures |r| == fields && forall f :: 0 <= f < fields ==> r[f] == Grown(8, FieldCount(defs, f))
  {
    seq(fields, f requires 0 <= f < fields => Grown(8, FieldCount(defs, f)))
  }

  /** The accounted size of a dictionary with given capacities. */
  function Accounted(fields: nat, capacity: nat, slots: nat, columns: seq<nat>, defs: seq<Def>): nat {
    DICTIONARY_BYTES + fields * COLUMN_BYTES + capacity * SYMBOL_BYTES + slots * 4 + Sum(columns) * 4 + TextBytes(defs)
  }

  /** The accounted size of a dictionary that was only ever given these definitions. */
  function FreshBytes(fields: nat, defs: seq<Def>): nat {
    Accounted(fields, Grown(16, |defs|), Grown(32, 2 * |defs|), FreshColumns(defs, fields), defs)
  }

  lemma {:induction false} SumMonotone(a: seq<nat>, b: seq<nat>)
    requires |a| == |b| && forall i :: 0 <= i < |a| ==> a[i] <= b[i]
    ensures Sum(a) <= Sum(b)
  {
    if a != [] {
      SumMonotone(a[..|a| - 1], b[..|b| - 1]);
    }
  }

  lemma {:induction false} SumUpdate(a: seq<nat>, i: nat, v: nat)
    requires i < |a|
    ensures Sum(a[i := v]) == Sum(a) - a[i] + v
  {
    var n := |a| - 1;
    if i < n {
      SumUpdate(a[..n], i, v);
      assert a[i := v][..n] == a[..n][i := v];
    } else {
      assert a[i := v][..n] == a[..n];
    }
  }

  lemma {:induction false} TextPrefix(defs: seq<Def>, k: nat)
    requires k <= |defs|
    ensures TextBytes(defs[..k]) <= TextBytes(defs)
  {
    if k < |defs| {
      TextPrefix(defs[..|defs| - 1], k);
      assert defs[..|defs| - 1][..k] == defs[..k];
    } else {
      assert defs[..k] == defs;
    }
  }

  lemma GrownMonotone(first: nat, m: nat, n: nat)
    requires first > 0 && m <= n
    ensures Grown(first, m) <= Grown(first, n)
  {
    DoubleToMonotone(first, m, n);
  }

  /** A dictionary built from a prefix of the definitions is no larger. */
  lemma FreshPrefix(fields: nat, defs: seq<Def>, k: nat)
    requires k <= |defs|
    ensures FreshBytes(fields, defs[..k]) <= FreshBytes(fields, defs)
  {
    hide Grown, FieldCount, TextBytes, Sum;
    GrownMonotone(16, k, |defs|);
    GrownMonotone(32, 2 * k, 2 * |defs|);
    TextPrefix(defs, k);
    var a, b := FreshColumns(defs[..k], fields), FreshColumns(defs, fields);
    forall f | 0 <= f < fields ensures a[f] <= b[f] {
      CountPrefix(defs, f, k, |defs|);
      assert defs[..|defs|] == defs;
      GrownMonotone(8, FieldCount(defs[..k], f), FieldCount(defs, f));
    }
    SumMonotone(a, b);
  }

  /** The next capacity of a list or table: twice the present one when it is full. */
  function Doubled(full: bool, c: nat, first: nat): nat {
    if !full then c else if c != 0 then 2 * c else first
  }

  /** Doubling when full keeps a capacity the smallest that suffices. */
  lemma GrownNext(first: nat, n: nat)
    requires first > 0
    ensures Grown(first, n + 1) == Doubled(n == Grown(first, n), Grown(first, n), first)
  {
    if n > 0 {
      if DoubleTo(first, n) == n { DoubleToNext(first, n); } else { DoubleToSame(first, n, n + 1); }
    }
  }

  lemma {:induction false} DoubleToEven(s: nat, n: nat)
    requires s > 0 && s % 2 == 0
    ensures DoubleTo(s, n) % 2 == 0
    decreases n - s
  {
    if s < n { DoubleToEven(2 * s, n); }
  }

  /** The same for a table kept at most half full. */
  lemma GrownNextTable(n: nat)
    ensures Grown(32, 2 * (n + 1)) == Doubled(Grown(32, 2 * n) < 2 * (n + 1), Grown(32, 2 * n), 32)
  {
    if n > 0 {
      DoubleToEven(32, 2 * n);
      var c := DoubleTo(32, 2 * n);
      if c == 2 * n {
        DoubleToNext(32, 2 * n);
        DoubleToSame(32, 2 * n + 1, 2 * n + 2);
      } else {
        DoubleToSame(32, 2 * n, 2 * n + 2);
      }
    }
  }

  lemma FreshColumnsNext(fields: nat, defs: seq<Def>, d: Def)
    requires d.field < fields
    ensures FreshColumns(defs + [d], fields) ==
              FreshColumns(defs, fields)[d.field := Grown(8, FieldCount(defs, d.field) + 1)]
  {
    hide Grown, FieldCount;
    var more, a := defs + [d], FreshColumns(defs, fields);
    forall f | 0 <= f < fields
      ensures FreshColumns(more, fields)[f] == a[d.field := Grown(8, FieldCount(defs, d.field) + 1)][f]
    {
      PositionsOn(defs, d, f);
    }
  }

  /** The bytes by which larger capacities exceed smaller ones. */
  function Extra(c: nat, c': nat, s: nat, s': nat, l: nat, l': nat): int {
    (c' - c) * SYMBOL_BYTES + (s' - s) * 4 + (l' - l) * 4
  }

  lemma AccountedChange(fields: nat, c: nat, c': nat, s: nat, s': nat, cols: seq<nat>, cols': seq<nat>, defs: seq<Def>,
                        defs': seq<Def>)
    ensures Accounted(fields, c', s', cols', defs') ==
            Accounted(fields, c, s, cols, defs) + Extra(c, c', s, s', Sum(cols), Sum(cols')) +
              TextBytes(defs') - TextBytes(defs)
  {
    hide Sum, TextBytes;
    assert (c' - c) * SYMBOL_BYTES == c' * SYMBOL_BYTES - c * SYMBOL_BYTES;
  }

  lemma TextOn(defs: seq<Def>, d: Def)
    ensures TextBytes(defs + [d]) == TextBytes(defs) + |d.text| + 1
  {
    assert (defs + [d])[..|defs|] == defs;
  }

  /** What one more definition adds to the size of a dictionary built from nothing. */
  lemma FreshNext(fields: nat, defs: seq<Def>, d: Def)
    requires d.field < fields
    ensures var n, k := |defs|, FieldCount(defs, d.field);
            FreshBytes(fields, defs + [d]) == FreshBytes(fields, defs) + |d.text| + 1 +
              Extra(Grown(16, n), Grown(16, n + 1), Grown(32, 2 * n), Grown(32, 2 * (n + 1)), Grown(8, k),
                    Grown(8, k + 1))
  {
    hide Grown, Sum, FieldCount, Accounted, TextBytes;
    FreshColumnsNext(fields, defs, d);
    TextOn(defs, d);
    var n, a, b := |defs|, FreshColumns(defs, fields), FreshColumns(defs + [d], fields);
    SumUpdate(a, d.field, Grown(8, FieldCount(defs, d.field) + 1));
    AccountedChange(fields, Grown(16, n), Grown(16, n + 1), Grown(32, 2 * n), Grown(32, 2 * (n + 1)), a, b, defs,
                    defs + [d]);
  }
}
