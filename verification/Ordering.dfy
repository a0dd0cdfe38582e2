/** Ordered output of groups (src/query/query.c:234-273): the comparison of two groups
    and the bottom-up merge sort over two arrays of positions. */
module Ordering {
  import opened Bytes
  import opened Values

  /** The column that a query is ordered by, one value per group, and the direction. */
  datatype Sort = Sort(column: seq<Value>, descending: bool)

  predicate SortOk(s: Sort) {
    forall i, j :: 0 <= i < |s.column| && 0 <= j < |s.column| ==> Comparable(s.column[i], s.column[j])
  }

  /** compare_groups. */
  function CompareGroups(s: Sort, a: nat, b: nat): int
    requires SortOk(s) && a < |s.column| && b < |s.column|
  {
    var va, vb := s.column[a], s.column[b];
    var cmp := if !va.Null? && !vb.Null? && s.descending then 0 - Compare(va, vb) else Compare(va, vb);
    if cmp != 0 then cmp else Sign(a < b, a > b)
  }

  /** A strict total order: exactly one of before, same and after, and transitive; nulls come last in both
      directions. */
  lemma {:induction false} GroupOrder(s: Sort, a: nat, b: nat, c: nat)
    requires SortOk(s) && a < |s.column| && b < |s.column| && c < |s.column|
    ensures CompareGroups(s, a, b) == 0 - CompareGroups(s, b, a)
    ensures CompareGroups(s, a, b) == 0 <==> a == b
    ensures CompareGroups(s, a, b) < 0 && CompareGroups(s, b, c) < 0 ==> CompareGroups(s, a, c) < 0
    ensures !s.column[a].Null? && s.column[b].Null? ==> CompareGroups(s, a, b) < 0
  {
    hide Compare, Normal;
    var x, y, z := s.column[a], s.column[b], s.column[c];
    Order(x, y, z);
    Order(y, z, x);
    Order(z, y, x);
    Order(x, z, y);
    Order(z, x, y);
    NullsLast(x, y);
    NullsLast(y, z);
    NullsLast(x, z);
    NullsLast(z, x);
    NullsLast(z, y);
    NullsLast(y, x);
  }

  lemma {:induction false} NullsLast(x: Value, y: Value)
    requires Comparable(x, y)
    ensures !x.Null? && y.Null? ==> Compare(x, y) < 0
    ensures x.Null? && y.Null? ==> Compare(x, y) == 0
  {
  }

  // ---- merging ----

  predicate Positions(s: Sort, p: seq<nat>) { SortOk(s) && forall i :: 0 <= i < |p| ==> p[i] < |s.column| }

  predicate Sorted(s: Sort, p: seq<nat>)
    requires Positions(s, p)
  {
    forall i, j :: 0 <= i < j < |p| ==> CompareGroups(s, p[i], p[j]) <= 0
  }

  function Merge(s: Sort, a: seq<nat>, b: seq<nat>): (r: seq<nat>)
    requires Positions(s, a) && Positions(s, b)
    ensures |r| == |a| + |b| && Positions(s, r)
  {
    if a != [] && (b == [] || CompareGroups(s, a[0], b[0]) <= 0) then [a[0]] + Merge(s, a[1..], b)
    else if b != [] then [b[0]] + Merge(s, a, b[1..])
    else []
  }

  lemma {:induction false} MergeSame(s: Sort, a: seq<nat>, b: seq<nat>)
    requires Positions(s, a) && Positions(s, b)
    ensures multiset(Merge(s, a, b)) == multiset(a) + multiset(b)
    decreases |a| + |b|
  {
    hide CompareGroups, Merge;
    MergeUnfolds(s, a, b);
    if a != [] && (b == [] || CompareGroups(s, a[0], b[0]) <= 0) {
      MergeSame(s, a[1..], b);
      Taken(a, Merge(s, a[1..], b), multiset(b));
    } else if b != [] {
      MergeSame(s, a, b[1..]);
      Taken(b, Merge(s, a, b[1..]), multiset(a));
    }
  }

  lemma {:induction false} MergeUnfolds(s: Sort, a: seq<nat>, b: seq<nat>)
    requires Positions(s, a) && Positions(s, b)
    ensures Merge(s, a, b) == if a != [] && (b == [] || CompareGroups(s, a[0], b[0]) <= 0)
                              then [a[0]] + Merge(s, a[1..], b)
                              else if b != [] then [b[0]] + Merge(s, a, b[1..])
                              else []
  {
    hide CompareGroups;
  }

  /** The head of one list goes out first: what is out and what is left together stay the same. */
  lemma {:induction false} Taken(a: seq<nat>, rest: seq<nat>, other: multiset<nat>)
    requires a != [] && multiset(rest) == multiset(a[1..]) + other
    ensures multiset([a[0]] + rest) == multiset(a) + other
  {
    hide *;
    HeadAndTail(a);
    Counted(a[0], rest);
  }

  lemma {:induction false} Counted(x: nat, p: seq<nat>)
    ensures multiset([x] + p) == multiset{x} + multiset(p)
  {
    hide *;
  }

  lemma {:induction false} HeadAndTail(p: seq<nat>)
    requires p != []
    ensures multiset(p) == multiset{p[0]} + multiset(p[1..]) && multiset(p[1..]) == multiset(p) - multiset{p[0]}
  {
    hide *;
    assert p == [p[0]] + p[1..];
    Counted(p[0], p[1..]);
  }

  /** At or before every position of a list. */
  predicate AtFront(s: Sort, x: nat, p: seq<nat>)
    requires Positions(s, p) && x < |s.column|
  {
    forall i :: 0 <= i < |p| ==> CompareGroups(s, x, p[i]) <= 0
  }

  lemma {:induction false} FrontOfMerge(s: Sort, x: nat, a: seq<nat>, b: seq<nat>)
    requires Positions(s, a) && Positions(s, b) && x < |s.column| && AtFront(s, x, a) && AtFront(s, x, b)
    ensures AtFront(s, x, Merge(s, a, b))
    decreases |a| + |b|
  {
    hide CompareGroups;
    if a != [] && (b == [] || CompareGroups(s, a[0], b[0]) <= 0) {
      FrontOfMerge(s, x, a[1..], b);
    } else if b != [] {
      FrontOfMerge(s, x, a, b[1..]);
    }
  }

  lemma {:induction false} SortedCons(s: Sort, x: nat, p: seq<nat>)
    requires Positions(s, p) && x < |s.column| && AtFront(s, x, p) && Sorted(s, p)
    ensures Positions(s, [x] + p) && Sorted(s, [x] + p)
  {
    hide CompareGroups;
    var r := [x] + p;
    forall i, j | 0 <= i < j < |r| ensures CompareGroups(s, r[i], r[j]) <= 0 {
      if i == 0 { assert r[j] == p[j - 1]; } else { assert r[i] == p[i - 1] && r[j] == p[j - 1]; }
    }
  }

  lemma {:induction false} SortedTail(s: Sort, p: seq<nat>)
    requires Positions(s, p) && Sorted(s, p) && p != []
    ensures Sorted(s, p[1..]) && AtFront(s, p[0], p[1..])
  {
    hide CompareGroups;
    forall i, j | 0 <= i < j < |p[1..]| ensures CompareGroups(s, p[1..][i], p[1..][j]) <= 0 {
      assert p[1..][i] == p[i + 1] && p[1..][j] == p[j + 1];
    }
    forall i | 0 <= i < |p[1..]| ensures CompareGroups(s, p[0], p[1..][i]) <= 0 { assert p[1..][i] == p[i + 1]; }
  }

  /** What is at or before the head of a sorted list is at or before all of it. */
  lemma {:induction false} FrontThrough(s: Sort, x: nat, p: seq<nat>)
    requires Positions(s, p) && x < |s.column| && Sorted(s, p) && p != [] && CompareGroups(s, x, p[0]) <= 0
    ensures AtFront(s, x, p)
  {
    hide CompareGroups;
    forall i | 0 <= i < |p| ensures CompareGroups(s, x, p[i]) <= 0 {
      GroupOrder(s, x, p[0], p[i]);
      GroupOrder(s, p[0], p[i], x);
    }
  }

  lemma {:induction false} MergeSorted(s: Sort, a: seq<nat>, b: seq<nat>)
    requires Positions(s, a) && Positions(s, b) && Sorted(s, a) && Sorted(s, b)
    ensures Sorted(s, Merge(s, a, b))
    decreases |a| + |b|
  {
    hide CompareGroups, Sorted, AtFront;
    if a != [] && (b == [] || CompareGroups(s, a[0], b[0]) <= 0) {
      SortedTail(s, a);
      MergeSorted(s, a[1..], b);
      if b != [] { FrontThrough(s, a[0], b); } else { NothingInFront(s, a[0]); }
      FrontOfMerge(s, a[0], a[1..], b);
      SortedCons(s, a[0], Merge(s, a[1..], b));
    } else if b != [] {
      SortedTail(s, b);
      MergeSorted(s, a, b[1..]);
      if a != [] { GroupOrder(s, a[0], b[0], a[0]); FrontThrough(s, b[0], a); } else { NothingInFront(s, b[0]); }
      FrontOfMerge(s, b[0], a, b[1..]);
      SortedCons(s, b[0], Merge(s, a, b[1..]));
    } else {
      NothingSorted(s);
    }
  }

  lemma {:induction false} NothingSorted(s: Sort)
    requires SortOk(s)
    ensures Positions(s, []) && Sorted(s, [])
  {
  }

  lemma {:induction false} NothingInFront(s: Sort, x: nat)
    requires SortOk(s) && x < |s.column|
    ensures AtFront(s, x, [])
  {
  }

  // ---- a pass over all runs ----

  function Least(a: nat, b: nat): nat { if a < b then a else b }

  /** Runs of a width, each sorted. */
  predicate Runs(s: Sort, p: seq<nat>, width: nat)
    requires Positions(s, p) && width > 0
    decreases |p|
  {
    if |p| <= width then Sorted(s, p) else Sorted(s, p[..width]) && Runs(s, p[width..], width)
  }

  /** One pass: each pair of runs merged. */
  function Pass(s: Sort, p: seq<nat>, width: nat): (r: seq<nat>)
    requires Positions(s, p) && width > 0
    ensures |r| == |p| && Positions(s, r)
    decreases |p|
  {
    if p == [] then [] else
      var mid, end := Least(width, |p|), Least(2 * width, |p|);
      Merge(s, p[..mid], p[mid..end]) + Pass(s, p[end..], width)
  }

  lemma {:induction false} PassSame(s: Sort, p: seq<nat>, width: nat)
    requires Positions(s, p) && width > 0
    ensures multiset(Pass(s, p, width)) == multiset(p)
    decreases |p|
  {
    hide Merge;
    if p != [] {
      var mid, end := Least(width, |p|), Least(2 * width, |p|);
      MergeSame(s, p[..mid], p[mid..end]);
      PassSame(s, p[end..], width);
      assert p == p[..mid] + p[mid..end] + p[end..];
    }
  }

  lemma {:induction false} PassRuns(s: Sort, p: seq<nat>, width: nat)
    requires Positions(s, p) && width > 0 && Runs(s, p, width)
    ensures Runs(s, Pass(s, p, width), 2 * width)
    decreases |p|
  {
    hide Merge, Sorted;
    if p == [] {
    } else {
      var mid, end := Least(width, |p|), Least(2 * width, |p|);
      var m := Merge(s, p[..mid], p[mid..end]);
      FirstRuns(s, p, width);
      MergeSorted(s, p[..mid], p[mid..end]);
      PassRuns(s, p[end..], width);
      var rest := Pass(s, p[end..], width);
      assert (m + rest)[..|m|] == m && (m + rest)[|m|..] == rest;
      if end == |p| { assert p[end..] == [] && m + rest == m; }
    }
  }

  lemma {:induction false} FirstRuns(s: Sort, p: seq<nat>, width: nat)
    requires Positions(s, p) && width > 0 && Runs(s, p, width) && p != []
    ensures var mid, end := Least(width, |p|), Least(2 * width, |p|);
            Sorted(s, p[..mid]) && Sorted(s, p[mid..end]) && Runs(s, p[end..], width)
  {
    hide Sorted;
    NothingSorted(s);
    if |p| <= width {
      assert p[..|p|] == p && p[|p|..|p|] == [] && p[|p|..] == [];
    } else {
      var q := p[width..];
      assert Runs(s, q, width);
      if |q| <= width {
        assert p[width..|p|] == q && p[|p|..] == [];
      } else {
        assert p[width..2 * width] == q[..width] && p[2 * width..] == q[width..];
      }
    }
  }

  /** A run as long as the list is the list. */
  lemma {:induction false} OneRun(s: Sort, p: seq<nat>, width: nat)
    requires Positions(s, p) && width > 0 && Runs(s, p, width) && |p| <= width
    ensures Sorted(s, p)
  {
  }

  lemma {:induction false} SingleRuns(s: Sort, p: seq<nat>)
    requires Positions(s, p)
    ensures Runs(s, p, 1)
    decreases |p|
  {
    if |p| > 1 { SingleRuns(s, p[1..]); }
  }

  // ---- the sort in place ----

  lemma {:induction false} PartOfTail(p: seq<nat>, start: nat, a: nat, b: nat)
    requires start <= |p| && a <= b <= |p| - start
    ensures p[start..][a..b] == p[start + a..start + b]
  {
    hide *;
    forall i | 0 <= i < b - a ensures p[start..][a..b][i] == p[start + a..start + b][i] {
      assert p[start..][a..b][i] == p[start..][a + i] == p[start + a + i];
    }
  }

  lemma {:induction false} HeadOfPart(p: seq<nat>, a: nat, b: nat)
    requires a < b <= |p|
    ensures p[a..b] != [] && p[a..b][0] == p[a] && p[a..b][1..] == p[a + 1..b]
  {
    hide *;
  }

  predicate FromLeft(s: Sort, p: seq<nat>, a: nat, mid: nat, b: nat, end: nat)
    requires Positions(s, p) && a <= mid <= b <= end <= |p|
  {
    a < mid && (b == end || CompareGroups(s, p[a], p[b]) <= 0)
  }

  /** One turn of the merge: which run the next position comes from. */
  lemma {:induction false} MergeStep(s: Sort, p: seq<nat>, a: nat, mid: nat, b: nat, end: nat)
    requires Positions(s, p) && a <= mid <= b <= end <= |p| && (a < mid || b < end)
    ensures FromLeft(s, p, a, mid, b, end) ==>
              Merge(s, p[a..mid], p[b..end]) == [p[a]] + Merge(s, p[a + 1..mid], p[b..end])
    ensures !FromLeft(s, p, a, mid, b, end) ==>
              b < end && Merge(s, p[a..mid], p[b..end]) == [p[b]] + Merge(s, p[a..mid], p[b + 1..end])
  {
    hide CompareGroups;
    if a < mid { HeadOfPart(p, a, mid); }
    if b < end { HeadOfPart(p, b, end); }
  }

  /** The innermost loop: two neighbouring runs of order merged into tmp. */
  method MergeRuns(s: Sort, order: array<nat>, tmp: array<nat>, start: nat, mid: nat, end: nat)
    requires order != tmp && order.Length == tmp.Length && start <= mid <= end <= order.Length
             && Positions(s, order[..])
    modifies tmp
    ensures order[..] == old(order[..]) && tmp[start..end] == Merge(s, order[..][start..mid], order[..][mid..end])
    ensures forall i :: 0 <= i < tmp.Length && !(start <= i < end) ==> tmp[i] == old(tmp[i])
  {
    hide CompareGroups, Merge;
    var a, b, j := start, mid, start;
    ghost var p := order[..];
    ghost var whole := Merge(s, p[start..mid], p[mid..end]);
    assert tmp[start..start] == [];
    while j < end
      invariant start <= a <= mid <= b <= end && start <= j <= end && j - start == (a - start) + (b - mid)
      invariant order[..] == p && tmp[start..j] + Merge(s, p[a..mid], p[b..end]) == whole
      invariant forall i :: 0 <= i < tmp.Length && !(start <= i < j) ==> tmp[i] == old(tmp[i])
    {
      ghost var t := tmp[..];
      MergeStep(s, p, a, mid, b, end);
      var left := a < mid && (b == end || CompareGroups(s, order[a], order[b]) <= 0);
      var x := if left then order[a] else order[b];
      a, b := if left then a + 1 else a, if left then b else b + 1;
      tmp[j] := x;
      Stored(t, tmp[..], start, j, x, Merge(s, p[a..mid], p[b..end]));
      j := j + 1;
    }
    NothingToMerge(s, p[a..mid], p[b..end]);
    assert tmp[start..j] + [] == tmp[start..j];
  }

  lemma {:induction false} Stored(t: seq<nat>, t': seq<nat>, start: nat, j: nat, x: nat, rest: seq<nat>)
    requires start <= j < |t| && t' == t[j := x]
    ensures t'[start..j + 1] + rest == t[start..j] + ([x] + rest)
  {
    hide *;
    assert t'[start..j + 1] == t[start..j] + [x];
    Assoc(t[start..j], x, rest);
  }

  lemma {:induction false} NothingToMerge(s: Sort, a: seq<nat>, b: seq<nat>)
    requires SortOk(s) && a == [] && b == []
    ensures Merge(s, a, b) == []
  {
  }

  lemma {:induction false} Assoc(a: seq<nat>, x: nat, b: seq<nat>)
    ensures a + ([x] + b) == (a + [x]) + b
  {
    hide *;
  }

  lemma {:induction false} AssocPart(a: seq<nat>, x: seq<nat>, b: seq<nat>)
    ensures a + (x + b) == (a + x) + b
  {
    hide *;
  }

  /** The middle loop: one pass over the whole array. */
  method OnePass(s: Sort, order: array<nat>, tmp: array<nat>, width: nat)
    requires order != tmp && order.Length == tmp.Length && width > 0 && Positions(s, order[..])
    modifies tmp
    ensures tmp[..] == Pass(s, order[..], width)
  {
    hide Merge, CompareGroups, Pass;
    var n, start := order.Length, 0;
    ghost var p := order[..];
    ghost var whole := Pass(s, p, width);
    assert p[0..] == p && tmp[..0] == [];
    assert [] + whole == whole;
    while start < n
      invariant 0 <= start <= n && order[..] == p && tmp[..start] + Pass(s, p[start..], width) == whole
    {
      var mid := if start + width < n then start + width else n;
      var end := if start + 2 * width < n then start + 2 * width else n;
      ghost var done := tmp[..start];
      MergeRuns(s, order, tmp, start, mid, end);
      assert tmp[..start] == done;
      assert tmp[..end] == done + tmp[start..end];
      PassStep(s, p, start, mid, end, width);
      AssocPart(done, tmp[start..end], Pass(s, p[end..], width));
      start := end;
    }
    assert p[n..] == [] && tmp[..n] == tmp[..];
    NothingToPass(s, width);
    assert tmp[..] + [] == tmp[..];
  }

  lemma {:induction false} NothingToPass(s: Sort, width: nat)
    requires SortOk(s) && width > 0
    ensures Pass(s, [], width) == []
  {
  }

  lemma {:induction false} TailPositions(s: Sort, p: seq<nat>, a: nat)
    requires Positions(s, p) && a <= |p|
    ensures Positions(s, p[a..]) && forall b, c :: 0 <= b <= c <= |p| ==> Positions(s, p[b..c])
  {
  }

  lemma {:induction false} PassUnfold(s: Sort, q: seq<nat>, width: nat)
    requires Positions(s, q) && width > 0 && q != []
    ensures var mid, end := Least(width, |q|), Least(2 * width, |q|);
            && Positions(s, q[..mid]) && Positions(s, q[mid..end]) && Positions(s, q[end..])
            && Pass(s, q, width) == Merge(s, q[..mid], q[mid..end]) + Pass(s, q[end..], width)
  {
    hide Merge;
  }

  lemma {:induction false} PassStep(s: Sort, p: seq<nat>, start: nat, mid: nat, end: nat, width: nat)
    requires Positions(s, p) && width > 0 && start < |p| && mid == Least(start + width, |p|)
             && end == Least(start + 2 * width, |p|)
    ensures Pass(s, p[start..], width) == Merge(s, p[start..mid], p[mid..end]) + Pass(s, p[end..], width)
  {
    hide Merge, Pass, Positions;
    var q := p[start..];
    TailPositions(s, p, start);
    TailPositions(s, p, end);
    PassUnfold(s, q, width);
    PartOfTail(p, start, 0, mid - start);
    PartOfTail(p, start, mid - start, end - start);
    PartOfTail(p, start, end - start, |p| - start);
    assert q[0..mid - start] == q[..mid - start] && q[end - start..|q|] == q[end - start..] && p[end..|p|] == p[end..];
  }

  function Identity(n: nat): (r: seq<nat>)
    ensures |r| == n && forall i :: 0 <= i < n ==> r[i] == i
  {
    seq(n, i => i)
  }

  /** The outer loop of emit_groups: widths 1, 2, 4 and so on, the two arrays changing places. The result is a
      permutation of all groups, in order. */
  method SortGroups(s: Sort) returns (order: array<nat>)
    requires SortOk(s)
    ensures fresh(order) && Positions(s, order[..]) && Sorted(s, order[..])
            && multiset(order[..]) == multiset(Identity(|s.column|))
  {
    hide Merge, CompareGroups, Pass, Sorted, Runs;
    var n := |s.column|;
    order := new nat[n](i => i);
    var tmp := new nat[n](i => i);
    assert order[..] == Identity(n);
    SingleRuns(s, order[..]);
    var width := 1;
    while width < n
      invariant fresh(order) && fresh(tmp) && order != tmp && order.Length == tmp.Length == n && width > 0
      invariant Positions(s, order[..]) && Runs(s, order[..], width) && multiset(order[..]) == multiset(Identity(n))
      decreases n - width
    {
      PassRuns(s, order[..], width);
      PassSame(s, order[..], width);
      OnePass(s, order, tmp, width);
      order, tmp := tmp, order;
      width := 2 * width;
    }
    OneRun(s, order[..], width);
  }

  /** There is only one such order, so the first min(limit, n) positions are the first groups in it. */
  lemma {:induction false} OrderUnique(s: Sort, a: seq<nat>, b: seq<nat>)
    requires Positions(s, a) && Positions(s, b) && Sorted(s, a) && Sorted(s, b) && multiset(a) == multiset(b)
    ensures a == b
    decreases |a|
  {
    hide CompareGroups, Sorted, Positions;
    SameLength(a, b);
    if a != [] {
      HeadsEqual(s, a, b);
      HeadAndTail(a);
      HeadAndTail(b);
      TailsFit(s, a);
      TailsFit(s, b);
      SortedTail(s, a);
      SortedTail(s, b);
      OrderUnique(s, a[1..], b[1..]);
      assert a == [a[0]] + a[1..] && b == [b[0]] + b[1..];
    }
  }

  lemma {:induction false} TailsFit(s: Sort, p: seq<nat>)
    requires Positions(s, p) && p != []
    ensures Positions(s, p[1..])
  {
  }

  lemma {:induction false} SameLength(a: seq<nat>, b: seq<nat>)
    requires multiset(a) == multiset(b)
    ensures |a| == |b|
  {
    hide *;
    assert |multiset(a)| == |a| && |multiset(b)| == |b|;
  }

  lemma {:induction false} HeadsEqual(s: Sort, a: seq<nat>, b: seq<nat>)
    requires Positions(s, a) && Positions(s, b) && Sorted(s, a) && Sorted(s, b) && multiset(a) == multiset(b)
             && a != [] && b != []
    ensures a[0] == b[0]
  {
    hide CompareGroups;
    assert b[0] in multiset(a) && a[0] in multiset(b);
    var i :| 0 <= i < |a| && a[i] == b[0];
    var j :| 0 <= j < |b| && b[j] == a[0];
    GroupOrder(s, a[0], b[0], a[0]);
  }

  /** Group a comes before group b: a value before none, the lower value first (the higher, if descending), and among
      like values the group that was there first. */
  ghost predicate Comes(s: Sort, a: nat, b: nat)
    requires SortOk(s) && a < |s.column| && b < |s.column|
  {
    var x, y := s.column[a], s.column[b];
    if Alike(x, y) then a < b
    else if x.Null? || y.Null? then y.Null?
    else if s.descending then Below(y, x) else Below(x, y)
  }

  lemma {:induction false} ComesIff(s: Sort, a: nat, b: nat)
    requires SortOk(s) && a < |s.column| && b < |s.column|
    ensures CompareGroups(s, a, b) <= 0 <==> a == b || Comes(s, a, b)
    ensures !Comes(s, a, a)
  {
    hide Compare, Below, Alike;
    var x, y := s.column[a], s.column[b];
    CompareMeans(x, y);
    CompareMeans(x, x);
    Order(x, x, x);
    NullsLast(x, y);
    NullsLast(y, x);
    BelowOnce(x, y);
  }

  lemma {:induction false} BelowOnce(x: Value, y: Value)
    requires Comparable(x, y) && Comparable(y, x)
    ensures !(Below(x, y) && Below(y, x))
    ensures Alike(x, y) ==> !Below(x, y)
    ensures x == y ==> Alike(x, y)
    ensures !x.Null? && y.Null? ==> Below(x, y) && !Alike(x, y)
    ensures x.Null? && !y.Null? ==> !Below(x, y) && !Alike(x, y)
  {
    hide Compare;
    CompareMeans(x, y);
  }

  /** A list of all groups, each once, in order. */
  ghost predicate InOrder(s: Sort, p: seq<nat>) {
    && Positions(s, p) && multiset(p) == multiset(Identity(|s.column|))
    && forall i, j :: 0 <= i < j < |p| ==> Comes(s, p[i], p[j])
  }

  lemma {:induction false} Distinct(p: seq<nat>, n: nat, i: nat, j: nat)
    requires multiset(p) == multiset(Identity(n)) && i < j < |p|
    ensures p[i] != p[j]
  {
    hide Identity;
    Once(n, p[i]);
    Twice(p, i, j);
  }

  lemma {:induction false} Once(n: nat, a: nat)
    ensures multiset(Identity(n))[a] <= 1
  {
    var all := Identity(n);
    if a < n {
      assert all == all[..a] + [a] + all[a + 1..];
      assert a !in all[..a] && a !in all[a + 1..];
    } else {
      assert a !in all;
    }
  }

  lemma {:induction false} Twice(p: seq<nat>, i: nat, j: nat)
    requires i < j < |p|
    ensures p[i] == p[j] ==> multiset(p)[p[i]] >= 2
  {
    assert p == p[..i] + [p[i]] + p[i + 1..j] + [p[j]] + p[j + 1..];
  }

  lemma {:induction false} InOrderIff(s: Sort, p: seq<nat>)
    ensures InOrder(s, p) <==> Positions(s, p) && Sorted(s, p) && multiset(p) == multiset(Identity(|s.column|))
  {
    hide CompareGroups, Comes, Identity;
    if Positions(s, p) && multiset(p) == multiset(Identity(|s.column|)) {
      forall i, j | 0 <= i < j < |p| ensures CompareGroups(s, p[i], p[j]) <= 0 <==> Comes(s, p[i], p[j]) {
        Distinct(p, |s.column|, i, j);
        ComesIff(s, p[i], p[j]);
      }
    }
  }

  /** emit_groups: the first groups of the order, or of first occurrence when no order is asked for. */
  method Emit(s: Sort, ordered: bool, limit: nat) returns (emitted: seq<nat>)
    requires SortOk(s)
    ensures |emitted| == Least(limit, |s.column|)
    ensures !ordered ==> emitted == Identity(|s.column|)[..|emitted|]
    ensures ordered ==> forall p :: InOrder(s, p) ==> |p| == |s.column| && emitted == p[..|emitted|]
    ensures ordered ==> exists p :: InOrder(s, p)
  {
    hide Sorted, Positions, InOrder;
    var n := |s.column|;
    if !ordered { return Identity(n)[..Least(limit, n)]; }
    var order := SortGroups(s);
    ghost var full := order[..];
    SameLength(full, Identity(n));
    forall p | InOrder(s, p) ensures p == full {
      InOrderIff(s, p);
      OrderUnique(s, p, full);
    }
    InOrderIff(s, full);
    emitted := order[..Least(limit, n)];
  }
}
