/** Executing an aggregate query (src/query/query.c:222-233 and 295-312): groups made in
    advance for the buckets of an ungrouped query, then every matching row consumed. */
module Aggregation {
  import opened Bytes
  import opened Values
  import opened Reductions
  import opened Groups
  import opened Buckets

  /** The keys made in advance are all different. */
  predicate Apart(made: seq<seq<Value>>) { forall i :: 0 <= i < |made| ==> !Occurs(made[..i], made[i]) }

  /** A row after others is taken: its group exists or may be made, and no aggregate of the group overflows. */
  predicate Admits(s: Shape, most: nat, made: seq<seq<Value>>, before: seq<Row>, row: Row, allowed: bool)
    requires ShapeOk(s) && RowsOk(s, before) && RowOk(s, row)
  {
    && (Occurs(FirstKeys(made, before), row.keys) || (allowed && |FirstKeys(made, before)| < most))
    && forall a :: 0 <= a < |s.aggregates| ==> NextExpected(s, before, row, row.keys, a).Some?
  }

  ghost predicate AllAdmitted(s: Shape, most: nat, made: seq<seq<Value>>, rows: seq<Row>, room: nat -> bool, n: nat)
    requires ShapeOk(s) && RowsOk(s, rows) && n <= |rows|
  {
    forall j :: 0 <= j < n ==> AdmittedAt(s, most, made, rows, room, j)
  }

  ghost predicate AdmittedAt(s: Shape, most: nat, made: seq<seq<Value>>, rows: seq<Row>, room: nat -> bool, j: nat)
    requires ShapeOk(s) && RowsOk(s, rows) && j < |rows|
  {
    RowOk(s, rows[j]) && Admits(s, most, made, rows[..j], rows[j], room(|made| + j))
  }

  /** There is room for the groups made in advance. */
  predicate MadeRoom(most: nat, made: seq<seq<Value>>, room: nat -> bool) {
    |made| <= most && forall i :: 0 <= i < |made| ==> room(i)
  }

  /** It succeeds exactly when every group made in advance and every row is taken. On success the groups are exactly
      those of the plain group-by over all rows, each with the exact fold of its own rows. */
  method Execute(shape: Shape, hash: seq<Value> -> nat, most: nat, made: seq<seq<Value>>, rows: seq<Row>,
                 room: nat -> bool)
    returns (groups: seq<Group>, ok: bool)
    requires ShapeOk(shape) && RowsOk(shape, rows) && Apart(made)
             && forall i :: 0 <= i < |made| ==> KeysOk(shape, made[i])
    ensures ok <==> MadeRoom(most, made, room) && AllAdmitted(shape, most, made, rows, room, |rows|)
    ensures ok ==>
              && KeysOf(groups) == FirstKeys(made, rows) && GroupsOk(shape, hash, rows, groups)
              && Fits(shape, most, made, rows)
    ensures (forall n: nat :: room(n)) && Fits(shape, most, made, rows) ==> ok
  {
    hide GroupsOk, KeysOk, RowOk, FirstKeys, NextExpected, Occurs, Fits, Admits;
    var x := new Execution(shape, hash, most);
    groups := [];
    var i := 0;
    assert made[..0] == [] && rows[..0] == [];
    if Fits(shape, most, made, rows) && forall n: nat :: room(n) { FitsAdmitted(shape, most, made, rows, room); }
    while i < |made|
      invariant 0 <= i <= |made| && fresh(x) && fresh(x.slots) && x.Valid() && x.made == made[..i] && x.rows == []
      invariant x.shape == shape && x.hash == hash && x.most == most
      invariant i <= most && forall k :: 0 <= k < i ==> room(k)
    {
      assert made[..i + 1] == made[..i] + [made[i]];
      NoRowKeys(made[..i]);
      ok := x.Make(made[i], room(i));
      if !ok { return; }
      i := i + 1;
    }
    assert made[..i] == made;
    var j := 0;
    while j < |rows|
      invariant 0 <= j <= |rows| && fresh(x) && fresh(x.slots) && x.Valid() && x.made == made && x.rows == rows[..j]
      invariant x.shape == shape && x.hash == hash && x.most == most
      invariant AllAdmitted(shape, most, made, rows, room, j)
    {
      assert rows[..j + 1] == rows[..j] + [rows[j]];
      AdmitsIs(shape, most, made, rows, room, j);
      ok := x.Consume(rows[j], room(|made| + j));
      if !ok { return; }
      j := j + 1;
    }
    assert rows[..j] == rows;
    groups, ok := x.groups, true;
    RightFits(shape, hash, most, made, rows, groups);
  }

  lemma {:induction false} AdmitsIs(s: Shape, most: nat, made: seq<seq<Value>>, rows: seq<Row>, room: nat -> bool,
                                    j: nat)
    requires ShapeOk(s) && RowsOk(s, rows) && j < |rows|
    ensures RowOk(s, rows[j]) && RowsOk(s, rows[..j])
    ensures AdmittedAt(s, most, made, rows, room, j) <==>
              && (Occurs(FirstKeys(made, rows[..j]), rows[j].keys)
                  || (room(|made| + j) && |FirstKeys(made, rows[..j])| < most))
              && forall a :: 0 <= a < |s.aggregates| ==> NextExpected(s, rows[..j], rows[j], rows[j].keys, a).Some?
  {
    hide RowOk, FirstKeys, NextExpected, Occurs;
  }

  /** With all memory allowed, rows whose groups fit are all taken. */
  lemma {:induction false} FitsAdmitted(s: Shape, most: nat, made: seq<seq<Value>>, rows: seq<Row>, room: nat -> bool)
    requires ShapeOk(s) && RowsOk(s, rows) && Fits(s, most, made, rows) && forall n: nat :: room(n)
    ensures MadeRoom(most, made, room) && AllAdmitted(s, most, made, rows, room, |rows|)
  {
    hide Fits, RowOk, FirstKeys, NextExpected, Occurs, Admits;
    if made != [] { MadeFits(s, most, made, rows, |made| - 1); }
    forall j | 0 <= j < |rows| ensures AdmittedAt(s, most, made, rows, room, j) {
      RowFits(s, most, made, rows, j);
      AdmitsIs(s, most, made, rows, room, j);
    }
  }

  /** The groups are within the limit and no aggregate of any group overflows. */
  ghost predicate Fits(s: Shape, most: nat, made: seq<seq<Value>>, rows: seq<Row>)
    requires ShapeOk(s) && RowsOk(s, rows)
  {
    && |FirstKeys(made, rows)| <= most
    && forall i, a :: 0 <= i < |FirstKeys(made, rows)| && 0 <= a < |s.aggregates| ==>
       Expected(s, rows, FirstKeys(made, rows)[i], a).Some?
  }

  lemma {:induction false} NoRowKeys(made: seq<seq<Value>>)
    ensures FirstKeys(made, []) == made
  {
  }

  lemma {:induction false} KeysGrow(made: seq<seq<Value>>, rows: seq<Row>, j: nat)
    requires j <= |rows|
    ensures |made| <= |FirstKeys(made, rows[..j])| && FirstKeys(made, rows[..j]) <= FirstKeys(made, rows)
  {
    hide Occurs;
    if j < |rows| {
      var front := rows[..|rows| - 1];
      KeysGrow(made, front, j);
      assert front[..j] == rows[..j];
    } else {
      assert rows[..j] == rows;
      if rows != [] {
        KeysGrow(made, rows[..|rows| - 1], |rows| - 1);
        assert rows[..|rows| - 1][..|rows| - 1] == rows[..|rows| - 1];
      }
    }
  }

  lemma {:induction false} MadeFits(s: Shape, most: nat, made: seq<seq<Value>>, rows: seq<Row>, i: nat)
    requires ShapeOk(s) && RowsOk(s, rows) && i < |made|
    ensures Fits(s, most, made, rows) ==> i < most
  {
    hide Expected;
    KeysGrow(made, rows, 0);
  }

  /** Once an aggregate has overflowed it stays so. */
  lemma {:induction false} Overflowed(s: Shape, rows: seq<Row>, k: seq<Value>, a: nat, j: nat)
    requires ShapeOk(s) && RowsOk(s, rows) && a < |s.aggregates| && j <= |rows| && Expected(s, rows[..j], k, a).None?
    ensures Expected(s, rows, k, a).None?
    decreases |rows|
  {
    hide Expected, RowOk;
    if j < |rows| {
      var n := |rows| - 1;
      var front := rows[..n];
      assert front[..j] == rows[..j];
      Overflowed(s, front, k, a, j);
      assert rows == front + [rows[n]];
      ExpectedNext(s, front, rows[n], k, a);
    } else {
      assert rows[..j] == rows;
    }
  }

  lemma {:induction false} RowOccurs(made: seq<seq<Value>>, rows: seq<Row>, j: nat) returns (i: nat)
    requires j < |rows|
    ensures i < |FirstKeys(made, rows)| && NormalKeys(FirstKeys(made, rows)[i]) == NormalKeys(rows[j].keys)
  {
    hide NormalKeys;
    KeysGrow(made, rows, j + 1);
    assert rows[..j + 1][..j] == rows[..j];
    var now := FirstKeys(made, rows[..j + 1]);
    if Occurs(FirstKeys(made, rows[..j]), rows[j].keys) {
      i :| 0 <= i < |now| && NormalKeys(now[i]) == NormalKeys(rows[j].keys);
    } else {
      i := |now| - 1;
    }
  }

  lemma {:induction false} RowFits(s: Shape, most: nat, made: seq<seq<Value>>, rows: seq<Row>, j: nat)
    requires ShapeOk(s) && RowsOk(s, rows) && Fits(s, most, made, rows) && j < |rows|
    ensures Occurs(FirstKeys(made, rows[..j]), rows[j].keys) || |FirstKeys(made, rows[..j])| < most
    ensures RowOk(s, rows[j]) && RowsOk(s, rows[..j]) && forall a :: 0 <= a < |s.aggregates| ==>
              NextExpected(s, rows[..j], rows[j], rows[j].keys, a).Some?
  {
    hide Expected, NormalKeys, RowOk, Occurs;
    KeysGrow(made, rows, j + 1);
    assert rows[..j + 1][..j] == rows[..j];
    var i := RowOccurs(made, rows, j);
    forall a | 0 <= a < |s.aggregates| ensures NextExpected(s, rows[..j], rows[j], rows[j].keys, a).Some? {
      assert rows[..j] + [rows[j]] == rows[..j + 1];
      assert Expected(s, rows, FirstKeys(made, rows)[i], a).Some?;
      ExpectedSame(s, rows, FirstKeys(made, rows)[i], rows[j].keys, a);
      if Expected(s, rows[..j + 1], rows[j].keys, a).None? { Overflowed(s, rows, rows[j].keys, a, j + 1); }
    }
  }

  lemma {:induction false} ExpectedSame(s: Shape, rows: seq<Row>, k: seq<Value>, l: seq<Value>, a: nat)
    requires ShapeOk(s) && RowsOk(s, rows) && a < |s.aggregates| && NormalKeys(k) == NormalKeys(l)
    ensures Expected(s, rows, k, a) == Expected(s, rows, l, a)
  {
    MembersSame(rows, k, l);
  }

  lemma {:induction false} RightFits(s: Shape, hash: seq<Value> -> nat, most: nat, made: seq<seq<Value>>,
                                     rows: seq<Row>, groups: seq<Group>)
    requires GroupsOk(s, hash, rows, groups) && KeysOf(groups) == FirstKeys(made, rows) && |groups| <= most
    ensures ShapeOk(s) && RowsOk(s, rows) && Fits(s, most, made, rows)
  {
    hide Expected, NormalKeys, KeysOk;
    forall i, a | 0 <= i < |groups| && 0 <= a < |s.aggregates| ensures Expected(s, rows, KeysOf(groups)[i], a).Some? {
      assert GroupOk(s, hash, rows, groups[i]);
    }
  }

  /** When every row falls into a group made in advance, these are all the groups. */
  lemma {:induction false} MadeCovers(made: seq<seq<Value>>, rows: seq<Row>)
    requires forall i :: 0 <= i < |rows| ==> Occurs(made, rows[i].keys)
    ensures FirstKeys(made, rows) == made
  {
    hide Occurs;
    if rows != [] { MadeCovers(made, rows[..|rows| - 1]); }
  }

  /** The keys of the buckets of an interval. */
  function BucketGroup(b: I64): seq<Value> { [Int(b)] }

  function BucketGroups(buckets: seq<I64>): (r: seq<seq<Value>>)
    ensures |r| == |buckets| && forall i :: 0 <= i < |r| ==> r[i] == BucketGroup(buckets[i])
  {
    seq(|buckets|, i requires 0 <= i < |buckets| => BucketGroup(buckets[i]))
  }

  lemma {:induction false} BucketsApart(first: int, width: int, buckets: seq<I64>)
    requires width > 0 && forall k :: 0 <= k < |buckets| ==> buckets[k] == Nth(first, width, k)
    ensures Apart(BucketGroups(buckets))
  {
    var made := BucketGroups(buckets);
    forall i | 0 <= i < |made| ensures !Occurs(made[..i], made[i]) {
      forall j | 0 <= j < i ensures NormalKeys(made[..i][j]) != NormalKeys(made[i]) {
        NthGrows(first, width, j, i);
        assert NormalKeys(made[j])[0] == Int(buckets[j]) && NormalKeys(made[i])[0] == Int(buckets[i]);
      }
    }
  }

  /** Without group fields, the groups of a bucketed query are exactly the buckets of its interval, whatever rows
      match. */
  lemma {:induction false} BucketedGroups(start: I64, end: I64, width: I64, origin: I64, most: nat, buckets: seq<I64>,
                                          rows: seq<Row>, times: seq<I64>)
    requires width > 0 && start < end && PlanBuckets(start, end, width, origin, most).Buckets?
    requires |buckets| == PlanBuckets(start, end, width, origin, most).count
    requires forall k :: 0 <= k < |buckets| ==>
               buckets[k] == Nth(PlanBuckets(start, end, width, origin, most).first, width, k)
    requires |times| == |rows| && forall i :: 0 <= i < |rows| ==>
               start <= times[i] < end && BucketFloor(times[i], width, origin).Some?
               && rows[i].keys == BucketGroup(BucketFloor(times[i], width, origin).value)
    ensures Apart(BucketGroups(buckets)) && FirstKeys(BucketGroups(buckets), rows) == BucketGroups(buckets)
  {
    hide PlanBuckets, BucketFloor, IsFloor, Nth;
    var p := PlanBuckets(start, end, width, origin, most);
    PlannedBuckets(start, end, width, origin, most);
    BucketsApart(p.first, width, buckets);
    var made := BucketGroups(buckets);
    forall i | 0 <= i < |rows| ensures Occurs(made, rows[i].keys) {
      assert FloorAmong(times[i], width, origin, p);
      var k: nat :| k < p.count && Nth(p.first, width, k) == BucketFloor(times[i], width, origin).value;
      assert made[k] == rows[i].keys;
      assert NormalKeys(made[k]) == NormalKeys(rows[i].keys);
    }
    MadeCovers(made, rows);
  }
}
