/** Grouping (src/query/query.c:116-169 and 206-233): a hash table of groups that rows
    fall into, against a plain group-by. */
module Groups {
  import opened Bytes
  import opened Values
  import opened Reductions
  import opened Probing

  /** A matching row: its group keys, and for each aggregate the value of its field. */
  datatype Row = Row(keys: seq<Value>, arguments: seq<Value>)

  datatype Group = Group(hash: nat, keys: seq<Value>, cells: seq<Cell>)

  /** The shape of a query: the kinds of its keys and its aggregates. */
  datatype Shape = Shape(kinds: seq<Kind>, aggregates: seq<Reduction>)

  predicate KeysOk(s: Shape, keys: seq<Value>) {
    |keys| == |s.kinds| && forall i :: 0 <= i < |keys| ==> OfKind(s.kinds[i], keys[i])
  }

  predicate RowOk(s: Shape, r: Row) {
    && KeysOk(s, r.keys) && |r.arguments| == |s.aggregates|
    && forall i :: 0 <= i < |r.arguments| ==> OfKind(s.aggregates[i].kind, r.arguments[i])
  }

  predicate ShapeOk(s: Shape) { forall i :: 0 <= i < |s.aggregates| ==> Allowed(s.aggregates[i]) }

  predicate RowsOk(s: Shape, rows: seq<Row>) { forall i :: 0 <= i < |rows| ==> RowOk(s, rows[i]) }

  // ---- a plain group-by ----

  /** Keys in order of first occurrence, after those that were there from the start. Keys are told apart as the hash
      sees them. */
  function FirstKeys(made: seq<seq<Value>>, rows: seq<Row>): seq<seq<Value>> {
    if rows == [] then made else
      var before, k := FirstKeys(made, rows[..|rows| - 1]), rows[|rows| - 1].keys;
      if Occurs(before, k) then before else before + [k]
  }

  predicate Occurs(keys: seq<seq<Value>>, k: seq<Value>) {
    exists i :: 0 <= i < |keys| && NormalKeys(keys[i]) == NormalKeys(k)
  }

  /** The rows of the group of k. */
  function Members(rows: seq<Row>, k: seq<Value>): seq<Row> {
    if rows == [] then []
    else
      var front, r := rows[..|rows| - 1], rows[|rows| - 1];
      Members(front, k) + if NormalKeys(r.keys) == NormalKeys(k) then [r] else []
  }

  /** The values that aggregate a sees. */
  function Column(s: Shape, rows: seq<Row>, a: nat): (r: seq<Value>)
    requires a < |s.aggregates| && RowsOk(s, rows)
    ensures |r| == |rows| && forall i :: 0 <= i < |r| ==> r[i] == rows[i].arguments[a]
  {
    seq(|rows|, i requires 0 <= i < |rows| => assert RowOk(s, rows[i]); rows[i].arguments[a])
  }

  lemma {:induction false} MembersOk(s: Shape, rows: seq<Row>, k: seq<Value>)
    requires RowsOk(s, rows)
    ensures RowsOk(s, Members(rows, k))
  {
    if rows != [] { MembersOk(s, rows[..|rows| - 1], k); }
  }

  lemma {:induction false} ColumnKind(s: Shape, rows: seq<Row>, a: nat)
    requires a < |s.aggregates| && RowsOk(s, rows)
    ensures AllOfKind(s.aggregates[a].kind, Column(s, rows, a))
  {
    forall i | 0 <= i < |rows| ensures OfKind(s.aggregates[a].kind, Column(s, rows, a)[i]) { assert RowOk(s, rows[i]); }
  }

  /** What aggregate a of the group of k must be. */
  function Expected(s: Shape, rows: seq<Row>, k: seq<Value>, a: nat): Option<Cell>
    requires ShapeOk(s) && RowsOk(s, rows) && a < |s.aggregates|
  {
    MembersOk(s, rows, k);
    ColumnKind(s, Members(rows, k), a);
    assert Allowed(s.aggregates[a]);
    Fold(s.aggregates[a], Column(s, Members(rows, k), a))
  }

  /** One more row: only its own group changes, by one step of each reduction. */
  lemma {:induction false} ExpectedNext(s: Shape, rows: seq<Row>, r: Row, k: seq<Value>, a: nat)
    requires ShapeOk(s) && RowsOk(s, rows) && RowOk(s, r) && a < |s.aggregates|
    ensures RowsOk(s, rows + [r]) && Allowed(s.aggregates[a]) && OfKind(s.aggregates[a].kind, r.arguments[a])
    ensures Expected(s, rows, k, a).Some? && s.aggregates[a].op != CountAll && s.aggregates[a].op != Count ==>
              CellOk(s.aggregates[a], Expected(s, rows, k, a).value)
    ensures Expected(s, rows + [r], k, a) ==
            if NormalKeys(r.keys) != NormalKeys(k) then Expected(s, rows, k, a)
            else if Expected(s, rows, k, a).None? then None
            else Reduce(s.aggregates[a], Expected(s, rows, k, a).value, r.arguments[a])
  {
    hide Reduce, RowOk, OfKind, CellOk;
    assert Allowed(s.aggregates[a]);
    ArgumentKind(s, r, a);
    var more := rows + [r];
    assert more[..|rows|] == rows;
    var m := Members(rows, k);
    MembersOk(s, rows, k);
    MembersOk(s, more, k);
    ColumnKind(s, m, a);
    ColumnKind(s, Members(more, k), a);
    if NormalKeys(r.keys) == NormalKeys(k) {
      assert Members(more, k) == m + [r];
      var c := Column(s, m + [r], a);
      assert c == Column(s, m, a) + [r.arguments[a]];
      assert c[..|m|] == Column(s, m, a);
    } else {
      assert Members(more, k) == m + [] == m;
    }
  }

  lemma {:induction false} ArgumentKind(s: Shape, r: Row, a: nat)
    requires RowOk(s, r) && a < |s.aggregates|
    ensures |r.arguments| == |s.aggregates| && OfKind(s.aggregates[a].kind, r.arguments[a])
  {
  }

  // ---- the hash table ----

  function KeysOf(groups: seq<Group>): (r: seq<seq<Value>>)
    ensures |r| == |groups| && forall i :: 0 <= i < |r| ==> r[i] == groups[i].keys
  {
    seq(|groups|, i requires 0 <= i < |groups| => groups[i].keys)
  }

  function HashesOf(groups: seq<Group>): (r: seq<nat>)
    ensures |r| == |groups| && forall i :: 0 <= i < |r| ==> r[i] == groups[i].hash
  {
    seq(|groups|, i requires 0 <= i < |groups| => groups[i].hash)
  }

  function StartCells(s: Shape): (r: seq<Cell>)
    ensures |r| == |s.aggregates| && forall a :: 0 <= a < |r| ==> r[a] == Start(s.aggregates[a].op)
  {
    seq(|s.aggregates|, a requires 0 <= a < |s.aggregates| => Start(s.aggregates[a].op))
  }

  lemma {:induction false} KindsComparable(s: Shape, a: seq<Value>, b: seq<Value>)
    requires KeysOk(s, a) && KeysOk(s, b)
    ensures KeysComparable(a, b)
  {
    forall i | 0 <= i < |a| ensures Comparable(a[i], b[i]) {
      assert OfKind(s.kinds[i], a[i]) && OfKind(s.kinds[i], b[i]);
    }
  }

  /** A group is right for its keys and the rows so far. */
  ghost predicate GroupOk(s: Shape, hash: seq<Value> -> nat, rows: seq<Row>, g: Group)
    requires ShapeOk(s) && RowsOk(s, rows)
  {
    && KeysOk(s, g.keys) && g.hash == hash(NormalKeys(g.keys)) && |g.cells| == |s.aggregates|
    && forall a :: 0 <= a < |s.aggregates| ==> Expected(s, rows, g.keys, a) == Some(g.cells[a])
  }

  ghost predicate GroupsOk(s: Shape, hash: seq<Value> -> nat, rows: seq<Row>, groups: seq<Group>) {
    && ShapeOk(s) && RowsOk(s, rows)
    && (forall i :: 0 <= i < |groups| ==> GroupOk(s, hash, rows, groups[i]))
    && (forall i, j :: 0 <= i < j < |groups| ==> NormalKeys(groups[i].keys) != NormalKeys(groups[j].keys))
  }

  lemma {:induction false} NoMembers(rows: seq<Row>, made: seq<seq<Value>>, k: seq<Value>)
    requires !Occurs(FirstKeys(made, rows), k)
    ensures Members(rows, k) == [] && !Occurs(made, k)
  {
    hide NormalKeys, Occurs;
    if rows != [] {
      var front := rows[..|rows| - 1];
      var before, r := FirstKeys(made, front), rows[|rows| - 1];
      OccursMore(before, r.keys, k);
      OccursSame(before, r.keys, k);
      NoMembers(front, made, k);
    }
  }

  lemma {:induction false} OccursMore(keys: seq<seq<Value>>, x: seq<Value>, k: seq<Value>)
    ensures Occurs(keys + [x], k) <==> Occurs(keys, k) || NormalKeys(x) == NormalKeys(k)
  {
    hide NormalKeys;
    var more := keys + [x];
    if Occurs(keys, k) {
      var i :| 0 <= i < |keys| && NormalKeys(keys[i]) == NormalKeys(k);
      assert more[i] == keys[i];
    }
    assert more[|keys|] == x;
  }

  lemma {:induction false} OccursSame(keys: seq<seq<Value>>, a: seq<Value>, b: seq<Value>)
    ensures NormalKeys(a) == NormalKeys(b) ==> (Occurs(keys, a) <==> Occurs(keys, b))
  {
  }

  /** A new group, whose keys no row so far has, starts with empty cells. */
  lemma {:induction false} NewGroupOk(s: Shape, hash: seq<Value> -> nat, rows: seq<Row>, keys: seq<Value>)
    requires ShapeOk(s) && RowsOk(s, rows) && KeysOk(s, keys) && Members(rows, keys) == []
    ensures GroupOk(s, hash, rows, Group(hash(NormalKeys(keys)), keys, StartCells(s)))
  {
    forall a | 0 <= a < |s.aggregates| ensures Expected(s, rows, keys, a) == Some(Start(s.aggregates[a].op)) {
      MembersOk(s, rows, keys);
      assert Column(s, [], a) == [];
    }
  }

  lemma {:induction false} GroupAdded(s: Shape, hash: seq<Value> -> nat, rows: seq<Row>, groups: seq<Group>, g: Group)
    requires GroupsOk(s, hash, rows, groups) && GroupOk(s, hash, rows, g) && !Occurs(KeysOf(groups), g.keys)
    ensures GroupsOk(s, hash, rows, groups + [g]) && KeysOf(groups + [g]) == KeysOf(groups) + [g.keys]
  {
    hide GroupOk, NormalKeys;
    var more := groups + [g];
    forall i | 0 <= i < |groups| ensures NormalKeys(groups[i].keys) != NormalKeys(g.keys) {
      assert KeysOf(groups)[i] == groups[i].keys;
    }
  }

  /** The loop over the aggregates of a row's group, which stops at the first overflow. */
  method ReduceCells(s: Shape, ghost rows: seq<Row>, g: Group, hash: seq<Value> -> nat, row: Row)
    returns (cells: Option<seq<Cell>>)
    requires ShapeOk(s) && RowsOk(s, rows) && RowOk(s, row) && GroupOk(s, hash, rows, g)
             && NormalKeys(g.keys) == NormalKeys(row.keys)
    ensures cells.Some? <==> forall a :: 0 <= a < |s.aggregates| ==> NextExpected(s, rows, row, row.keys, a).Some?
    ensures cells.Some? ==>
              && |cells.value| == |s.aggregates|
              && forall a :: 0 <= a < |s.aggregates| ==> NextExpected(s, rows, row, row.keys, a) == Some(cells.value[a])
  {
    hide Expected, NextExpected, Reduce, KeysOk, NormalKeys, RowOk, ShapeOk, RowsOk;
    var a, done := 0, [];
    while a < |s.aggregates|
      invariant 0 <= a <= |s.aggregates| && |done| == a
      invariant forall b :: 0 <= b < a ==> NextExpected(s, rows, row, row.keys, b) == Some(done[b])
    {
      CellStep(s, rows, row, g.keys, a, g.cells[a]);
      SameExpected(s, rows, row, g.keys, row.keys, a);
      ArgumentKind(s, row, a);
      var next := Reduce(s.aggregates[a], g.cells[a], row.arguments[a]);
      if next.None? { return None; }
      done := done + [next.value];
      a := a + 1;
    }
    cells := Some(done);
  }

  class Execution {
    const shape: Shape
    const hash: seq<Value> -> nat
    const most: nat
    var groups: seq<Group>
    var slots: array<nat>
    ghost var made: seq<seq<Value>>   // the keys of the groups made before any row
    ghost var rows: seq<Row>          // the rows consumed

    /** Load at most one half, and every group can be found. */
    ghost predicate SlotsOk()
      reads this, slots
    {
      && 2 * |groups| <= slots.Length && |groups| <= most
      && (slots.Length > 0 ==> Filled(slots[..], HashesOf(groups)))
    }

    ghost predicate Consistent()
      reads this, slots
    {
      SlotsOk() && GroupsOk(shape, hash, rows, groups)
    }

    /** The groups are those of the plain group-by, in its order. */
    ghost predicate Valid()
      reads this, slots
    {
      Consistent() && KeysOf(groups) == FirstKeys(made, rows)
    }

    constructor (shape: Shape, hash: seq<Value> -> nat, most: nat)
      requires ShapeOk(shape)
      ensures Valid() && groups == [] && made == [] && rows == [] && fresh(slots)
      ensures this.shape == shape && this.hash == hash && this.most == most
    {
      this.shape, this.hash, this.most := shape, hash, most;
      groups, made, rows := [], [], [];
      slots := new nat[0];
    }

    /** The probing loop at the head of group_for. */
    method Lookup(keys: seq<Value>) returns (index: Option<nat>)
      requires Consistent() && KeysOk(shape, keys)
      ensures index.None? <==> !Occurs(KeysOf(groups), keys)
      ensures index.Some? ==> index.value < |groups| && NormalKeys(groups[index.value].keys) == NormalKeys(keys)
    {
      hide Expected, KeysOk, SameKeys;
      index := None;
      if slots.Length > 0 {
        var key, groups' := hash(NormalKeys(keys)), groups;
        FreeSlot(slots[..], HashesOf(groups));
        var matches := i => 0 <= i < |groups'| && groups'[i].hash == key && KeysComparable(groups'[i].keys, keys)
            && SameKeys(groups'[i].keys, keys);
        var slot, found := Probe(slots, key % slots.Length, matches);
        if found {
          var i := slots[slot] - 1;
          SameIffNormal(groups[i].keys, keys);
          assert NormalKeys(KeysOf(groups)[i]) == NormalKeys(keys);
          return Some(i);
        }
        forall i | 0 <= i < |groups| ensures NormalKeys(groups[i].keys) != NormalKeys(keys) {
          assert GroupOk(shape, hash, rows, groups[i]);
          KindsComparable(shape, groups[i].keys, keys);
          SameIffNormal(groups[i].keys, keys);
          if NormalKeys(groups[i].keys) == NormalKeys(keys) { NotThere(slots[..], HashesOf(groups), key, slot, i); }
        }
      }
    }

    /** A larger table with every group placed again. */
    method Grow()
      requires Consistent()
      modifies this`slots
      ensures Consistent() && fresh(slots) && slots.Length >= 2 * (|groups| + 1)
    {
      hide GroupsOk;
      var n := if slots.Length != 0 then 2 * slots.Length else 32;
      slots := new nat[n];
      Rehash(slots, HashesOf(groups));
    }

    /** group_for: the group of the keys, made at the end if there is none. room tells whether the memory budget allows
        it. */
    method GroupFor(keys: seq<Value>, room: bool) returns (index: Option<nat>)
      requires Consistent() && KeysOk(shape, keys) && KeysOf(groups) == FirstKeys(made, rows)
      modifies this`groups, this`slots, slots
      ensures Consistent() && (slots == old(slots) || fresh(slots))
      ensures KeysOf(groups) == if index.None? || Occurs(KeysOf(old(groups)), keys) then KeysOf(old(groups))
                                else KeysOf(old(groups)) + [keys]
      ensures index.None? <==> !Occurs(KeysOf(old(groups)), keys) && (!room || |old(groups)| == most)
      ensures index.Some? ==> index.value < |groups| && NormalKeys(groups[index.value].keys) == NormalKeys(keys)
    {
      hide GroupsOk, KeysOk, NormalKeys, Occurs, FirstKeys, GroupOk;
      index := Lookup(keys);
      if index.Some? { return; }
      if |groups| == most || !room { return None; }
      NoMembers(rows, made, keys);
      RowsAndShape(shape, hash, rows, groups);
      NewGroupOk(shape, hash, rows, keys);
      var g := Group(hash(NormalKeys(keys)), keys, StartCells(shape));
      GroupAdded(shape, hash, rows, groups, g);
      if slots.Length < 2 * (|groups| + 1) { Grow(); }
      ghost var hashes := HashesOf(groups);
      Place(slots, hashes, g.hash, |groups|);
      assert HashesOf(groups + [g]) == hashes + [g.hash];
      index := Some(|groups|);
      groups := groups + [g];
    }

    /** A group made before any row: one turn of the bucket loop of wadb_query_execute. */
    method Make(keys: seq<Value>, room: bool) returns (ok: bool)
      requires Valid() && KeysOk(shape, keys) && rows == [] && !Occurs(made, keys)
      modifies this, slots
      ensures (slots == old(slots) || fresh(slots)) && (ok <==> room && |old(groups)| < most)
      ensures ok ==> Valid() && made == old(made) + [keys] && rows == []
    {
      hide GroupsOk, KeysOk, NormalKeys, Occurs;
      var index := GroupFor(keys, room);
      ok := index.Some?;
      if ok { made := made + [keys]; }
    }

    /** reduce, on the group at an index: the loop over the aggregates, which stops at the first overflow. */
    method ReduceRow(index: nat, row: Row) returns (ok: bool)
      requires Consistent() && RowOk(shape, row) && index < |groups|
               && NormalKeys(groups[index].keys) == NormalKeys(row.keys)
      modifies this`groups, this`rows
      ensures ok <==> forall a :: 0 <= a < |shape.aggregates| ==> NextExpected(shape, old(rows), row, row.keys, a).Some?
      ensures ok ==> Consistent() && rows == old(rows) + [row] && KeysOf(groups) == KeysOf(old(groups))
    {
      hide NextExpected, KeysOk, NormalKeys, RowOk, GroupOk, Filled;
      ghost var before := groups;
      var cells := ReduceCells(shape, rows, groups[index], hash, row);
      if cells.None? { return false; }
      GroupsNext(shape, hash, rows, groups, row, index, cells.value);
      groups := groups[index := groups[index].(cells := cells.value)];
      rows := rows + [row];
      assert KeysOf(groups) == KeysOf(before) && HashesOf(groups) == HashesOf(before);
      ok := true;
    }

    /** consume, for a row that passes the filters. It succeeds exactly when its group exists or may be made and no
        aggregate of the group overflows; then the groups are again those of the plain group-by. */
    method Consume(row: Row, room: bool) returns (ok: bool)
      requires Valid() && RowOk(shape, row)
      modifies this, slots
      ensures slots == old(slots) || fresh(slots)
      ensures ok <==> && (Occurs(old(KeysOf(groups)), row.keys) || (room && |old(groups)| < most))
                      && forall a :: 0 <= a < |shape.aggregates| ==>
                         NextExpected(shape, old(rows), row, row.keys, a).Some?
      ensures ok ==> Valid() && rows == old(rows) + [row] && made == old(made)
    {
      hide GroupsOk, NormalKeys, Occurs, NextExpected, RowOk, Filled;
      RowKeys(shape, row);
      var index := GroupFor(row.keys, room);
      if index.None? { return false; }
      ghost var was := rows;
      ok := ReduceRow(index.value, row);
      assert (was + [row])[..|was|] == was;
    }
  }

  /** What an aggregate must be after one more row. */
  function NextExpected(s: Shape, rows: seq<Row>, r: Row, k: seq<Value>, a: nat): Option<Cell>
    requires ShapeOk(s) && RowsOk(s, rows) && RowOk(s, r) && a < |s.aggregates|
  {
    Expected(s, rows + [r], k, a)
  }

  lemma {:induction false} RowKeys(s: Shape, r: Row)
    requires RowOk(s, r)
    ensures KeysOk(s, r.keys)
  {
  }

  lemma {:induction false} CellStep(s: Shape, rows: seq<Row>, r: Row, k: seq<Value>, a: nat, c: Cell)
    requires ShapeOk(s) && RowsOk(s, rows) && RowOk(s, r) && a < |s.aggregates|
    requires Expected(s, rows, k, a) == Some(c) && NormalKeys(r.keys) == NormalKeys(k)
    ensures Allowed(s.aggregates[a]) && OfKind(s.aggregates[a].kind, r.arguments[a])
    ensures s.aggregates[a].op != CountAll && s.aggregates[a].op != Count ==> CellOk(s.aggregates[a], c)
    ensures NextExpected(s, rows, r, k, a) == Reduce(s.aggregates[a], c, r.arguments[a])
  {
    hide Reduce, RowOk, NormalKeys, Expected;
    ExpectedNext(s, rows, r, k, a);
  }

  lemma {:induction false} MembersSame(rows: seq<Row>, k: seq<Value>, l: seq<Value>)
    requires NormalKeys(k) == NormalKeys(l)
    ensures Members(rows, k) == Members(rows, l)
  {
    hide NormalKeys;
    if rows != [] { MembersSame(rows[..|rows| - 1], k, l); }
  }

  lemma {:induction false} SameExpected(s: Shape, rows: seq<Row>, r: Row, k: seq<Value>, l: seq<Value>, a: nat)
    requires ShapeOk(s) && RowsOk(s, rows) && RowOk(s, r) && a < |s.aggregates| && NormalKeys(k) == NormalKeys(l)
    ensures NextExpected(s, rows, r, k, a) == NextExpected(s, rows, r, l, a)
  {
    MembersSame(rows + [r], k, l);
  }

  /** After a row, its group with the new cells and all other groups as they were are right. */
  lemma {:induction false} GroupsNext(s: Shape, hash: seq<Value> -> nat, rows: seq<Row>, groups: seq<Group>, r: Row,
                                      index: nat, cells: seq<Cell>)
    requires GroupsOk(s, hash, rows, groups) && RowOk(s, r) && index < |groups|
             && NormalKeys(groups[index].keys) == NormalKeys(r.keys)
    requires |cells| == |s.aggregates| && forall a :: 0 <= a < |s.aggregates| ==>
               NextExpected(s, rows, r, r.keys, a) == Some(cells[a])
    ensures GroupsOk(s, hash, rows + [r], groups[index := groups[index].(cells := cells)])
  {
    hide Expected, KeysOk, NormalKeys, RowOk;
    var after := groups[index := groups[index].(cells := cells)];
    forall i | 0 <= i < |after| ensures GroupOk(s, hash, rows + [r], after[i]) {
      assert GroupOk(s, hash, rows, groups[i]);
      forall a | 0 <= a < |s.aggregates| ensures Expected(s, rows + [r], after[i].keys, a) == Some(after[i].cells[a]) {
        if i == index {
          SameExpected(s, rows, r, groups[i].keys, r.keys, a);
        } else {
          assert NormalKeys(groups[i].keys) != NormalKeys(r.keys) by {
            if i < index { assert NormalKeys(groups[i].keys) != NormalKeys(groups[index].keys); }
            else { assert NormalKeys(groups[index].keys) != NormalKeys(groups[i].keys); }
          }
          ExpectedNext(s, rows, r, groups[i].keys, a);
        }
      }
    }
  }

  lemma {:induction false} RowsAndShape(s: Shape, hash: seq<Value> -> nat, rows: seq<Row>, groups: seq<Group>)
    requires GroupsOk(s, hash, rows, groups)
    ensures ShapeOk(s) && RowsOk(s, rows)
  {
  }
}
