/** Reading a query's rows page by page (src/query/cursor.c:63-100 and the part of
    src/query/query.c:206-220 and 306-315 that serves queries without aggregates). */
module Cursors {
  import opened Bytes
  import opened Items
  import opened Scans

  const TTL_MOST: nat := 300_000   // milliseconds
  const NS_PER_MS: nat := 1_000_000

  type Matches = Item -> bool

  /** The rows that pass the query's filters. */
  function Matched(m: Matches, items: seq<Item>): seq<Item> {
    if items == [] then []
    else Matched(m, items[..|items| - 1]) + if m(items[|items| - 1]) then [items[|items| - 1]] else []
  }

  lemma {:induction false} MatchedConcat(m: Matches, a: seq<Item>, b: seq<Item>)
    ensures Matched(m, a + b) == Matched(m, a) + Matched(m, b)
    decreases |b|
  {
    if b == [] {
      assert a + b == a;
    } else {
      assert (a + b)[..|a + b| - 1] == a + b[..|b| - 1];
      MatchedConcat(m, a, b[..|b| - 1]);
    }
  }

  lemma {:induction false} MatchedNext(m: Matches, a: seq<Item>, x: Item)
    ensures Matched(m, a + [x]) == Matched(m, a) + if m(x) then [x] else []
  {
    assert (a + [x])[..|a|] == a;
  }

  /** consume, for a query without aggregates: it stops the scan at the row that fills the page, or when a row cannot be
      kept. */
  function Consume(m: Matches, limit: nat, keeps: Callback): Callback {
    (h: seq<Item>, x: Item) => !m(x) || (keeps(h, x) && |Matched(m, h)| + 1 != limit)
  }

  /** While every row was accepted the page is not full. */
  lemma {:induction false} PageOpen(m: Matches, limit: nat, keeps: Callback, h: seq<Item>, n: nat)
    requires n <= |h| && limit > 0 && Accepted(Consume(m, limit, keeps), h, n)
    ensures |Matched(m, h[..n])| < limit
    decreases n
  {
    if n > 0 {
      PageOpen(m, limit, keeps, h, n - 1);
      assert Consume(m, limit, keeps)(h[..n - 1], h[n - 1]);
      assert h[..n] == h[..n - 1] + [h[n - 1]];
      MatchedNext(m, h[..n - 1], h[n - 1]);
    } else {
      assert h[..0] == [];
    }
  }

  datatype Page = Page(rows: seq<Item>, last: nat, more: bool, bytes: nat) | Error

  /** wadb_query_execute without aggregates: at most limit matching rows after a position, the position reached, and
      whether to go on. */
  method Execute(o: Options, m: Matches, keeps: Callback, parts: seq<Part>, sequence: nat, lets: Lets,
                 rebuilt: Rebuilt) returns (page: Page)
    requires Scannable(parts) && o.limit > 0 && forall i :: 0 <= i < |AllItems(parts)| ==>
               AllItems(parts)[i].sequence <= sequence
    ensures page.Page? ==> TotalRead(o, parts, page.last) <= page.bytes <= o.budget && |page.rows| <= o.limit
    ensures page.Page? && !page.more ==> page.rows == Matched(m, Filter(o, AllItems(parts)))
    ensures page.Page? && page.more ==> |page.rows| == o.limit && o.after < page.last < sequence
    ensures page.Page? && page.more ==>
              Matched(m, Filter(o, AllItems(parts))) == page.rows +
                Matched(m, Filter(o.(after := page.last), AllItems(parts)))
    ensures Calm(lets, rebuilt) && TotalCost(parts) <= o.budget && (forall h, x :: keeps(h, x))
            && |Filter(o, AllItems(parts))| < U32_MAX ==>
              page.Page?
  {
    hide Scannable, AllItems, Filter, Matched, ItemsOf, Calm, TotalCost, TotalNeed, TotalRead;
    var consume := Consume(m, o.limit, keeps);
    var st := ScanSnapshot(o.(limit := U32_MAX), consume, parts, lets, rebuilt);
    ghost var items := AllItems(parts);
    SameFilter(o, o.(limit := U32_MAX), items);
    if st.phase.Failed? || st.phase.AtLimit? { return Error; }
    var n := |st.handed|;
    var last := if n == 0 then o.after else Last(st.handed).sequence;
    SameReads(o, o.(limit := U32_MAX), parts, last);
    NothingBefore(o, parts);
    if st.phase.Going? {
      PageOpen(m, o.limit, keeps, st.handed, n);
      assert st.handed[..n] == st.handed;
      return Page(Matched(m, st.handed), last, false, st.bytes);
    }
    var front, x := st.handed[..n - 1], Last(st.handed);
    if !keeps(front, x) { return Error; }
    assert st.handed == front + [x];
    MatchedNext(m, front, x);
    OrderedItems(parts);
    FilterRest(o, items, st.handed);
    ghost var wanted := Filter(o, items);
    assert wanted == st.handed + wanted[n..];
    MatchedConcat(m, st.handed, wanted[n..]);
    var k := |Matched(m, st.handed)|;
    page := Page(Matched(m, st.handed), last, last < sequence, st.bytes);
    if last >= sequence {
      forall i | 0 <= i < |items| ensures !Wanted(o.(after := last), items[i]) { }
      FilterNone(o.(after := last), items);
      NoneMatched(m);
      assert Matched(m, st.handed) + [] == Matched(m, st.handed);
    }
  }

  /** What has to be read does not depend on limits and budgets. */
  lemma {:induction false} SameReads(o: Options, o': Options, parts: seq<Part>, last: int)
    requires o'.start == o.start && o'.end == o.end && o'.after == o.after
    ensures TotalRead(o', parts, last) == TotalRead(o, parts, last)
  {
    hide Filter, ItemsOf;
    if parts != [] {
      SameFilter(o, o', Scans.Rows(parts[0]));
      SameBatchReads(o, o', parts[0].batches, last);
      SameReads(o, o', parts[1..], last);
    }
  }

  lemma {:induction false} SameBatchReads(o: Options, o': Options, batches: seq<Batch>, last: int)
    requires o'.start == o.start && o'.end == o.end && o'.after == o.after
    ensures BatchesRead(o', batches, last) == BatchesRead(o, batches, last)
  {
    hide Filter;
    if batches != [] {
      SameFilter(o, o', batches[0].items);
      SameBatchReads(o, o', batches[1..], last);
    }
  }

  lemma {:induction false} NothingBefore(o: Options, parts: seq<Part>)
    ensures TotalRead(o, parts, o.after) == 0
  {
    hide ItemsOf, Filter;
    forall j | 0 <= j < |parts| ensures !Reaches(o, Scans.Rows(parts[j]), o.after) {
      if Filter(o, Scans.Rows(parts[j])) != [] { var i := FilterIn(o, Scans.Rows(parts[j]), 0); }
    }
    NoneRead(o, parts, o.after);
  }

  lemma {:induction false} NoneMatched(m: Matches)
    ensures Matched(m, []) == []
  {
  }

  lemma {:induction false} SameFilter(o: Options, o': Options, items: seq<Item>)
    requires o'.start == o.start && o'.end == o.end && o'.after == o.after
    ensures Filter(o', items) == Filter(o, items)
  {
    if items != [] { SameFilter(o, o', items[..|items| - 1]); }
  }

  lemma {:induction false} OrderedItems(parts: seq<Part>)
    requires Scannable(parts)
    ensures Ordered(AllItems(parts))
  {
  }

  // ---- the open cursors ----

  datatype Cursor = Cursor(id: nat, deadline: nat, plan: Options, matches: Matches, parts: seq<Part>, sequence: nat,
                           after: nat, remaining: nat, busy: bool)

  /** What a page is read with. */
  function PageOptions(c: Cursor): Options { c.plan.(after := c.after, budget := c.remaining) }

  /** All rows the cursor has to deliver. */
  function Whole(c: Cursor): seq<Item> { Matched(c.matches, Filter(c.plan, AllItems(c.parts))) }

  /** What was delivered and what is still to come make up the whole. */
  ghost predicate OnCourse(c: Cursor, delivered: seq<Item>) {
    && Scannable(c.parts) && c.plan.limit > 0
    && (forall i :: 0 <= i < |AllItems(c.parts)| ==> AllItems(c.parts)[i].sequence <= c.sequence)
    && Whole(c) == delivered + Matched(c.matches, Filter(PageOptions(c), AllItems(c.parts)))
  }

  /** A page moves a cursor on, or completes it. */
  lemma {:induction false} PageAdds(c: Cursor, delivered: seq<Item>, page: Page)
    requires OnCourse(c, delivered) && page.Page?
    requires !page.more ==> page.rows == Matched(c.matches, Filter(PageOptions(c), AllItems(c.parts)))
    requires page.more ==>
               && page.bytes <= c.remaining
               && Matched(c.matches, Filter(PageOptions(c), AllItems(c.parts))) ==
                    page.rows + Matched(c.matches, Filter(PageOptions(c).(after := page.last), AllItems(c.parts)))
    ensures !page.more ==> Whole(c) == delivered + page.rows
    ensures page.more ==> OnCourse(c.(after := page.last, remaining := c.remaining - page.bytes, busy := false),
                                   delivered + page.rows)
  {
    hide Scannable, AllItems, Filter, Matched;
    if page.more {
      var c' := c.(after := page.last, remaining := c.remaining - page.bytes, busy := false);
      SameFilter(PageOptions(c).(after := page.last), PageOptions(c'), AllItems(c.parts));
      assert delivered + (page.rows + Matched(c.matches, Filter(PageOptions(c'), AllItems(c.parts)))) ==
             (delivered + page.rows) + Matched(c.matches, Filter(PageOptions(c'), AllItems(c.parts)));
    }
  }

  /** Open cursors have different numbers and are all on course. */
  ghost predicate Listed(cursors: seq<Cursor>, lastId: nat, delivered: map<nat, seq<Item>>) {
    && (forall i, j :: 0 <= i < j < |cursors| ==> cursors[i].id != cursors[j].id)
    && (forall i :: 0 <= i < |cursors| ==>
          1 <= cursors[i].id <= lastId && cursors[i].id in delivered && OnCourse(cursors[i], delivered[cursors[i].id]))
  }

  lemma {:induction false} ListedWithout(cursors: seq<Cursor>, lastId: nat, delivered: map<nat, seq<Item>>, i: nat,
                                         rows: seq<Item>)
    requires Listed(cursors, lastId, delivered) && i < |cursors|
    ensures Listed(cursors[..i] + cursors[i + 1..], lastId, delivered[cursors[i].id := rows])
    ensures Listed(cursors[..i] + cursors[i + 1..], lastId, delivered)
  {
    hide OnCourse;
  }

  lemma {:induction false} ListedMoved(cursors: seq<Cursor>, lastId: nat, delivered: map<nat, seq<Item>>, i: nat,
                                       c: Cursor, rows: seq<Item>)
    requires Listed(cursors, lastId, delivered) && i < |cursors| && c.id == cursors[i].id && OnCourse(c, rows)
    ensures Listed(cursors[i := c], lastId, delivered[c.id := rows])
  {
    hide OnCourse;
  }

  lemma {:induction false} ListedOne(cursors: seq<Cursor>, lastId: nat, delivered: map<nat, seq<Item>>, c: Cursor,
                                     i: nat)
    requires Listed(cursors, lastId, delivered) && i < |cursors| && c in cursors && c.id == cursors[i].id
    ensures c == cursors[i]
  {
    hide OnCourse;
  }

  datatype Answer = Rows(rows: seq<Item>, finished: bool) | Busy | Expired | Bad

  ghost predicate Known(cursors: seq<Cursor>, id: nat) { exists i :: 0 <= i < |cursors| && cursors[i].id == id }

  ghost predicate InUse(cursors: seq<Cursor>, id: nat) {
    exists i :: 0 <= i < |cursors| && cursors[i].id == id && cursors[i].busy
  }

  /** The cursor at position i is gone, and nothing else has changed. */
  ghost predicate Dropped(before: seq<Cursor>, after: seq<Cursor>, i: nat, id: nat) {
    i < |before| && before[i].id == id && after == before[..i] + before[i + 1..]
  }

  /** The cursor at position i stands further on after a full page, but not at the end of its snapshot; its budget has
      paid for what had to be read to get there; and nothing else has changed. */
  ghost predicate Advanced(before: seq<Cursor>, after: seq<Cursor>, i: nat, id: nat, rows: seq<Item>) {
    && i < |before| == |after| && before[i].id == id && |rows| == before[i].plan.limit
    && before[i].after < after[i].after < before[i].sequence
    && TotalRead(PageOptions(before[i]), before[i].parts, after[i].after) <= before[i].remaining - after[i].remaining
    && after == before[i := before[i].(after := after[i].after, remaining := after[i].remaining)]
  }

  lemma {:induction false} DroppedUnknown(before: seq<Cursor>, lastId: nat, delivered: map<nat, seq<Item>>,
                                          after: seq<Cursor>, i: nat, id: nat)
    requires Listed(before, lastId, delivered) && Dropped(before, after, i, id)
    ensures !Known(after, id)
  {
    hide OnCourse;
  }

  class Database {
    var cursors: seq<Cursor>
    var lastId: nat
    ghost var delivered: map<nat, seq<Item>>   // the pages of every cursor ever opened, joined

    ghost predicate Valid()
      reads this
    {
      Listed(cursors, lastId, delivered)
    }

    constructor ()
      ensures Valid() && cursors == []
    {
      cursors, lastId, delivered := [], 0, map[];
    }

    /** wadb_cursor_open on a snapshot: the new cursor goes to the head of the list. room tells whether the memory
        budget allows it. */
    method Open(plan: Options, m: Matches, parts: seq<Part>, sequence: nat, ttl: nat, now: nat, room: bool)
      returns (id: nat)
      requires Valid() && Scannable(parts) && plan.limit > 0
               && forall i :: 0 <= i < |AllItems(parts)| ==> AllItems(parts)[i].sequence <= sequence
      modifies this
      ensures Valid() && (id == 0 <==> ttl == 0 || ttl > TTL_MOST || old(lastId) == U64_MAX || !room)
      ensures id == 0 ==> cursors == old(cursors) && delivered == old(delivered)
      ensures id != 0 ==>
                var deadline := now + ttl * NS_PER_MS;
                cursors == [Cursor(id, deadline, plan, m, parts, sequence, plan.after, plan.budget, false)] +
                  old(cursors)
      ensures id != 0 ==>
                && delivered == old(delivered)[id := []]
                && forall i :: 0 <= i < |old(cursors)| ==> old(cursors)[i].id != id
    {
      hide Scannable, AllItems, Filter, Matched;
      if ttl == 0 || ttl > TTL_MOST || lastId == U64_MAX || !room { return 0; }
      lastId := lastId + 1;
      id := lastId;
      var c := Cursor(id, now + ttl * NS_PER_MS, plan, m, parts, sequence, plan.after, plan.budget, false);
      assert PageOptions(c) == plan;
      assert OnCourse(c, []);
      cursors := [c] + cursors;
      delivered := delivered[id := []];
    }

    /** The walk of find. */
    method Find(id: nat) returns (i: nat)
      requires Valid()
      ensures i <= |cursors| && (i < |cursors| ==> cursors[i].id == id)
      ensures i == |cursors| ==> forall k :: 0 <= k < |cursors| ==> cursors[k].id != id
    {
      i := 0;
      while i < |cursors| && cursors[i].id != id
        invariant 0 <= i <= |cursors| && forall k :: 0 <= k < i ==> cursors[k].id != id
      {
        i := i + 1;
      }
    }

    /** wadb_cursor_expire: cursors past their deadline go, those being read stay. */
    method Expire(now: nat)
      requires Valid()
      modifies this`cursors
      ensures Valid()
      ensures forall c :: c in cursors <==> c in old(cursors) && (c.busy || c.deadline > now)
    {
      hide OnCourse;
      var kept, i := [], 0;
      while i < |cursors|
        invariant 0 <= i <= |cursors|
        invariant forall c :: c in kept <==> c in cursors[..i] && (c.busy || c.deadline > now)
        invariant forall a, b :: 0 <= a < b < |kept| ==> kept[a].id != kept[b].id
      {
        var c := cursors[i];
        assert cursors[..i + 1] == cursors[..i] + [c];
        if c.busy || c.deadline > now {
          forall a | 0 <= a < |kept| ensures kept[a].id != c.id {
            assert kept[a] in cursors[..i];
            var k :| 0 <= k < i && cursors[..i][k] == kept[a];
            assert cursors[k].id != cursors[i].id;
          }
          kept := kept + [c];
        }
        i := i + 1;
      }
      assert cursors[..i] == cursors;
      forall a | 0 <= a < |kept|
        ensures 1 <= kept[a].id <= lastId && kept[a].id in delivered && OnCourse(kept[a], delivered[kept[a].id])
      {
        assert kept[a] in cursors;
      }
      cursors := kept;
    }

    /** The first lock region of wadb_cursor_next: claim the cursor. */
    method Begin(id: nat) returns (c: Option<Cursor>, answer: Answer)
      requires Valid()
      modifies this`cursors
      ensures Valid() && |cursors| == |old(cursors)|
      ensures c.Some? ==> !c.value.busy && c.value.id == id && exists i :: Claimed(old(cursors), cursors, i, c.value)
      ensures c.Some? <==> Known(old(cursors), id) && !InUse(old(cursors), id)
      ensures c.None? ==> cursors == old(cursors) && answer == if Known(cursors, id) then Busy else Expired
    {
      hide OnCourse;
      var i := Find(id);
      if i == |cursors| { return None, Expired; }
      if cursors[i].busy { return None, Busy; }
      var claimed := cursors[i];
      ghost var before := cursors;
      BusyOnCourse(claimed, delivered[id], true);
      cursors := cursors[i := claimed.(busy := true)];
      assert Claimed(before, cursors, i, claimed);
      return Some(claimed), Busy;
    }

    /** The last lock region: store the position, or drop the cursor when it is finished or failed. */
    method Finish(id: nat, page: Page) returns (answer: Answer)
      requires Valid() && exists i :: 0 <= i < |cursors| && ReadFor(cursors[i], id, page)
      modifies this
      ensures Valid()
      ensures page.Page? ==>
                && answer == Rows(page.rows, !page.more) && id in old(delivered)
                && delivered == old(delivered)[id := old(delivered)[id] + page.rows]
      ensures page.Page? && !page.more ==> forall c :: c in old(cursors) && c.id == id ==> Whole(c) == delivered[id]
      ensures page.Page? && page.more ==> exists i :: MovedOn(old(cursors), cursors, i, id, page)
      ensures !(page.Page? && page.more) ==> exists i :: Dropped(old(cursors), cursors, i, id)
      ensures page.Error? ==> delivered == old(delivered) && answer == Bad
    {
      hide OnCourse, Whole, Listed;
      var i := Find(id);
      var c := cursors[i];
      assert Here(cursors, c, id, page) by {
        var k :| 0 <= k < |cursors| && ReadFor(cursors[k], id, page);
        ListedOne(cursors, lastId, delivered, cursors[k], i);
      }
      ListedAt(cursors, lastId, delivered, i);
      ghost var before := cursors;
      if page.Error? {
        ListedWithout(cursors, lastId, delivered, i, []);
        cursors := cursors[..i] + cursors[i + 1..];
        assert Dropped(before, cursors, i, id);
        return Bad;
      }
      PageAdds(c, delivered[id], page);
      ghost var rows := delivered[id] + page.rows;
      if page.more {
        var c' := c.(after := page.last, remaining := c.remaining - page.bytes, busy := false);
        ListedMoved(cursors, lastId, delivered, i, c', rows);
        cursors := cursors[i := c'];
        assert MovedOn(before, cursors, i, id, page);
      } else {
        ListedWithout(cursors, lastId, delivered, i, rows);
        forall x | x in cursors && x.id == id ensures Whole(x) == rows { ListedOne(cursors, lastId, delivered, x, i); }
        cursors := cursors[..i] + cursors[i + 1..];
        assert Dropped(before, cursors, i, id);
      }
      delivered := delivered[id := rows];
      answer := Rows(page.rows, !page.more);
    }

    /** wadb_cursor_close: refused only while the cursor is being read. */
    method Close(id: nat) returns (ok: bool)
      requires Valid()
      modifies this`cursors
      ensures Valid() && (ok <==> !InUse(old(cursors), id))
      ensures ok ==> !Known(cursors, id)
      ensures !ok || !Known(old(cursors), id) ==> cursors == old(cursors)
      ensures ok && Known(old(cursors), id) ==> exists i :: Dropped(old(cursors), cursors, i, id)
    {
      hide OnCourse;
      var i := Find(id);
      if i == |cursors| { return true; }
      if cursors[i].busy { return false; }
      ghost var before := cursors;
      ListedWithout(cursors, lastId, delivered, i, []);
      cursors := cursors[..i] + cursors[i + 1..];
      assert Dropped(before, cursors, i, id);
      DroppedUnknown(before, lastId, delivered, cursors, i, id);
      return true;
    }
  }

  /** wadb_cursor_next with nothing in between: the rows it answers are the next ones of the whole, and the last page
      ends it. */
  method Next(db: Database, id: nat, keeps: Callback, lets: Lets, rebuilt: Rebuilt, expired: bool)
    returns (answer: Answer)
    requires db.Valid()
    modifies db
    ensures db.Valid()
    ensures answer.Rows? ==>
              id in old(db.delivered) && db.delivered == old(db.delivered)[id := old(db.delivered)[id] + answer.rows]
    ensures answer.Rows? && answer.finished ==>
              exists c :: c in old(db.cursors) && c.id == id && Whole(c) == db.delivered[id]
    ensures !answer.Rows? ==> db.delivered == old(db.delivered)
    ensures answer == Busy <==> InUse(old(db.cursors), id)
    ensures answer == Expired <==> !Known(old(db.cursors), id) || (expired && !InUse(old(db.cursors), id))
    ensures answer == Busy ==> db.cursors == old(db.cursors)
    ensures answer.Rows? && !answer.finished ==> exists i :: Advanced(old(db.cursors), db.cursors, i, id, answer.rows)
    ensures answer != Busy && !(answer.Rows? && !answer.finished) ==> !Known(db.cursors, id)
    ensures answer == Bad ==> forall c :: c in old(db.cursors) && c.id == id ==> !Undisturbed(c, keeps, lets, rebuilt)
  {
    hide Matched, Filter, AllItems, Scannable, Whole, OnCourse, Listed, ReadFor, Undisturbed, PageOptions, Known,
         InUse, Dropped, MovedOn, Advanced;
    ghost var before, lastId, was := db.cursors, db.lastId, db.delivered;
    var c;
    c, answer := db.Begin(id);
    if c.None? { InUseKnown(before, id); return; }
    ghost var claimed := db.cursors;
    ghost var i :| 0 <= i < |before| && Claimed(before, claimed, i, c.value);
    ListedAt(before, lastId, was, i);
    var page := Error;
    if !expired { page := ReadPage(c.value, was[id], keeps, lets, rebuilt); }
    SameRead(c.value, id, page);
    assert ReadFor(db.cursors[i], id, page) by { AnyError(c.value, page); }
    answer := db.Finish(id, page);
    if page.Page? && page.more {
      MovedAdvanced(before, lastId, was, claimed, db.cursors, i, c.value, page);
    } else {
      ClaimedDropped(before, lastId, was, claimed, db.cursors, i, c.value);
      SameWhole(c.value);
    }
    forall x | x in before && x.id == id ensures x == c.value { ListedOne(before, lastId, was, x, i); }
    if expired { answer := Expired; }
  }

  /** The page that an unexpired cursor gets. */
  method ReadPage(c: Cursor, ghost delivered: seq<Item>, keeps: Callback, lets: Lets, rebuilt: Rebuilt)
    returns (page: Page)
    requires OnCourse(c, delivered)
    ensures ReadFor(c, c.id, page)
    ensures Undisturbed(c, keeps, lets, rebuilt) ==> page.Page?
  {
    hide Matched, Filter, AllItems, Scannable, Whole;
    page := Execute(PageOptions(c), c.matches, keeps, c.parts, c.sequence, lets, rebuilt);
  }

  lemma {:induction false} AnyError(c: Cursor, page: Page)
    ensures page.Error? ==> ReadFor(c, c.id, page)
  {
  }

  lemma {:induction false} InUseKnown(cursors: seq<Cursor>, id: nat)
    ensures InUse(cursors, id) ==> Known(cursors, id)
  {
  }

  lemma {:induction false} ClaimedDropped(before: seq<Cursor>, lastId: nat, delivered: map<nat, seq<Item>>,
                                          claimed: seq<Cursor>, after: seq<Cursor>, i: nat, c: Cursor)
    requires Listed(before, lastId, delivered) && Claimed(before, claimed, i, c)
    requires exists k :: Dropped(claimed, after, k, c.id)
    ensures !Known(after, c.id)
  {
    hide OnCourse;
    var k: nat :| Dropped(claimed, after, k, c.id);
    assert k == i;
  }

  /** Nothing goes wrong while a page is read, and the bytes left pay for the whole snapshot. */
  ghost predicate Undisturbed(c: Cursor, keeps: Callback, lets: Lets, rebuilt: Rebuilt) {
    && Calm(lets, rebuilt) && TotalCost(c.parts) <= c.remaining && (forall h, x :: keeps(h, x))
    && |Filter(PageOptions(c), AllItems(c.parts))| < U32_MAX
  }

  lemma {:induction false} SameRead(c: Cursor, id: nat, page: Page)
    ensures ReadFor(c.(busy := true), id, page) <==> ReadFor(c, id, page)
  {
    assert PageOptions(c.(busy := true)) == PageOptions(c);
  }

  lemma {:induction false} SameWhole(c: Cursor)
    ensures Whole(c.(busy := true)) == Whole(c)
  {
  }

  ghost predicate Here(cursors: seq<Cursor>, c: Cursor, id: nat, page: Page) { c in cursors && ReadFor(c, id, page) }

  lemma {:induction false} ListedAt(cursors: seq<Cursor>, lastId: nat, delivered: map<nat, seq<Item>>, i: nat)
    requires Listed(cursors, lastId, delivered) && i < |cursors|
    ensures cursors[i].id in delivered && OnCourse(cursors[i], delivered[cursors[i].id])
  {
  }

  ghost predicate Claimed(before: seq<Cursor>, after: seq<Cursor>, i: nat, c: Cursor) {
    i < |before| && before[i] == c && after == before[i := c.(busy := true)]
  }

  /** A page read with what the cursor says. */
  ghost predicate ReadFor(c: Cursor, id: nat, page: Page) {
    && c.id == id
    && (page.Page? && !page.more ==> page.rows == Matched(c.matches, Filter(PageOptions(c), AllItems(c.parts))))
    && (page.Page? && page.more ==>
          && TotalRead(PageOptions(c), c.parts, page.last) <= page.bytes <= c.remaining
          && c.after < page.last < c.sequence && |page.rows| == c.plan.limit
          && Matched(c.matches, Filter(PageOptions(c), AllItems(c.parts))) ==
               page.rows + Matched(c.matches, Filter(PageOptions(c).(after := page.last), AllItems(c.parts))))
  }

  /** The page is full, the position of the cursor has strictly grown but not to the end of the snapshot, and the budget
      has paid for the page. */
  ghost predicate MovedOn(before: seq<Cursor>, after: seq<Cursor>, i: nat, id: nat, page: Page)
    requires page.Page?
  {
    && i < |before| && before[i].id == id
    && TotalRead(PageOptions(before[i]), before[i].parts, page.last) <= page.bytes <= before[i].remaining
    && before[i].after < page.last < before[i].sequence && |page.rows| == before[i].plan.limit
    && after == before[i := before[i].(after := page.last, remaining := before[i].remaining - page.bytes,
                                       busy := false)]
  }

  lemma {:induction false} MovedAdvanced(before: seq<Cursor>, lastId: nat, delivered: map<nat, seq<Item>>,
                                         claimed: seq<Cursor>, after: seq<Cursor>, i: nat, c: Cursor, page: Page)
    requires Listed(before, lastId, delivered) && Claimed(before, claimed, i, c) && !c.busy && page.Page?
    requires exists k :: MovedOn(claimed, after, k, c.id, page)
    ensures Advanced(before, after, i, c.id, page.rows)
  {
    hide OnCourse;
    var k: nat :| MovedOn(claimed, after, k, c.id, page);
    assert k == i;
  }

  lemma {:induction false} BusyOnCourse(c: Cursor, delivered: seq<Item>, busy: bool)
    requires OnCourse(c, delivered)
    ensures OnCourse(c.(busy := busy), delivered)
  {
    assert PageOptions(c.(busy := busy)) == PageOptions(c);
  }

  // ---- all pages ----

  /** The cursor of a number, idle, and nothing else has changed of it but its position and budget. */
  ghost predicate Stands(cursors: seq<Cursor>, c: Cursor, now: Cursor) {
    now in cursors && !now.busy && now == c.(after := now.after, remaining := now.remaining)
  }

  lemma {:induction false} StandsOn(before: seq<Cursor>, lastId: nat, delivered: map<nat, seq<Item>>,
                                    after: seq<Cursor>, i: nat, c: Cursor, now: Cursor, rows: seq<Item>)
    requires Listed(before, lastId, delivered) && Stands(before, c, now) && Advanced(before, after, i, c.id, rows)
    ensures i < |before| == |after| && before[i] == now && Stands(after, c, after[i])
            && now.after < after[i].after < c.sequence
            && TotalRead(PageOptions(now), c.parts, after[i].after) <= now.remaining - after[i].remaining
  {
    hide OnCourse;
  }

  lemma {:induction false} StandsScannable(cursors: seq<Cursor>, lastId: nat, delivered: map<nat, seq<Item>>, c: Cursor,
                                           now: Cursor)
    requires Listed(cursors, lastId, delivered) && Stands(cursors, c, now)
    ensures Scannable(c.parts)
  {
    hide Scannable, Whole, Matched, Filter, AllItems;
  }

  /** Paying for one page after the other pays for all that had to be read. */
  lemma {:induction false} PaidOn(c: Cursor, now: Cursor, next: nat)
    requires Scannable(c.parts) && now == c.(after := now.after, remaining := now.remaining)
    requires c.after <= now.after <= next
    ensures TotalRead(PageOptions(c), c.parts, next) <=
              TotalRead(PageOptions(c), c.parts, now.after) + TotalRead(PageOptions(now), c.parts, next)
  {
    hide Scannable, TotalRead;
    ReadInSteps(PageOptions(c), c.parts, now.after, next);
    SameReads(PageOptions(c).(after := now.after), PageOptions(now), c.parts, next);
  }

  lemma {:induction false} StandsWhole(cursors: seq<Cursor>, lastId: nat, delivered: map<nat, seq<Item>>, c: Cursor,
                                       now: Cursor, x: Cursor)
    requires Listed(cursors, lastId, delivered) && Stands(cursors, c, now) && x in cursors && x.id == c.id
    ensures Whole(x) == Whole(c)
  {
    hide OnCourse, Matched, Filter, AllItems;
  }

  lemma {:induction false} StandsPrefix(cursors: seq<Cursor>, lastId: nat, delivered: map<nat, seq<Item>>, c: Cursor,
                                        now: Cursor)
    requires Listed(cursors, lastId, delivered) && Stands(cursors, c, now)
    ensures c.id in delivered && delivered[c.id] <= Whole(c)
  {
    hide Matched, Filter, AllItems, Scannable;
    var i :| 0 <= i < |cursors| && cursors[i] == now;
    ListedAt(cursors, lastId, delivered, i);
  }

  lemma {:induction false} StandsKnown(cursors: seq<Cursor>, lastId: nat, delivered: map<nat, seq<Item>>, c: Cursor,
                                       now: Cursor)
    requires Listed(cursors, lastId, delivered) && Stands(cursors, c, now)
    ensures Known(cursors, c.id) && !InUse(cursors, c.id)
  {
    hide OnCourse;
  }

  /** A client that reads a cursor to its end, or until a page fails. The pages do come to an end, and if none fails
      they make up one unlimited filtered scan of the snapshot that the cursor was opened on. The ghost result is the
      cursor before the last page. */
  method ReadAll(db: Database, c: Cursor, keeps: nat -> Callback, lets: nat -> Lets, rebuilt: nat -> Rebuilt,
                 expired: nat -> bool)
    returns (rows: seq<Item>, pages: nat, answer: Answer, ghost now: Cursor)
    requires db.Valid() && c in db.cursors && !c.busy && c.id in db.delivered && db.delivered[c.id] == []
    modifies db
    ensures db.Valid() && answer != Busy && now == c.(after := now.after, remaining := now.remaining)
    ensures TotalRead(PageOptions(c), c.parts, now.after) <= c.remaining - now.remaining
    ensures answer.Rows? ==> rows == Whole(c)
    ensures answer == Expired ==> expired(pages)
    ensures answer == Bad ==> !Undisturbed(now, keeps(pages), lets(pages), rebuilt(pages))
    ensures !answer.Rows? ==> rows <= Whole(c)
  {
    hide Matched, Filter, AllItems, Scannable, Whole, OnCourse, Listed, Undisturbed, Known, InUse, Advanced, TotalRead;
    rows, pages, now := [], 0, c;
    NothingBefore(PageOptions(c), c.parts);
    while true
      invariant c.after <= now.after && TotalRead(PageOptions(c), c.parts, now.after) <= c.remaining - now.remaining
      invariant db.Valid() && Stands(db.cursors, c, now) && c.id in db.delivered && db.delivered[c.id] == rows
      decreases if now.after < c.sequence then c.sequence - now.after else 0
    {
      ghost var before, lastId, was := db.cursors, db.lastId, db.delivered;
      StandsKnown(before, lastId, was, c, now);
      StandsPrefix(before, lastId, was, c, now);
      answer := Next(db, c.id, keeps(pages), lets(pages), rebuilt(pages), expired(pages));
      if !answer.Rows? { return; }
      rows := rows + answer.rows;
      if answer.finished {
        ghost var x :| x in before && x.id == c.id && Whole(x) == db.delivered[c.id];
        StandsWhole(before, lastId, was, c, now, x);
        return;
      }
      ghost var i: nat :| Advanced(before, db.cursors, i, c.id, answer.rows);
      StandsOn(before, lastId, was, db.cursors, i, c, now, answer.rows);
      StandsScannable(before, lastId, was, c, now);
      PaidOn(c, now, db.cursors[i].after);
      now := db.cursors[i];
      pages := pages + 1;
    }
  }
}
