/** Whole runs of the writer on one table (src/ingest/writer.c:23-68): a turn takes a
    group off the queue, commits it and answers its requests. Producers may use the
    queue in any way between turns. */
module Ingestion {
  import opened Bytes
  import opened Frames
  import opened Schemas
  import opened SymbolRows
  import opened Commit
  import opened Ledgers
  import A = Appending
  import opened Histories
  import opened Receipts
  import W = Writers
  import Replay

  function RequestsOf(group: seq<W.Pending>): (r: seq<Request>)
    ensures |r| == |group| && forall i :: 0 <= i < |r| ==> r[i] == group[i].request
  {
    seq(|group|, i requires 0 <= i < |group| => group[i].request)
  }

  /** Requests of a table that are ready to be committed, whatever their time will be. */
  ghost predicate AllPrepared(s: Schema, table: nat, ps: seq<W.Pending>)
    requires Built(s)
  {
    forall i :: 0 <= i < |ps| && ps[i].table == table ==> Prepared(s, ps[i].request)
  }

  /** Granted requests of a run have times that never go back, up to the table's last time. */
  ghost predicate InSequence(requests: seq<Request>, answers: seq<Answer>, time: int)
    requires |requests| == |answers|
  {
    && NoneLater(requests, answers, time)
    && forall i, j :: 0 <= i < j < |answers| && answers[i].Receipt? && answers[j].Receipt? ==>
       requests[i].time <= requests[j].time
  }

  // ---- a group that was taken is one that the table can commit ----

  lemma {:induction false} SameTime(s: Schema, r: Request, time: I64)
    requires Built(s) && Prepared(s, r)
    ensures Prepared(s, r.(time := time))
  {
    hide Built, RowsEncode;
    assert LinesAt(r.values, r.time, 0) == LinesAt(r.values, time, 0);
  }

  lemma {:induction false} GroupPrepared(s: Schema, table: nat, queue: seq<W.Pending>, group: seq<W.Pending>, i: nat)
    requires Built(s) && AllPrepared(s, table, queue) && W.Timed(group, queue) && i < |group| && group[i].table == table
    ensures Prepared(s, RequestsOf(group)[i])
  {
    hide Built, Prepared;
    assert Prepared(s, queue[i].request);
    SameTime(s, queue[i].request, group[i].request.time);
  }

  /** The times that Take gives are those that CommitGroup asks for. */
  lemma {:induction false} GroupOnward(s: Schema, group: seq<W.Pending>, last: int)
    requires Built(s) && group != [] && W.TimesOk(group, last)
    requires forall i :: 0 <= i < |group| ==> Prepared(s, group[i].request)
    ensures var rs := RequestsOf(group);
            && RequestsInOrder(rs) && (A.FirstTime(rs) >= last || (A.FirstTime(rs) < 0 && |rs| == 1))
            && (A.FirstTime(rs) >= 0 ==> Timely(rs))
  {
    hide Built, RowsEncode;
    var rs := RequestsOf(group);
    forall i | 0 <= i < |rs| ensures rs[i].values != [] { assert Prepared(s, group[i].request); }
    forall i, j | 0 <= i <= j < |rs| ensures rs[i].time <= rs[j].time {
      if i < j { assert group[i].request.time <= group[j].request.time; }
    }
    assert group[0].request.time < 0 ==> |group| == 1;
    var n := |group| - 1;
    if group[0].request.time >= 0 {
      if 0 < n { assert group[0].request.time <= group[n].request.time; }
      assert group[n].request.time / DAY_US == group[0].request.time / DAY_US;
    }
  }

  lemma {:induction false} SequenceOn(a: seq<Request>, x: seq<Answer>, b: seq<Request>, y: seq<Answer>, was: int,
                                      time: int)
    requires |a| == |x| && |b| == |y| && InSequence(a, x, was) && NoneLater(b, y, time) && was <= time
             && RequestsInOrder(b)
    requires b != [] && (A.FirstTime(b) >= was || (|b| == 1 && !y[0].Receipt?))
    ensures InSequence(a + b, x + y, time)
  {
    NoneLaterConcat(a, x, b, y, was, time);
    var r, s := a + b, x + y;
    forall i, j | 0 <= i < j < |s| && s[i].Receipt? && s[j].Receipt? ensures r[i].time <= r[j].time {
      if j < |a| {
        assert a[i].time <= a[j].time;
      } else if i < |a| {
        assert a[i].time <= was && b[0].time <= b[j - |a|].time;
      } else {
        assert b[i - |a|].time <= b[j - |a|].time;
      }
    }
  }

  lemma {:induction false} NothingYet(lines: seq<Line>, last: nat, time: int)
    ensures Granted([], []) == [] && Tiles([], [], last) && InSequence([], [], time) && lines + Granted([], []) == lines
  {
  }

  lemma {:induction false} LinesStay(before: seq<Line>, a: seq<Line>, b: seq<Line>)
    ensures (before + a) + b == before + (a + b)
  {
  }

  // ---- runs ----

  /** The writer, seen from one table. The ghosts record the requests of that table in the order in which they were
      taken off the queue, and their answers. */
  class Run {
    const queue: W.Queue
    const table: A.Table
    const number: nat
    ghost const id: U64
    ghost const start: nat              // the table's last sequence at the start
    ghost const lines: seq<Line>        // its rows at the start
    ghost var requests: seq<Request>
    ghost var answers: seq<Answer>

    /** Every request taken has one answer; the receipts tile the sequence numbers that the table gained, in the order
        in which the requests were taken; the rows it gained are those of the granted requests; their times never go
        back; and its segments are a history that recovery accepts. */
    ghost predicate Valid()
      reads this, queue, table, table.Repr()
    {
      && queue.Valid() && queue.committing == [] && table.Valid() && 0 <= table.time <= I64_MAX
      && |answers| == |requests| && Tiles(requests, answers, start)
      && table.last == start + |Granted(requests, answers)|
      && Flat(table.chapters) == lines + Granted(requests, answers)
      && InSequence(requests, answers, table.time) && Orderly(table, id)
    }

    constructor (queue: W.Queue, table: A.Table, number: nat, ghost id: U64)
      requires queue.Valid() && queue.committing == [] && table.Valid() && 0 <= table.time <= I64_MAX
               && Orderly(table, id)
      ensures Valid() && requests == [] && this.queue == queue && this.table == table && this.number == number
      ensures this.id == id && start == table.last && lines == Flat(table.chapters)
    {
      hide Tiles, Granted, Flat, InSequence, Ordered, Built, W.Charges, W.Sizes, W.Union, W.Ids, W.Queue.Valid,
           A.Table.Sound, A.Table.Serves, Replay.Replayed;
      this.queue, this.table, this.number, this.id := queue, table, number, id;
      start, lines, requests, answers := table.last, Flat(table.chapters), [], [];
      new;
      NothingYet(Flat(table.chapters), table.last, table.time);
    }

    /** One turn of writer_main, on a request of this table. */
    method Turn(clock: nat -> I64, env: nat -> Env, call: nat)
      returns (next: nat, ghost group: seq<W.Pending>, ghost replies: seq<Answer>)
      requires Valid() && queue.queue != [] && queue.queue[0].table == number
               && AllPrepared(table.schema, number, queue.queue)
      modifies this, queue, table.Repr()
      ensures Valid() && fresh(table.Repr() - old(table.Repr()))
      ensures 0 < |group| == |replies| <= |old(queue.queue)| && W.Timed(group, old(queue.queue))
              && queue.queue == old(queue.queue)[|group|..]
      ensures requests == old(requests) + RequestsOf(group) && answers == old(answers) + replies
      ensures queue.done == old(queue.done) + multiset(W.Ids(group)) && queue.admitted == old(queue.admitted)
    {
      hide Tiles, Granted, Flat, InSequence, Ordered, Prepared, W.Timed, W.TimesOk, W.Clocked, W.Stops, W.Charges,
           W.Sizes, W.Union, W.Ids, Built, Lines, RequestsInOrder, Timely, TriedAlone, Served, NoneLater, Locked, Quiet,
           A.Table.Valid, A.AllFaithful;
      ghost var waiting, was, gained := queue.queue, table.time, Granted(requests, answers);
      queue.Take(clock, table.time);
      group := queue.committing;
      var rs := RequestsOf(queue.committing);
      forall i | 0 <= i < |group| ensures Prepared(table.schema, rs[i]) {
        GroupPrepared(table.schema, number, waiting, group, i);
      }
      GroupOnward(table.schema, group, table.time);
      var given;
      ghost var calls;
      given, next, calls := CommitGroup(table, rs, env, call, id);
      replies := given;
      queue.Complete();
      TilesConcat(requests, answers, rs, given, start);
      GrantedConcat(requests, answers, rs, given);
      LinesStay(lines, gained, Granted(rs, given));
      SequenceOn(requests, answers, rs, given, was, table.time);
      requests := requests + rs;
      answers := answers + given;
    }
  }
}
