/** commit_group of src/ingest/writer.c:6-21 over the table of the Appending module:
    a group that is too large is split between requests, and every request gets one
    answer. */
module Receipts {
  import opened Bytes
  import opened Frames
  import opened Schemas
  import opened SymbolRows
  import opened Commit
  import opened Ledgers
  import opened Appending
  import opened Histories

  datatype Answer = Receipt(first: nat, last: nat, time: I64) | Refusal(outcome: Outcome)

  /** What the calls inside one commit return, if they are reached. */
  datatype Env = Env(created: Creation, reserved: Reservation, wrote: bool, fails: (bool, nat, nat) -> nat)

  /** The lines of the requests that were answered with a receipt. */
  function Granted(requests: seq<Request>, answers: seq<Answer>): seq<Line>
    requires |requests| == |answers|
  {
    if requests == [] then [] else
      var n := |requests| - 1;
      Granted(requests[..n], answers[..n]) + if answers[n].Receipt? then Lines([requests[n]]) else []
  }

  /** Receipts follow each other: each starts where the ones before it end. */
  ghost predicate Tiles(requests: seq<Request>, answers: seq<Answer>, last: nat)
    requires |requests| == |answers|
  {
    forall i :: 0 <= i < |answers| && answers[i].Receipt? ==> Follows(requests, answers, last, i)
  }

  ghost predicate Follows(requests: seq<Request>, answers: seq<Answer>, last: nat, i: nat)
    requires |requests| == |answers| && i < |answers| && answers[i].Receipt?
  {
    && answers[i].first == last + |Granted(requests[..i], answers[..i])| + 1
    && answers[i].last == last + |Granted(requests[..i], answers[..i])| + |requests[i].values|
    && answers[i].time == requests[i].time
  }

  /** All lines of a table's segments. */
  function LinesOf(lines: seq<seq<Line>>): seq<Line> {
    if lines == [] then [] else LinesOf(lines[..|lines| - 1]) + lines[|lines| - 1]
  }

  function Flat(chapters: seq<Chapter>): seq<Line> {
    if chapters == [] then [] else Flat(chapters[..|chapters| - 1]) + LinesOf(chapters[|chapters| - 1].lines)
  }

  lemma {:induction false} FlatOn(chapters: seq<Chapter>, c: Chapter)
    ensures Flat(chapters + [c]) == Flat(chapters) + LinesOf(c.lines)
  {
    hide LinesOf;
    assert (chapters + [c])[..|chapters|] == chapters;
  }

  lemma {:induction false} LinesOn(lines: seq<seq<Line>>, group: seq<Line>)
    ensures LinesOf(lines + [group]) == LinesOf(lines) + group && LinesOf([group]) == group && LinesOf([]) == []
  {
    assert (lines + [group])[..|lines|] == lines;
    assert [group][..0] == [];
    assert LinesOf([]) == [];
  }

  /** A commit adds its group's lines at the end. */
  lemma {:induction false} FlatAppended(l: Ledger, after: seq<Chapter>, moved: bool, f: Frame, group: seq<Line>,
                                        first: I64, skipped: nat)
    requires Appended(l, after, moved, f, group, first, skipped)
    ensures Flat(after) == Flat(l.chapters) + group
  {
    hide LinesOf, Flat, DayStart;
    var before := l.chapters;
    if moved {
      var c :| New(c, l, first, skipped) && after == before + [Longer(c, f, group)];
      FlatOn(before, Longer(c, f, group));
      LinesOn([], group);
      assert [] + [group] == [group];
    } else {
      var n := |before| - 1;
      assert before == before[..n] + [before[n]] && after == before[..n] + [after[n]];
      FlatOn(before[..n], before[n]);
      FlatOn(before[..n], after[n]);
      LinesOn(before[n].lines, group);
    }
  }

  lemma {:induction false} FlatKept(l: Ledger, after: seq<Chapter>, first: I64, skipped: nat)
    requires Kept(l, after, first, skipped)
    ensures Flat(after) == Flat(l.chapters)
  {
    hide LinesOf, Flat, DayStart;
    if after != l.chapters {
      FlatOn(l.chapters, after[|l.chapters|]);
      LinesOn([], []);
      assert Flat(l.chapters) + [] == Flat(l.chapters);
    }
  }

  lemma {:induction false} LinesConcat(a: seq<Request>, b: seq<Request>)
    ensures Lines(a + b) == Lines(a) + Lines(b)
    decreases |b|
  {
    hide LinesAt;
    if b == [] {
      assert a + b == a;
    } else {
      assert (a + b)[..|a + b| - 1] == a + b[..|b| - 1];
      LinesConcat(a, b[..|b| - 1]);
    }
  }

  lemma {:induction false} GrantedConcat(a: seq<Request>, x: seq<Answer>, b: seq<Request>, y: seq<Answer>)
    requires |a| == |x| && |b| == |y|
    ensures Granted(a + b, x + y) == Granted(a, x) + Granted(b, y)
    decreases |b|
  {
    hide Lines;
    if b == [] {
      assert a + b == a && x + y == x;
    } else {
      var n := |b| - 1;
      assert (a + b)[..|a| + n] == a + b[..n] && (x + y)[..|a| + n] == x + y[..n];
      GrantedConcat(a, x, b[..n], y[..n]);
    }
  }

  /** The receipts of two groups, one committed after the other, tile together. */
  lemma {:induction false} TilesConcat(a: seq<Request>, x: seq<Answer>, b: seq<Request>, y: seq<Answer>, last: nat)
    requires |a| == |x| && |b| == |y| && Tiles(a, x, last) && Tiles(b, y, last + |Granted(a, x)|)
    ensures Tiles(a + b, x + y, last)
  {
    hide Granted;
    var r, s := a + b, x + y;
    forall i | 0 <= i < |s| && s[i].Receipt? ensures Follows(r, s, last, i) {
      if i < |a| {
        assert Follows(a, x, last, i);
        assert r[..i] == a[..i] && s[..i] == x[..i];
      } else {
        var k := i - |a|;
        assert Follows(b, y, last + |Granted(a, x)|, k);
        assert r[..i] == a + b[..k] && s[..i] == x + y[..k];
        GrantedConcat(a, x, b[..k], y[..k]);
      }
    }
  }

  // ---- the receipts of one commit ----

  lemma {:induction false} OneRequest(r: Request)
    ensures |Lines([r])| == |r.values|
  {
    assert [r][..0] == [];
    assert Lines([]) == [];
  }

  lemma {:induction false} AllGranted(requests: seq<Request>, answers: seq<Answer>)
    requires |requests| == |answers| && forall i :: 0 <= i < |answers| ==> answers[i].Receipt?
    ensures Granted(requests, answers) == Lines(requests)
  {
    hide Lines;
    NoRequests();
    if requests != [] {
      var n := |requests| - 1;
      AllGranted(requests[..n], answers[..n]);
      assert requests == requests[..n] + [requests[n]];
      LinesConcat(requests[..n], [requests[n]]);
    }
  }

  lemma {:induction false} NoneGranted(requests: seq<Request>, answers: seq<Answer>)
    requires |requests| == |answers| && forall i :: 0 <= i < |answers| ==> !answers[i].Receipt?
    ensures Granted(requests, answers) == []
  {
    hide Lines;
    if requests != [] { NoneGranted(requests[..|requests| - 1], answers[..|answers| - 1]); }
  }

  lemma {:induction false} NoRequests()
    ensures Lines([]) == []
  {
  }

  lemma {:induction false} TilesNext(requests: seq<Request>, answers: seq<Answer>, r: Request, answer: Answer,
                                     last: nat)
    requires |requests| == |answers| && Tiles(requests, answers, last) && answer.Receipt?
    requires answer.first == last + |Granted(requests, answers)| + 1
             && answer.last == last + |Granted(requests, answers)| + |r.values| && answer.time == r.time
    ensures Tiles(requests + [r], answers + [answer], last)
  {
    hide Granted;
    var a, b := requests + [r], answers + [answer];
    forall i | 0 <= i < |b| && b[i].Receipt? ensures Follows(a, b, last, i) {
      assert a[..i] == requests[..i] && b[..i] == answers[..i];
      if i < |answers| { assert Follows(requests, answers, last, i); }
      else { assert requests[..i] == requests && answers[..i] == answers; }
    }
  }

  /** The loop that fills in the receipts of a committed group: src/storage/segments.c:405-412. */
  method FillReceipts(requests: seq<Request>, last: nat) returns (answers: seq<Answer>)
    ensures |answers| == |requests| && (forall i :: 0 <= i < |answers| ==> answers[i].Receipt?)
            && Tiles(requests, answers, last)
  {
    hide Granted, Lines;
    answers := [];
    var sequence, i := last + 1, 0;
    NoRequests();
    assert requests[..0] == [];
    while i < |requests|
      invariant 0 <= i <= |requests| && |answers| == i && sequence == last + |Lines(requests[..i])| + 1
      invariant forall k :: 0 <= k < i ==> answers[k].Receipt?
      invariant Tiles(requests[..i], answers, last)
    {
      var r := requests[i];
      var answer := Receipt(sequence, sequence + |r.values| - 1, r.time);
      AllGranted(requests[..i], answers);
      assert requests[..i + 1] == requests[..i] + [r];
      LinesConcat(requests[..i], [r]);
      OneRequest(r);
      TilesNext(requests[..i], answers, r, answer, last);
      answers := answers + [answer];
      sequence, i := sequence + |r.values|, i + 1;
    }
    assert requests[..i] == requests;
  }

  function Refusals(n: nat, outcome: Outcome): (r: seq<Answer>)
    ensures |r| == n && forall i :: 0 <= i < n ==> r[i] == Refusal(outcome)
  {
    seq(n, i => Refusal(outcome))
  }

  lemma {:induction false} RefusalsTile(requests: seq<Request>, answers: seq<Answer>, last: nat)
    requires |requests| == |answers| && forall i :: 0 <= i < |answers| ==> !answers[i].Receipt?
    ensures Tiles(requests, answers, last)
  {
  }

  /** A call of wadb_commit_requests and what it returned. */
  datatype Call = Call(requests: seq<Request>, outcome: Outcome)

  /** A call that this request was part of and that ended so; for want of room, it was the only one. */
  predicate Refuses(c: Call, r: Request, outcome: Outcome) {
    c.outcome == outcome && r in c.requests && (outcome == Limit ==> c.requests == [r])
  }

  ghost predicate Explained(calls: seq<Call>, r: Request, outcome: Outcome) {
    exists k :: 0 <= k < |calls| && Refuses(calls[k], r, outcome)
  }

  /** Every refusal is the outcome of a call, and a request is refused for want of room only after it was tried by
      itself. */
  ghost predicate TriedAlone(requests: seq<Request>, answers: seq<Answer>, calls: seq<Call>)
    requires |requests| == |answers|
  {
    forall i :: 0 <= i < |answers| && answers[i].Refusal? ==> Explained(calls, requests[i], answers[i].outcome)
  }

  lemma {:induction false} ExplainedMore(c: seq<Call>, d: seq<Call>, r: Request, outcome: Outcome)
    requires Explained(c, r, outcome) || Explained(d, r, outcome)
    ensures Explained(c + d, r, outcome)
  {
    hide Refuses;
    if Explained(c, r, outcome) {
      var k :| 0 <= k < |c| && Refuses(c[k], r, outcome);
      assert (c + d)[k] == c[k];
    } else {
      var k :| 0 <= k < |d| && Refuses(d[k], r, outcome);
      assert (c + d)[|c| + k] == d[k];
    }
  }

  lemma {:induction false} TriedConcat(a: seq<Request>, x: seq<Answer>, b: seq<Request>, y: seq<Answer>, c: seq<Call>,
                                       d: seq<Call>)
    requires |a| == |x| && |b| == |y| && TriedAlone(a, x, c) && TriedAlone(b, y, d)
    ensures TriedAlone(a + b, x + y, c + d)
  {
    hide Explained;
    forall i | 0 <= i < |x + y| && (x + y)[i].Refusal? ensures Explained(c + d, (a + b)[i], (x + y)[i].outcome) {
      if i < |a| { assert x[i].Refusal?; } else { assert y[i - |a|].Refusal?; }
      ExplainedMore(c, d, (a + b)[i], (x + y)[i].outcome);
    }
  }

  lemma {:induction false} TriedMore(requests: seq<Request>, answers: seq<Answer>, first: Call, calls: seq<Call>)
    requires |requests| == |answers| && TriedAlone(requests, answers, calls)
    ensures TriedAlone(requests, answers, [first] + calls)
  {
    hide Explained;
    forall i | 0 <= i < |answers| && answers[i].Refusal?
      ensures Explained([first] + calls, requests[i], answers[i].outcome)
    {
      ExplainedMore([first], calls, requests[i], answers[i].outcome);
    }
  }

  lemma {:induction false} NoRefusal(requests: seq<Request>, answers: seq<Answer>, calls: seq<Call>)
    requires |requests| == |answers| && forall i :: 0 <= i < |answers| ==> answers[i].Receipt?
    ensures TriedAlone(requests, answers, calls)
  {
  }

  lemma {:induction false} AloneOrOther(requests: seq<Request>, outcome: Outcome)
    requires outcome == Limit ==> |requests| == 1
    ensures TriedAlone(requests, Refusals(|requests|, outcome), [Call(requests, outcome)])
  {
    var calls := [Call(requests, outcome)];
    forall i | 0 <= i < |requests| ensures Explained(calls, requests[i], outcome) {
      if |requests| == 1 { assert requests == [requests[0]]; }
      assert Refuses(calls[0], requests[i], outcome);
    }
  }

  // ---- who is refused by a read-only table ----

  /** Every request is refused because the table is read-only, or because its rows alone exceed a frame. */
  ghost predicate Locked(s: Schema, requests: seq<Request>, answers: seq<Answer>)
    requires |requests| == |answers|
  {
    forall i :: 0 <= i < |answers| ==>
      answers[i] == Refusal(if FrameSized(s, [requests[i]]) then ReadOnly else Limit)
  }

  lemma {:induction false} LockedConcat(s: Schema, a: seq<Request>, x: seq<Answer>, b: seq<Request>, y: seq<Answer>)
    requires |a| == |x| && |b| == |y| && Locked(s, a, x) && Locked(s, b, y)
    ensures Locked(s, a + b, x + y)
  {
    hide FrameSized;
    forall i | 0 <= i < |x + y|
      ensures (x + y)[i] == Refusal(if FrameSized(s, [(a + b)[i]]) then ReadOnly else Limit)
    {
      if i < |a| { assert (a + b)[i] == a[i]; } else { assert (a + b)[i] == b[i - |a|]; }
    }
  }

  /** If the rows of all requests together fit a frame, those of each do. */
  lemma {:induction false} SizedParts(s: Schema, requests: seq<Request>, i: nat)
    requires FrameSized(s, requests) && i < |requests|
    ensures FrameSized(s, [requests[i]])
  {
    hide Lines;
    var a, r, b := requests[..i], [requests[i]], requests[i + 1..];
    assert requests == a + r + b;
    LinesConcat(a + r, b);
    LinesConcat(a, r);
    RowBytesMonotone(|Lines(r)|, |Lines(requests)|, s.rowWidth);
  }

  lemma {:induction false} AllLocked(s: Schema, requests: seq<Request>, answers: seq<Answer>)
    requires |requests| == |answers|
    requires FrameSized(s, requests) || |requests| == 1
    requires forall i :: 0 <= i < |answers| ==>
               answers[i] == Refusal(if FrameSized(s, requests) then ReadOnly else Limit)
    ensures Locked(s, requests, answers)
  {
    hide FrameSized;
    forall i | 0 <= i < |answers|
      ensures answers[i] == Refusal(if FrameSized(s, [requests[i]]) then ReadOnly else Limit)
    {
      if |requests| == 1 { assert requests == [requests[i]]; }
      if FrameSized(s, requests) { SizedParts(s, requests, i); }
    }
  }

  lemma {:induction false} TimelyClocked(requests: seq<Request>)
    ensures Timely(requests) ==> Clocked(requests)
  {
  }

  // ---- who is served ----

  ghost predicate Quiet(env: nat -> Env) {
    forall n: nat :: Undisturbed(env(n))
  }

  /** Nothing that a call is at the mercy of goes wrong. */
  ghost predicate Undisturbed(e: Env) {
    e.created == Creation(Ok, Ok, 0) && e.reserved == Ok && e.wrote && Quietly(e.fails)
  }

  /** Requests as the writer groups them: in order, from a time not before zero and within one UTC day. */
  predicate Timely(requests: seq<Request>) {
    && requests != [] && RequestsInOrder(requests)
    && requests[0].time >= 0 && requests[0].time / DAY_US == requests[|requests| - 1].time / DAY_US
  }

  /** Every request that a new segment could take alone has its receipt. */
  ghost predicate Served(s: Schema, limit: nat, requests: seq<Request>, answers: seq<Answer>)
    requires |requests| == |answers|
  {
    forall i :: 0 <= i < |requests| && FitsNew(s, limit, Lines([requests[i]])) ==> answers[i].Receipt?
  }

  lemma {:induction false} TimelyTimed(requests: seq<Request>)
    ensures Timely(requests) ==> Timed(requests)
  {
    hide Lines, InTime, RequestsInOrder;
    if Timely(requests) { GroupInTime(requests); }
  }

  lemma {:induction false} TimelySplit(requests: seq<Request>, half: nat)
    requires Timely(requests) && 0 < half < |requests|
    ensures Timely(requests[..half]) && Timely(requests[half..])
  {
    assert requests[0].time <= requests[half - 1].time <= requests[half].time <= requests[|requests| - 1].time;
    SameDay(requests[0].time, requests[half - 1].time, requests[half].time, requests[|requests| - 1].time);
  }

  lemma {:induction false} SameDay(a: int, b: int, c: int, d: int)
    requires 0 <= a <= b <= c <= d && a / DAY_US == d / DAY_US
    ensures a / DAY_US == b / DAY_US == c / DAY_US == d / DAY_US
  {
  }

  lemma {:induction false} ServedConcat(s: Schema, limit: nat, a: seq<Request>, x: seq<Answer>, b: seq<Request>,
                                        y: seq<Answer>)
    requires |a| == |x| && |b| == |y| && Served(s, limit, a, x) && Served(s, limit, b, y)
    ensures Served(s, limit, a + b, x + y)
  {
    hide FitsNew, Lines;
    forall i | 0 <= i < |a + b| && FitsNew(s, limit, Lines([(a + b)[i]])) ensures (x + y)[i].Receipt? {
      if i < |a| { assert (a + b)[i] == a[i]; } else { assert (a + b)[i] == b[i - |a|]; }
    }
  }

  lemma {:induction false} AllServed(s: Schema, limit: nat, requests: seq<Request>, answers: seq<Answer>)
    requires |requests| == |answers| && forall i :: 0 <= i < |answers| ==> answers[i].Receipt?
    ensures Served(s, limit, requests, answers)
  {
    hide FitsNew, Lines;
  }

  /** A request refused alone is one that a new segment could not take. */
  lemma {:induction false} OneServed(s: Schema, limit: nat, requests: seq<Request>, answers: seq<Answer>)
    requires |requests| == |answers| == 1 && !FitsNew(s, limit, Lines(requests))
    ensures Served(s, limit, requests, answers)
  {
    hide FitsNew, Lines;
    assert requests == [requests[0]];
  }

  lemma {:induction false} FewLines(s: Schema, limit: nat, lines: seq<Line>)
    ensures Built(s) && FitsNew(s, limit, lines) ==> |lines| <= U32_MAX
  {
    hide GroupDefs, Definitions.Exported, Replay.Holds, Built;
    if Built(s) {
      WideEnough(s);
      RowsMany(|lines|, s.rowWidth);
    }
  }

  lemma {:induction false} RowsMany(n: nat, width: nat)
    requires width >= 1
    ensures n <= RowBytes(n, width)
  {
    if n > 0 { RowsMany(n - 1, width); }
  }

  /** Granted rows are rows of the requests. */
  lemma {:induction false} GrantedFew(requests: seq<Request>, answers: seq<Answer>)
    requires |requests| == |answers|
    ensures |Granted(requests, answers)| <= |Lines(requests)|
  {
    hide LinesAt;
    if requests != [] {
      var n := |requests| - 1;
      GrantedFew(requests[..n], answers[..n]);
      LinesSplit(requests);
      LinesSplit([requests[n]]);
      assert [requests[n]][..0] == [];
    }
  }

  // ---- one call ----

  /** What recovery finds of a table, whatever its dictionary. */
  ghost function Lean(t: Table): Ledger
    reads t
  {
    Ledger(t.chapters, t.open, 0, t.nextId, t.last, t.time, false, [])
  }

  /** The table's segments are a history that recovery accepts. */
  ghost predicate Orderly(t: Table, id: U64)
    reads t
  {
    Built(t.schema) && Ordered(t.schema, t.fingerprint, t.limit, id, Lean(t))
  }

  /** A table that may be written, a group of the writer, identifiers for new segments and sequence numbers for all
      rows, and nothing going wrong. */
  ghost predicate Ready(t: Table, requests: seq<Request>, env: nat -> Env)
    reads t
  {
    && Quiet(env) && Timely(requests) && !t.readOnly
    && t.nextId + |requests| <= U64_MAX && t.last + |Lines(requests)| <= U64_MAX
  }

  /** What a call of wadb_commit_requests does to the lines committed and the last sequence number. */
  lemma {:induction false} CommitAdds(s: Schema, l: Ledger, l': Ledger, outcome: Outcome, ready: bool, moved: bool,
                                      f: Frame, group: seq<Line>, first: I64, final: I64, fingerprint: U64,
                                      created: Creation, reserved: Reservation, wrote: bool)
    requires (moved || l.chapters != []) && Ended(s, l, l', outcome, ready, moved, f, group, first, created, reserved,
                                                  wrote)
    requires !ready ==> outcome != Ok
    requires ready ==> Carries(f, fingerprint, s.rowWidth, l.last + 1, |group|, first, final)
    ensures Flat(l'.chapters) == Flat(l.chapters) + (if outcome == Ok then group else [])
    ensures l'.last == l.last + (if outcome == Ok then |group| else 0)
    ensures l'.time == if outcome == Ok then final else l.time
  {
    hide Flat, GroupDefs, FrameBytes, Concluded, Fate, DayStart, FrameValid, Appended, Kept, SealFails;
    assert Flat(l.chapters) + [] == Flat(l.chapters);
    if ready {
      AddsOrKeeps(l, moved, f, FrameBytes(f), group, first, GroupDefs(s, if moved then [] else l.defs, group), created,
                  reserved, wrote);
      if outcome == Ok { FlatAppended(l, l'.chapters, moved, f, group, first, created.skipped); }
      else { FlatKept(l, l'.chapters, first, created.skipped); }
    }
  }

  /** Undisturbed, a built frame is committed, and one more identifier at most is used. */
  lemma {:induction false} CommitSucceeds(s: Schema, l: Ledger, l': Ledger, outcome: Outcome, ready: bool, moved: bool,
                                          f: Frame, group: seq<Line>, first: I64, created: Creation,
                                          reserved: Reservation, wrote: bool)
    requires (moved || l.chapters != []) && Ended(s, l, l', outcome, ready, moved, f, group, first, created, reserved,
                                                  wrote)
    requires created == Creation(Ok, Ok, 0) && reserved == Ok && wrote && l.next < U64_MAX
    ensures ready ==> outcome == Ok && l'.next <= l.next + 1 && l'.readOnly == l.readOnly
    ensures !ready ==> l' == l
  {
    hide GroupDefs, FrameBytes, DayStart, Extended;
  }

  lemma {:induction false} CarriesBounds(f: Frame, fingerprint: U64, width: nat, first: nat, rows: nat, minTime: I64,
                                         maxTime: I64)
    requires Carries(f, fingerprint, width, first, rows, minTime, maxTime)
    ensures minTime >= 0 && rows > 0 && first + rows - 1 <= U64_MAX
  {
    hide ContentValid, RowBytes;
  }

  /** One call of wadb_commit_requests, with what commit_group needs to know of it. */
  method CommitOnce(t: Table, requests: seq<Request>, e: Env, ghost env: nat -> Env, ghost id: U64)
    returns (outcome: Outcome)
    requires t.Valid() && requests != [] && forall i :: 0 <= i < |requests| ==> Prepared(t.schema, requests[i])
    requires Quiet(env) ==> Undisturbed(e)
    modifies t.Repr()
    ensures t.Valid() && fresh(t.Repr() - old(t.Repr()))
    ensures Flat(t.chapters) == Flat(old(t.chapters)) + (if outcome == Ok then Lines(requests) else [])
    ensures t.last == old(t.last) + (if outcome == Ok then |Lines(requests)| else 0)
    ensures t.time == if outcome == Ok then FinalTime(requests) else old(t.time)
    ensures old(Ready(t, requests, env)) ==> !t.readOnly && t.nextId <= old(t.nextId) + (if outcome == Ok then 1 else 0)
    ensures old(Ready(t, requests, env)) ==>
              outcome == Ok || (outcome == Limit && !FitsNew(t.schema, t.limit, Lines(requests)))
    ensures old(Orderly(t, id) && (FirstTime(requests) >= t.time || FirstTime(requests) < 0)) ==> Orderly(t, id)
    ensures outcome == Ok ==> FirstTime(requests) >= 0
    ensures old(t.readOnly) ==> t.readOnly && outcome != Ok
    ensures old(t.readOnly) && Timely(requests) ==>
              outcome == if FrameSized(t.schema, requests) then ReadOnly else Limit
  {
    hide Flat, Lines, Prepared, FrameValid, InTime, FitsNew, Timely, Quiet, AllFaithful, Built, Room, Ended, Carries,
         Ordered, GroupDefs, Dictionaries.Dictionary.Valid, Dictionaries.Dictionary.Tight;
    ghost var l, group, first, final := t.Book(), Lines(requests), FirstTime(requests), FinalTime(requests);
    ghost var steady := Orderly(t, id) && (first >= t.time || first < 0);
    TimelyTimed(requests);
    TimelyClocked(requests);
    FewLines(t.schema, t.limit, group);
    ghost var ready, moved, f;
    outcome, ready, moved, f := t.CommitRequests(requests, e.created, e.reserved, e.wrote, e.fails);
    ghost var l' := t.Book();
    CommitAdds(t.schema, l, l', outcome, ready, moved, f, group, first, final, t.fingerprint, e.created, e.reserved,
               e.wrote);
    if Quiet(env) && l.next < U64_MAX {
      CommitSucceeds(t.schema, l, l', outcome, ready, moved, f, group, first, e.created, e.reserved, e.wrote);
    }
    if ready { CarriesBounds(f, t.fingerprint, t.schema.rowWidth, l.last + 1, |group|, first, final); }
    if steady {
      OrderedSame(t.schema, t.fingerprint, t.limit, id, old(Lean(t)), l);
      CommitOrdered(t.schema, t.fingerprint, t.limit, t.target, id, l, l', outcome, ready, moved, f, group, first,
                    final, e.created, e.reserved, e.wrote);
      OrderedSame(t.schema, t.fingerprint, t.limit, id, l', Lean(t));
    }
  }

  /** commit_group: every request is answered once; the rows committed are those of the granted requests, in the order
      of the requests, and their sequence numbers tile what the table gained. If nothing goes wrong, only requests that
      no new segment could take alone are refused. The segments stay a history that recovery accepts, if times do not go
      back. */
  method CommitGroup(t: Table, requests: seq<Request>, env: nat -> Env, call: nat, ghost id: U64)
    returns (answers: seq<Answer>, next: nat, ghost calls: seq<Call>)
    requires t.Valid() && requests != [] && forall i :: 0 <= i < |requests| ==> Prepared(t.schema, requests[i])
    modifies t.Repr()
    ensures t.Valid() && fresh(t.Repr() - old(t.Repr()))
    ensures |answers| == |requests| && Tiles(requests, answers, old(t.last))
    ensures t.last == old(t.last) + |Granted(requests, answers)|
    ensures Flat(t.chapters) == Flat(old(t.chapters)) + Granted(requests, answers)
    ensures TriedAlone(requests, answers, calls) && next == call + |calls|
    ensures old(Ready(t, requests, env)) ==>
              !t.readOnly && t.nextId <= old(t.nextId) + |requests| && Served(t.schema, t.limit, requests, answers)
    ensures old(Orderly(t, id) && Onward(t, requests)) ==> Orderly(t, id)
    ensures old(Onward(t, requests)) ==> Forward(old(t.time), t.time, requests) && NoneLater(requests, answers, t.time)
    ensures |requests| == 1 && FirstTime(requests) < 0 ==> !answers[0].Receipt?
    ensures old(t.readOnly) ==> t.readOnly
    ensures old(t.readOnly) && Timely(requests) ==> Locked(t.schema, requests, answers)
    decreases |requests|, 1
  {
    hide TriedAlone, Granted, Flat, Lines, Tiles, Prepared, Table.Valid, Served, FitsNew, Timely, Quiet, Ordered,
         Built, RequestsInOrder, NoneLater, Locked, FrameSized;
    var e := env(call);
    ghost var ready, locked := Ready(t, requests, env), t.readOnly && Timely(requests);
    var last := t.last;
    if Quiet(env) { QuietAt(env, call); }
    OrderEnds(requests, Refusals(|requests|, Limit));
    var outcome := CommitOnce(t, requests, e, env, id);
    next := call + 1;
    calls := [Call(requests, outcome)];
    if outcome == Ok {
      answers := FillReceipts(requests, last);
      OrderEnds(requests, answers);
      NoRefusal(requests, answers, calls);
      AllGranted(requests, answers);
      AllServed(t.schema, t.limit, requests, answers);
      return;
    }
    if outcome == Limit && |requests| > 1 {
      ghost var more;
      answers, next, more := CommitHalves(t, requests, env, next, id);
      TriedMore(requests, answers, calls[0], more);
      calls := calls + more;
      return;
    }
    answers := Refusals(|requests|, outcome);
    AloneOrOther(requests, outcome);
    NoneGranted(requests, answers);
    RefusalsTile(requests, answers, last);
    NoneGrantedLate(requests, answers, t.time);
    if ready { OneServed(t.schema, t.limit, requests, answers); }
    if locked { AllLocked(t.schema, requests, answers); }
  }

  /** Both halves of a group that was too large. */
  method CommitHalves(t: Table, requests: seq<Request>, env: nat -> Env, call: nat, ghost id: U64)
    returns (answers: seq<Answer>, next: nat, ghost calls: seq<Call>)
    requires t.Valid() && |requests| > 1 && forall i :: 0 <= i < |requests| ==> Prepared(t.schema, requests[i])
    modifies t.Repr()
    ensures t.Valid() && fresh(t.Repr() - old(t.Repr()))
    ensures |answers| == |requests| && Tiles(requests, answers, old(t.last))
    ensures t.last == old(t.last) + |Granted(requests, answers)|
    ensures Flat(t.chapters) == Flat(old(t.chapters)) + Granted(requests, answers)
    ensures TriedAlone(requests, answers, calls) && next == call + |calls|
    ensures old(Ready(t, requests, env)) ==>
              !t.readOnly && t.nextId <= old(t.nextId) + |requests| && Served(t.schema, t.limit, requests, answers)
    ensures old(Orderly(t, id) && Onward(t, requests)) ==> Orderly(t, id)
    ensures old(Onward(t, requests)) ==> Forward(old(t.time), t.time, requests) && NoneLater(requests, answers, t.time)
    ensures |requests| == 1 && FirstTime(requests) < 0 ==> !answers[0].Receipt?
    ensures old(t.readOnly) ==> t.readOnly
    ensures old(t.readOnly) && Timely(requests) ==> Locked(t.schema, requests, answers)
    decreases |requests|, 0
  {
    hide TriedAlone, Granted, Flat, Lines, Tiles, Prepared, Table.Valid, Served, FitsNew, Timely, Quiet, Ordered,
         Built, RequestsInOrder, NoneLater, Locked, FrameSized;
    var half := |requests| / 2;
    ghost var a, b := requests[..half], requests[half..];
    ghost var before, last, ready := t.chapters, t.last, Ready(t, requests, env);
    ghost var locked := t.readOnly && Timely(requests);
    if ready || locked {
      TimelySplit(requests, half);
      LinesConcat(a, b);
    }
    OrderSplit(requests, half);
    assert requests == a + b;
    var x, y;
    ghost var c, d;
    ghost var onward := Onward(t, requests);
    x, next, c := CommitGroup(t, requests[..half], env, call, id);
    GrantedFew(a, x);
    ghost var between := t.time;
    y, next, d := CommitGroup(t, requests[half..], env, next, id);
    TriedConcat(a, x, b, y, c, d);
    calls := c + d;
    TilesConcat(a, x, b, y, last);
    GrantedConcat(a, x, b, y);
    if ready { ServedConcat(t.schema, t.limit, a, x, b, y); }
    if locked { LockedConcat(t.schema, a, x, b, y); }
    if onward { NoneLaterConcat(a, x, b, y, between, t.time); }
    answers := x + y;
    assert Flat(t.chapters) == Flat(before) + (Granted(a, x) + Granted(b, y));
  }

  /** Requests in order, none before the table's last time; or one request that the clock gave no time. */
  predicate Onward(t: Table, requests: seq<Request>)
    reads t
  {
    RequestsInOrder(requests) && requests != [] && (FirstTime(requests) >= t.time
                                                    || (FirstTime(requests) < 0 && |requests| == 1))
  }

  /** The last time of a table stays or moves on, to that of the last request at most. */
  predicate Forward(was: int, time: int, requests: seq<Request>) { time == was || was <= time <= FinalTime(requests) }

  /** No granted request is later than a time. */
  ghost predicate NoneLater(requests: seq<Request>, answers: seq<Answer>, time: int)
    requires |requests| == |answers|
  {
    forall i :: 0 <= i < |answers| && answers[i].Receipt? ==> requests[i].time <= time
  }

  lemma {:induction false} NoneLaterConcat(a: seq<Request>, x: seq<Answer>, b: seq<Request>, y: seq<Answer>,
                                           before: int, time: int)
    requires |a| == |x| && |b| == |y| && NoneLater(a, x, before) && NoneLater(b, y, time) && before <= time
    ensures NoneLater(a + b, x + y, time)
  {
  }

  lemma {:induction false} OrderEnds(requests: seq<Request>, answers: seq<Answer>)
    requires requests != [] && |answers| == |requests|
    ensures RequestsInOrder(requests) ==>
              FirstTime(requests) <= FinalTime(requests) && NoneLater(requests, answers, FinalTime(requests))
  {
  }

  lemma {:induction false} NoneGrantedLate(requests: seq<Request>, answers: seq<Answer>, time: int)
    requires |requests| == |answers| && forall i :: 0 <= i < |answers| ==> !answers[i].Receipt?
    ensures NoneLater(requests, answers, time)
  {
  }

  lemma {:induction false} OrderSplit(requests: seq<Request>, half: nat)
    requires 0 < half < |requests|
    ensures RequestsInOrder(requests) ==>
              && RequestsInOrder(requests[..half]) && RequestsInOrder(requests[half..])
              && FinalTime(requests[..half]) <= FirstTime(requests[half..])
    ensures FirstTime(requests[..half]) == FirstTime(requests) && FinalTime(requests[half..]) == FinalTime(requests)
  {
  }

  lemma {:induction false} QuietAt(env: nat -> Env, n: nat)
    requires Quiet(env)
    ensures Undisturbed(env(n))
  {
  }

  // ---- groups that the writer takes are in time ----

  predicate RequestsInOrder(requests: seq<Request>) {
    && (forall i :: 0 <= i < |requests| ==> requests[i].values != [])
    && forall i, j :: 0 <= i <= j < |requests| ==> requests[i].time <= requests[j].time
  }

  /** Lines whose times never go back, from one time to another. */
  predicate Between(lines: seq<Line>, from: int, to: int) {
    && lines != [] && lines[0].time == from && lines[|lines| - 1].time == to
    && forall i, j :: 0 <= i <= j < |lines| ==> lines[i].time <= lines[j].time
  }

  lemma {:induction false} BetweenConcat(a: seq<Line>, b: seq<Line>, from: int, x: int, y: int, to: int)
    requires Between(a, from, x) && Between(b, y, to) && x <= y
    ensures Between(a + b, from, to)
  {
    var all := a + b;
    forall i, j | 0 <= i <= j < |all| ensures all[i].time <= all[j].time {
      if j < |a| {
        assert all[i] == a[i] && all[j] == a[j];
      } else if i >= |a| {
        assert all[i] == b[i - |a|] && all[j] == b[j - |a|];
      } else {
        assert all[i] == a[i] && all[j] == b[j - |a|];
        assert a[i].time <= a[|a| - 1].time && b[0].time <= b[j - |a|].time;
      }
    }
  }

  lemma {:induction false} RequestBetween(r: Request)
    requires r.values != []
    ensures Between(LinesAt(r.values, r.time, |r.values|), r.time, r.time)
  {
  }

  lemma {:induction false} LinesSplit(requests: seq<Request>)
    requires requests != []
    ensures var n := |requests| - 1;
            Lines(requests) ==
              Lines(requests[..n]) + LinesAt(requests[n].values, requests[n].time, |requests[n].values|)
  {
    hide LinesAt;
  }

  /** The lines of requests in order are in order, from the first request's time to the last one's. */
  lemma {:induction false} LinesOrdered(requests: seq<Request>)
    requires requests != [] && RequestsInOrder(requests)
    ensures Between(Lines(requests), requests[0].time, requests[|requests| - 1].time)
  {
    hide Lines, LinesAt, Between;
    var n := |requests| - 1;
    var r, front := requests[n], requests[..n];
    LinesSplit(requests);
    RequestBetween(r);
    NoRequests();
    if n == 0 {
      assert front == [];
      assert [] + LinesAt(r.values, r.time, |r.values|) == LinesAt(r.values, r.time, |r.values|);
    } else {
      LinesOrdered(front);
      BetweenConcat(Lines(front), LinesAt(r.values, r.time, |r.values|), requests[0].time, requests[n - 1].time,
                    r.time, r.time);
    }
  }

  /** Requests in order, from a time not before zero and within one UTC day, are never refused as malformed by the frame
      encoder. */
  lemma {:induction false} GroupInTime(requests: seq<Request>)
    requires requests != [] && RequestsInOrder(requests)
    requires requests[0].time >= 0 && requests[0].time / DAY_US == requests[|requests| - 1].time / DAY_US
    ensures InTime(Lines(requests), requests[0].time, requests[|requests| - 1].time)
  {
    hide Lines;
    LinesOrdered(requests);
  }
}
