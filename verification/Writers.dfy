/** The ingestion queue (src/ingest/writer.c:23-68 and 97-157). Each method is one region
    under the database mutex; producers and the writer thread may call them in any
    order that the preconditions allow. */
module Writers {
  import opened Bytes
  import opened Frames
  import opened Commit

  /** A request on its way: its number, its table, the bytes charged for it, and its rows. */
  datatype Pending = Pending(id: nat, table: nat, charge: nat, request: Request)

  const GROUP_MOST: nat := 64
  const GROUP_BYTES: nat := MAX_FRAME_BYTES - 96

  function Size(p: Pending): nat { |p.request.bytes| }

  function Charges(ps: seq<Pending>): nat {
    if ps == [] then 0 else Charges(ps[..|ps| - 1]) + ps[|ps| - 1].charge
  }

  function Sizes(ps: seq<Pending>): nat {
    if ps == [] then 0 else Sizes(ps[..|ps| - 1]) + Size(ps[|ps| - 1])
  }

  function Ids(ps: seq<Pending>): (r: seq<nat>)
    ensures |r| == |ps| && forall i :: 0 <= i < |r| ==> r[i] == ps[i].id
  {
    seq(|ps|, i requires 0 <= i < |ps| => ps[i].id)
  }

  lemma {:induction false} SumsConcat(a: seq<Pending>, b: seq<Pending>)
    ensures Charges(a + b) == Charges(a) + Charges(b) && Sizes(a + b) == Sizes(a) + Sizes(b)
    ensures multiset(Ids(a + b)) == multiset(Ids(a)) + multiset(Ids(b))
    decreases |b|
  {
    if b == [] {
      assert a + b == a && Ids(a + b) == Ids(a);
    } else {
      assert (a + b)[..|a + b| - 1] == a + b[..|b| - 1];
      SumsConcat(a, b[..|b| - 1]);
      assert Ids(a + b) == Ids(a) + Ids(b);
    }
  }

  lemma {:induction false} SumsOne(p: Pending)
    ensures Charges([p]) == p.charge && Sizes([p]) == Size(p) && multiset(Ids([p])) == multiset{p.id}
  {
    assert [p][..0] == [];
    assert Charges([]) == 0 && Sizes([]) == 0;
    assert Ids([p]) == [p.id];
  }

  function Without(ps: seq<Pending>, i: nat): (r: seq<Pending>)
    requires i < |ps|
    ensures |r| == |ps| - 1
  {
    ps[..i] + ps[i + 1..]
  }

  lemma {:induction false} SumsWithout(ps: seq<Pending>, i: nat)
    requires i < |ps|
    ensures Charges(ps) == Charges(Without(ps, i)) + ps[i].charge
    ensures multiset(Ids(ps)) == multiset(Ids(Without(ps, i))) + multiset{ps[i].id}
  {
    hide Charges, Sizes, Ids;
    var a, b := ps[..i], ps[i + 1..];
    assert ps == a + [ps[i]] + b;
    SumsConcat(a + [ps[i]], b);
    SumsConcat(a, [ps[i]]);
    SumsOne(ps[i]);
    SumsConcat(a, b);
  }

  /** All requests under way or done. */
  ghost function Union(a: seq<nat>, b: seq<nat>, c: seq<nat>, d: multiset<nat>): multiset<nat> {
    multiset(a) + multiset(b) + multiset(c) + d
  }

  lemma {:induction false} UnionAdmits(a: seq<nat>, a': seq<nat>, b: seq<nat>, c: seq<nat>, d: multiset<nat>, x: nat)
    requires multiset(a') == multiset(a) + multiset{x}
    ensures Union(a', b, c, d) == Union(a, b, c, d) + multiset{x}
  {
    hide Ids;
  }

  lemma {:induction false} UnionAbandons(a: seq<nat>, a': seq<nat>, b: seq<nat>, c: seq<nat>, d: multiset<nat>, x: nat)
    requires multiset(a) == multiset(a') + multiset{x}
    ensures Union(a', b, c, d + multiset{x}) == Union(a, b, c, d)
  {
    hide Ids;
  }

  lemma {:induction false} UnionEnqueues(a: seq<nat>, a': seq<nat>, b: seq<nat>, b': seq<nat>, c: seq<nat>,
                                         d: multiset<nat>, x: nat)
    requires multiset(a) == multiset(a') + multiset{x} && multiset(b') == multiset(b) + multiset{x}
    ensures Union(a', b', c, d) == Union(a, b, c, d)
  {
    hide Ids;
  }

  lemma {:induction false} UnionTakes(a: seq<nat>, b: seq<nat>, b': seq<nat>, c: seq<nat>, d: multiset<nat>)
    requires multiset(b) == multiset(c) + multiset(b')
    ensures Union(a, b', c, d) == Union(a, b, [], d)
  {
    hide Ids;
  }

  lemma {:induction false} UnionCompletes(a: seq<nat>, b: seq<nat>, c: seq<nat>, d: multiset<nat>)
    ensures Union(a, b, [], d + multiset(c)) == Union(a, b, c, d)
  {
    hide Ids;
  }

  // ---- times of a group ----

  /** Times that a group gets: never before the table's last time nor before each other, and in one UTC day; a negative
      clock reading makes a group of its own, which the commit refuses. */
  ghost predicate TimesOk(group: seq<Pending>, last: int) {
    && (forall i, j :: 0 <= i < j < |group| ==> group[i].request.time <= group[j].request.time)
    && (forall i :: 0 <= i < |group| && group[i].request.time < 0 ==> |group| == 1)
    && (forall i :: 0 <= i < |group| && group[i].request.time >= 0 ==>
          group[i].request.time >= last && group[i].request.time / DAY_US == group[0].request.time / DAY_US)
  }

  /** The same requests but for the times they were given. */
  ghost predicate Timed(group: seq<Pending>, queue: seq<Pending>) {
    |group| <= |queue| && forall i :: 0 <= i < |group| ==>
      group[i] == queue[i].(request := queue[i].request.(time := group[i].request.time))
  }

  lemma {:induction false} TimedSums(group: seq<Pending>, queue: seq<Pending>, n: nat)
    requires Timed(group, queue) && n <= |group|
    ensures Charges(group[..n]) == Charges(queue[..n]) && Sizes(group[..n]) == Sizes(queue[..n])
            && Ids(group[..n]) == Ids(queue[..n])
    decreases n
  {
    if n > 0 {
      TimedSums(group, queue, n - 1);
      assert group[..n][..n - 1] == group[..n - 1] && queue[..n][..n - 1] == queue[..n - 1];
      assert group[n - 1].charge == queue[n - 1].charge && Size(group[n - 1]) == Size(queue[n - 1]);
    }
  }

  lemma {:induction false} TakenSums(group: seq<Pending>, queue: seq<Pending>)
    requires Timed(group, queue)
    ensures |group| <= |queue| && Charges(queue) == Charges(group) + Charges(queue[|group|..])
            && Sizes(queue) == Sizes(group) + Sizes(queue[|group|..])
    ensures multiset(Ids(queue)) == multiset(Ids(group)) + multiset(Ids(queue[|group|..]))
  {
    hide Charges, Sizes, Ids;
    var n := |group|;
    assert queue == queue[..n] + queue[n..] && group[..n] == group;
    SumsConcat(queue[..n], queue[n..]);
    TimedSums(group, queue, n);
  }

  datatype Admission = Admitted | Backpressure | Cancelled

  class Queue {
    const limit: nat
    const target: nat
    var preparing: seq<Pending>
    var queue: seq<Pending>
    var committing: seq<Pending>
    var queueBytes: nat
    var readyBytes: nat
    var stopping: bool
    ghost var done: multiset<nat>        // requests that were answered
    ghost var admitted: multiset<nat>    // requests that got past the byte limit

    /** The bytes in use are the charges of all requests under way, within the limit; and every admitted request is in
        exactly one place. */
    ghost predicate Valid()
      reads this
    {
      && queueBytes == Charges(preparing) + Charges(queue) + Charges(committing) && queueBytes <= limit
      && readyBytes == Sizes(queue)
      && admitted == Union(Ids(preparing), Ids(queue), Ids(committing), done)
      && (forall i :: 0 <= i < |preparing| ==> Size(preparing[i]) <= GROUP_BYTES)
      && (forall i :: 0 <= i < |queue| ==> Size(queue[i]) <= GROUP_BYTES)
    }

    constructor (limit: nat, target: nat)
      ensures Valid() && this.limit == limit && this.target == target && admitted == multiset{} && !stopping
    {
      this.limit, this.target := limit, target;
      preparing, queue, committing, queueBytes, readyBytes := [], [], [], 0, 0;
      stopping, done, admitted := false, multiset{}, multiset{};
    }

    /** wadb_append_batch up to the reservation. */
    method Admit(p: Pending) returns (r: Admission)
      requires Valid() && Size(p) <= GROUP_BYTES
      modifies this
      ensures Valid() && stopping == old(stopping)
      ensures r == if stopping then Cancelled
                   else if old(queueBytes) + p.charge <= limit then Admitted
                   else Backpressure
      ensures r == Admitted ==> preparing == old(preparing) + [p] && admitted == old(admitted) + multiset{p.id}
      ensures r != Admitted ==> preparing == old(preparing) && admitted == old(admitted)
      ensures queue == old(queue) && committing == old(committing) && done == old(done)
    {
      hide Charges, Sizes, Ids, Union;
      if stopping { return Cancelled; }
      if p.charge > limit - queueBytes { return Backpressure; }
      SumsConcat(preparing, [p]);
      SumsOne(p);
      UnionAdmits(Ids(preparing), Ids(preparing + [p]), Ids(queue), Ids(committing), done, p.id);
      queueBytes := queueBytes + p.charge;
      preparing := preparing + [p];
      admitted := admitted + multiset{p.id};
      r := Admitted;
    }

    /** wadb_writer_stop: from now on nothing is admitted; what is under way goes on. */
    method Stop()
      requires Valid()
      modifies this`stopping
      ensures Valid() && stopping
    {
      stopping := true;
    }

    /** A producer that could not prepare its rows gives its reservation back. */
    method Abandon(i: nat)
      requires Valid() && i < |preparing|
      modifies this
      ensures Valid() && preparing == Without(old(preparing), i) && queue == old(queue) && committing == old(committing)
      ensures done == old(done) + multiset{old(preparing)[i].id} && admitted == old(admitted)
    {
      hide Charges, Sizes, Ids, Union;
      SumsWithout(preparing, i);
      UnionAbandons(Ids(preparing), Ids(Without(preparing, i)), Ids(queue), Ids(committing), done, preparing[i].id);
      queueBytes := queueBytes - preparing[i].charge;
      done := done + multiset{preparing[i].id};
      preparing := Without(preparing, i);
    }

    /** A producer whose rows are ready puts its request at the tail. */
    method Enqueue(i: nat)
      requires Valid() && i < |preparing|
      modifies this
      ensures Valid() && preparing == Without(old(preparing), i) && queue == old(queue) + [old(preparing)[i]]
              && committing == old(committing)
      ensures done == old(done) && admitted == old(admitted)
    {
      hide Charges, Sizes, Ids, Union;
      SumsWithout(preparing, i);
      SumsConcat(queue, [preparing[i]]);
      SumsOne(preparing[i]);
      UnionEnqueues(Ids(preparing), Ids(Without(preparing, i)), Ids(queue), Ids(queue + [preparing[i]]),
                    Ids(committing), done, preparing[i].id);
      readyBytes := readyBytes + Size(preparing[i]);
      queue := queue + [preparing[i]];
      preparing := Without(preparing, i);
    }

    /** After the commit: every request of the group is answered and its charge given back. */
    method Complete()
      requires Valid()
      modifies this
      ensures Valid() && committing == [] && queue == old(queue) && preparing == old(preparing)
      ensures done == old(done) + multiset(Ids(old(committing))) && admitted == old(admitted)
    {
      hide Charges, Sizes, Ids, Union;
      var bytes := GiveBack(committing, queueBytes);
      Nothing();
      UnionCompletes(Ids(preparing), Ids(queue), Ids(committing), done);
      queueBytes := bytes;
      done := done + multiset(Ids(committing));
      committing := [];
    }

    /** The loop that takes a group off the queue: same table, at most 64 requests, within a frame, and one clock
        reading each. */
    method Take(clock: nat -> I64, last: nat)
      requires Valid() && queue != [] && committing == [] && last <= I64_MAX
      modifies this
      ensures Valid() && preparing == old(preparing) && done == old(done) && admitted == old(admitted)
      ensures 0 < |committing| <= GROUP_MOST && |committing| <= |old(queue)| && queue == old(queue)[|committing|..]
      ensures Timed(committing, old(queue)) && TimesOk(committing, last)
              && (|committing| > 1 ==> Sizes(committing) <= GROUP_BYTES)
      ensures forall i :: 0 <= i < |committing| ==> committing[i].table == old(queue)[0].table
      ensures Clocked(committing, clock, last) && (queue != [] ==> Stops(old(queue), committing, clock, target))
    {
      hide Charges, Sizes, Ids, TimesOk, Timed, Size, Clocked, Stops, Union;
      var group, bytes := TakeGroup(queue, clock, last, target);
      TakenSums(group, queue);
      Nothing();
      UnionTakes(Ids(preparing), Ids(queue), Ids(queue[|group|..]), Ids(group), done);
      readyBytes := readyBytes - bytes;
      queue := queue[|group|..];
      committing := group;
    }
  }

  /** The charges of a group, subtracted one by one. */
  method GiveBack(group: seq<Pending>, bytes: nat) returns (left: nat)
    requires Charges(group) <= bytes
    ensures left == bytes - Charges(group)
  {
    hide Sizes, Ids;
    left := bytes;
    var i := 0;
    Nothing();
    assert group[0..] == group;
    while i < |group|
      invariant 0 <= i <= |group| && left == bytes - Charges(group) + Charges(group[i..])
    {
      assert group[i..] == [group[i]] + group[i + 1..];
      SumsConcat([group[i]], group[i + 1..]);
      SumsOne(group[i]);
      left := left - group[i].charge;
      i := i + 1;
    }
    assert group[i..] == [];
  }

  /** Each request gets its own clock reading, or the time before it when the clock has gone back. */
  ghost predicate Clocked(group: seq<Pending>, clock: nat -> I64, last: int) {
    forall i :: 0 <= i < |group| ==> group[i].request.time == NotBefore(clock(i), Earlier(group, i, last))
  }

  function Earlier(group: seq<Pending>, i: nat, last: int): int
    requires i <= |group|
  {
    if i == 0 then last else group[i - 1].request.time
  }

  function NotBefore(now: int, previous: int): int { if 0 <= now < previous then previous else now }

  /** Why the request behind the group was not taken with it: another table, a full group, no room in the frame, or
      another day. */
  ghost predicate Stops(queue: seq<Pending>, group: seq<Pending>, clock: nat -> I64, target: nat)
    requires 0 < |group| < |queue|
  {
    var n := |group|;
    var r, previous := queue[n], group[n - 1].request.time;
    || previous < 0 || n == GROUP_MOST || r.table != queue[0].table
    || Sizes(group) >= target || Size(r) > GROUP_BYTES - Sizes(group)
    || NotBefore(clock(n), previous) < 0 || NotBefore(clock(n), previous) / DAY_US != group[0].request.time / DAY_US
  }

  method TakeGroup(queue: seq<Pending>, clock: nat -> I64, last: nat, target: nat)
    returns (group: seq<Pending>, bytes: nat)
    requires queue != [] && last <= I64_MAX && forall i :: 0 <= i < |queue| ==> Size(queue[i]) <= GROUP_BYTES
    ensures 0 < |group| <= GROUP_MOST && Timed(group, queue) && TimesOk(group, last)
    ensures bytes == Sizes(group) && (|group| > 1 ==> bytes <= GROUP_BYTES)
    ensures forall i :: 0 <= i < |group| ==> group[i].table == queue[0].table
    ensures Clocked(group, clock, last) && (|group| < |queue| ==> Stops(queue, group, clock, target))
  {
    hide Sizes, Timed, TimesOk, Clocked;
    group, bytes := [], 0;
    var previous: I64, day := last, -1;
    Nothing();
    NoGroup(queue, clock, last);
    while |group| < |queue| && queue[|group|].table == queue[0].table && |group| < GROUP_MOST
      invariant |group| <= |queue| && |group| <= GROUP_MOST && Timed(group, queue) && TimesOk(group, last)
                && bytes == Sizes(group) <= GROUP_BYTES
      invariant forall i :: 0 <= i < |group| ==> group[i].table == queue[0].table
      invariant (group == [] ==> bytes == 0 && previous == last) && previous >= last
      invariant Clocked(group, clock, last)
      invariant group != [] ==>
                  previous == group[|group| - 1].request.time >= 0 && day == group[0].request.time / DAY_US
      invariant forall i :: 0 <= i < |group| ==> group[i].request.time >= 0
      decreases |queue| - |group|
    {
      var r := queue[|group|];
      if group != [] && (bytes >= target || Size(r) > GROUP_BYTES - bytes) { break; }
      var now := clock(|group|);
      if now >= 0 && now < previous { now := previous; }
      if group != [] && (now < 0 || now / DAY_US != day) { break; }
      var timed := r.(request := r.request.(time := now));
      SumsConcat2(group, timed);
      TimedNext(group, queue, timed);
      ClockedNext(group, timed, clock, last);
      GroupTimes(group, timed, last);
      group := group + [timed];
      bytes := bytes + Size(r);
      if now < 0 { break; }
      previous := now;
      day := now / DAY_US;
    }
  }

  lemma {:induction false} NoGroup(queue: seq<Pending>, clock: nat -> I64, last: int)
    ensures Timed([], queue) && TimesOk([], last) && Clocked([], clock, last)
  {
  }

  lemma {:induction false} TimedNext(group: seq<Pending>, queue: seq<Pending>, p: Pending)
    requires Timed(group, queue) && |group| < |queue| && p ==
               queue[|group|].(request := queue[|group|].request.(time := p.request.time))
    ensures Timed(group + [p], queue)
  {
  }

  lemma {:induction false} ClockedNext(group: seq<Pending>, p: Pending, clock: nat -> I64, last: int)
    requires Clocked(group, clock, last)
    requires p.request.time == NotBefore(clock(|group|), Earlier(group, |group|, last))
    ensures Clocked(group + [p], clock, last)
  {
    hide Earlier, NotBefore;
    var more := group + [p];
    forall i | 0 <= i < |more| ensures more[i].request.time == NotBefore(clock(i), Earlier(more, i, last)) {
      EarlierSame(group, p, i, last);
      if i < |group| { assert more[i] == group[i]; }
    }
  }

  lemma {:induction false} EarlierSame(group: seq<Pending>, p: Pending, i: nat, last: int)
    requires i <= |group|
    ensures Earlier(group + [p], i, last) == Earlier(group, i, last)
  {
  }

  lemma {:induction false} SumsConcat2(group: seq<Pending>, p: Pending)
    ensures Sizes(group + [p]) == Sizes(group) + Size(p)
  {
    hide Charges, Ids;
    SumsConcat(group, [p]);
    SumsOne(p);
  }

  /** One more request keeps the times of a group in order and in the day. */
  lemma {:induction false} GroupTimes(group: seq<Pending>, p: Pending, last: int)
    requires TimesOk(group, last) && (p.request.time >= 0 ==> p.request.time >= last)
             && (p.request.time < 0 ==> group == [])
    requires group != [] ==>
               && 0 <= group[|group| - 1].request.time <= p.request.time
               && p.request.time / DAY_US == group[0].request.time / DAY_US
    requires forall i :: 0 <= i < |group| ==> group[i].request.time >= 0
    ensures TimesOk(group + [p], last)
  {
  }

  lemma {:induction false} Nothing()
    ensures Charges([]) == 0 && Sizes([]) == 0 && Ids([]) == []
  {
  }
}
