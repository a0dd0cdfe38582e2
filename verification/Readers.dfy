/** The readers of a database and the memory of their snapshots (src/query/snapshot.c:5-61, and the charge for a
    cursor in src/query/cursor.c:45-56). Structure sizes are those of a 64-bit platform. */
module Readers {
  import opened Items
  import opened Scans
  import opened Snapshots
  import opened Symbols

  const SNAPSHOT_BYTES: nat := 64
  const META_BYTES: nat := 64
  const INDEX_ENTRY_BYTES: nat := 56

  datatype Answer = Taken(parts: seq<Part>, charge: nat) | Backpressure | NoMemory

  /** The memory of a snapshot of so many segments that copies so many index entries. */
  function Charge(segments: nat, entries: nat): nat {
    SNAPSHOT_BYTES + segments * META_BYTES + entries * INDEX_ENTRY_BYTES
  }

  /** The entries copied: those of the active segment's index, if the stretch that is copied ends with that segment. */
  function Copied(readable: seq<Part>, active: bool, first: nat, end: nat): nat {
    if active && first < end == |readable| then |readable[end - 1].batches| else 0
  }

  /** An answer for a stretch of the readable segments: refused by what the readers already hold, or charged for itself,
      its segments and the entries it copies. */
  ghost predicate Answered(r: Answer, o: Options, readable: seq<Part>, active: bool, first: nat, end: nat,
                           full: bool, left: nat, oom: bool)
  {
    && first <= end <= |readable| && Chosen(o, readable, readable[first..end], first, end)
    && Filter(o, AllItems(readable[first..end])) == Filter(o, AllItems(readable))
    && var entries := if active && first < end == |readable| then |readable[end - 1].batches| else 0;
       var charge := 64 + 64 * (end - first) + 56 * entries;
       r == if full || charge > left then Backpressure
            else if oom && first < end then NoMemory
            else Taken(readable[first..end], charge)
  }

  lemma {:induction false} SumWithout(xs: seq<nat>, i: nat)
    requires i < |xs|
    ensures Sum(xs) == Sum(xs[..i] + xs[i + 1..]) + xs[i]
  {
    var n := |xs| - 1;
    if i < n {
      SumWithout(xs[..n], i);
      var less := xs[..i] + xs[i + 1..];
      assert less[..n - 1] == xs[..n][..i] + xs[..n][i + 1..];
    } else {
      assert xs[..i] + xs[i + 1..] == xs[..n];
    }
  }

  lemma {:induction false} SumUpdated(xs: seq<nat>, i: nat, x: nat)
    requires i < |xs|
    ensures Sum(xs[i := x]) == Sum(xs) - xs[i] + x
  {
    var ys := xs[i := x];
    SumWithout(xs, i);
    SumWithout(ys, i);
    assert xs[..i] + xs[i + 1..] == ys[..i] + ys[i + 1..];
  }

  class Readers {
    const most: nat
    const limit: nat
    var count: nat
    var bytes: nat
    ghost var held: seq<nat>    // what each snapshot that is held is charged

    /** The counters are those of the snapshots that are held, and within their limits. */
    ghost predicate Valid()
      reads this
    {
      count == |held| <= most && bytes == Sum(held) <= limit
    }

    constructor (most: nat, limit: nat)
      ensures Valid() && held == [] && this.most == most && this.limit == limit
    {
      this.most, this.limit, count, bytes, held := most, limit, 0, 0, [];
    }

    /** wadb_snapshot_acquire on a table with these readable segments, of which the last may be active. The ghost
        results say which of them the interval and the position call for. */
    method Acquire(o: Options, readable: seq<Part>, active: bool, oom: bool)
      returns (r: Answer, ghost first: nat, ghost end: nat)
      requires Valid() && Scannable(readable)
      modifies this
      ensures Valid()
      ensures Answered(r, o, readable, active, first, end, old(count) == most, limit - old(bytes), oom)
      ensures held == if r.Taken? then old(held) + [r.charge] else old(held)
    {
      hide Scannable, AllItems, Filter, Chosen, Sum;
      var parts, a, b := Snapshots.Acquire(o, readable);
      first, end := a, b;
      PartsChosen(o, readable, parts, a, b);
      var charge := Charge(|parts|, Copied(readable, active, a, b));
      if count >= most || charge > limit - bytes { return Backpressure, first, end; }
      if oom && parts != [] { return NoMemory, first, end; }
      SumNext(held, charge);
      count, bytes, held := count + 1, bytes + charge, held + [charge];
      r := Taken(parts, charge);
    }

    /** The charge for a cursor, on the snapshot that it holds. */
    method Extend(ghost i: nat, charge: nat) returns (ok: bool)
      requires Valid() && i < |held|
      modifies this
      ensures Valid() && (ok <==> charge <= limit - old(bytes))
      ensures held == if ok then old(held)[i := old(held)[i] + charge] else old(held)
    {
      ok := charge <= limit - bytes;
      if ok {
        SumUpdated(held, i, held[i] + charge);
        bytes, held := bytes + charge, held[i := held[i] + charge];
      }
    }

    /** wadb_snapshot_release: exactly what the snapshot was charged is given back. */
    method Release(ghost i: nat, charge: nat)
      requires Valid() && i < |held| && held[i] == charge
      modifies this
      ensures Valid() && held == old(held[..i] + held[i + 1..])
    {
      SumWithout(held, i);
      count, bytes, held := count - 1, bytes - charge, held[..i] + held[i + 1..];
    }
  }

  lemma {:induction false} SumNext(xs: seq<nat>, x: nat)
    ensures Sum(xs + [x]) == Sum(xs) + x
  {
    assert (xs + [x])[..|xs|] == xs;
  }

  lemma {:induction false} PartsChosen(o: Options, readable: seq<Part>, parts: seq<Part>, a: nat, b: nat)
    requires Chosen(o, readable, parts, a, b)
    ensures a <= b <= |readable| && parts == readable[a..b]
  {
  }
}
