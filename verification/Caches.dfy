/** The cache of sealed segments' dictionaries (src/query/cache.c). Its two lock
    regions around a load are separate methods, so that other readers may come in
    between. */
module Caches {
  import opened Bytes
  import opened Symbols

  datatype Key = Key(table: nat, segment: nat, covered: nat, crc: nat)

  datatype Entry = Entry(key: Key, charge: nat, references: nat, used: nat, content: seq<Def>)

  function Charges(entries: seq<Entry>): nat {
    if entries == [] then 0 else Charges(entries[..|entries| - 1]) + entries[|entries| - 1].charge
  }

  function Pinned(entries: seq<Entry>): nat {
    if entries == [] then 0
    else
      var front, e := entries[..|entries| - 1], entries[|entries| - 1];
      Pinned(front) + if e.references > 0 then e.charge else 0
  }

  function Without(entries: seq<Entry>, i: nat): (r: seq<Entry>)
    requires i < |entries|
    ensures |r| == |entries| - 1
  {
    entries[..i] + entries[i + 1..]
  }

  lemma {:induction false} ChargesWithout(entries: seq<Entry>, i: nat)
    requires i < |entries|
    ensures Charges(Without(entries, i)) == Charges(entries) - entries[i].charge
    ensures Pinned(Without(entries, i)) == Pinned(entries) - if entries[i].references > 0 then entries[i].charge else 0
    decreases |entries|
  {
    var n := |entries| - 1;
    if i < n {
      ChargesWithout(entries[..n], i);
      assert Without(entries, i)[..n - 1] == Without(entries[..n], i);
    } else {
      assert Without(entries, i) == entries[..n];
    }
  }

  lemma {:induction false} ChargesUpdate(entries: seq<Entry>, i: nat, e: Entry)
    requires i < |entries| && e.charge == entries[i].charge
    ensures Charges(entries[i := e]) == Charges(entries)
    decreases |entries|
  {
    var n := |entries| - 1;
    if i < n {
      ChargesUpdate(entries[..n], i, e);
      assert entries[i := e][..n] == entries[..n][i := e];
    } else {
      assert entries[i := e][..n] == entries[..n];
    }
  }

  lemma {:induction false} ChargesFront(e: Entry, entries: seq<Entry>)
    ensures Charges([e] + entries) == e.charge + Charges(entries)
    decreases |entries|
  {
    if entries == [] {
      assert [e] + entries == [e] && [e][..0] == [];
      assert Charges([]) == 0;
    } else {
      var n := |entries| - 1;
      ChargesFront(e, entries[..n]);
      assert ([e] + entries)[..n + 1] == [e] + entries[..n];
    }
  }

  lemma {:induction false} PinnedAtMost(entries: seq<Entry>)
    ensures Pinned(entries) <= Charges(entries)
    ensures (forall i :: 0 <= i < |entries| ==> entries[i].references > 0) ==> Pinned(entries) == Charges(entries)
  {
    if entries != [] { PinnedAtMost(entries[..|entries| - 1]); }
  }

  predicate Unique(entries: seq<Entry>) { forall i, j :: 0 <= i < j < |entries| ==> entries[i].key != entries[j].key }

  /** The bytes set aside for a number of loads. */
  function Aside(loads: nat, reservation: nat): nat {
    if loads == 0 then 0 else Aside(loads - 1, reservation) + reservation
  }

  /** Every entry counts its handles and holds what a direct load gives, and everything handed out is in the cache. */
  ghost predicate Honest(entries: seq<Entry>, handles: multiset<Key>, load: Key -> seq<Def>, clock: nat,
                         reservation: nat) {
    && Unique(entries)
    && (forall i :: 0 <= i < |entries| ==>
          && entries[i].references == handles[entries[i].key] && entries[i].used <= clock
          && entries[i].content == load(entries[i].key) && entries[i].charge <= reservation)
    && (forall k :: k in handles ==> Holds(entries, k))
  }

  ghost predicate Holds(entries: seq<Entry>, k: Key) { exists i :: 0 <= i < |entries| && entries[i].key == k }

  lemma {:induction false} HonestWithout(entries: seq<Entry>, handles: multiset<Key>, load: Key -> seq<Def>,
                                         clock: nat, reservation: nat, i: nat)
    requires Honest(entries, handles, load, clock, reservation) && i < |entries| && entries[i].references == 0
    ensures Honest(Without(entries, i), handles, load, clock, reservation)
  {
    var r := Without(entries, i);
    forall j | 0 <= j < |r| ensures r[j] == entries[if j < i then j else j + 1] { }
    forall k | k in handles ensures Holds(r, k) {
      assert Holds(entries, k);
      var j :| 0 <= j < |entries| && entries[j].key == k;
      assert r[if j < i then j else j - 1] == entries[j];
    }
  }

  /** Handing an entry out once more, or taking it back. */
  lemma {:induction false} HonestUsed(entries: seq<Entry>, handles: multiset<Key>, load: Key -> seq<Def>, clock: nat,
                                      reservation: nat, i: nat, e: Entry, handles': multiset<Key>, clock': nat)
    requires Honest(entries, handles, load, clock, reservation) && i < |entries| && clock <= clock'
    requires e.key == entries[i].key && e.charge == entries[i].charge && e.content == entries[i].content
             && e.used <= clock'
    requires handles' == handles[e.key := e.references]
    ensures Honest(entries[i := e], handles', load, clock', reservation)
  {
    var r := entries[i := e];
    forall k | k in handles' ensures Holds(r, k) {
      if k == e.key { assert r[i].key == k; }
      else {
        assert k in handles;
        var j :| 0 <= j < |entries| && entries[j].key == k;
        assert r[j].key == k;
      }
    }
  }

  lemma {:induction false} HonestFront(entries: seq<Entry>, handles: multiset<Key>, load: Key -> seq<Def>, clock: nat,
                                       reservation: nat, e: Entry, clock': nat)
    requires Honest(entries, handles, load, clock, reservation) && clock <= clock' && !Holds(entries, e.key)
    requires e.content == load(e.key) && e.charge <= reservation && e.references == 1 && e.used <= clock'
    ensures Honest([e] + entries, handles[e.key := 1], load, clock', reservation)
  {
    var r := [e] + entries;
    forall j | 0 < j < |r| ensures r[j] == entries[j - 1] { }
    forall k | k in handles[e.key := 1] ensures Holds(r, k) {
      if k == e.key { assert r[0].key == k; }
      else {
        assert k in handles;
        var j :| 0 <= j < |entries| && entries[j].key == k;
        assert r[j + 1].key == k;
      }
    }
  }

  datatype Start = Hit | Reserved | Backpressure

  class Cache {
    const budget: nat
    const reservation: nat                 // dictionary_limit_bytes plus the entry itself
    ghost const load: Key -> seq<Def>      // what a direct load of a segment gives
    var entries: seq<Entry>
    var bytes: nat                         // cache_bytes
    var clock: nat
    ghost var loading: nat                 // loads under way, each with its reservation
    ghost var handles: multiset<Key>       // entries handed out and not yet released

    ghost predicate Valid()
      reads this
    {
      && bytes == Charges(entries) + Aside(loading, reservation) && bytes <= budget
      && Honest(entries, handles, load, clock, reservation)
    }

    constructor (budget: nat, reservation: nat, ghost load: Key -> seq<Def>)
      ensures Valid() && entries == [] && loading == 0 && handles == multiset{}
      ensures this.budget == budget && this.reservation == reservation && this.load == load
    {
      this.budget, this.reservation, this.load := budget, reservation, load;
      entries, bytes, clock, loading, handles := [], 0, 0, 0, multiset{};
    }

    /** The walk over the list for a matching entry. */
    method Lookup(key: Key) returns (i: nat)
      ensures i <= |entries| && (i < |entries| ==> entries[i].key == key)
      ensures i == |entries| ==> forall k :: 0 <= k < |entries| ==> entries[k].key != key
    {
      i := 0;
      while i < |entries| && entries[i].key != key
        invariant 0 <= i <= |entries| && forall k :: 0 <= k < i ==> entries[k].key != key
      {
        i := i + 1;
      }
    }

    /** The walk for the least recently used entry that nobody holds. */
    method Oldest() returns (oldest: nat)
      ensures oldest <= |entries|
      ensures oldest == |entries| ==> forall k :: 0 <= k < |entries| ==> entries[k].references > 0
      ensures oldest < |entries| ==>
                && entries[oldest].references == 0
                && forall k :: 0 <= k < |entries| && entries[k].references == 0 ==>
                     entries[oldest].used <= entries[k].used
    {
      oldest := |entries|;
      var i := 0;
      while i < |entries|
        invariant 0 <= i <= |entries| && oldest <= |entries| && (oldest < |entries| ==> oldest < i)
        invariant oldest == |entries| ==> forall k :: 0 <= k < i ==> entries[k].references > 0
        invariant oldest < |entries| ==>
                    && entries[oldest].references == 0
                    && forall k :: 0 <= k < i && entries[k].references == 0 ==> entries[oldest].used <= entries[k].used
      {
        if entries[i].references == 0 && (oldest == |entries| || entries[i].used < entries[oldest].used) {
          oldest := i;
        }
        i := i + 1;
      }
    }

    /** An entry nobody holds leaves the cache. */
    method Evict(i: nat)
      requires Valid() && i < |entries| && entries[i].references == 0
      modifies this`entries, this`bytes
      ensures Valid() && entries == Without(old(entries), i) && bytes == old(bytes) - old(entries)[i].charge
    {
      hide Charges, Honest, Aside;
      ChargesWithout(entries, i);
      HonestWithout(entries, handles, load, clock, reservation, i);
      bytes := bytes - entries[i].charge;
      entries := entries[..i] + entries[i + 1..];
    }

    /** The eviction loop: room for one reservation, or nothing left that may go. */
    method MakeRoom() returns (ok: bool)
      requires Valid()
      modifies this`entries, this`bytes
      ensures Valid() && Evicted(old(entries), entries)
      ensures Frugal(old(entries), entries, budget, reservation, Aside(loading, reservation))
      ensures ok <==> reservation <= budget - Pinned(old(entries)) - Aside(loading, reservation)
      ensures ok ==> reservation <= budget - bytes
    {
      hide Honest, Charges, Pinned, Aside, Evicted, Frugal;
      ghost var before := entries;
      NothingEvicted(before);
      NothingSpent(before, budget, reservation, Aside(loading, reservation));
      ok := true;
      while reservation > budget - bytes
        invariant Valid() && Evicted(before, entries) && ok
                  && Frugal(before, entries, budget, reservation, Aside(loading, reservation))
        decreases |entries|
      {
        var oldest := Oldest();
        PinnedAtMost(entries);
        EvictedPinned(before, entries);
        if oldest == |entries| { return false; }
        EvictedNext(before, entries, oldest);
        assert Unique(entries) by { HonestUnique(entries, handles, load, clock, reservation); }
        SpentNext(before, entries, oldest, budget, reservation, Aside(loading, reservation));
        Evict(oldest);
      }
      PinnedAtMost(entries);
      EvictedPinned(before, entries);
    }

    /** The first lock region of wadb_cache_acquire: a hit, or room for a load made by evicting the least recently
        used. */
    method Begin(key: Key) returns (r: Start)
      requires Valid()
      modifies this
      ensures Valid() && clock >= old(clock)
      ensures r == Hit <==> Holds(old(entries), key)
      ensures r == Hit ==>
                && handles == old(handles) + multiset{key} && loading == old(loading)
                && exists i :: Touched(old(entries), entries, i, key, clock)
      ensures r == Hit ==> clock == old(clock) + 1
      ensures r != Hit ==>
                && handles == old(handles) && Evicted(old(entries), entries)
                && Frugal(old(entries), entries, budget, reservation, Aside(old(loading), reservation))
      ensures r != Hit ==> loading == old(loading) + if r == Reserved then 1 else 0
      ensures r != Hit ==>
                (r == Backpressure <==> reservation > budget - Pinned(old(entries)) - Aside(old(loading), reservation))
    {
      hide Honest, Charges, Pinned, Aside, Evicted, Frugal;
      var i := Lookup(key);
      if i < |entries| {
        var e := entries[i].(references := entries[i].references + 1, used := clock + 1);
        References(entries, handles, load, clock, reservation, i);
        HonestUsed(entries, handles, load, clock, reservation, i, e, handles + multiset{key}, clock + 1);
        ChargesUpdate(entries, i, e);
        ghost var was := entries;
        clock, entries, handles := clock + 1, entries[i := e], handles + multiset{key};
        assert Touched(was, entries, i, key, clock);
        return Hit;
      }
      var ok := MakeRoom();
      if !ok { return Backpressure; }
      AsideNext(loading, reservation);
      bytes := bytes + reservation;
      loading := loading + 1;
      r := Reserved;
    }

    /** The second lock region: give the reservation back and keep the loaded dictionary, unless another reader was
        faster. The key is that of the reader after the load, which a repair may have changed. */
    method Finish(key: Key, loaded: Option<seq<Def>>, size: nat) returns (ok: bool)
      requires Valid() && loading > 0 && size <= reservation && (loaded.Some? ==> loaded.value == load(key))
      modifies this
      ensures Valid() && loading == old(loading) - 1 && ok == loaded.Some?
      ensures handles == if ok then old(handles) + multiset{key} else old(handles)
      ensures !ok ==> entries == old(entries)
      ensures ok ==> clock == old(clock) + 1
      ensures ok && !Holds(old(entries), key) ==>
                entries == [Entry(key, size, 1, old(clock) + 1, loaded.value)] + old(entries)
      ensures ok && Holds(old(entries), key) ==> exists i :: Touched(old(entries), entries, i, key, clock)
    {
      hide Honest, Charges, Aside;
      AsideNext(loading - 1, reservation);
      bytes, loading := bytes - reservation, loading - 1;
      if loaded.None? { return false; }
      clock := clock + 1;
      var i := Lookup(key);
      if i < |entries| {
        var e := entries[i].(references := entries[i].references + 1, used := clock);
        References(entries, handles, load, clock - 1, reservation, i);
        HonestUsed(entries, handles, load, clock - 1, reservation, i, e, handles + multiset{key}, clock);
        ChargesUpdate(entries, i, e);
        ghost var was := entries;
        entries := entries[i := e];
        assert Touched(was, entries, i, key, clock);
      } else {
        var e := Entry(key, size, 1, clock, loaded.value);
        NotHeld(entries, handles, load, clock - 1, reservation, key);
        HonestFront(entries, handles, load, clock - 1, reservation, e, clock);
        ChargesFront(e, entries);
        entries, bytes := [e] + entries, bytes + size;
      }
      handles := handles + multiset{key};
      ok := true;
    }

    /** wadb_cache_release of an entry handed out before. */
    method Release(key: Key)
      requires Valid() && key in handles
      modifies this`entries, this`handles
      ensures Valid() && handles == old(handles) - multiset{key} && exists i :: LetGo(old(entries), entries, i, key)
    {
      hide Honest, Charges, Aside;
      InCache(entries, handles, load, clock, reservation, key);
      var i := Lookup(key);
      References(entries, handles, load, clock, reservation, i);
      var e := entries[i].(references := entries[i].references - 1);
      Used(entries, handles, load, clock, reservation, i);
      HonestUsed(entries, handles, load, clock, reservation, i, e, handles - multiset{key}, clock);
      ChargesUpdate(entries, i, e);
      ghost var was := entries;
      entries, handles := entries[i := e], handles - multiset{key};
      assert LetGo(was, entries, i, key);
    }
  }

  /** The entry of a key got one more reference and is the most recently used; no other changed. */
  ghost predicate Touched(before: seq<Entry>, after: seq<Entry>, i: nat, key: Key, clock: nat) {
    i < |before| && before[i].key == key
    && after == before[i := before[i].(references := before[i].references + 1, used := clock)]
  }

  ghost predicate LetGo(before: seq<Entry>, after: seq<Entry>, i: nat, key: Key) {
    i < |before| && before[i].key == key && before[i].references > 0
    && after == before[i := before[i].(references := before[i].references - 1)]
  }

  /** What evictions do to the list: what is held stays, and what went was used no later than anything unheld that
      stays. */
  ghost predicate Evicted(before: seq<Entry>, after: seq<Entry>) {
    && (forall e :: e in after ==> e in before)
    && (forall e :: e in before && e.references > 0 ==> e in after)
    && (forall e, x :: e in before && e !in after && x in after && x.references == 0 ==> e.used <= x.used)
    && Pinned(after) == Pinned(before)
  }

  /** Nothing was evicted without need: with the last of the entries that went there would be no room, and so there was
      none before each of the earlier ones went. */
  ghost predicate Frugal(before: seq<Entry>, after: seq<Entry>, budget: nat, reservation: nat, aside: nat) {
    after == before || exists e :: LastOut(before, after, e) && reservation > budget - Charges(after) - aside - e.charge
  }

  /** e went, and nothing that was used later did. */
  ghost predicate LastOut(before: seq<Entry>, after: seq<Entry>, e: Entry) {
    e in before && e !in after && e.references == 0 && forall x :: x in before && x !in after ==> x.used <= e.used
  }

  lemma {:induction false} NothingSpent(entries: seq<Entry>, budget: nat, reservation: nat, aside: nat)
    ensures Frugal(entries, entries, budget, reservation, aside)
  {
  }

  lemma {:induction false} SpentNext(before: seq<Entry>, entries: seq<Entry>, i: nat, budget: nat, reservation: nat,
                                     aside: nat)
    requires Evicted(before, entries) && i < |entries| && entries[i].references == 0
             && reservation > budget - Charges(entries) - aside
    requires Unique(entries)
    ensures Frugal(before, Without(entries, i), budget, reservation, aside)
  {
    hide Pinned, Charges;
    ChargesWithout(entries, i);
    EvictedStill(entries, i);
    var e, after := entries[i], Without(entries, i);
    assert e in before;
    forall j | 0 <= j < |after| ensures after[j] != e { assert after[j] == entries[if j < i then j else j + 1]; }
    forall x | x in before && x !in after ensures x.used <= e.used {
      if x in entries { assert x == e; }
    }
    assert LastOut(before, after, e);
  }

  lemma {:induction false} NothingEvicted(entries: seq<Entry>)
    ensures Evicted(entries, entries)
  {
  }

  lemma {:induction false} EvictedPinned(before: seq<Entry>, after: seq<Entry>)
    requires Evicted(before, after)
    ensures Pinned(after) == Pinned(before)
  {
  }

  lemma {:induction false} EvictedNext(before: seq<Entry>, entries: seq<Entry>, i: nat)
    requires Evicted(before, entries) && i < |entries| && entries[i].references == 0
    requires forall k :: 0 <= k < |entries| && entries[k].references == 0 ==> entries[i].used <= entries[k].used
    ensures Evicted(before, Without(entries, i))
  {
    hide Pinned;
    ChargesWithout(entries, i);
    EvictedStill(entries, i);
    var after := Without(entries, i);
    forall e, x | e in before && e !in after && x in after && x.references == 0 ensures e.used <= x.used {
      assert x in entries;
    }
  }

  lemma {:induction false} NotHeld(entries: seq<Entry>, handles: multiset<Key>, load: Key -> seq<Def>, clock: nat,
                                   reservation: nat, key: Key)
    requires Honest(entries, handles, load, clock, reservation)
             && forall k :: 0 <= k < |entries| ==> entries[k].key != key
    ensures !Holds(entries, key) && handles[key] == 0 && handles + multiset{key} == handles[key := 1]
  {
    assert key !in handles;
  }

  lemma {:induction false} HonestUnique(entries: seq<Entry>, handles: multiset<Key>, load: Key -> seq<Def>, clock: nat,
                                        reservation: nat)
    requires Honest(entries, handles, load, clock, reservation)
    ensures Unique(entries)
  {
  }

  lemma {:induction false} InCache(entries: seq<Entry>, handles: multiset<Key>, load: Key -> seq<Def>, clock: nat,
                                   reservation: nat, key: Key)
    requires Honest(entries, handles, load, clock, reservation) && key in handles
    ensures Holds(entries, key)
  {
  }

  lemma {:induction false} Used(entries: seq<Entry>, handles: multiset<Key>, load: Key -> seq<Def>, clock: nat,
                                reservation: nat, i: nat)
    requires Honest(entries, handles, load, clock, reservation) && i < |entries|
    ensures entries[i].used <= clock
  {
  }

  lemma {:induction false} AsideNext(loads: nat, reservation: nat)
    ensures Aside(loads + 1, reservation) == Aside(loads, reservation) + reservation
  {
  }

  lemma {:induction false} References(entries: seq<Entry>, handles: multiset<Key>, load: Key -> seq<Def>, clock: nat,
                                      reservation: nat, i: nat)
    requires Honest(entries, handles, load, clock, reservation) && i < |entries|
    ensures entries[i].references == handles[entries[i].key] && entries[i].charge <= reservation
            && entries[i].content == load(entries[i].key)
  {
  }

  lemma {:induction false} EvictedStill(entries: seq<Entry>, i: nat)
    requires i < |entries| && entries[i].references == 0
    ensures forall e :: e in Without(entries, i) ==> e in entries
    ensures forall e :: e in entries && e.references > 0 ==> e in Without(entries, i)
    ensures forall e :: e in entries && e !in Without(entries, i) ==> e == entries[i]
  {
    forall e | e in entries && e != entries[i] ensures e in Without(entries, i) {
      var j :| 0 <= j < |entries| && entries[j] == e;
      assert Without(entries, i)[if j < i then j else j - 1] == e;
    }
  }
}
