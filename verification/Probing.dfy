/** Linear probing as src/storage/dictionary.c and src/query/query.c use it: a
    slot is zero when free and otherwise one more than the index of an entry; an
    entry is looked for from the slot its hash selects, wrapping around, up to
    the first free slot. Entries are never removed singly: tables are refilled. */
module Probing {

  /** Slot q lies on the way from slot h to slot p, p itself excluded. */
  predicate OnWay(h: nat, p: nat, q: nat) { if h <= p then h <= q < p else h <= q || q < p }

  /** Every slot on the way from h to p is taken. */
  predicate Taken(slots: seq<nat>, h: nat, p: nat) {
    forall q :: 0 <= q < |slots| && OnWay(h, p, q) ==> slots[q] != 0
  }

  predicate Found(slots: seq<nat>, hashes: seq<nat>, i: nat, p: nat)
    requires i < |hashes|
  {
    p < |slots| && slots[p] == i + 1 && Taken(slots, hashes[i] % |slots|, p)
  }

  /** Every entry can be found, no slot holds anything else, and no entry stands twice. */
  ghost predicate Filled(slots: seq<nat>, hashes: seq<nat>) {
    && |slots| > 0
    && (forall p :: 0 <= p < |slots| ==> slots[p] <= |hashes|)
    && (forall p, q :: 0 <= p < |slots| && 0 <= q < |slots| && slots[p] == slots[q] && slots[p] != 0 ==> p == q)
    && (forall i :: 0 <= i < |hashes| ==> Findable(slots, hashes, i))
  }

  ghost predicate Findable(slots: seq<nat>, hashes: seq<nat>, i: nat)
    requires i < |hashes|
  {
    exists p :: Found(slots, hashes, i, p)
  }

  predicate HasFree(slots: seq<nat>) { exists p :: 0 <= p < |slots| && slots[p] == 0 }

  /** A table with more slots than entries has a free slot, so every probe ends. */
  lemma FreeSlot(slots: seq<nat>, hashes: seq<nat>)
    requires Filled(slots, hashes) && |hashes| < |slots|
    ensures HasFree(slots)
  {
    if !HasFree(slots) {
      DistinctCount(slots, |slots|);
      assert ValuesOf(slots, |slots|) <= UpTo(|hashes|);
      Smaller(ValuesOf(slots, |slots|), UpTo(|hashes|));
    }
  }

  ghost function ValuesOf(slots: seq<nat>, n: nat): set<nat>
    requires n <= |slots|
  {
    set p | 0 <= p < n :: slots[p]
  }

  lemma {:induction false} DistinctCount(slots: seq<nat>, n: nat)
    requires n <= |slots| && forall p, q :: 0 <= p < |slots| && 0 <= q < |slots| && slots[p] == slots[q] ==> p == q
    ensures |ValuesOf(slots, n)| == n
  {
    if n > 0 {
      DistinctCount(slots, n - 1);
      assert ValuesOf(slots, n) == ValuesOf(slots, n - 1) + {slots[n - 1]};
      assert slots[n - 1] !in ValuesOf(slots, n - 1);
    }
  }

  /** The numbers from 1 to n. */
  ghost function UpTo(n: nat): (r: set<nat>)
    ensures |r| == n && forall v :: v in r <==> 1 <= v <= n
  {
    if n == 0 then {} else UpTo(n - 1) + {n}
  }

  lemma {:induction false} Smaller(a: set<nat>, b: set<nat>)
    requires a <= b
    ensures |a| <= |b|
    decreases a
  {
    if a != {} {
      var x :| x in a;
      Smaller(a - {x}, b - {x});
    }
  }

  /** The probing loop: from the home slot to a matching entry or to the first free slot. */
  method Probe(slots: array<nat>, home: nat, matches: nat -> bool) returns (slot: nat, found: bool)
    requires home < slots.Length && HasFree(slots[..])
    ensures slot < slots.Length && Taken(slots[..], home, slot)
    ensures found <==> slots[slot] != 0
    ensures found ==> matches(slots[slot] - 1)
    ensures forall q :: 0 <= q < slots.Length && OnWay(home, slot, q) ==> !matches(slots[q] - 1)
  {
    slot := home;
    ghost var free :| 0 <= free < slots.Length && slots[..][free] == 0;
    while slots[slot] != 0 && !matches(slots[slot] - 1)
      invariant slot < slots.Length && Taken(slots[..], home, slot)
      invariant !OnWay(home, slot, free)
      invariant forall q :: 0 <= q < slots.Length && OnWay(home, slot, q) ==> slots[q] != 0 && !matches(slots[q] - 1)
      decreases if slot <= free then free - slot else slots.Length - slot + free
    {
      var next := if slot + 1 == slots.Length then 0 else slot + 1;
      WayGrows(slots.Length, home, slot, next, free);
      slot := next;
    }
    found := slots[slot] != 0;
  }

  lemma WayGrows(n: nat, h: nat, p: nat, next: nat, free: nat)
    requires h < n && p < n && free < n && p != free && !OnWay(h, p, free) && next == if p + 1 == n then 0 else p + 1
    ensures forall q :: 0 <= q < n && OnWay(h, next, q) ==> OnWay(h, p, q) || q == p
    ensures !OnWay(h, next, free)
  {
  }

  /** A probe that ends at a free slot has seen every entry with that home. */
  lemma NotThere(slots: seq<nat>, hashes: seq<nat>, hash: nat, slot: nat, i: nat)
    requires Filled(slots, hashes) && slot < |slots| && slots[slot] == 0 && Taken(slots, hash % |slots|, slot)
    requires i < |hashes| && hashes[i] == hash
    ensures exists q :: 0 <= q < |slots| && OnWay(hash % |slots|, slot, q) && slots[q] == i + 1
  {
    assert Findable(slots, hashes, i);
    var p: nat :| Found(slots, hashes, i, p);
    assert p != slot;
    EitherWay(hash % |slots|, slot, p);
  }

  lemma EitherWay(h: nat, a: nat, b: nat)
    requires a != b
    ensures OnWay(h, a, b) || OnWay(h, b, a)
  {
  }

  /** Taking the free slot that a probe found keeps everything findable and adds the new entry. */
  lemma PlacedKeeps(slots: seq<nat>, hashes: seq<nat>, hash: nat, slot: nat)
    requires Filled(slots, hashes) && slot < |slots| && slots[slot] == 0 && Taken(slots, hash % |slots|, slot)
    ensures Filled(slots[slot := |hashes| + 1], hashes + [hash])
  {
    var s, h := slots[slot := |hashes| + 1], hashes + [hash];
    forall i | 0 <= i < |h| ensures Findable(s, h, i) {
      if i == |hashes| {
        assert Found(s, h, i, slot);
      } else {
        assert Findable(slots, hashes, i);
        var p :| Found(slots, hashes, i, p);
        assert Found(s, h, i, p);
      }
    }
  }

  lemma EmptyFilled(slots: seq<nat>)
    requires |slots| > 0 && forall p :: 0 <= p < |slots| ==> slots[p] == 0
    ensures Filled(slots, [])
  {
  }

  /** Put one more entry into the first free slot from its home. */
  method Place(slots: array<nat>, ghost hashes: seq<nat>, hash: nat, index: nat)
    requires Filled(slots[..], hashes) && |hashes| < slots.Length && index == |hashes|
    modifies slots
    ensures Filled(slots[..], hashes + [hash])
  {
    FreeSlot(slots[..], hashes);
    var slot, found := Probe(slots, hash % slots.Length, i => false);
    PlacedKeeps(slots[..], hashes, hash, slot);
    ghost var before: seq<nat> := slots[..];
    slots[slot] := index + 1;
    assert slots[..] == before[slot := index + 1];
  }

  /** rehash: clear the table and place every entry again. */
  method Rehash(slots: array<nat>, hashes: seq<nat>)
    requires slots.Length > |hashes|
    modifies slots
    ensures Filled(slots[..], hashes)
  {
    forall p | 0 <= p < slots.Length {
      slots[p] := 0;
    }
    EmptyFilled(slots[..]);
    var i := 0;
    assert hashes[..0] == [];
    while i < |hashes|
      invariant 0 <= i <= |hashes| && Filled(slots[..], hashes[..i])
    {
      Place(slots, hashes[..i], hashes[i], i);
      assert hashes[..i + 1] == hashes[..i] + [hashes[i]];
      i := i + 1;
    }
    assert hashes[..i] == hashes;
  }
}
