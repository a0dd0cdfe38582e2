/** A reader that gets a sealed segment's dictionary through the cache: a miss loads
    the checkpoint of the segment's index, or rebuilds the dictionary from the
    segment's frames when the checkpoint is lost (src/query/cache.c:13-58,
    src/storage/index.c:229-256). */
module CacheLoads {
  import opened Bytes
  import opened Frames
  import opened Symbols
  import opened Definitions
  import opened Dictionaries
  import opened Replay
  import opened Caches

  const ENTRY_BYTES: nat := 72

  /** A sealed segment whose frames replay. */
  ghost predicate Sealed(symbolic: seq<bool>, frames: seq<Frame>) {
    && |symbolic| <= MAX_FIELDS && Replayed(symbolic, frames).Some? && |Replayed(symbolic, frames).value| <= U32_MAX
    && forall i :: 0 <= i < |frames| && frames[i].definitionCount == 0 ==> frames[i].definitions == []
  }

  /** A checkpoint that can be read and has the right checksum: all definitions of the segment as one block. */
  ghost predicate Checkpoint(symbolic: seq<bool>, frames: seq<Frame>, block: seq<Byte>, count: nat) {
    Sealed(symbolic, frames) && block == Exported(Replayed(symbolic, frames).value, 0)
    && count == |Replayed(symbolic, frames).value|
  }

  /** wadb_index_dictionary: from the checkpoint, or else from the frames. */
  method Load(symbolic: seq<bool>, hash: (nat, seq<Byte>) -> nat, limit: nat, block: Option<(seq<Byte>, nat)>,
              frames: seq<Frame>, fails: (nat, nat) -> nat)
    returns (d: Dictionary?)
    requires Sealed(symbolic, frames) && (block.Some? ==> Checkpoint(symbolic, frames, block.value.0, block.value.1))
    ensures d != null ==>
              && fresh(d) && fresh(d.slots) && d.Valid() && Replayed(symbolic, frames) == Some(d.View())
              && d.limit == limit
    ensures (forall i, j :: fails(i, j) == 0) ==>
              (d != null <==> Replay.Holds(|symbolic|, limit, Replayed(symbolic, frames).value))
  {
    hide Dictionary.Valid, Dictionary.Tight, Replay.Holds, Replayed, Exported, Parse;
    if block.None? {
      var status, r := Replay.Rebuild(symbolic, hash, limit, frames, fails);
      return if status == OK then r else null;
    }
    CheckpointReplays(symbolic, frames);
    ExportedLength(Replayed(symbolic, frames).value);
    if DICTIONARY_BYTES + |symbolic| * COLUMN_BYTES > limit {
      BaseTooLarge(|symbolic|, limit, Replayed(symbolic, frames).value);
      return null;
    }
    d := new Dictionary(symbolic, hash, limit);
    var status := Apply(d, block.value.0, block.value.1, j => fails(0, j));
    if status != OK { d := null; }
  }

  /** What the cache must hold: the replay of the segments of this table. */
  ghost predicate Serves(cache: Cache, symbolic: seq<bool>, limit: nat, segments: Key -> seq<Frame>) {
    && cache.reservation == limit + ENTRY_BYTES
    && forall k :: Sealed(symbolic, segments(k)) ==> Replayed(symbolic, segments(k)) == Some(cache.load(k))
  }

  /** wadb_cache_acquire with no other reader between its lock regions (Begin and Finish say what holds with others):
      what is acquired is an entry of the cache that holds exactly what the segment's frames define, hit or miss; and if
      the load goes well, it is refused exactly when held entries and loads under way leave no room. */
  method Acquire(cache: Cache, key: Key, symbolic: seq<bool>, hash: (nat, seq<Byte>) -> nat, limit: nat,
                 block: Option<(seq<Byte>, nat)>, ghost segments: Key -> seq<Frame>, frames: seq<Frame>,
                 fails: (nat, nat) -> nat)
    returns (ok: bool)
    requires cache.Valid() && Serves(cache, symbolic, limit, segments) && frames == segments(key)
    requires Sealed(symbolic, frames) && (block.Some? ==> Checkpoint(symbolic, frames, block.value.0, block.value.1))
    modifies cache
    ensures cache.Valid() && cache.loading == old(cache.loading)
    ensures cache.handles == if ok then old(cache.handles) + multiset{key} else old(cache.handles)
    ensures ok ==> exists i :: 0 <= i < |cache.entries| && Gives(cache.entries[i], key, Replayed(symbolic, frames))
    ensures (forall i, j :: fails(i, j) == 0) && Replay.Holds(|symbolic|, limit, Replayed(symbolic, frames).value) ==>
              (ok <==>
                 || Caches.Holds(old(cache.entries), key)
                 || cache.reservation <=
                      cache.budget - Pinned(old(cache.entries)) - Aside(old(cache.loading), cache.reservation))
  {
    hide Dictionary.Valid, Replay.Holds, Replayed, Exported, Honest, Charges, Pinned, Aside, Evicted, Frugal, Sealed,
         Checkpoint;
    var r := cache.Begin(key);
    ok := r == Hit;
    if r == Reserved {
      var d := Load(symbolic, hash, limit, block, frames, fails);
      if d != null { Small(d); }
      ok := cache.Finish(key, if d == null then None else Some(d.View()),
                         if d == null then 0 else ENTRY_BYTES + d.charged);
    }
    if ok {
      Held(cache.entries, cache.handles, cache.load, cache.clock, cache.reservation, key, Replayed(symbolic, frames));
    }
  }

  ghost predicate Gives(e: Entry, key: Key, defs: Option<seq<Def>>) {
    e.key == key && e.references > 0 && defs == Some(e.content)
  }

  lemma {:induction false} Held(entries: seq<Entry>, handles: multiset<Key>, load: Key -> seq<Def>, clock: nat,
                                reservation: nat, key: Key, defs: Option<seq<Def>>)
    requires Honest(entries, handles, load, clock, reservation) && key in handles && defs == Some(load(key))
    ensures exists i :: 0 <= i < |entries| && Gives(entries[i], key, defs)
  {
    assert Caches.Holds(entries, key);
    var i :| 0 <= i < |entries| && entries[i].key == key;
    assert Gives(entries[i], key, defs);
  }

  lemma {:induction false} Small(d: Dictionary)
    requires d.Valid()
    ensures d.charged <= d.limit
  {
    hide Dictionary.Valid, FreshBytes;
    d.Replayable();
  }
}
