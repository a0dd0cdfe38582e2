/** Compacting a list of positions in place, as publication does to the readable list
    (src/storage/retention.c). */
module Positions {

  /** The listed positions that are kept, in their order. */
  function Compacted(positions: seq<nat>, keeps: nat -> bool): (r: seq<nat>)
    ensures forall k :: 0 <= k < |r| ==> keeps(r[k])
  {
    if positions == [] then []
    else
      var front, p := positions[..|positions| - 1], positions[|positions| - 1];
      Compacted(front, keeps) + if keeps(p) then [p] else []
  }

  lemma {:induction false} CompactedNext(positions: seq<nat>, p: nat, keeps: nat -> bool)
    ensures Compacted([], keeps) == []
    ensures Compacted(positions + [p], keeps) == Compacted(positions, keeps) + if keeps(p) then [p] else []
  {
    assert (positions + [p])[..|positions|] == positions;
  }

  lemma {:induction false} CompactedAgrees(positions: seq<nat>, a: nat -> bool, b: nat -> bool)
    requires forall i :: 0 <= i < |positions| ==> a(positions[i]) == b(positions[i])
    ensures Compacted(positions, a) == Compacted(positions, b)
  {
    if positions != [] {
      CompactedAgrees(positions[..|positions| - 1], a, b);
    }
  }
}
