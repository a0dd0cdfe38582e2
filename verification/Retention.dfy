/** The counters and the readable list of a table, kept by rotation and commits
    (src/storage/segments.c) and by retention (src/storage/retention.c). */
module Retention {
  import opened Bytes
  import opened Frames
  import opened Logs
  import opened Segments
  import opened History
  import opened Recovery
  import opened Reopen
  import opened Durability
  import opened Images
  import opened Positions

  datatype Stats = Stats(cutoff: int, segments: nat, rows: int, bytes: nat, partial: nat, pending: nat)

  /** Times before the cutoff have expired; zero when retention is off or longer than the clock. */
  function Cutoff(retention: nat, now: nat): nat { if retention != 0 && now >= retention then now - retention else 0 }

  function RowsIn(s: Meta): int { if s.last != 0 then s.last - s.first + 1 else 0 }

  /** What preview reports: sums over the segments that have expired as a whole. */
  function Tally(metas: seq<Meta>, cutoff: int, pending: bool): Stats {
    if metas == [] then Stats(cutoff, 0, 0, 0, 0, 0)
    else TallyOne(Tally(metas[..|metas| - 1], cutoff, pending), metas[|metas| - 1], cutoff, pending)
  }

  function TallyOne(r: Stats, s: Meta, cutoff: int, pending: bool): Stats {
    if s.state == Retired then (if pending then r.(pending := r.pending + 1) else r)
    else if Expired(s, cutoff) && s.minTime < cutoff
         then r.(segments := r.segments + 1, rows := r.rows + RowsIn(s), bytes := r.bytes + s.bytes)
    else if s.last != 0 && s.minTime < cutoff then r.(partial := r.partial + 1)
    else r
  }

  /** Within a record the first time is not before zero and not after the last. */
  predicate Ordered(metas: seq<Meta>) { forall i :: 0 <= i < |metas| ==> 0 <= metas[i].minTime <= metas[i].maxTime }

  // ---- what a run is to do ----

  /** A record of a segment with rows, all of them longer ago than they are to be kept. */
  predicate OutOfDate(s: Meta, retention: nat, now: nat) {
    s.state != Retired && s.last != 0 && retention != 0 && now >= retention && s.maxTime < now - retention
  }

  /** Some of its rows are, and some are not. */
  predicate PartlyOut(s: Meta, retention: nat, now: nat) {
    && s.state != Retired && s.last != 0 && retention != 0 && now >= retention
    && s.minTime < now - retention <= s.maxTime
  }

  /** A run at some time: exactly the segments that are out of date become retired, and no record changes otherwise. */
  predicate Forgets(m: Manifest, m': Manifest, now: nat) {
    && |m'.segments| == |m.segments|
    && forall i :: 0 <= i < |m.segments| ==>
         m'.segments[i] ==
         if OutOfDate(m.segments[i], m.retention, now) then m.segments[i].(state := Retired) else m.segments[i]
  }

  function Out(retention: nat, now: nat): Meta -> bool { s => OutOfDate(s, retention, now) }

  function Partly(retention: nat, now: nat): Meta -> bool { s => PartlyOut(s, retention, now) }

  /** How many records are so. */
  function Number(metas: seq<Meta>, p: Meta -> bool): nat {
    if metas == [] then 0
    else Number(metas[..|metas| - 1], p) + if p(metas[|metas| - 1]) then 1 else 0
  }

  /** The sum of some number over the records that are so. */
  function Total(metas: seq<Meta>, p: Meta -> bool, n: Meta -> int): int {
    if metas == [] then 0
    else Total(metas[..|metas| - 1], p, n) + if p(metas[|metas| - 1]) then n(metas[|metas| - 1]) else 0
  }

  /** The preview counts the segments that are out of date, with their rows and bytes, those that are so in part, and
      those still to be removed. */
  lemma {:induction false} TallyMeans(metas: seq<Meta>, retention: nat, now: nat, pending: bool)
    requires Ordered(metas)
    ensures var r, out := Tally(metas, Cutoff(retention, now), pending), Out(retention, now);
            && r.segments == Number(metas, out)
            && r.rows == Total(metas, out, (s: Meta) => s.last - s.first + 1)
            && r.bytes == Total(metas, out, (s: Meta) => s.bytes)
            && r.partial == Number(metas, Partly(retention, now))
            && r.pending == if pending then Number(metas, (s: Meta) => s.state == Retired) else 0
  {
    if metas != [] {
      TallyMeans(metas[..|metas| - 1], retention, now, pending);
    }
  }

  /** The counters of a directory are about the segments that are not retired. */
  lemma {:induction false} CountMeans(metas: seq<Meta>)
    ensures var c, kept := Count(metas), (s: Meta) => s.state != Retired;
            && c.segments == Number(metas, kept) && c.bytes == Total(metas, kept, (s: Meta) => s.bytes)
            && c.rows == Total(metas, (s: Meta) => s.state != Retired && s.last != 0, (s: Meta) => s.last - s.first + 1)
            && c.retired == Number(metas, (s: Meta) => s.state == Retired)
  {
    if metas != [] {
      CountMeans(metas[..|metas| - 1]);
    }
  }

  /** The readable list holds, in order, the segments with rows that are not retired. */
  lemma {:induction false} ReadableAre(metas: seq<Meta>)
    ensures forall p :: p in Readable(metas) <==> 0 <= p < |metas| && metas[p].state != Retired && metas[p].last != 0
    ensures forall i, j :: 0 <= i < j < |Readable(metas)| ==> Readable(metas)[i] < Readable(metas)[j]
  {
    if metas != [] {
      var front := Readable(metas[..|metas| - 1]);
      ReadableAre(metas[..|metas| - 1]);
      forall i | 0 <= i < |front| ensures front[i] < |metas| - 1 { assert front[i] in front; }
    }
  }

  lemma {:induction false} NoneSuch(metas: seq<Meta>, p: Meta -> bool)
    requires Number(metas, p) == 0
    ensures forall i :: 0 <= i < |metas| ==> !p(metas[i])
  {
    if metas != [] {
      NoneSuch(metas[..|metas| - 1], p);
    }
  }

  /** The staged image is the one a run is to install; with nothing to retire it is the old one. */
  lemma {:induction false} CutoffForgets(m: Manifest, now: nat, pending: bool)
    requires Ordered(m.segments)
    ensures Forgets(m, RetireImage(m, Cutoff(m.retention, now)), now)
    ensures Tally(m.segments, Cutoff(m.retention, now), pending).segments == 0 ==> Forgets(m, m, now)
  {
    hide Tally;
    TallyMeans(m.segments, m.retention, now, pending);
    if Number(m.segments, Out(m.retention, now)) == 0 {
      NoneSuch(m.segments, Out(m.retention, now));
      assert forall i :: 0 <= i < |m.segments| ==> !Out(m.retention, now)(m.segments[i]);
    }
  }

  /** after is what remains of before when a retention run of tally r has retired its segments. */
  predicate Differs(before: Counters, r: Stats, after: Counters) {
    && after.segments == before.segments - r.segments && after.bytes == before.bytes - r.bytes
    && after.rows == before.rows - r.rows && after.retired == before.retired + r.segments
  }

  lemma OneDiffers(c: Counters, r: Stats, d: Counters, s: Meta, cutoff: int, pending: bool)
    requires Differs(c, r, d) && s.minTime <= s.maxTime
    ensures Differs(CountOne(c, s), TallyOne(r, s, cutoff, pending),
                    CountOne(d, if Expired(s, cutoff) then s.(state := Retired) else s))
  {
  }

  /** Subtracting the tally gives the sums over the list with the expired segments retired. */
  lemma {:induction false} TallyIsDifference(metas: seq<Meta>, cutoff: int, pending: bool)
    requires Ordered(metas)
    ensures Differs(Count(metas), Tally(metas, cutoff, pending), Count(RetireMetas(metas, cutoff)))
  {
    hide CountOne, TallyOne;
    if metas != [] {
      var n := |metas| - 1;
      var front := metas[..n];
      TallyIsDifference(front, cutoff, pending);
      RetireFront(metas, cutoff);
      OneDiffers(Count(front), Tally(front, cutoff, pending), Count(RetireMetas(front, cutoff)), metas[n], cutoff,
                 pending);
    }
  }

  lemma RetireFront(metas: seq<Meta>, cutoff: int)
    requires metas != []
    ensures RetireMetas(metas, cutoff)[..|metas| - 1] == RetireMetas(metas[..|metas| - 1], cutoff)
  {
  }

  /** Whether a position is that of a segment that is not retired. */
  function Unretired(metas: seq<Meta>): nat -> bool { (p: nat) => p < |metas| && metas[p].state != Retired }

  lemma {:induction false} ReadableBelow(metas: seq<Meta>)
    ensures forall i :: 0 <= i < |Readable(metas)| ==> Readable(metas)[i] < |metas|
  {
    if metas != [] {
      ReadableBelow(metas[..|metas| - 1]);
    }
  }

  /** Filtering the readable list after a run gives the readable list of the new records. */
  lemma {:induction false} ReadableAfter(metas: seq<Meta>, cutoff: int)
    ensures Compacted(Readable(metas), Unretired(RetireMetas(metas, cutoff))) == Readable(RetireMetas(metas, cutoff))
  {
    hide RetireMetas, Compacted;
    CompactedNext([], 0, Unretired(RetireMetas(metas, cutoff)));
    if metas != [] {
      var n, r := |metas| - 1, RetireMetas(metas, cutoff);
      var front, kept := metas[..n], Readable(metas[..n]);
      ReadableAfter(front, cutoff);
      RetireFront(metas, cutoff);
      ReadableBelow(front);
      CompactedAgrees(kept, Unretired(RetireMetas(front, cutoff)), Unretired(r));
      CompactedNext(kept, n, Unretired(r));
      assert Compacted(kept, Unretired(r)) + [] == Compacted(kept, Unretired(r)) && kept + [] == kept;
    }
  }

  datatype Saved = Installed | NotInstalled | Uncertain

  /** The fields of an open table that readers and statistics use. */
  class Directory {
    var image: Manifest
    var counters: Counters
    var readable: seq<nat>
    var pending: bool
    var readOnly: bool
    var active: bool            // the descriptor, the index and the dictionary of an active segment are held
    var gone: set<nat>          // on disk: the retired segments whose files were removed

    /** The counters are the sums over the segment list, the readable list names the retained segments with rows,
        something is held for an active segment exactly when there is one, and unless a removal is pending the files of
        all retired segments are gone. */
    ghost predicate Valid()
      reads this
    {
      && counters == Count(image.segments) && readable == Readable(image.segments) && Ordered(image.segments)
      && active == HasActive(image) && Cleaned(image.segments, gone, pending)
    }

    constructor (m: Manifest)
      requires m.segments == []
      ensures Valid() && image == m && !pending && !readOnly
    {
      image, counters, readable, pending, readOnly := m, Counters(0, 0, 0, 0), [], false, false;
      active, gone := false, {};
    }

    /** preview. */
    method Preview(now: nat) returns (r: Stats)
      ensures r == Tally(image.segments, Cutoff(image.retention, now), pending)
              && r.cutoff == Cutoff(image.retention, now)
    {
      r := Stats(Cutoff(image.retention, now), 0, 0, 0, 0, 0);
      var i := 0;
      while i < |image.segments|
        invariant 0 <= i <= |image.segments|
        invariant r == Tally(image.segments[..i], r.cutoff, pending) && r.cutoff == Cutoff(image.retention, now)
      {
        var s := image.segments[i];
        assert image.segments[..i + 1][..i] == image.segments[..i];
        i := i + 1;
        if s.state == Retired {
          if pending { r := r.(pending := r.pending + 1); }
          continue;
        }
        if s.last == 0 || s.minTime >= r.cutoff { continue; }
        if s.maxTime >= r.cutoff {
          r := r.(partial := r.partial + 1);
        } else {
          r := r.(segments := r.segments + 1, rows := r.rows + (s.last - s.first + 1), bytes := r.bytes + s.bytes);
        }
      }
      assert image.segments[..i] == image.segments;
    }

    /** cleanup, for a table that so many readers hold: the files of segment i can be removed if removes(i) says so. */
    method Cleanup(readers: nat, removes: nat -> bool) returns (ok: bool, deleted: nat)
      requires Valid()
      modifies this`pending, this`gone
      ensures Valid() && old(gone) <= gone && deleted == |gone - old(gone)|
      ensures !(old(pending) && readers == 0) ==> ok && pending == old(pending) && gone == old(gone)
      ensures old(pending) && readers == 0 ==> pending == !ok && (ok <==> AllRemoved(image.segments, removes))
    {
      hide Count, Readable, Ordered, HasActive;
      if !pending || readers != 0 { return true, 0; }
      ok, gone, deleted := RemoveFiles(image.segments, gone, removes);
      pending := !ok;
    }

    /** The publication of the staged manifest, once it is saved. */
    method Retire(r: Stats)
      requires Valid() && r == Tally(image.segments, r.cutoff, pending)
      modifies this
      ensures Valid() && image == RetireImage(old(image), r.cutoff) && pending
      ensures readOnly == old(readOnly) && gone == old(gone)
    {
      hide Count, Tally, Readable, RetireImage, Ordered, HasActive, Cleaned, Compacted, Unretired, RetireMetas;
      var staged := Stage(image, r.cutoff);
      StagedSegments(image, r.cutoff);
      TallyIsDifference(image.segments, r.cutoff, pending);
      ReadableAfter(image.segments, r.cutoff);
      StillOrdered(image.segments, r.cutoff);
      StillCleaned(image, r.cutoff, gone, pending);
      readable := KeepUnretired(readable, staged.segments);
      image, pending := staged, true;
      counters := Counters(counters.segments - r.segments, counters.bytes - r.bytes, counters.rows - r.rows,
                           counters.retired + r.segments);
      if image.segments != [] && LastMeta(image).state == Retired { active := false; }
    }

    /** wadb_retention_apply: stage, save, publish, adjust the counters, let go of a retired active segment, clean up,
        and count what is left to be removed. */
    method Apply(now: nat, saved: Saved, readers: nat, removes: nat -> bool) returns (r: Stats, ok: bool, deleted: nat)
      requires Valid()
      modifies this
      ensures Valid()
      ensures var tally := Tally(old(image.segments), Cutoff(old(image.retention), now), old(pending));
              var run := !old(readOnly) && tally.segments > 0;
              var installed := run && old(image.generation) != U64_MAX && saved.Installed?;
              var cleans := !old(readOnly) && (run ==> installed) && (old(pending) || installed) && readers == 0;
              && r == tally.(pending := if pending then counters.retired else 0)
              && image == (if installed then RetireImage(old(image), r.cutoff) else old(image))
              && readOnly == (old(readOnly) || (run && old(image.generation) != U64_MAX && saved.Uncertain?))
              && (ok <==> !old(readOnly) && (run ==> installed) && (cleans ==> AllRemoved(image.segments, removes)))
              && pending == (if cleans then !ok else old(pending) || installed)
              && old(gone) <= gone && deleted == |gone - old(gone)| && (!cleans ==> gone == old(gone))
      ensures ok || image != old(image) ==> Forgets(old(image), image, now)
    {
      hide Count, Tally, Readable, RetireImage, Ordered, HasActive, Cleaned, Cutoff, Forgets;
      CutoffForgets(image, now, pending);
      r := Preview(now);
      deleted := 0;
      ok := !readOnly;
      if ok && r.segments != 0 {
        ok := image.generation != U64_MAX && saved.Installed?;
        if image.generation != U64_MAX && saved.Uncertain? { readOnly := true; }
        if ok { Retire(r); }
      }
      if ok { ok, deleted := Cleanup(readers, removes); }
      var left := CountRetired(image.segments);
      r := r.(pending := if pending then left else 0);
    }

    /** The publication at the end of create_active. */
    method Rotate(seg: Seg)
      requires Valid()
      modifies this
      ensures Valid()
      ensures image == RotateImage(old(image), seg)
      ensures pending == old(pending) && readOnly == old(readOnly)
    {
      hide Count, Readable, Ordered, HasActive, Cleaned, RotateImage;
      CountRotated(image, seg);
      RotateCleaned(image, seg, gone, pending);
      image, active := RotateImage(image, seg), true;
      counters := counters.(segments := counters.segments + 1, bytes := counters.bytes + SEGMENT_HEADER_BYTES);
    }

    /** The publication at the end of a commit. */
    method Publish(f: Frame)
      requires Valid() && HasActive(image) && FrameValid(f)
      requires 0 < LastMeta(image).first <= f.firstSequence && f.minTime <= f.maxTime
      requires LastMeta(image).last == if f.firstSequence == LastMeta(image).first then 0 else f.firstSequence - 1
      requires LastMeta(image).last != 0 ==> LastMeta(image).minTime <= f.minTime
      modifies this
      ensures Valid()
      ensures image == old(image).(segments := Published(old(image), f))
      ensures pending == old(pending) && readOnly == old(readOnly)
    {
      hide EncodeFrame, FrameValid;
      var n := |image.segments| - 1;
      var record := LastMeta(image);
      CountPublished(image, f);
      if record.last == 0 { readable := readable + [n]; }
      var bytes := |EncodeFrame(f)|;
      counters := counters.(rows := counters.rows + f.rowCount, bytes := counters.bytes + bytes);
      image := image.(segments := image.segments[n := Durability.Publish(record, f)]);
    }
  }

  /** The segments in gone are retired, and unless a removal is pending they are all that are. */
  ghost predicate Cleaned(metas: seq<Meta>, gone: set<nat>, pending: bool) {
    && (forall k :: k in gone ==> k < |metas| && metas[k].state == Retired)
    && (!pending ==> forall k :: 0 <= k < |metas| && metas[k].state == Retired ==> k in gone)
  }

  ghost predicate AllRemoved(metas: seq<Meta>, removes: nat -> bool) {
    forall k :: 0 <= k < |metas| && metas[k].state == Retired ==> removes(k)
  }

  /** The loop over the retired segments, which stops at the first file that cannot be removed. */
  method RemoveFiles(metas: seq<Meta>, before: set<nat>, removes: nat -> bool)
    returns (ok: bool, gone: set<nat>, deleted: nat)
    requires Cleaned(metas, before, true)
    ensures Cleaned(metas, gone, !ok) && before <= gone && deleted == |gone - before|
    ensures ok <==> AllRemoved(metas, removes)
  {
    ok, gone, deleted := true, before, 0;
    var i := 0;
    while i < |metas|
      invariant 0 <= i <= |metas| && Cleaned(metas, gone, true) && before <= gone && deleted == |gone - before|
      invariant forall k :: 0 <= k < i && metas[k].state == Retired ==> k in gone && removes(k)
    {
      if metas[i].state == Retired {
        if !removes(i) { return false, gone, deleted; }
        OneMore(gone, before, i);
        deleted := deleted + if i in gone then 0 else 1;
        gone := gone + {i};
      }
      i := i + 1;
    }
  }

  lemma {:induction false} OneMore(gone: set<nat>, before: set<nat>, i: nat)
    requires before <= gone
    ensures |(gone + {i}) - before| == |gone - before| + if i in gone then 0 else 1
  {
    if i in gone {
      assert gone + {i} == gone;
    } else {
      assert (gone + {i}) - before == (gone - before) + {i};
    }
  }

  lemma {:induction false} StillCleaned(m: Manifest, cutoff: int, gone: set<nat>, pending: bool)
    requires Cleaned(m.segments, gone, pending)
    ensures var r := RetireImage(m, cutoff);
            && Cleaned(r.segments, gone, true) && |r.segments| == |m.segments|
            && (HasActive(r) <==> HasActive(m) && (r.segments == [] || LastMeta(r).state != Retired))
  {
  }

  lemma {:induction false} RotateCleaned(m: Manifest, seg: Seg, gone: set<nat>, pending: bool)
    requires Cleaned(m.segments, gone, pending)
    ensures Cleaned(RotateImage(m, seg).segments, gone, pending) && HasActive(RotateImage(m, seg))
  {
  }

  /** The loop that counts what is left to be removed. */
  method CountRetired(metas: seq<Meta>) returns (n: nat)
    ensures n == Count(metas).retired
  {
    n := 0;
    var i := 0;
    while i < |metas|
      invariant 0 <= i <= |metas| && n == Count(metas[..i]).retired
    {
      assert metas[..i + 1][..i] == metas[..i];
      if metas[i].state == Retired { n := n + 1; }
      i := i + 1;
    }
    assert metas[..i] == metas;
  }

  /** The staged watermark after the first i records. */
  function StagedAfter(m: Manifest, i: nat, cutoff: int): Manifest
    requires i <= |m.segments|
  {
    var w := LastExpired(m.segments[..i], cutoff);
    var n := m.(generation := m.generation + 1);
    if w.None? then n else n.(preservedSequence := w.value.last, preservedTime := w.value.maxTime)
  }

  lemma StagedSegments(m: Manifest, cutoff: int)
    ensures RetireImage(m, cutoff).segments == RetireMetas(m.segments, cutoff)
  {
  }

  lemma StillOrdered(metas: seq<Meta>, cutoff: int)
    requires Ordered(metas)
    ensures Ordered(RetireMetas(metas, cutoff))
  {
  }

  /** The marking loop over the staged copy. */
  method Stage(m: Manifest, cutoff: int) returns (staged: Manifest)
    ensures staged == RetireImage(m, cutoff)
  {
    staged := m.(generation := m.generation + 1);
    var segments, i := m.segments, 0;
    while i < |segments|
      invariant 0 <= i <= |segments| == |m.segments|
      invariant forall k :: 0 <= k < i ==> segments[k] == RetireMetas(m.segments, cutoff)[k]
      invariant forall k :: i <= k < |segments| ==> segments[k] == m.segments[k]
      invariant staged == StagedAfter(m, i, cutoff)
    {
      assert m.segments[..i + 1][..i] == m.segments[..i];
      var s := segments[i];
      if !(s.state == Retired || s.last == 0 || s.maxTime >= cutoff) {
        segments := segments[i := s.(state := Retired)];
        staged := staged.(preservedSequence := s.last, preservedTime := s.maxTime);
      }
      i := i + 1;
    }
    assert m.segments[..i] == m.segments;
    assert segments == RetireMetas(m.segments, cutoff);
    staged := staged.(segments := segments);
  }

  /** The loop that compacts the readable list. */
  method KeepUnretired(readable: seq<nat>, metas: seq<Meta>) returns (kept: seq<nat>)
    ensures kept == Compacted(readable, Unretired(metas))
  {
    kept := [];
    var k := 0;
    while k < |readable|
      invariant 0 <= k <= |readable| && kept == Compacted(readable[..k], Unretired(metas))
    {
      assert readable[..k + 1][..k] == readable[..k];
      var p := readable[k];
      if p < |metas| && metas[p].state != Retired { kept := kept + [p]; }
      k := k + 1;
    }
    assert readable[..k] == readable;
  }

  lemma CountRotated(m: Manifest, seg: Seg)
    ensures var c, r := Count(m.segments), RotateImage(m, seg).segments;
            && Count(r) == c.(segments := c.segments + 1, bytes := c.bytes + SEGMENT_HEADER_BYTES)
            && Readable(r) == Readable(m.segments)
            && (Ordered(m.segments) ==> Ordered(r))
  {
    var r, n := RotateImage(m, seg).segments, |m.segments|;
    RotateStates(m, seg);
    if HasActive(m) {
      assert r[..n][..n - 1] == m.segments[..n - 1];
      assert r[..n][n - 1] == m.segments[n - 1].(state := Sealed);
    } else {
      assert r[..n] == m.segments;
    }
    assert Readable(r[..n]) + [] == Readable(r[..n]);
  }

  lemma CountPublished(m: Manifest, f: Frame)
    requires HasActive(m) && FrameValid(f) && 0 < LastMeta(m).first <= f.firstSequence && f.minTime <= f.maxTime
    requires LastMeta(m).last == if f.firstSequence == LastMeta(m).first then 0 else f.firstSequence - 1
    requires LastMeta(m).last != 0 ==> LastMeta(m).minTime <= f.minTime
    ensures var n := |m.segments| - 1;
            var c, r := Count(m.segments), m.segments[n := Durability.Publish(LastMeta(m), f)];
            && Count(r) == c.(rows := c.rows + f.rowCount, bytes := c.bytes + |EncodeFrame(f)|)
            && Readable(r) == Readable(m.segments) + (if LastMeta(m).last == 0 then [n] else [])
            && (Ordered(m.segments) ==> Ordered(r))
  {
    hide EncodeFrame, ContentValid, RowBytes;
    var n := |m.segments| - 1;
    var r := m.segments[n := Durability.Publish(LastMeta(m), f)];
    assert r[..n] == m.segments[..n];
  }

  // ---- what becomes of the rows ----

  /** Every row of a segment is before a time. */
  ghost predicate AllBefore(s: Seg, time: int) {
    forall f, r :: f in s.frames && FrameValid(f) && 0 <= r < f.rowCount ==> TimeAt(f, r) < time
  }

  /** In a run, a segment of the table's history becomes retired exactly if it has rows, rows are not kept for ever, and
      every row of it is longer ago than rows are kept. */
  lemma {:induction false} RetiredExactly(t: Table, m: Manifest, m': Manifest, hist: seq<Seg>, now: nat, i: nat)
    requires TableValid(t) && HistFits(t, hist) && Matches(t, m, hist) && IsExact(t, m, hist) && i < |hist|
    requires m.segments[i].state != Retired && Forgets(m, m', now)
    ensures m'.segments[i].state == Retired <==>
            && hist[i].frames != [] && m.retention != 0 && now >= m.retention
            && AllBefore(hist[i], now - m.retention)
  {
    hide HistFits, MetaOf, LastExpired, RetiredEnd, RetiredPrefix, RecordMatches, FramesFit, FrameValid, AllBefore;
    FitsAt(t, hist, i);
    if hist[i].frames != [] {
      NonEmptyLast(t, m, hist, i);
      LatestRow(t, hist[i], LastSequence(hist[..i]), LastTime(hist[..i]), now - m.retention);
    } else {
      EmptyLast(t, m, hist, i);
    }
  }

  lemma {:induction false} EmptyLast(t: Table, m: Manifest, hist: seq<Seg>, i: nat)
    requires IsExact(t, m, hist) && i < |hist| && hist[i].frames == []
    ensures m.segments[i].last == 0
  {
    hide SegBytes;
  }

  lemma {:induction false} LatestRow(t: Table, s: Seg, last: int, time: int, bound: int)
    requires FramesFit(t, s.day, s.frames, last, time) && s.frames != []
    ensures AllBefore(s, bound) <==> EndTime(s.frames, time) < bound
  {
    hide FramesFit, ContentValid, RowBytes, TimeAt;
    var f := s.frames[|s.frames| - 1];
    FramesEndFirst(t, s.day, s.frames, last, time, f);
    TimesWithin(f);
    if AllBefore(s, bound) {
      assert TimeAt(f, f.rowCount - 1) < bound;
    }
    if EndTime(s.frames, time) < bound {
      forall g, r | g in s.frames && FrameValid(g) && 0 <= r < g.rowCount ensures TimeAt(g, r) < bound {
        FramesEndFirst(t, s.day, s.frames, last, time, g);
        TimesWithin(g);
      }
    }
  }

  lemma {:induction false} TimesWithin(f: Frame)
    requires FrameValid(f)
    ensures f.rowCount > 0 && TimeAt(f, f.rowCount - 1) == f.maxTime
    ensures forall r :: 0 <= r < f.rowCount ==> TimeAt(f, r) <= f.maxTime
  {
    hide DefinitionsValid, TimeAt;
    forall r | 0 <= r < f.rowCount ensures TimeAt(f, r) <= f.maxTime {
      assert TimeAt(f, r) <= TimeAt(f, f.rowCount - 1);
    }
  }

  /** A retention run with any cutoff retires a segment only if every time in it is before the cutoff. */
  lemma RetiredIsOld(t: Table, m: Manifest, hist: seq<Seg>, cutoff: int, i: nat, f: Frame)
    requires TableValid(t) && HistFits(t, hist) && Matches(t, m, hist) && IsExact(t, m, hist) && i < |hist|
    requires m.segments[i].state != Retired && RetireImage(m, cutoff).segments[i].state == Retired
    requires f in hist[i].frames
    ensures FrameValid(f) && f.maxTime < cutoff
  {
    hide HistFits, MetaOf, LastExpired, RetiredEnd, RetiredPrefix, RecordMatches, FramesFit, FrameValid;
    NonEmptyLast(t, m, hist, i);
    FitsAt(t, hist, i);
    FramesEndFirst(t, hist[i].day, hist[i].frames, LastSequence(hist[..i]), LastTime(hist[..i]), f);
  }

  lemma {:induction false} FramesEndFirst(t: Table, day: int, frames: seq<Frame>, last: int, time: int, f: Frame)
    requires FramesFit(t, day, frames, last, time) && f in frames
    ensures FrameValid(f) && f.maxTime <= EndTime(frames, time)
    decreases |frames|
  {
    hide FrameValid;
    var front, g := frames[..|frames| - 1], frames[|frames| - 1];
    if f != g {
      FramesEndFirst(t, day, front, last, time, f);
      FrameSpans(g);
    }
  }

  lemma FrameSpans(f: Frame)
    requires FrameValid(f)
    ensures f.minTime <= f.maxTime
  {
    hide ContentValid, RowBytes;
  }
}
