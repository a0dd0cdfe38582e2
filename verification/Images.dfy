/** The manifests that rotation, retention, configuration and commits produce
    still describe the history. */
module Images {
  import opened Bytes
  import opened Frames
  import opened Logs
  import opened Segments
  import opened History
  import opened Recovery
  import opened Reopen
  import opened Durability

  /** Every record is exact, the active one included. */
  ghost predicate IsExact(t: Table, m: Manifest, hist: seq<Seg>) {
    |m.segments| == |hist| && forall i :: 0 <= i < |hist| ==> m.segments[i] == MetaOf(t, hist[i], m.segments[i].state)
  }

  // ---- histories ----

  lemma AddSegFits(t: Table, hist: seq<Seg>, seg: Seg)
    requires HistFits(t, hist) && seg.frames == [] && seg.id != 0 && seg.day >= 0 && seg.day % DAY_US == 0
    requires seg.first == LastSequence(hist) + 1 && (hist != [] ==> LastSeg(hist).id < seg.id)
    ensures HistFits(t, hist + [seg])
    ensures Log(hist + [seg]) == Log(hist)
    ensures LastSequence(hist + [seg]) == LastSequence(hist) && LastTime(hist + [seg]) == LastTime(hist)
  {
    hide SegFits;
    EmptySegFits(t, seg, LastSequence(hist), LastTime(hist));
    var hist' := hist + [seg];
    assert hist'[..|hist|] == hist && hist'[|hist'| - 1] == seg && |hist'| - 1 == |hist|;
    assert Log(hist) + [] == Log(hist);
  }

  lemma EmptySegFits(t: Table, seg: Seg, last: int, time: int)
    requires seg.frames == [] && seg.id != 0 && seg.day >= 0 && seg.day % DAY_US == 0 && seg.first == last + 1
             && last >= 0
    ensures SegFits(t, seg, last, time)
  {
  }

  lemma AddFrameFits(t: Table, hist: seq<Seg>, f: Frame)
    requires HistFits(t, hist) && hist != []
    requires FrameFits(t, LastSeg(hist).day, LastSeg(hist).frames, f, LastSequence(hist), LastTime(hist))
    ensures HistFits(t, AddFrame(hist, f))
    ensures Log(AddFrame(hist, f)) == Log(hist) + [f]
    ensures LastSequence(AddFrame(hist, f)) == LastSequence(hist) + f.rowCount == f.firstSequence + f.rowCount - 1
    ensures LastTime(AddFrame(hist, f)) == f.maxTime
  {
    hide FrameValid;
    var n, hist' := |hist| - 1, AddFrame(hist, f);
    var front, s := hist[..n], LastSeg(hist);
    assert hist'[..n] == front;
    FitsOn(t, s.day, s.frames, f, LastSequence(front), LastTime(front));
    assert Log(front) + (s.frames + [f]) == Log(front) + s.frames + [f];
  }

  // ---- rotation ----

  lemma SealedMeta(t: Table, s: Seg, state: SegState, state': SegState)
    ensures MetaOf(t, s, state).(state := state') == MetaOf(t, s, state')
  {
    hide SegBytes;
  }

  lemma EmptyMeta(t: Table, s: Seg)
    requires TableValid(t) && s.frames == [] && s.id != 0 && s.first != 0 && s.day >= 0 && s.day % DAY_US == 0
    ensures MetaOf(t, s, Active) == Meta(s.id, s.day, s.first, 0, 0, 0, SEGMENT_HEADER_BYTES, Active)
    ensures |SegBytes(t, s)| == 128 && Writable(t, s)
  {
    hide DecodeSegment, SegBytes;
    SegParts(t, s, []);
    assert SegBytes(t, s) + [] == SegBytes(t, s);
    NoFrames();
  }

  lemma ExactDescribes(t: Table, m: Meta, s: Seg)
    requires m == MetaOf(t, s, m.state)
    ensures Describes(t, m, s)
  {
    hide MetaOf;
    if m.state == Active {
      assert Earlier(s, |s.frames|) == s;
    }
  }

  lemma {:induction false} EndByStates(a: seq<Meta>, b: seq<Meta>)
    requires |a| <= |b|
    requires forall i :: 0 <= i < |a| ==> (a[i].state == Retired <==> b[i].state == Retired)
    requires forall i :: |a| <= i < |b| ==> b[i].state != Retired
    ensures RetiredEnd(a) == RetiredEnd(b)
  {
  }

  lemma RotateStates(m: Manifest, s: Seg)
    ensures var r := RotateImage(m, s);
            && |r.segments| == |m.segments| + 1
            && (forall i :: 0 <= i < |m.segments| ==>
                  r.segments[i] == if m.segments[i].state == Active && i + 1 == |m.segments|
                                   then m.segments[i].(state := Sealed) else m.segments[i])
            && LastMeta(r) == Meta(s.id, s.day, s.first, 0, 0, 0, SEGMENT_HEADER_BYTES, Active)
            && RetiredEnd(r.segments) == RetiredEnd(m.segments)
  {
    hide RetiredEnd;
    EndByStates(m.segments, RotateImage(m, s).segments);
  }

  /** The image that rotation writes describes the history with the new, empty segment. */
  lemma RotateMatches(t: Table, m: Manifest, hist: seq<Seg>, seg: Seg)
    requires TableValid(t) && Matches(t, m, hist) && IsExact(t, m, hist) && HistFits(t, hist + [seg])
    requires seg.frames == [] && m.nextId <= seg.id
    ensures Matches(t, RotateImage(m, seg), hist + [seg]) && IsExact(t, RotateImage(m, seg), hist + [seg])
  {
    hide HistFits, MetaOf, RotateImage, RetiredEnd, Describes, SegBytes, LastSequence, LastTime, FramesFit;
    var r, hist' := RotateImage(m, seg), hist + [seg];
    RotateStates(m, seg);
    FitsAt(t, hist', |hist|);
    assert hist'[..|hist|] == hist;
    EmptyMeta(t, seg);
    assert r.nextId == seg.id + 1 && r.generation == m.generation + 1 && r.retention == m.retention &&
           r.preservedSequence == m.preservedSequence && r.preservedTime == m.preservedTime by { RotateRest(m, seg); }
    forall i | 0 <= i < |hist'|
      ensures r.segments[i] == MetaOf(t, hist'[i], r.segments[i].state) && RecordMatches(t, r, hist', i)
    {
      if i < |hist| {
        assert RecordMatches(t, m, hist, i);
        SealedMeta(t, hist[i], m.segments[i].state, r.segments[i].state);
      }
      ExactDescribes(t, r.segments[i], hist'[i]);
    }
    var c := RetiredEnd(m.segments);
    assert hist'[..c] == hist[..c];
  }

  lemma RotateRest(m: Manifest, s: Seg)
    ensures var r := RotateImage(m, s);
            && r.nextId == s.id + 1 && r.generation == m.generation + 1 && r.retention == m.retention
            && r.preservedSequence == m.preservedSequence && r.preservedTime == m.preservedTime
  {
  }

  // ---- retention ----

  lemma LastExpiredIs(metas: seq<Meta>, cutoff: int)
    ensures var w := LastExpired(metas, cutoff);
            && (w.None? ==> forall i :: 0 <= i < |metas| ==> !Expired(metas[i], cutoff))
            && (w.Some? ==> exists x :: IsLastExpired(metas, cutoff, x) && metas[x] == w.value)
  {
    if metas == [] {
    } else if Expired(metas[|metas| - 1], cutoff) {
      assert IsLastExpired(metas, cutoff, |metas| - 1);
    } else {
      var front := metas[..|metas| - 1];
      LastExpiredIs(front, cutoff);
      if x :| IsLastExpired(front, cutoff, x) && front[x] == LastExpired(front, cutoff).value {
        assert IsLastExpired(metas, cutoff, x);
      }
    }
  }

  predicate IsLastExpired(metas: seq<Meta>, cutoff: int, x: int) {
    && 0 <= x < |metas| && Expired(metas[x], cutoff)
    && forall i :: x < i < |metas| ==> !Expired(metas[i], cutoff)
  }

  /** Whether a record holds rows can be read off its last sequence number. */
  lemma NonEmptyLast(t: Table, m: Manifest, hist: seq<Seg>, i: nat)
    requires TableValid(t) && HistFits(t, hist) && IsExact(t, m, hist) && i < |hist|
    ensures m.segments[i].last != 0 <==> hist[i].frames != []
    ensures hist[i].frames != [] ==>
              m.segments[i].last == LastSequence(hist[..i + 1]) && m.segments[i].maxTime == LastTime(hist[..i + 1])
  {
    hide HistFits, SegBytes, FramesFit, LastTime, LastSequence;
    FitsAt(t, hist, i);
    if hist[i].frames != [] {
      LastNumber(t, hist[i].day, hist[i].frames, LastSequence(hist[..i]), LastTime(hist[..i]));
      FramesEndLater(t, hist[i].day, hist[i].frames, LastSequence(hist[..i]), LastTime(hist[..i]));
    }
  }

  /** Times never go back from one segment to the next, so expiry takes a prefix of the segments with rows. */
  lemma MaxTimeGrows(t: Table, m: Manifest, hist: seq<Seg>, i: nat, j: nat)
    requires TableValid(t) && HistFits(t, hist) && IsExact(t, m, hist) && i < j < |hist|
    requires hist[i].frames != [] && hist[j].frames != []
    ensures m.segments[i].maxTime <= m.segments[j].maxTime
  {
    hide HistFits, IsExact, LastTime;
    NonEmptyLast(t, m, hist, i);
    NonEmptyLast(t, m, hist, j);
    TimeGrows(t, hist, i + 1, j + 1);
  }

  lemma RetirePrefix(t: Table, m: Manifest, hist: seq<Seg>, cutoff: int)
    requires TableValid(t) && HistFits(t, hist) && Matches(t, m, hist) && IsExact(t, m, hist)
    ensures RetiredPrefix(RetireImage(m, cutoff), hist)
  {
    hide HistFits, IsExact, RecordMatches, LastExpired, RetiredEnd;
    var r := RetireImage(m, cutoff);
    forall i, j | 0 <= i < j < |hist| && r.segments[j].state == Retired && hist[i].frames != []
      ensures r.segments[i].state == Retired
    {
      NonEmptyLast(t, m, hist, i);
      NonEmptyLast(t, m, hist, j);
      if Expired(m.segments[j], cutoff) {
        MaxTimeGrows(t, m, hist, i, j);
      }
    }
  }

  /** After a retention run the watermark stands at the last retired segment. */
  lemma RetireWatermark(t: Table, m: Manifest, hist: seq<Seg>, cutoff: int)
    requires TableValid(t) && HistFits(t, hist) && Matches(t, m, hist) && IsExact(t, m, hist)
    ensures var r := RetireImage(m, cutoff);
            && r.preservedSequence == LastSequence(hist[..RetiredEnd(r.segments)])
            && r.preservedTime == LastTime(hist[..RetiredEnd(r.segments)])
  {
    hide HistFits, IsExact, RecordMatches, LastExpired, LastSequence, LastTime;
    var r := RetireImage(m, cutoff);
    LastExpiredIs(m.segments, cutoff);
    if LastExpired(m.segments, cutoff).None? {
      EndByStates(m.segments, r.segments);
    } else {
      var x :| IsLastExpired(m.segments, cutoff, x) && m.segments[x] == LastExpired(m.segments, cutoff).value;
      NonEmptyLast(t, m, hist, x);
      assert r.segments[x].state == Retired;
      forall i | x < i < |hist| ensures r.segments[i].state != Retired {
        assert m.segments[i].state != Retired;
      }
      assert RetiredEnd(r.segments) == x + 1;
    }
  }

  lemma RetireRecord(t: Table, m: Manifest, hist: seq<Seg>, cutoff: int, i: nat)
    requires TableValid(t) && HistFits(t, hist) && Matches(t, m, hist) && IsExact(t, m, hist) && i < |hist|
    ensures var r := RetireImage(m, cutoff);
            r.segments[i] == MetaOf(t, hist[i], r.segments[i].state) && RecordMatches(t, r, hist, i)
  {
    hide HistFits, MetaOf, LastExpired, RetiredEnd, RetiredPrefix, Describes;
    var r := RetireImage(m, cutoff);
    assert RecordMatches(t, m, hist, i);
    NonEmptyLast(t, m, hist, i);
    SealedMeta(t, hist[i], m.segments[i].state, r.segments[i].state);
    ExactDescribes(t, r.segments[i], hist[i]);
  }

  /** The image that a retention run writes describes the same history. */
  lemma RetireMatches(t: Table, m: Manifest, hist: seq<Seg>, cutoff: int)
    requires TableValid(t) && HistFits(t, hist) && Matches(t, m, hist) && IsExact(t, m, hist)
    ensures Matches(t, RetireImage(m, cutoff), hist) && IsExact(t, RetireImage(m, cutoff), hist)
    ensures forall i :: 0 <= i < |hist| && RetireImage(m, cutoff).segments[i].state != Retired ==>
              m.segments[i].state != Retired
  {
    hide HistFits, MetaOf, RetiredEnd, RetiredPrefix, RecordMatches, LastSequence, LastTime, LastExpired;
    var r := RetireImage(m, cutoff);
    RetirePrefix(t, m, hist, cutoff);
    RetireWatermark(t, m, hist, cutoff);
    forall i | 0 <= i < |hist|
      ensures r.segments[i] == MetaOf(t, hist[i], r.segments[i].state) && RecordMatches(t, r, hist, i)
    {
      RetireRecord(t, m, hist, cutoff, i);
    }
  }

  lemma ConfigureMatches(t: Table, m: Manifest, hist: seq<Seg>, retention: nat)
    requires Matches(t, m, hist) && IsExact(t, m, hist) && retention <= I64_MAX
    ensures Matches(t, ConfigureImage(m, retention), hist) && IsExact(t, ConfigureImage(m, retention), hist)
    ensures ConfigureImage(m, retention) == m.(retention := retention, generation := m.generation + 1)
  {
    hide MetaOf, RetiredEnd, Describes, SegBytes;
    var r := ConfigureImage(m, retention);
    forall i | 0 <= i < |hist| ensures RecordMatches(t, r, hist, i) {
      assert RecordMatches(t, m, hist, i);
    }
  }

  // ---- commits ----

  lemma PublishExact(t: Table, s: Seg, f: Frame, last: int, time: int)
    requires TableValid(t) && SegFits(t, s, last, time)
    requires FrameFits(t, s.day, s.frames, f, last + RowTotal(s.frames), EndTime(s.frames, time))
    ensures Publish(MetaOf(t, s, Active), f) == MetaOf(t, s.(frames := s.frames + [f]), Active)
    ensures SegBytes(t, s.(frames := s.frames + [f])) == SegBytes(t, s) + EncodeFrame(f)
  {
    hide FrameValid, EncodeFrame, LogBytes, FramesFit, EncodeSegment;
    SegWritable(t, s, last, time);
    LogAppend(s.frames, f);
    var h := HeaderFor(t, s.id, s.day, s.first);
    assert EncodeSegment(h) + (LogBytes(s.frames) + EncodeFrame(f)) == EncodeSegment(h) + LogBytes(s.frames) +
           EncodeFrame(f);
    if s.frames != [] {
      LastNumber(t, s.day, s.frames, last, time);
      FramesEndLater(t, s.day, s.frames, last, time);
    }
  }

  /** A manifest that describes a history with an active last segment also describes it with one more frame there. */
  lemma StaleMatches(t: Table, m: Manifest, hist: seq<Seg>, f: Frame)
    requires Matches(t, m, hist) && HasActive(m) && |SegBytes(t, LastSeg(AddFrame(hist, f)))| <= I64_MAX
    ensures Matches(t, m, AddFrame(hist, f))
  {
    hide MetaOf, SegBytes, LastSequence, LastTime;
    var n, hist' := |hist| - 1, AddFrame(hist, f);
    forall i | 0 <= i < |hist'| ensures RecordMatches(t, m, hist', i) {
      assert RecordMatches(t, m, hist, i);
      if i == n {
        var k: nat :| k <= |hist[n].frames| && m.segments[n] == MetaOf(t, Earlier(hist[n], k), Active);
        assert Earlier(hist'[n], k) == Earlier(hist[n], k);
      }
    }
    var c := RetiredEnd(m.segments);
    assert c <= n;
    assert hist'[..c] == hist[..c];
  }

  lemma PublishRecord(t: Table, m: Manifest, hist: seq<Seg>, f: Frame, i: nat)
    requires TableValid(t) && HistFits(t, hist) && Matches(t, m, hist) && IsExact(t, m, hist) && HasActive(m)
    requires FrameFits(t, LastSeg(hist).day, LastSeg(hist).frames, f, LastSequence(hist), LastTime(hist))
    requires |SegBytes(t, LastSeg(hist))| + |EncodeFrame(f)| <= I64_MAX && i < |hist|
    ensures var m' := m.(segments := Published(m, f));
            var hist' := AddFrame(hist, f);
            m'.segments[i] == MetaOf(t, hist'[i], m'.segments[i].state) && RecordMatches(t, m', hist', i)
    ensures SegBytes(t, LastSeg(AddFrame(hist, f))) == SegBytes(t, LastSeg(hist)) + EncodeFrame(f)
  {
    hide MetaOf, SegBytes, SegFits, FrameValid, EncodeFrame, HistFits, Describes, RetiredPrefix, RetiredEnd;
    var n, hist' := |hist| - 1, AddFrame(hist, f);
    var m' := m.(segments := m.segments[n := Publish(LastMeta(m), f)]);
    FitsAt(t, hist, n);
    assert hist[..n + 1] == hist;
    PublishExact(t, hist[n], f, LastSequence(hist[..n]), LastTime(hist[..n]));
    assert RecordMatches(t, m, hist, i);
    assert m'.segments[i] == MetaOf(t, hist'[i], m'.segments[i].state);
    ExactDescribes(t, m'.segments[i], hist'[i]);
  }

  /** Publishing a frame keeps every record exact. */
  lemma PublishMatches(t: Table, m: Manifest, hist: seq<Seg>, f: Frame)
    requires TableValid(t) && HistFits(t, hist) && Matches(t, m, hist) && IsExact(t, m, hist) && HasActive(m)
    requires FrameFits(t, LastSeg(hist).day, LastSeg(hist).frames, f, LastSequence(hist), LastTime(hist))
    requires |SegBytes(t, LastSeg(hist))| + |EncodeFrame(f)| <= I64_MAX
    ensures var m' := m.(segments := Published(m, f));
            Matches(t, m', AddFrame(hist, f)) && IsExact(t, m', AddFrame(hist, f))
    ensures SegBytes(t, LastSeg(AddFrame(hist, f))) == SegBytes(t, LastSeg(hist)) + EncodeFrame(f)
  {
    hide MetaOf, SegBytes, FrameValid, EncodeFrame, HistFits, RecordMatches, LastSequence, LastTime;
    var n, hist' := |hist| - 1, AddFrame(hist, f);
    var m' := m.(segments := m.segments[n := Publish(LastMeta(m), f)]);
    forall i | 0 <= i < |hist'|
      ensures m'.segments[i] == MetaOf(t, hist'[i], m'.segments[i].state) && RecordMatches(t, m', hist', i)
    {
      PublishRecord(t, m, hist, f, i);
    }
    PublishRecord(t, m, hist, f, n);
    EndByStates(m.segments, m'.segments);
    var c := RetiredEnd(m.segments);
    assert c <= n;
    assert hist'[..c] == hist[..c];
  }
}
