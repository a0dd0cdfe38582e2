/** What recovery accepts, whatever the files hold (src/storage/segments.c:101-234): a scanned segment is its header,
    the encodings of frames that continue the table, and at the end of an active one perhaps a frame that was not
    finished. In particular a damaged frame is never taken for the end of the log. */
module ScannedLogs {
  import opened Bytes
  import opened Frames
  import opened Logs
  import opened Segments
  import opened History
  import opened Recovery
  import opened Reopen

  // ---- the end of a log ----

  /** Too short for a frame header, or for the frame that its header announces. */
  ghost predicate Unfinished(tail: seq<Byte>) {
    |tail| < 80 || exists h :: Announces(h, tail)
  }

  ghost predicate Announces(h: Header, tail: seq<Byte>) {
    && SizesValid(h) && h.frameBytes == TotalBytes(h)
    && |tail| >= 80 && tail[..80] == HeaderBytes(h) && |tail| < h.frameBytes
  }

  lemma {:induction false} TornIff(s: seq<Byte>)
    ensures NextFrame(s) == Torn <==> Unfinished(s)
  {
    hide InspectFrame, DecodeFrame, HeaderBytes, SizesValid, TotalBytes;
    if |s| >= 80 {
      var p := s[..80];
      assert p[..80] == p;
      if NextFrame(s) == Torn {
        var h := InspectFrame(p).value;
        InspectIff(h, p);
        assert Announces(h, s);
      }
      if Unfinished(s) {
        var h :| Announces(h, s);
        InspectIff(h, p);
      }
    }
  }

  /** Reading stops at the end, at an unfinished frame, or at a frame that is neither that nor acceptable. */
  lemma {:induction false} ReadStops(s: seq<Byte>)
    ensures var r := ReadLog(s);
            && (r.ending == Clean ==> s[r.bytes..] == [])
            && (r.ending == Cut ==> s[r.bytes..] != [] && NextFrame(s[r.bytes..]) == Torn)
    decreases |s|
  {
    hide NextFrame;
    if s != [] && NextFrame(s).Whole? {
      var n := NextFrame(s).bytes;
      ReadStops(s[n..]);
      assert s[n..][ReadLog(s[n..]).bytes..] == s[n + ReadLog(s[n..]).bytes..];
    } else {
      assert s[0..] == s;
    }
  }

  /** A log that is not damaged is read as some frames exactly when it is their encodings and perhaps one frame that was
      not finished. */
  lemma {:induction false} ReadIff(s: seq<Byte>, frames: seq<Frame>, n: nat, ending: Ending)
    requires ending != Damaged
    ensures ReadLog(s) == Reading(frames, n, ending) <==>
            && AllValid(frames) && n == |LogBytes(frames)| <= |s| && s[..n] == LogBytes(frames)
            && (ending == Clean <==> s[n..] == []) && (ending == Cut ==> Unfinished(s[n..]))
  {
    hide ReadLog, FrameValid, LogBytes, NextFrame, Unfinished;
    ReadSound(s);
    ReadStops(s);
    if ReadLog(s) == Reading(frames, n, ending) {
      TornIff(s[n..]);
    }
    if AllValid(frames) && n == |LogBytes(frames)| <= |s| && s[..n] == LogBytes(frames) {
      var tail := s[n..];
      assert s == LogBytes(frames) + tail;
      ReadBack(frames, tail);
      ReadStart(tail);
      TornIff(tail);
      assert frames + [] == frames;
    }
  }

  // ---- one segment ----

  /** Frame k continues the table where the frames before it leave off. */
  ghost predicate Continues(t: Table, day: int, frames: seq<Frame>, k: nat, last: int, time: int)
    requires k < |frames|
  {
    var f := frames[k];
    && FrameValid(f) && f.schemaHash == t.schemaHash && f.rowWidth == t.rowWidth
    && f.firstSequence == 1 + (if k == 0 then last else frames[k - 1].firstSequence + frames[k - 1].rowCount - 1)
    && f.minTime >= (if k == 0 then time else frames[k - 1].maxTime) && f.minTime / DAY_US == day / DAY_US
    && t.accepts(frames[..k], f)
  }

  ghost predicate AllContinue(t: Table, day: int, frames: seq<Frame>, last: int, time: int) {
    forall k :: 0 <= k < |frames| ==> Continues(t, day, frames, k, last, time)
  }

  lemma {:induction false} FitsIff(t: Table, day: int, frames: seq<Frame>, last: int, time: int)
    ensures FramesFit(t, day, frames, last, time) <==> AllContinue(t, day, frames, last, time)
    ensures FramesFit(t, day, frames, last, time) && frames != [] ==>
              last + RowTotal(frames) == frames[|frames| - 1].firstSequence + frames[|frames| - 1].rowCount - 1
  {
    hide FrameValid;
    if frames != [] {
      var n := |frames| - 1;
      var front := frames[..n];
      FitsIff(t, day, front, last, time);
      forall k | 0 <= k < n
        ensures Continues(t, day, front, k, last, time) <==> Continues(t, day, frames, k, last, time)
      {
        assert front[..k] == frames[..k];
      }
      if AllContinue(t, day, frames, last, time) {
        forall k | 0 <= k < n ensures Continues(t, day, front, k, last, time) {
          assert Continues(t, day, frames, k, last, time);
        }
        assert Continues(t, day, frames, n, last, time);
      }
    }
  }

  /** The file of a segment: its header, whole frames, and perhaps, if it is active, an unfinished one. */
  ghost predicate Contains(t: Table, m: Meta, p: seq<Byte>, frames: seq<Frame>, tail: seq<Byte>) {
    var h := HeaderFor(t, m.id, m.day, m.first);
    && SegmentValid(h) && AllValid(frames) && p == EncodeSegment(h) + LogBytes(frames) + tail
    && (tail != [] ==> m.state == Active && Unfinished(tail))
  }

  function LastOf(frames: seq<Frame>): int {
    if frames == [] then 0 else frames[|frames| - 1].firstSequence + frames[|frames| - 1].rowCount - 1
  }

  /** The record of the segment fits its frames: of an active one it may be out of date. */
  ghost predicate Agrees(m: Meta, frames: seq<Frame>)
    requires AllValid(frames)
  {
    var bytes := 128 + |LogBytes(frames)|;
    if m.state == Active then m.bytes <= bytes && m.last <= LastOf(frames)
    else
      && m.bytes == bytes && m.last == LastOf(frames)
      && m.minTime == (if frames == [] then 0 else frames[0].minTime)
      && m.maxTime == (if frames == [] then 0 else frames[|frames| - 1].maxTime)
  }

  /** What a scan of a segment finds and makes of it. */
  ghost predicate Scanned(t: Table, m: Meta, p: seq<Byte>, frames: seq<Frame>, tail: seq<Byte>, last: int, time: int,
                          out: Outcome)
  {
    && Contains(t, m, p, frames, tail) && Agrees(m, frames)
    && m.first == last + 1 && last != U64_MAX && AllContinue(t, m.day, frames, last, time)
    && out == Accepted(
                m.(last := LastOf(frames), minTime := if frames == [] then 0 else frames[0].minTime,
                   maxTime := if frames == [] then 0 else frames[|frames| - 1].maxTime,
                   bytes := 128 + |LogBytes(frames)|),
                if frames == [] then last else LastOf(frames),
                if frames == [] then time else frames[|frames| - 1].maxTime)
  }

  /** A segment that is scanned is accepted exactly when its file contains frames that continue the table and that its
      record agrees with, and then as what they say. */
  lemma {:induction false} ScannedIff(t: Table, m: Meta, p: seq<Byte>, last: int, time: int, indexed: bool,
                                      out: Outcome)
    requires (m.state == Active || !indexed) && out.Accepted?
    ensures RecoverSegment(t, m, Some(p), last, time, indexed) == out <==>
            exists frames, tail :: Scanned(t, m, p, frames, tail, last, time, out)
  {
    hide RecoverSegment, Scanned;
    if RecoverSegment(t, m, Some(p), last, time, indexed) == out {
      var frames, tail := AcceptedScan(t, m, p, last, time, indexed);
    }
    if frames, tail :| Scanned(t, m, p, frames, tail, last, time, out) {
      ScanAccepts(t, m, p, frames, tail, last, time, indexed, out);
    }
  }

  lemma {:induction false} AcceptedScan(t: Table, m: Meta, p: seq<Byte>, last: int, time: int, indexed: bool)
    returns (frames: seq<Frame>, tail: seq<Byte>)
    requires (m.state == Active || !indexed) && RecoverSegment(t, m, Some(p), last, time, indexed).Accepted?
    ensures Scanned(t, m, p, frames, tail, last, time, RecoverSegment(t, m, Some(p), last, time, indexed))
  {
    hide DecodeSegment, EncodeSegment, ReadLog, FramesFit, FrameValid, LogBytes, Unfinished, AllContinue, RowTotal;
    var h, s := HeaderFor(t, m.id, m.day, m.first), p[128..];
    SegmentIff(h, p[..128]);
    var r := ReadLog(s);
    ReadIff(s, r.frames, r.bytes, r.ending);
    FitsIff(t, m.day, r.frames, last, time);
    NoRows();
    frames, tail := r.frames, s[r.bytes..];
    assert p == EncodeSegment(h) + LogBytes(frames) + tail by {
      assert p == p[..128] + s && s == s[..r.bytes] + tail;
    }
  }

  lemma {:induction false} ScanAccepts(t: Table, m: Meta, p: seq<Byte>, frames: seq<Frame>, tail: seq<Byte>, last: int,
                                       time: int, indexed: bool, out: Outcome)
    requires (m.state == Active || !indexed) && Scanned(t, m, p, frames, tail, last, time, out)
    ensures RecoverSegment(t, m, Some(p), last, time, indexed) == out
  {
    hide DecodeSegment, EncodeSegment, ReadLog, FramesFit, FrameValid, LogBytes, Unfinished, AllContinue, RowTotal;
    var h, n := HeaderFor(t, m.id, m.day, m.first), |LogBytes(frames)|;
    HeaderSize(h);
    assert p[..128] == EncodeSegment(h) && p[128..][..n] == LogBytes(frames) && p[128..][n..] == tail;
    SegmentIff(h, p[..128]);
    ReadIff(p[128..], frames, n, if tail == [] then Clean else Cut);
    FitsIff(t, m.day, frames, last, time);
    NoRows();
  }

  lemma {:induction false} NoRows()
    ensures RowTotal([]) == 0
  {
  }

  // ---- a whole table ----

  /** Where a table stands: its last sequence number and its last time. */
  datatype Position = Position(last: int, time: int)

  datatype Found = Found(frames: seq<Frame>, tail: seq<Byte>)

  /** A sealed segment whose derived index opens: its header and its size are checked and its record is taken over. */
  ghost predicate TakenOver(t: Table, m: Meta, p: seq<Byte>, at: Position, next: Position) {
    var h := HeaderFor(t, m.id, m.day, m.first);
    && SegmentValid(h) && |p| == m.bytes && EncodeSegment(h) <= p && m.first == at.last + 1 && at.last != U64_MAX
    && (m.last != 0 ==> m.minTime >= at.time)
    && next == if m.last == 0 then at else Position(m.last, m.maxTime)
  }

  /** One segment of the manifest, what becomes of its record, and where the table stands before and after it. */
  ghost predicate StepIs(t: Table, m: Meta, files: Files, indexed: set<U64>, m': Meta, found: Found, at: Position,
                         next: Position)
  {
    if m.state == Retired then m' == m && next == at
    else
      && KeyOf(m) in files
      && var p := files[KeyOf(m)];
         if m.state != Active && m.id in indexed then m' == m && TakenOver(t, m, p, at, next)
         else
           Scanned(t, m, p, found.frames, found.tail, at.last, at.time, Accepted(m', next.last, next.time))
  }

  /** All segments of the manifest from some position on. */
  ghost predicate Chain(t: Table, metas: seq<Meta>, files: Files, indexed: set<U64>, metas': seq<Meta>,
                        found: seq<Found>, at: seq<Position>)
  {
    && |metas'| == |found| == |metas| && |at| == |metas| + 1
    && forall i :: 0 <= i < |metas| ==> StepIs(t, metas[i], files, indexed, metas'[i], found[i], at[i], at[i + 1])
  }

  lemma {:induction false} StepIff(t: Table, m: Meta, files: Files, indexed: set<U64>, at: Position, out: Outcome)
    requires m.state != Retired && out.Accepted?
    ensures RecoverSegment(t, m, Lookup(files, KeyOf(m)), at.last, at.time, m.id in indexed) == out <==>
            exists found :: StepIs(t, m, files, indexed, out.meta, found, at, Position(out.last, out.time))
  {
    hide DecodeSegment, EncodeSegment, ScanSegment, Scanned;
    var next := Position(out.last, out.time);
    if KeyOf(m) in files {
      var p := files[KeyOf(m)];
      if m.state != Active && m.id in indexed {
        TakenOverIff(t, m, p, at, out);
        if RecoverSegment(t, m, Some(p), at.last, at.time, true) == out {
          assert StepIs(t, m, files, indexed, out.meta, Found([], []), at, next);
        }
      } else {
        ScannedIff(t, m, p, at.last, at.time, m.id in indexed, out);
        if RecoverSegment(t, m, Some(p), at.last, at.time, m.id in indexed) == out {
          var frames, tail :| Scanned(t, m, p, frames, tail, at.last, at.time, out);
          assert StepIs(t, m, files, indexed, out.meta, Found(frames, tail), at, next);
        }
      }
    }
  }

  lemma {:induction false} TakenOverIff(t: Table, m: Meta, p: seq<Byte>, at: Position, out: Outcome)
    requires m.state != Active && out.Accepted?
    ensures RecoverSegment(t, m, Some(p), at.last, at.time, true) == out <==>
            out.meta == m && TakenOver(t, m, p, at, Position(out.last, out.time))
  {
    hide DecodeSegment, EncodeSegment, ScanSegment;
    var h := HeaderFor(t, m.id, m.day, m.first);
    if SegmentValid(h) { HeaderSize(h); }
    if |p| >= 128 {
      SegmentIff(h, p[..128]);
    }
  }

  ghost predicate Leads(t: Table, m: Manifest, files: Files, indexed: set<U64>, i: nat, from: Position, to: Position,
                        metas': seq<Meta>, found: seq<Found>, at: seq<Position>)
    requires i <= |m.segments|
  {
    Chain(t, m.segments[i..], files, indexed, metas', found, at) && at[0] == from && at[|at| - 1] == to
  }

  lemma {:induction false} PassedChain(t: Table, m: Manifest, files: Files, indexed: set<U64>, i: nat, from: Position)
    returns (found: seq<Found>, at: seq<Position>)
    requires i <= |m.segments| && RecoverFrom(t, m, files, indexed, i, from.last, from.time).Passed?
    ensures var r := RecoverFrom(t, m, files, indexed, i, from.last, from.time);
            Leads(t, m, files, indexed, i, from, Position(r.last, r.time), r.metas, found, at)
    decreases |m.segments| - i
  {
    hide RecoverSegment, StepIs;
    if i == |m.segments| {
      found, at := [], [from];
    } else {
      var s := m.segments[i];
      var next, meta, one := from, s, Found([], []);
      if s.state == Retired {
        RetiredStep(t, s, files, indexed, one, from);
      } else {
        var out := RecoverSegment(t, s, Lookup(files, KeyOf(s)), from.last, from.time, s.id in indexed);
        StepIff(t, s, files, indexed, from, out);
        next, meta := Position(out.last, out.time), out.meta;
        one :| StepIs(t, s, files, indexed, meta, one, from, next);
      }
      var rest := RecoverFrom(t, m, files, indexed, i + 1, next.last, next.time);
      found, at := PassedChain(t, m, files, indexed, i + 1, next);
      ChainOn(t, m.segments, files, indexed, i, rest.metas, found, at, meta, one, from);
      found, at := [one] + found, [from] + at;
    }
  }

  lemma {:induction false} RetiredStep(t: Table, s: Meta, files: Files, indexed: set<U64>, found: Found, at: Position)
    requires s.state == Retired
    ensures StepIs(t, s, files, indexed, s, found, at, at)
  {
  }

  lemma {:induction false} ChainOn(t: Table, metas: seq<Meta>, files: Files, indexed: set<U64>, i: nat,
                                   metas': seq<Meta>, found: seq<Found>, at: seq<Position>, meta: Meta, one: Found,
                                   from: Position)
    requires i < |metas| && Chain(t, metas[i + 1..], files, indexed, metas', found, at)
    requires StepIs(t, metas[i], files, indexed, meta, one, from, at[0])
    ensures Chain(t, metas[i..], files, indexed, [meta] + metas', [one] + found, [from] + at)
  {
    hide StepIs;
    var ms := metas[i..];
    forall k | 0 <= k < |ms|
      ensures StepIs(t, ms[k], files, indexed, ([meta] + metas')[k], ([one] + found)[k], ([from] + at)[k],
                     ([from] + at)[k + 1])
    {
      if k > 0 {
        assert metas[i + 1..][k - 1] == ms[k];
        assert StepIs(t, metas[i + 1..][k - 1], files, indexed, metas'[k - 1], found[k - 1], at[k - 1], at[k - 1 + 1]);
      }
    }
  }

  lemma {:induction false} ChainPassed(t: Table, m: Manifest, files: Files, indexed: set<U64>, i: nat, from: Position,
                                       to: Position, metas': seq<Meta>, found: seq<Found>, at: seq<Position>)
    requires i <= |m.segments| && Leads(t, m, files, indexed, i, from, to, metas', found, at)
    ensures RecoverFrom(t, m, files, indexed, i, from.last, from.time) == Passed(metas', to.last, to.time)
    decreases |m.segments| - i
  {
    hide RecoverSegment, StepIs;
    if i < |m.segments| {
      var s, ms := m.segments[i], m.segments[i..];
      assert ms[0] == s && StepIs(t, ms[0], files, indexed, metas'[0], found[0], at[0], at[0 + 1]);
      var next := at[1];
      if s.state == Retired {
        RetiredStays(t, s, files, indexed, metas'[0], found[0], from, next);
      } else {
        StepIff(t, s, files, indexed, from, Accepted(metas'[0], next.last, next.time));
      }
      forall k | 0 <= k < |ms| - 1
        ensures StepIs(t, m.segments[i + 1..][k], files, indexed, metas'[1..][k], found[1..][k], at[1..][k],
                       at[1..][k + 1])
      {
        assert m.segments[i + 1..][k] == ms[k + 1];
        assert StepIs(t, ms[k + 1], files, indexed, metas'[k + 1], found[k + 1], at[k + 1], at[k + 1 + 1]);
      }
      ChainPassed(t, m, files, indexed, i + 1, next, to, metas'[1..], found[1..], at[1..]);
      assert [metas'[0]] + metas'[1..] == metas';
    }
  }

  lemma {:induction false} RetiredStays(t: Table, s: Meta, files: Files, indexed: set<U64>, s': Meta, found: Found,
                                        at: Position, next: Position)
    requires s.state == Retired && StepIs(t, s, files, indexed, s', found, at, next)
    ensures s' == s && next == at
  {
  }

  ghost predicate Explains(t: Table, m: Manifest, files: Files, indexed: set<U64>, image: Manifest, last: int,
                           time: int, found: seq<Found>, at: seq<Position>)
  {
    && image == m.(segments := image.segments)
    && Chain(t, m.segments, files, indexed, image.segments, found, at)
    && at[0] == Position(m.preservedSequence, m.preservedTime) && at[|m.segments|] == Position(last, time)
  }

  /** For any manifest and any files: a table is reopened exactly when the manifest loads and every segment that is not
      retired has a file that explains it, each going on where the one before ended. */
  lemma {:induction false} ReopenedIff(t: Table, m: Manifest, files: Files, indexed: set<U64>, image: Manifest,
                                       last: int, time: int)
    ensures Recover(t, m, files, indexed) == Reopened(image, last, time) <==>
            ManifestLoads(m) && exists found, at :: Explains(t, m, files, indexed, image, last, time, found, at)
  {
    hide RecoverFrom, StepIs, MetaLoads;
    var from := Position(m.preservedSequence, m.preservedTime);
    assert m.segments[0..] == m.segments;
    if Recover(t, m, files, indexed) == Reopened(image, last, time) {
      var found, at := PassedChain(t, m, files, indexed, 0, from);
      assert Explains(t, m, files, indexed, image, last, time, found, at);
    }
    if ManifestLoads(m) && exists found, at :: Explains(t, m, files, indexed, image, last, time, found, at) {
      var found, at :| Explains(t, m, files, indexed, image, last, time, found, at);
      ChainPassed(t, m, files, indexed, 0, from, Position(last, time), image.segments, found, at);
    }
  }

  // ---- damage ----

  lemma {:induction false} ScanDamaged(t: Table, m: Meta, head: seq<Byte>, front: seq<Frame>, f: Frame, q: seq<Byte>,
                                       i: nat, rest: seq<Byte>, last: int, time: int, indexed: bool)
    requires |head| == 128 && AllValid(front) && FrameValid(f) && Damages(EncodeFrame(f), q, i)
    requires m.state == Active || !indexed
    ensures RecoverSegment(t, m, Some(head + LogBytes(front) + q + rest), last, time, indexed) == Refused
  {
    hide EncodeFrame, FrameValid, LogBytes, NextFrame, DecodeSegment, ReadLog, Damages, FramesFit;
    var p := head + LogBytes(front) + q + rest;
    assert p[128..] == LogBytes(front) + (q + rest);
    NextDamaged(f, q, i, rest);
    ReadBack(front, q + rest);
    DamagedStart(f, q, i, rest);
  }

  /** Whatever else the table holds: if a segment that is scanned has a frame changed within four neighbouring bytes
      behind whole ones, the table is not opened. */
  lemma {:induction false} DamageRefused(t: Table, m: Manifest, files: Files, indexed: set<U64>, j: nat,
                                         head: seq<Byte>, front: seq<Frame>, f: Frame, q: seq<Byte>, i: nat,
                                         rest: seq<Byte>)
    requires j < |m.segments| && m.segments[j].state != Retired
    requires m.segments[j].state == Active || m.segments[j].id !in indexed
    requires |head| == 128 && AllValid(front) && FrameValid(f) && Damages(EncodeFrame(f), q, i)
    requires KeyOf(m.segments[j]) in files
    requires files[KeyOf(m.segments[j])] == head + LogBytes(front) + q + rest
    ensures Recover(t, m, files, indexed) == Unreadable
  {
    hide EncodeFrame, FrameValid, LogBytes, Damages, RecoverSegment, RecoverFrom, MetaLoads;
    forall last, time
      ensures RecoverSegment(t, m.segments[j], Some(files[KeyOf(m.segments[j])]), last, time,
                             m.segments[j].id in indexed) == Refused
    {
      ScanDamaged(t, m.segments[j], head, front, f, q, i, rest, last, time, m.segments[j].id in indexed);
    }
    StopsAt(t, m, files, indexed, j, 0, m.preservedSequence, m.preservedTime);
  }

  lemma {:induction false} StopsAt(t: Table, m: Manifest, files: Files, indexed: set<U64>, j: nat, i: nat, last: int,
                                   time: int)
    requires i <= j < |m.segments| && m.segments[j].state != Retired
    requires forall l, n :: RecoverSegment(t, m.segments[j], Lookup(files, KeyOf(m.segments[j])), l, n,
                                           m.segments[j].id in indexed) == Refused
    ensures RecoverFrom(t, m, files, indexed, i, last, time) == Stopped
    decreases j - i
  {
    hide RecoverSegment;
    if i < j {
      var s := m.segments[i];
      if s.state == Retired {
        StopsAt(t, m, files, indexed, j, i + 1, last, time);
      } else {
        var r := RecoverSegment(t, s, Lookup(files, KeyOf(s)), last, time, s.id in indexed);
        if r.Accepted? { StopsAt(t, m, files, indexed, j, i + 1, r.last, r.time); }
      }
    }
  }
}
