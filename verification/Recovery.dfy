/** Reopening a table: recover_segment and wadb_storage_recover of
    src/storage/segments.c, and the manifest checks of src/storage/metadata.c. */
module Recovery {
  import opened Bytes
  import opened Frames
  import opened Logs
  import opened Segments
  import opened History

  datatype SegState = Active | Sealed | Retired

  /** wadb_segment_meta. */
  datatype Meta = Meta(
    id: U64, day: I64, first: U64, last: int, minTime: int, maxTime: int, bytes: nat, state: SegState)

  /** What the manifest file holds, and equally the fields of an open table that a save would write. */
  datatype Manifest = Manifest(
    nextId: nat, preservedSequence: int, preservedTime: int, retention: nat, generation: nat, segments: seq<Meta>)

  /** The record-by-record checks of wadb_load_manifest. */
  predicate MetaLoads(m: Manifest, i: nat)
    requires i < |m.segments|
  {
    var s := m.segments[i];
    && (if i == 0 then 0 else m.segments[i - 1].id) < s.id < m.nextId
    && s.day >= 0 && s.day % DAY_US == 0 && s.first != 0
    && SEGMENT_HEADER_BYTES <= s.bytes <= I64_MAX
    && (s.last != 0 ==>
          s.first <= s.last && s.day <= s.minTime <= s.maxTime && s.maxTime / DAY_US == s.day / DAY_US)
    && (s.last == 0 ==> s.minTime == 0 && s.maxTime == 0 && s.bytes == SEGMENT_HEADER_BYTES)
    && (s.state == Active ==> i + 1 == |m.segments|)
  }

  predicate ManifestLoads(m: Manifest) {
    && m.nextId != 0 && m.preservedTime >= 0 && m.retention <= I64_MAX && m.generation != 0
    && forall i :: 0 <= i < |m.segments| ==> MetaLoads(m, i)
  }

  // ---- one segment ----

  function HeaderFor(t: Table, id: U64, day: I64, first: U64): SegmentHeader {
    SegmentHeader(t.id, id, t.schemaHash, t.rowWidth, day, first)
  }

  /** The summary of a segment that holds the given frames. */
  function Summary(m: Meta, frames: seq<Frame>, bytes: nat): Meta {
    if frames == [] then m.(last := 0, minTime := 0, maxTime := 0, bytes := bytes)
    else
      var f := frames[|frames| - 1];
      m.(last := f.firstSequence + f.rowCount - 1, minTime := frames[0].minTime, maxTime := f.maxTime, bytes := bytes)
  }

  datatype Outcome = Refused | Accepted(meta: Meta, last: int, time: int)

  /** The scanning half of recover_segment. */
  function ScanSegment(t: Table, m: Meta, p: seq<Byte>, last: int, time: int): Outcome
    requires |p| >= 128
  {
    var r := ReadLog(p[128..]);
    if r.ending == Damaged || !FramesFit(t, m.day, r.frames, last, time) then Refused
    else Conclude(m, r, last, time)
  }

  /** The decision once every complete frame has been read and fits. */
  function Conclude(m: Meta, r: Reading, last: int, time: int): Outcome {
    var found := Summary(m, r.frames, 128 + r.bytes);
    if r.ending == Cut && (m.state != Active || 128 + r.bytes < m.bytes) then Refused
    else if m.state != Active && (m.last != found.last || m.minTime != found.minTime || m.maxTime != found.maxTime)
    then Refused
    else if m.state == Active && found.last < m.last then Refused
    else Accepted(found, last + RowTotal(r.frames), EndTime(r.frames, time))
  }

  /** recover_segment: the file, if there is one, the position after the segments before it, and whether the
      derived index of a sealed segment opens, in which case its rows are not read. */
  function RecoverSegment(t: Table, m: Meta, file: Option<seq<Byte>>, last: int, time: int, indexed: bool): Outcome {
    if file.None? then Refused
    else
      var p := file.value;
      if |p| < 128 || (m.state != Active && |p| != m.bytes) || |p| < m.bytes then Refused
      else if DecodeSegment(p[..128]) != Ok(HeaderFor(t, m.id, m.day, m.first)) then Refused
      else if last == U64_MAX || m.first != last + 1 then Refused
      else if m.state != Active && indexed then
        if m.last == 0 then Accepted(m, last, time)
        else if m.minTime < time then Refused
        else Accepted(m, m.last, m.maxTime)
      else ScanSegment(t, m, p, last, time)
  }

  /** The scanning loop, frame by frame from the end of the header. */
  method ScanLoop(t: Table, m: Meta, p: seq<Byte>, last: int, time: int) returns (out: Outcome)
    requires |p| >= 128
    ensures out == ScanSegment(t, m, p, last, time)
  {
    hide NextFrame, FrameFits, Conclude, FramesFit, RowTotal, EndTime, ReadLog;
    var offset := 128;
    Nothing(t, m.day, p, last, time);
    var frames: seq<Frame>, seen, until, ending := [], last, time, Clean;
    while offset < |p|
      invariant 128 <= offset <= |p|
      invariant FramesFit(t, m.day, frames, last, time)
      invariant seen == last + RowTotal(frames) && until == EndTime(frames, time)
      invariant ReadLog(p[128..]) == Resume(frames, offset - 128, ReadLog(p[offset..]))
    {
      var next := NextFrame(p[offset..]);
      ReadStop(p, offset);
      if next.Bad? { return Refused; }
      if next.Torn? { ending := Cut; break; }
      var f := next.frame;
      ReadOn(p, offset, frames);
      if !FrameFits(t, m.day, frames, f, seen, until) {
        NotFitting(t, m.day, frames, f, ReadLog(p[offset + next.bytes..]).frames, last, time);
        return Refused;
      }
      FitsOn(t, m.day, frames, f, last, time);
      frames, seen, until, offset := frames + [f], seen + f.rowCount, f.maxTime, offset + next.bytes;
    }
    if offset == |p| { ReadEnd(p); }
    assert ReadLog(p[128..]) == Reading(frames, offset - 128, ending);
    out := Conclude(m, Reading(frames, offset - 128, ending), last, time);
  }

  lemma {:induction false} Nothing(t: Table, day: int, p: seq<Byte>, last: int, time: int)
    requires |p| >= 128
    ensures FramesFit(t, day, [], last, time) && RowTotal([]) == 0 && EndTime([], time) == time
    ensures Resume([], 0, ReadLog(p[128..])) == ReadLog(p[128..])
  {
    hide ReadLog;
  }

  lemma {:induction false} ReadStop(p: seq<Byte>, offset: nat)
    requires offset < |p|
    ensures var next := NextFrame(p[offset..]);
            && (next.Bad? ==> ReadLog(p[offset..]).ending == Damaged)
            && (next.Torn? ==> ReadLog(p[offset..]) == Reading([], 0, Cut))
  {
    hide NextFrame;
  }

  lemma {:induction false} ReadEnd(p: seq<Byte>)
    ensures ReadLog(p[|p|..]) == Reading([], 0, Clean)
  {
    assert p[|p|..] == [];
  }

  /** What reading the whole log amounts to when some frames have been read and the rest reads as given. */
  ghost function Resume(frames: seq<Frame>, bytes: nat, rest: Reading): Reading {
    Reading(frames + rest.frames, bytes + rest.bytes, rest.ending)
  }

  lemma ReadOn(p: seq<Byte>, offset: nat, frames: seq<Frame>)
    requires 128 <= offset < |p| && NextFrame(p[offset..]).Whole?
    ensures var next := NextFrame(p[offset..]);
            && offset + next.bytes <= |p|
            && Resume(frames, offset - 128, ReadLog(p[offset..])) ==
               Resume(frames + [next.frame], offset - 128 + next.bytes, ReadLog(p[offset + next.bytes..]))
            && frames + ReadLog(p[offset..]).frames == frames + [next.frame] + ReadLog(p[offset + next.bytes..]).frames
  {
    hide NextFrame;
    var next := NextFrame(p[offset..]);
    assert p[offset..][next.bytes..] == p[offset + next.bytes..];
    var rest := ReadLog(p[offset + next.bytes..]);
    assert frames + ([next.frame] + rest.frames) == frames + [next.frame] + rest.frames;
  }

  lemma FitsOn(t: Table, day: int, frames: seq<Frame>, f: Frame, last: int, time: int)
    requires FramesFit(t, day, frames, last, time)
    requires FrameFits(t, day, frames, f, last + RowTotal(frames), EndTime(frames, time))
    ensures FramesFit(t, day, frames + [f], last, time)
    ensures RowTotal(frames + [f]) == RowTotal(frames) + f.rowCount
    ensures EndTime(frames + [f], time) == f.maxTime
  {
    hide FrameFits;
    assert (frames + [f])[..|frames|] == frames;
  }

  /** Once a frame does not fit, no longer run of frames does. */
  lemma NotFitting(t: Table, day: int, front: seq<Frame>, f: Frame, rest: seq<Frame>, last: int, time: int)
    requires !FrameFits(t, day, front, f, last + RowTotal(front), EndTime(front, time))
    ensures !FramesFit(t, day, front + [f] + rest, last, time)
  {
    hide FrameFits;
    var all := front + [f] + rest;
    assert all[..|front| + 1] == front + [f];
    assert (front + [f])[..|front|] == front;
    if FramesFit(t, day, all, last, time) {
      FramesFitPrefix(t, day, all, last, time, |front| + 1);
    }
  }

  // ---- what recovery makes of a segment written by this table ----

  ghost predicate Writable(t: Table, s: Seg) {
    SegmentValid(HeaderFor(t, s.id, s.day, s.first)) && AllValid(s.frames)
  }

  /** The bytes of a segment file: header and log. */
  ghost function SegBytes(t: Table, s: Seg): seq<Byte> {
    if Writable(t, s) then EncodeSegment(HeaderFor(t, s.id, s.day, s.first)) + LogBytes(s.frames) else []
  }

  ghost function MetaOf(t: Table, s: Seg, state: SegState): Meta {
    Summary(Meta(s.id, s.day, s.first, 0, 0, 0, 0, state), s.frames, |SegBytes(t, s)|)
  }

  /** The segment as it was after its first k frames. */
  function Earlier(s: Seg, k: nat): Seg
    requires k <= |s.frames|
  {
    s.(frames := s.frames[..k])
  }

  /** An active record may describe an earlier state of its segment: the manifest is not rewritten at each append. */
  ghost predicate Describes(t: Table, m: Meta, s: Seg) {
    if m.state == Active then exists k: nat :: k <= |s.frames| && m == MetaOf(t, Earlier(s, k), Active)
    else m == MetaOf(t, s, m.state)
  }

  lemma SegWritable(t: Table, s: Seg, last: int, time: int)
    requires TableValid(t) && SegFits(t, s, last, time)
    ensures Writable(t, s)
  {
    hide FramesFit, FrameValid;
    FramesFitValid(t, s.day, s.frames, last, time);
  }

  lemma SegParts(t: Table, s: Seg, tail: seq<Byte>)
    requires Writable(t, s)
    ensures var p := SegBytes(t, s) + tail;
            && |p| == 128 + |LogBytes(s.frames)| + |tail|
            && DecodeSegment(p[..128]) == Ok(HeaderFor(t, s.id, s.day, s.first))
            && p[128..] == LogBytes(s.frames) + tail
  {
    hide EncodeSegment, DecodeSegment, LogBytes, FrameValid;
    var h := HeaderFor(t, s.id, s.day, s.first);
    HeaderSize(h);
    SegmentIff(h, EncodeSegment(h));
    var p := SegBytes(t, s) + tail;
    assert p[..128] == EncodeSegment(h);
  }

  lemma EmptyTail()
    ensures TornTail([])
  {
    var f := SomeFrame();
    EncodeLength(f);
    assert IsTorn(f, 0, []);
  }

  /** A valid frame: one row of eight bytes at time zero. */
  lemma SomeFrame() returns (f: Frame)
    ensures FrameValid(f)
  {
    f := Frame(0, 1, 0, 0, 1, 8, 0, [], Zeros(8));
    assert RowBytes(1, 8) == RowBytes(0, 8) + 8;
    PutZero(8);
    Spans();
    GetPut(0, 8);
    assert f.rows[0..8] == Zeros(8);
    assert TimeAt(f, 0) == 0;
    assert TimesValid(f);
  }

  lemma {:induction false} LastNumber(t: Table, day: int, frames: seq<Frame>, last: int, time: int)
    requires FramesFit(t, day, frames, last, time) && frames != []
    ensures frames[|frames| - 1].firstSequence + frames[|frames| - 1].rowCount - 1 == last + RowTotal(frames)
  {
    hide FrameValid;
  }

  lemma {:induction false} LogPrefixShorter(fs: seq<Frame>, k: nat)
    requires AllValid(fs) && k <= |fs|
    ensures |LogBytes(fs[..k])| <= |LogBytes(fs)|
  {
    hide FrameValid, LogBytes;
    assert fs == fs[..k] + fs[k..];
    LogConcat(fs[..k], fs[k..]);
  }

  lemma {:induction false} RowTotalPrefix(fs: seq<Frame>, k: nat)
    requires k <= |fs|
    ensures RowTotal(fs[..k]) <= RowTotal(fs)
  {
    assert fs == fs[..k] + fs[k..];
    RowTotalConcat(fs[..k], fs[k..]);
  }

  lemma ScanWritten(t: Table, s: Seg, m: Meta, tail: seq<Byte>, last: int, time: int)
    requires TableValid(t) && SegFits(t, s, last, time) && TornTail(tail)
    requires Describes(t, m, s) && (m.state != Active ==> tail == [])
    ensures |SegBytes(t, s) + tail| >= 128
    ensures ScanSegment(t, m, SegBytes(t, s) + tail, last, time) ==
            Accepted(MetaOf(t, s, m.state), last + RowTotal(s.frames), EndTime(s.frames, time))
  {
    hide FramesFit, FrameValid, TornTail, LogBytes, ReadLog, SegBytes, DecodeSegment;
    SegWritable(t, s, last, time);
    SegParts(t, s, tail);
    SegParts(t, s, []);
    assert SegBytes(t, s) + [] == SegBytes(t, s);
    ReadWritten(s.frames, tail);
    if m.state == Active {
      var k: nat :| k <= |s.frames| && m == MetaOf(t, Earlier(s, k), Active);
      EarlierSmaller(t, s, k, last, time);
    }
  }

  lemma EarlierSmaller(t: Table, s: Seg, k: nat, last: int, time: int)
    requires TableValid(t) && SegFits(t, s, last, time) && k <= |s.frames|
    ensures SegFits(t, Earlier(s, k), last, time)
    ensures 128 <= |SegBytes(t, Earlier(s, k))| <= |SegBytes(t, s)|
    ensures MetaOf(t, Earlier(s, k), Active).last <= MetaOf(t, s, Active).last
  {
    hide FrameValid, LogBytes, SegBytes, DecodeSegment, FrameFits;
    var e := Earlier(s, k);
    FramesFitPrefix(t, s.day, s.frames, last, time, k);
    SegWritable(t, s, last, time);
    SegWritable(t, e, last, time);
    SegParts(t, s, []);
    SegParts(t, e, []);
    assert SegBytes(t, s) + [] == SegBytes(t, s) && SegBytes(t, e) + [] == SegBytes(t, e);
    LogPrefixShorter(s.frames, k);
    if k > 0 {
      RowTotalPrefix(s.frames, k);
      LastNumber(t, s.day, s.frames, last, time);
      LastNumber(t, s.day, e.frames, last, time);
    } else if s.frames != [] {
      LastNumber(t, s.day, s.frames, last, time);
    }
  }

  /** Recovery accepts a segment this table wrote, gives it its exact summary, and moves the position past its
      rows; a torn tail behind an active segment does not matter, nor does whether a derived index opens. */
  lemma RecoverWritten(t: Table, s: Seg, m: Meta, tail: seq<Byte>, last: int, time: int, indexed: bool)
    requires TableValid(t) && SegFits(t, s, last, time) && TornTail(tail)
    requires Describes(t, m, s) && (m.state != Active ==> tail == [])
    ensures RecoverSegment(t, m, Some(SegBytes(t, s) + tail), last, time, indexed) ==
            Accepted(MetaOf(t, s, m.state), last + RowTotal(s.frames), EndTime(s.frames, time))
  {
    hide FramesFit, FrameValid, TornTail, LogBytes, SegBytes, DecodeSegment, ScanSegment;
    SegWritable(t, s, last, time);
    SegParts(t, s, tail);
    SegParts(t, s, []);
    assert SegBytes(t, s) + [] == SegBytes(t, s);
    ScanWritten(t, s, m, tail, last, time);
    if m.state == Active {
      var k: nat :| k <= |s.frames| && m == MetaOf(t, Earlier(s, k), Active);
      EarlierSmaller(t, s, k, last, time);
    } else if s.frames != [] {
      LastNumber(t, s.day, s.frames, last, time);
      FramesEndLater(t, s.day, s.frames, last, time);
    }
  }
}
