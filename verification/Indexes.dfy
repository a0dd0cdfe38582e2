/** The frame index of a segment (src/storage/index.c): the entry of a frame, its record
    in a sealed index file, and the index that a scan of the segment rebuilds. */
module Indexes {
  import opened Bytes
  import opened Layout
  import opened Crc32c
  import opened Frames
  import opened Logs
  import opened Segments
  import opened History
  import opened Recovery

  datatype Entry = Entry(minTime: I64, maxTime: I64, first: U64, offset: nat, rows: U32, definitions: U32,
                         bytes: U32, rowsOffset: U32, crc: nat, definitionsCrc: nat)

  /** The bytes of a frame, as far as the index reads them. */
  predicate Framed(f: Frame, p: seq<Byte>) {
    96 <= |p| && 4 <= U32At(p, 8) <= |p| && 80 + |f.definitions| <= |p| && 80 + |f.definitions| <= U32_MAX
  }

  /** wadb_index_for_frame. */
  function EntryFor(f: Frame, p: seq<Byte>, offset: nat): Entry
    requires Framed(f, p)
  {
    var n := U32At(p, 8);
    Entry(f.minTime, f.maxTime, f.firstSequence, offset, f.rowCount, f.definitionCount, n, 80 + |f.definitions|,
          U32At(p, n - 4), Checksum(p[80..80 + |f.definitions|]))
  }

  lemma {:induction false} FrameLength(f: Frame)
    requires FrameValid(f)
    ensures var p := EncodeFrame(f);
            && Framed(f, p) && U32At(p, 8) == |p| == 96 + |f.definitions| +
               RowBytes(f.rowCount, f.rowWidth) <= MAX_FRAME_BYTES
            && p[80..80 + |f.definitions|] == f.definitions
  {
    hide EncodeFrame, ContentValid, HeaderBytes, Trailer, Checksum, WithChecksum, RowBytes, Get;
    var p := EncodeFrame(f);
    EncodedHeader(f);
    EncodeLength(f);
    EncodeAssembles(f);
    AtPrefix(p, 80, 8, 4);
  }

  /** The entry of a frame that was written at an offset. */
  ghost function EntryHere(f: Frame, offset: nat): Entry
    requires FrameValid(f)
  {
    FrameLength(f);
    EntryFor(f, EncodeFrame(f), offset)
  }

  /** The index of a run of frames from an offset on: one entry for each, at the place where the frame starts. */
  ghost function IndexOf(frames: seq<Frame>): (r: seq<Entry>)
    requires AllValid(frames)
    ensures |r| == |frames|
  {
    if frames == [] then [] else
      var front, f := frames[..|frames| - 1], frames[|frames| - 1];
      IndexOf(front) + [EntryHere(f, 128 + |LogBytes(front)|)]
  }

  /** An append adds the entry of its frame at the committed end: the index stays the index of the frames. */
  lemma {:induction false} IndexGrows(frames: seq<Frame>, f: Frame, committed: nat)
    requires AllValid(frames) && FrameValid(f) && committed == 128 + |LogBytes(frames)|
    ensures AllValid(frames + [f]) && Framed(f, EncodeFrame(f))
    ensures IndexOf(frames + [f]) == IndexOf(frames) + [EntryFor(f, EncodeFrame(f), committed)]
    ensures 128 + |LogBytes(frames + [f])| == committed + |EncodeFrame(f)|
  {
    hide EncodeFrame, FrameValid, LogBytes, EntryFor;
    FrameLength(f);
    LogAppend(frames, f);
    assert (frames + [f])[..|frames|] == frames;
  }

  /** The scan that rebuilds an index: frame after frame, noting where each starts. */
  method Rebuild(file: seq<Byte>, ghost frames: seq<Frame>) returns (entries: seq<Entry>)
    requires |file| >= 128 && AllValid(frames) && file[128..] == LogBytes(frames)
    ensures entries == IndexOf(frames)
  {
    hide EncodeFrame, FrameValid, NextFrame, IndexOf, EntryFor;
    entries := [];
    var offset := 128;
    ghost var k := 0;
    NoEntries();
    assert frames[..0] == [] && frames[0..] == frames;
    while offset < |file|
      invariant 0 <= k <= |frames| && 128 <= offset <= |file|
      invariant offset == 128 + |LogBytes(frames[..k])| && file[offset..] == LogBytes(frames[k..])
      invariant entries == IndexOf(frames[..k])
    {
      ghost var f := frames[k];
      ghost var p := EncodeFrame(f);
      NextAt(file[offset..], frames, k);
      var next := NextFrame(file[offset..]);
      FrameLength(f);
      var bytes := file[offset..offset + next.bytes];
      assert bytes == file[offset..][..next.bytes] == p;
      entries := entries + [EntryFor(next.frame, bytes, offset)];
      IndexGrows(frames[..k], f, offset);
      assert frames[..k + 1] == frames[..k] + [f];
      assert file[offset + |p|..] == file[offset..][|p|..];
      offset, k := offset + next.bytes, k + 1;
    }
    EndOfLog(frames, k);
    assert frames[..k] == frames;
  }

  lemma {:induction false} NoEntries()
    ensures IndexOf([]) == [] && LogBytes([]) == []
  {
  }

  lemma {:induction false} NextAt(rest: seq<Byte>, frames: seq<Frame>, k: nat)
    requires AllValid(frames) && k <= |frames| && rest == LogBytes(frames[k..]) && rest != []
    ensures k < |frames| && FrameValid(frames[k])
    ensures NextFrame(rest) == Whole(frames[k], |EncodeFrame(frames[k])|) && |EncodeFrame(frames[k])| <= |rest|
    ensures rest[..|EncodeFrame(frames[k])|] == EncodeFrame(frames[k])
            && rest[|EncodeFrame(frames[k])|..] == LogBytes(frames[k + 1..])
  {
    hide EncodeFrame, FrameValid, NextFrame;
    assert frames[k..][0] == frames[k] && frames[k..][1..] == frames[k + 1..];
    NextWhole(frames[k], LogBytes(frames[k + 1..]));
  }

  lemma {:induction false} EndOfLog(frames: seq<Frame>, k: nat)
    requires AllValid(frames) && k <= |frames| && LogBytes(frames[k..]) == []
    ensures k == |frames|
  {
    hide EncodeFrame, FrameValid;
    if k < |frames| { EncodeLength(frames[k..][0]); }
  }

  // ---- the record of an entry ----

  /** Offsets 0, 8, 16, 24, 28, 32, 40, 44, 48, 52, 56, and then 60 for the checksum. */
  const ENTRY_WIDTHS: seq<nat> := [8, 8, 8, 4, 4, 8, 4, 4, 4, 4, 4]

  lemma {:induction false} EntryOffsets()
    ensures |ENTRY_WIDTHS| == 11
    ensures Offset(ENTRY_WIDTHS, 0) == 0 && Offset(ENTRY_WIDTHS, 1) == 8 && Offset(ENTRY_WIDTHS, 2) == 16
    ensures Offset(ENTRY_WIDTHS, 3) == 24 && Offset(ENTRY_WIDTHS, 4) == 28 && Offset(ENTRY_WIDTHS, 5) == 32
    ensures Offset(ENTRY_WIDTHS, 6) == 40 && Offset(ENTRY_WIDTHS, 7) == 44 && Offset(ENTRY_WIDTHS, 8) == 48
    ensures Offset(ENTRY_WIDTHS, 9) == 52 && Offset(ENTRY_WIDTHS, 10) == 56 && Offset(ENTRY_WIDTHS, 11) == 60
  {
  }

  predicate Storable(v: Entry) { v.offset <= U64_MAX && v.crc <= U32_MAX && v.definitionsCrc <= U32_MAX }

  function EntryValues(v: Entry): seq<nat> {
    [Wrap64(v.minTime), Wrap64(v.maxTime), v.first, v.rows, v.definitions, v.offset, v.bytes, v.rowsOffset, v.crc,
     v.definitionsCrc, 0]
  }

  /** entry_encode. */
  function EntryBytes(v: Entry): seq<Byte> { WithChecksum(Pack(ENTRY_WIDTHS, EntryValues(v))) }

  /** The reading half of entry_decode. */
  function ReadEntry(p: seq<Byte>): Option<Entry>
    requires |p| == 64
  {
    if U32At(p, 56) != 0 || U32At(p, 60) != Checksum(p[..60]) then None
    else Some(Entry(I64At(p, 0), I64At(p, 8), U64At(p, 16), U64At(p, 32), U32At(p, 24), U32At(p, 28), U32At(p, 40),
                    U32At(p, 44), U32At(p, 48), U32At(p, 52)))
  }

  predicate EntryAt(v: Entry, r: seq<Byte>)
    requires |r| == 60
  {
    && At(r, 0, 8) == Wrap64(v.minTime) && At(r, 8, 8) == Wrap64(v.maxTime) && At(r, 16, 8) == v.first
    && At(r, 24, 4) == v.rows
    && At(r, 28, 4) == v.definitions && At(r, 32, 8) == v.offset && At(r, 40, 4) == v.bytes
    && At(r, 44, 4) == v.rowsOffset
    && At(r, 48, 4) == v.crc && At(r, 52, 4) == v.definitionsCrc && At(r, 56, 4) == 0
  }

  lemma {:induction false} EntryFields(v: Entry, r: seq<Byte>)
    requires Storable(v) && |r| == 60
    ensures EntryAt(v, r) <==> r == Pack(ENTRY_WIDTHS, EntryValues(v))
  {
    hide Get, Put, Pack;
    var ws, vs := ENTRY_WIDTHS, EntryValues(v);
    EntryOffsets();
    Spans();
    assert Fits(ws, vs) by {
      forall i | 0 <= i < 11 ensures vs[i] < Span(ws[i]) { assert ws[i] == 4 || ws[i] == 8; }
    }
    PackIffReads(ws, vs, r);
    if Reads(ws, vs, r) {
      assert ReadsField(ws, vs, r, 0) && ReadsField(ws, vs, r, 1) && ReadsField(ws, vs, r, 2)
             && ReadsField(ws, vs, r, 3);
      assert ReadsField(ws, vs, r, 4) && ReadsField(ws, vs, r, 5) && ReadsField(ws, vs, r, 6)
             && ReadsField(ws, vs, r, 7);
      assert ReadsField(ws, vs, r, 8) && ReadsField(ws, vs, r, 9) && ReadsField(ws, vs, r, 10);
    }
  }

  lemma {:induction false} SignedIff(u: U64, x: I64)
    ensures Signed64(u) == x <==> u == Wrap64(x)
  {
  }

  lemma {:induction false} EntryReads(v: Entry, p: seq<Byte>)
    requires Storable(v) && |p| == 64
    ensures ReadEntry(p) == Some(v) <==> EntryAt(v, p[..60]) && At(p, 60, 4) == Checksum(p[..60])
  {
    hide Get, Checksum, Signed64, Wrap64;
    Spans();
    SignedIff(U64At(p, 0), v.minTime);
    SignedIff(U64At(p, 8), v.maxTime);
    AtPrefix(p, 60, 0, 8);
    AtPrefix(p, 60, 8, 8);
    AtPrefix(p, 60, 16, 8);
    AtPrefix(p, 60, 24, 4);
    AtPrefix(p, 60, 28, 4);
    AtPrefix(p, 60, 32, 8);
    AtPrefix(p, 60, 40, 4);
    AtPrefix(p, 60, 44, 4);
    AtPrefix(p, 60, 48, 4);
    AtPrefix(p, 60, 52, 4);
    AtPrefix(p, 60, 56, 4);
  }

  /** A record reads as an entry exactly when it is the entry's encoding. */
  lemma {:induction false} EntryIff(v: Entry, p: seq<Byte>)
    requires Storable(v) && |p| == 64
    ensures ReadEntry(p) == Some(v) <==> p == EntryBytes(v)
  {
    hide Get, Put, Pack, Checksum, ReadEntry, EntryAt;
    var x := Pack(ENTRY_WIDTHS, EntryValues(v));
    EntryOffsets();
    PackLength(ENTRY_WIDTHS, EntryValues(v));
    EntryReads(v, p);
    EntryFields(v, p[..60]);
    assert p == p[..60] + p[60..];
    assert p[60..64] == p[60..];
    ChecksumTail(p[..60], p[60..]);
    if p == EntryBytes(v) { assert EntryBytes(v)[..60] == x; }
  }

  // ---- the checks on a record ----

  /** The bounds that entry_decode checks against the segment. */
  predicate EntryOk(m: Meta, rowWidth: nat, v: Entry) {
    && v.rows != 0 && v.first != 0 && v.first >= m.first && v.rows - 1 <= U64_MAX - v.first
    && v.first + v.rows - 1 <= m.last
    && v.minTime >= m.minTime && v.maxTime >= v.minTime && v.maxTime <= m.maxTime
    && 128 <= v.offset <= m.bytes
    && v.bytes <= MAX_FRAME_BYTES && v.bytes <= m.bytes - v.offset
    && v.rowsOffset >= 80 && v.rowsOffset % 8 == 0
    && v.bytes == v.rowsOffset + RowBytes(v.rows, rowWidth) + 16
    && v.definitions <= (v.rowsOffset - 80) / 12
  }

  /** The checks of the first and the last entry when an index is opened. */
  predicate EndsOk(m: Meta, entries: seq<Entry>) {
    entries != [] ==>
      var first, last := entries[0], entries[|entries| - 1];
      && first.first == m.first && first.offset == 128 && first.minTime == m.minTime && last.maxTime == m.maxTime
      && last.first + last.rows - 1 == m.last && last.offset + last.bytes == m.bytes
  }

  /** entry_decode. */
  function DecodeEntry(m: Meta, rowWidth: nat, p: seq<Byte>): Option<Entry>
    requires |p| == 64
  {
    var v := ReadEntry(p);
    if v.None? || !EntryOk(m, rowWidth, v.value) then None else v
  }

  // ---- what is saved passes ----

  lemma {:induction false} IndexAt(frames: seq<Frame>, k: nat)
    requires AllValid(frames) && k < |frames|
    ensures AllValid(frames[..k]) && Framed(frames[k], EncodeFrame(frames[k]))
    ensures IndexOf(frames)[k] == EntryFor(frames[k], EncodeFrame(frames[k]), 128 + |LogBytes(frames[..k])|)
    decreases |frames|
  {
    hide EncodeFrame, FrameValid, EntryFor, LogBytes;
    FrameLength(frames[k]);
    var front := frames[..|frames| - 1];
    if k < |front| {
      IndexAt(front, k);
      assert front[..k] == frames[..k] && front[k] == frames[k];
    }
  }

  lemma {:induction false} LogGrows(frames: seq<Frame>, k: nat)
    requires AllValid(frames) && k <= |frames|
    ensures AllValid(frames[..k]) && AllValid(frames[k..]) && |LogBytes(frames)| ==
              |LogBytes(frames[..k])| + |LogBytes(frames[k..])|
  {
    hide EncodeFrame, FrameValid, LogBytes;
    assert frames == frames[..k] + frames[k..];
    LogConcat(frames[..k], frames[k..]);
  }

  lemma {:induction false} RowTotalGrows(frames: seq<Frame>, k: nat)
    requires k <= |frames|
    ensures RowTotal(frames[..k]) <= RowTotal(frames)
  {
    assert frames == frames[..k] + frames[k..];
    RowTotalConcat(frames[..k], frames[k..]);
  }

  lemma {:induction false} FrameAt(t: Table, day: int, frames: seq<Frame>, last: int, time: int, k: nat)
    requires FramesFit(t, day, frames, last, time) && k < |frames|
    ensures FrameFits(t, day, frames[..k], frames[k], last + RowTotal(frames[..k]), EndTime(frames[..k], time))
    ensures RowTotal(frames[..k + 1]) == RowTotal(frames[..k]) + frames[k].rowCount
  {
    hide FrameFits;
    FramesFitPrefix(t, day, frames, last, time, k + 1);
    assert frames[..k + 1][..k] == frames[..k];
  }

  lemma {:induction false} EndsGrow(t: Table, day: int, frames: seq<Frame>, last: int, time: int, i: nat, j: nat)
    requires FramesFit(t, day, frames, last, time) && i <= j <= |frames|
    ensures EndTime(frames[..i], time) <= EndTime(frames[..j], time)
    decreases j
  {
    hide ContentValid, RowBytes;
    if i < j {
      EndsGrow(t, day, frames, last, time, i, j - 1);
      FrameAt(t, day, frames, last, time, j - 1);
    }
  }

  /** The sizes and numbers in the entry of a committed frame. */
  lemma {:induction false} EntryShape(f: Frame, offset: nat)
    requires FrameValid(f)
    ensures Framed(f, EncodeFrame(f))
    ensures var v := EntryFor(f, EncodeFrame(f), offset);
            && v.bytes == |EncodeFrame(f)| && v.rowsOffset % 8 == 0 && v.crc <= U32_MAX && v.definitionsCrc <= U32_MAX
            && v.bytes == v.rowsOffset + RowBytes(v.rows, f.rowWidth) + 16 && v.bytes <= MAX_FRAME_BYTES
            && v.definitions <= (v.rowsOffset - 80) / 12
            && v.rows == f.rowCount != 0 && f.rowCount - 1 <= U64_MAX - f.firstSequence && f.minTime <= f.maxTime
  {
    hide EncodeFrame, ContentValid, Checksum, RowBytes;
    FrameLength(f);
    ChecksumBound(f.definitions);
  }

  lemma {:induction false} MetaBytes(t: Table, s: Seg, state: SegState)
    ensures MetaOf(t, s, state).bytes == |SegBytes(t, s)|
  {
    hide SegBytes;
  }

  /** A frame of a segment lies between its header and its end. */
  lemma {:induction false} FrameInside(t: Table, s: Seg, last: int, time: int, k: nat)
    requires TableValid(t) && SegFits(t, s, last, time) && k < |s.frames| && AllValid(s.frames)
    ensures AllValid(s.frames[..k]) && 128 + |LogBytes(s.frames[..k])| + |EncodeFrame(s.frames[k])| <= |SegBytes(t, s)|
  {
    hide EncodeFrame, FrameValid, LogBytes, SegBytes, SegFits;
    SegSize(t, s, last, time);
    LogGrows(s.frames, k);
    LogNonempty(s.frames, k);
    NextAt(LogBytes(s.frames[k..]), s.frames, k);
  }

  lemma {:induction false} RightWidth(t: Table, s: Seg, last: int, time: int, k: nat)
    requires SegFits(t, s, last, time) && k < |s.frames|
    ensures s.frames[k].rowWidth == t.rowWidth && s.frames[k].firstSequence != 0
  {
    hide ContentValid, RowBytes;
    FrameAt(t, s.day, s.frames, last, time, k);
  }

  /** Every entry of a segment's index passes the checks against the segment's record. */
  lemma {:induction false} SavedPasses(t: Table, s: Seg, last: int, time: int, state: SegState, k: nat)
    requires TableValid(t) && SegFits(t, s, last, time) && |SegBytes(t, s)| <= U64_MAX && k < |s.frames|
             && AllValid(s.frames)
    ensures Storable(IndexOf(s.frames)[k]) && EntryOk(MetaOf(t, s, state), t.rowWidth, IndexOf(s.frames)[k])
  {
    hide EncodeFrame, FrameValid, EntryFor, LogBytes, RowBytes, IndexOf, SegFits, SegBytes, MetaOf;
    var f, offset := s.frames[k], 128 + |LogBytes(s.frames[..k])|;
    IndexAt(s.frames, k);
    EntryShape(f, offset);
    EntryStart(f, offset);
    FrameInside(t, s, last, time, k);
    MetaBytes(t, s, state);
    EntryIn(t, s, last, time, state, k);
    RightWidth(t, s, last, time, k);
  }

  lemma {:induction false} LogNonempty(frames: seq<Frame>, k: nat)
    requires AllValid(frames) && k < |frames|
    ensures LogBytes(frames[k..]) != []
  {
    hide EncodeFrame, FrameValid;
    EncodeLength(frames[k..][0]);
  }

  lemma {:induction false} SegSize(t: Table, s: Seg, last: int, time: int)
    requires TableValid(t) && SegFits(t, s, last, time) && AllValid(s.frames)
    ensures |SegBytes(t, s)| == 128 + |LogBytes(s.frames)|
  {
    hide EncodeFrame, FrameValid, LogBytes, FramesFit, EncodeSegment;
    SegWritable(t, s, last, time);
    HeaderSize(HeaderFor(t, s.id, s.day, s.first));
  }

  /** Numbers and times of a frame lie within those of its segment. */
  lemma {:induction false} EntryIn(t: Table, s: Seg, last: int, time: int, state: SegState, k: nat)
    requires SegFits(t, s, last, time) && k < |s.frames|
    ensures var m, f := MetaOf(t, s, state), s.frames[k];
            && f.firstSequence >= m.first && f.firstSequence + f.rowCount - 1 <= m.last
            && f.minTime >= m.minTime && f.maxTime <= m.maxTime
  {
    hide FrameValid, SegBytes, RowTotal;
    var frames, n := s.frames, |s.frames| - 1;
    FrameAt(t, s.day, frames, last, time, k);
    FrameAt(t, s.day, frames, last, time, n);
    FrameAt(t, s.day, frames, last, time, 0);
    assert frames[..n + 1] == frames;
    RowTotalGrows(frames[..n + 1], k + 1);
    assert frames[..n + 1][..k + 1] == frames[..k + 1];
    EndsGrow(t, s.day, frames, last, time, k + 1, n + 1);
    TimesInOrder(frames[0]) by { assert FrameValid(frames[0]); }
    if k > 0 { EndsGrow(t, s.day, frames, last, time, 1, k); }
  }

  lemma {:induction false} TimesInOrder(f: Frame)
    requires FrameValid(f)
    ensures f.minTime <= f.maxTime
  {
    hide ContentValid, RowBytes;
  }

  /** Where the last frame of a segment ends. */
  ghost function LogEnd(frames: seq<Frame>): nat
    requires frames != [] && AllValid(frames)
  {
    var n := |frames| - 1;
    128 + |LogBytes(frames[..n])| + |EncodeFrame(frames[n])|
  }

  lemma {:induction false} MetaEnds(t: Table, s: Seg, last: int, time: int, state: SegState)
    requires TableValid(t) && SegFits(t, s, last, time) && s.frames != [] && AllValid(s.frames)
    ensures var m, n := MetaOf(t, s, state), |s.frames| - 1;
            && m.first == s.first == s.frames[0].firstSequence && m.minTime == s.frames[0].minTime
            && m.maxTime == s.frames[n].maxTime
            && m.last == s.frames[n].firstSequence + s.frames[n].rowCount - 1
            && m.bytes == LogEnd(s.frames)
  {
    hide EncodeFrame, FrameValid, LogBytes, SegBytes;
    var n := |s.frames| - 1;
    SegSize(t, s, last, time);
    FrameAt(t, s.day, s.frames, last, time, 0);
    assert s.frames[..0] == [];
    assert s.frames == s.frames[..n] + [s.frames[n]];
    LogAppend(s.frames[..n], s.frames[n]);
  }

  /** The ends of a segment's index agree with the segment's record. */
  lemma {:induction false} SavedEnds(t: Table, s: Seg, last: int, time: int, state: SegState)
    requires TableValid(t) && SegFits(t, s, last, time) && AllValid(s.frames)
    ensures EndsOk(MetaOf(t, s, state), IndexOf(s.frames))
  {
    hide EncodeFrame, FrameValid, EntryFor, LogBytes, IndexOf, SegFits, MetaOf;
    var frames, n := s.frames, |s.frames| - 1;
    if frames != [] {
      MetaEnds(t, s, last, time, state);
      IndexAt(frames, 0);
      IndexAt(frames, n);
      assert frames[..0] == [];
      NoEntries();
      EntryStart(frames[0], 128);
      EntryStart(frames[n], 128 + |LogBytes(frames[..n])|);
      EntryShape(frames[n], 128 + |LogBytes(frames[..n])|);
    }
  }

  lemma {:induction false} EntryStart(f: Frame, offset: nat)
    requires FrameValid(f)
    ensures Framed(f, EncodeFrame(f))
    ensures var v := EntryFor(f, EncodeFrame(f), offset);
            && v.offset == offset && v.first == f.firstSequence && v.rows == f.rowCount && v.minTime == f.minTime
            && v.maxTime == f.maxTime
            && v.rowsOffset >= 80
  {
    hide EncodeFrame, FrameValid, Checksum;
    FrameLength(f);
  }

  /** What is written to a sealed index reads back unchanged. */
  lemma {:induction false} SavedReads(t: Table, s: Seg, last: int, time: int, state: SegState, k: nat)
    requires TableValid(t) && SegFits(t, s, last, time) && |SegBytes(t, s)| <= U64_MAX && k < |s.frames|
             && AllValid(s.frames)
    ensures |EntryBytes(IndexOf(s.frames)[k])| == 64
    ensures DecodeEntry(MetaOf(t, s, state), t.rowWidth, EntryBytes(IndexOf(s.frames)[k])) == Some(IndexOf(s.frames)[k])
  {
    hide FrameValid, IndexOf, ReadEntry, EntryOk, SegBytes, Pack, SegFits;
    var v := IndexOf(s.frames)[k];
    SavedPasses(t, s, last, time, state, k);
    EntryOffsets();
    PackLength(ENTRY_WIDTHS, EntryValues(v));
    EntryIff(v, EntryBytes(v));
  }

  /** What an entry says of its frame. */
  ghost predicate Tells(v: Entry, f: Frame) {
    && v.minTime == f.minTime && v.maxTime == f.maxTime && v.first == f.firstSequence && v.rows == f.rowCount
    && v.definitions == f.definitionCount && v.definitionsCrc == Checksum(f.definitions)
  }

  /** Reading a segment file where its index says gives the frame, its definitions and its rows, and the checksum that
      the frame ends with. */
  lemma {:induction false} EntryLocates(t: Table, s: Seg, last: int, time: int, k: nat)
    requires TableValid(t) && SegFits(t, s, last, time) && AllValid(s.frames) && k < |s.frames|
    ensures var v, f, p := IndexOf(s.frames)[k], s.frames[k], SegBytes(t, s);
            && 128 <= v.offset && v.offset + v.bytes <= |p| && 80 <= v.rowsOffset <= v.bytes - 16
            && Tells(v, f) && p[v.offset..v.offset + v.bytes] == EncodeFrame(f)
            && p[v.offset + 80..v.offset + v.rowsOffset] == f.definitions
            && p[v.offset + v.rowsOffset..v.offset + v.bytes - 16] == f.rows
            && Get(p[v.offset + v.bytes - 4..v.offset + v.bytes]) == v.crc
  {
    hide EncodeFrame, FrameValid, LogBytes, IndexOf, SegFits, SegBytes, EntryFor, Checksum, Get, RowBytes;
    var f, offset, p := s.frames[k], 128 + |LogBytes(s.frames[..k])|, SegBytes(t, s);
    IndexAt(s.frames, k);
    EntryShape(f, offset);
    FrameInside(t, s, last, time, k);
    FrameThere(t, s, last, time, k);
    EntryParts(f, offset);
    Within(p, offset, EncodeFrame(f), IndexOf(s.frames)[k].rowsOffset);
  }

  lemma {:induction false} Within(p: seq<Byte>, at: nat, q: seq<Byte>, mid: nat)
    requires at + |q| <= |p| && p[at..at + |q|] == q && 80 <= mid <= |q| - 16
    ensures p[at + 80..at + mid] == q[80..mid] && p[at + mid..at + |q| - 16] == q[mid..|q| - 16]
    ensures p[at + |q| - 4..at + |q|] == q[|q| - 4..]
  {
    hide *;
    forall i | 0 <= i < |q| ensures p[at + i] == q[i] { assert p[at..at + |q|][i] == q[i]; }
  }

  lemma {:induction false} FrameThere(t: Table, s: Seg, last: int, time: int, k: nat)
    requires TableValid(t) && SegFits(t, s, last, time) && AllValid(s.frames) && k < |s.frames|
    requires AllValid(s.frames[..k])
    requires 128 + |LogBytes(s.frames[..k])| + |EncodeFrame(s.frames[k])| <= |SegBytes(t, s)|
    ensures var at := 128 + |LogBytes(s.frames[..k])|;
            SegBytes(t, s)[at..at + |EncodeFrame(s.frames[k])|] == EncodeFrame(s.frames[k])
  {
    hide EncodeFrame, FrameValid, LogBytes, SegFits, SegBytes, NextFrame, TableValid;
    LogBehind(t, s, last, time);
    var a, b := LogBytes(s.frames[..k]), LogBytes(s.frames[k..]);
    assert s.frames == s.frames[..k] + s.frames[k..];
    LogConcat(s.frames[..k], s.frames[k..]);
    LogNonempty(s.frames, k);
    NextAt(b, s.frames, k);
    Behind(SegBytes(t, s), a, b, EncodeFrame(s.frames[k]));
  }

  lemma {:induction false} LogBehind(t: Table, s: Seg, last: int, time: int)
    requires TableValid(t) && SegFits(t, s, last, time) && AllValid(s.frames)
    ensures |SegBytes(t, s)| >= 128 && SegBytes(t, s)[128..] == LogBytes(s.frames)
  {
    hide FrameValid, LogBytes, SegFits, DecodeSegment, SegBytes;
    SegWritable(t, s, last, time);
    SegParts(t, s, []);
    assert SegBytes(t, s) + [] == SegBytes(t, s) && LogBytes(s.frames) + [] == LogBytes(s.frames);
  }

  lemma {:induction false} Behind(p: seq<Byte>, a: seq<Byte>, b: seq<Byte>, q: seq<Byte>)
    requires |p| >= 128 && p[128..] == a + b && |q| <= |b| && b[..|q|] == q
    ensures p[128 + |a|..128 + |a| + |q|] == q
  {
    hide *;
    assert p[128..][|a|..|a| + |q|] == b[..|q|];
    assert p[128 + |a|..128 + |a| + |q|] == p[128..][|a|..|a| + |q|];
  }

  lemma {:induction false} EntryParts(f: Frame, offset: nat)
    requires FrameValid(f)
    ensures Framed(f, EncodeFrame(f))
    ensures var v, q := EntryFor(f, EncodeFrame(f), offset), EncodeFrame(f);
            && v.offset == offset && v.bytes == |q| && Tells(v, f) && 80 <= v.rowsOffset <= |q| - 16
            && q[80..v.rowsOffset] == f.definitions && q[v.rowsOffset..|q| - 16] == f.rows
            && Get(q[|q| - 4..]) == v.crc
  {
    hide EncodeFrame, ContentValid, HeaderBytes, Trailer, Checksum, WithChecksum, Get;
    FrameLength(f);
    EncodeLength(f);
    EncodeAssembles(f);
    var q := EncodeFrame(f);
    assert q[|q| - 4..|q|] == q[|q| - 4..];
  }

  /** What an entry has to say to be believed: rows of the segment, in its sequence numbers and times, in a frame within
      its committed bytes that holds just those rows and has room for the definitions. */
  ghost predicate Believable(m: Meta, rowWidth: nat, v: Entry) {
    && v.rows > 0 && v.first > 0 && m.first <= v.first && v.first + v.rows - 1 <= m.last
    && v.first + v.rows - 1 <= U64_MAX
    && m.minTime <= v.minTime <= v.maxTime <= m.maxTime
    && 128 <= v.offset && v.offset + v.bytes <= m.bytes && v.bytes <= 0x10_0000
    && v.bytes == v.rowsOffset + v.rows * rowWidth + 16
    && v.rowsOffset % 8 == 0 && 80 + 12 * v.definitions <= v.rowsOffset
  }

  /** A stored entry is taken exactly when it can be believed. */
  lemma {:induction false} EntryTaken(m: Meta, rowWidth: nat, v: Entry)
    requires Storable(v) && |EntryBytes(v)| == 64
    ensures DecodeEntry(m, rowWidth, EntryBytes(v)) == Some(v) <==> Believable(m, rowWidth, v)
  {
    hide ReadEntry, EntryBytes, RowBytes;
    EntryIff(v, EntryBytes(v));
    RowBytesProduct(v.rows, rowWidth);
    InTwelves(v.definitions, v.rowsOffset - 80);
  }

  lemma {:induction false} InTwelves(d: nat, n: int)
    ensures d <= n / 12 <==> 12 * d <= n
  {
  }
}
