/** The history of a table: its segments in creation order, the frames committed
    to each, and what every new frame must satisfy. These are the conditions that
    recovery re-checks (src/storage/segments.c:124-169). */
module History {
  import opened Bytes
  import opened Frames
  import opened Logs
  import opened Segments

  /** What recovery knows of a table. accepts(earlier, f) is the outcome of replaying the definitions
      of f and validating its rows after the earlier frames of the same segment. */
  datatype Table = Table(id: U64, schemaHash: U64, rowWidth: U32, accepts: (seq<Frame>, Frame) -> bool)

  predicate TableValid(t: Table) {
    t.id != 0 && 0 < t.rowWidth <= MAX_ROW_BYTES && t.rowWidth % 8 == 0
  }

  datatype Seg = Seg(id: U64, day: I64, first: U64, frames: seq<Frame>)

  function RowTotal(frames: seq<Frame>): nat {
    if frames == [] then 0 else RowTotal(frames[..|frames| - 1]) + frames[|frames| - 1].rowCount
  }

  function EndTime(frames: seq<Frame>, time: int): int {
    if frames == [] then time else frames[|frames| - 1].maxTime
  }

  /** A frame that may follow: right table, next sequence number, time not going back, same day, content accepted. */
  predicate FrameFits(t: Table, day: int, earlier: seq<Frame>, f: Frame, last: int, time: int) {
    && FrameValid(f)
    && f.schemaHash == t.schemaHash && f.rowWidth == t.rowWidth
    && f.firstSequence == last + 1
    && f.minTime >= time && f.minTime / DAY_US == day / DAY_US
    && t.accepts(earlier, f)
  }

  predicate FramesFit(t: Table, day: int, frames: seq<Frame>, last: int, time: int) {
    frames == [] ||
    var front, f := frames[..|frames| - 1], frames[|frames| - 1];
    FramesFit(t, day, front, last, time) && FrameFits(t, day, front, f, last + RowTotal(front), EndTime(front, time))
  }

  /** The sequence number and the time after all committed rows. */
  function LastSequence(hist: seq<Seg>): nat {
    if hist == [] then 0 else LastSequence(hist[..|hist| - 1]) + RowTotal(hist[|hist| - 1].frames)
  }

  function LastTime(hist: seq<Seg>): int {
    if hist == [] then 0 else EndTime(hist[|hist| - 1].frames, LastTime(hist[..|hist| - 1]))
  }

  predicate SegFits(t: Table, s: Seg, last: int, time: int) {
    && s.id != 0 && s.day >= 0 && s.day % DAY_US == 0
    && s.first != 0 && s.first == last + 1
    && FramesFit(t, s.day, s.frames, last, time)
  }

  predicate HistFits(t: Table, hist: seq<Seg>) {
    hist == [] ||
    var front, s := hist[..|hist| - 1], hist[|hist| - 1];
    && HistFits(t, front)
    && SegFits(t, s, LastSequence(front), LastTime(front))
    && (front != [] ==> front[|front| - 1].id < s.id)
  }

  /** Every committed frame, in order. */
  function Log(hist: seq<Seg>): seq<Frame> {
    if hist == [] then [] else Log(hist[..|hist| - 1]) + hist[|hist| - 1].frames
  }

  // ---- rows ----

  datatype Row = Row(sequence: nat, bytes: seq<Byte>)

  /** The rows of a frame, numbered from its first sequence. */
  function FrameRows(f: Frame): (rows: seq<Row>)
    ensures |rows| == f.rowCount
    ensures forall i :: 0 <= i < |rows| ==> rows[i].sequence == f.firstSequence + i
  {
    seq(f.rowCount, i requires 0 <= i < f.rowCount => Row(f.firstSequence + i, RowSlice(f, i)))
  }

  function RowSlice(f: Frame, i: nat): seq<Byte> {
    var from, to := RowBytes(i, f.rowWidth), RowBytes(i + 1, f.rowWidth);
    if from <= to <= |f.rows| then f.rows[from..to] else []
  }

  /** The bytes of some rows, one after the other. */
  function Joined(rows: seq<Row>): seq<Byte> {
    if rows == [] then [] else Joined(rows[..|rows| - 1]) + rows[|rows| - 1].bytes
  }

  /** The rows of a frame are its bytes, cut at every row width: none is missing, none twice. */
  lemma {:induction false} RowsAreBytes(f: Frame)
    requires FrameValid(f)
    ensures Joined(FrameRows(f)) == f.rows
    ensures forall i :: 0 <= i < f.rowCount ==> |FrameRows(f)[i].bytes| == f.rowWidth
  {
    hide ContentValid, RowBytes, SizesValid;
    forall i | 0 <= i < f.rowCount ensures |FrameRows(f)[i].bytes| == f.rowWidth {
      SliceWidth(f, i);
    }
    JoinedPrefix(f, f.rowCount);
    assert FrameRows(f)[..f.rowCount] == FrameRows(f);
    assert f.rows[..|f.rows|] == f.rows;
  }

  lemma {:induction false} SliceWidth(f: Frame, i: nat)
    requires RowBytes(f.rowCount, f.rowWidth) == |f.rows| && i < f.rowCount
    ensures RowBytes(i + 1, f.rowWidth) == RowBytes(i, f.rowWidth) + f.rowWidth <= |f.rows|
    ensures RowSlice(f, i) == f.rows[RowBytes(i, f.rowWidth)..RowBytes(i + 1, f.rowWidth)]
  {
    RowBytesMonotone(i + 1, f.rowCount, f.rowWidth);
  }

  lemma {:induction false} JoinedPrefix(f: Frame, n: nat)
    requires RowBytes(f.rowCount, f.rowWidth) == |f.rows| && n <= f.rowCount
    ensures RowBytes(n, f.rowWidth) <= |f.rows| && Joined(FrameRows(f)[..n]) == f.rows[..RowBytes(n, f.rowWidth)]
  {
    hide RowSlice;
    RowBytesMonotone(n, f.rowCount, f.rowWidth);
    if n > 0 {
      JoinedPrefix(f, n - 1);
      SliceWidth(f, n - 1);
      assert FrameRows(f)[..n][..n - 1] == FrameRows(f)[..n - 1];
    }
  }

  function Rows(frames: seq<Frame>): seq<Row> {
    if frames == [] then [] else Rows(frames[..|frames| - 1]) + FrameRows(frames[|frames| - 1])
  }

  lemma {:induction false} RowsLength(frames: seq<Frame>)
    ensures |Rows(frames)| == RowTotal(frames)
  {
    hide FrameRows;
    if frames != [] {
      RowsLength(frames[..|frames| - 1]);
    }
  }

  lemma {:induction false} RowTotalConcat(a: seq<Frame>, b: seq<Frame>)
    ensures RowTotal(a + b) == RowTotal(a) + RowTotal(b)
    decreases |b|
  {
    if b == [] {
      assert a + b == a;
    } else {
      assert (a + b)[..|a + b| - 1] == a + b[..|b| - 1];
      RowTotalConcat(a, b[..|b| - 1]);
    }
  }

  lemma {:induction false} RowsConcat(a: seq<Frame>, b: seq<Frame>)
    ensures Rows(a + b) == Rows(a) + Rows(b)
    decreases |b|
  {
    hide FrameRows;
    if b == [] {
      assert a + b == a;
    } else {
      assert (a + b)[..|a + b| - 1] == a + b[..|b| - 1];
      RowsConcat(a, b[..|b| - 1]);
      assert Rows(a + b) == Rows(a + b[..|b| - 1]) + FrameRows(b[|b| - 1]);
    }
  }

  lemma {:induction false} LogRows(hist: seq<Seg>)
    ensures RowTotal(Log(hist)) == LastSequence(hist)
  {
    if hist != [] {
      LogRows(hist[..|hist| - 1]);
      RowTotalConcat(Log(hist[..|hist| - 1]), hist[|hist| - 1].frames);
    }
  }

  // ---- prefixes of a history ----

  lemma {:induction false} FitsPrefix(t: Table, hist: seq<Seg>, i: nat)
    requires HistFits(t, hist) && i <= |hist|
    ensures HistFits(t, hist[..i])
    decreases |hist|
  {
    hide SegFits;
    if i < |hist| {
      FitsPrefix(t, hist[..|hist| - 1], i);
      assert hist[..|hist| - 1][..i] == hist[..i];
    } else {
      assert hist[..i] == hist;
    }
  }

  /** Each segment fits what came before it, and its identifier is larger. */
  lemma FitsAt(t: Table, hist: seq<Seg>, i: nat)
    requires HistFits(t, hist) && i < |hist|
    ensures HistFits(t, hist[..i])
    ensures SegFits(t, hist[i], LastSequence(hist[..i]), LastTime(hist[..i]))
    ensures i > 0 ==> hist[i - 1].id < hist[i].id
    ensures LastSequence(hist[..i + 1]) == LastSequence(hist[..i]) + RowTotal(hist[i].frames)
    ensures LastTime(hist[..i + 1]) == EndTime(hist[i].frames, LastTime(hist[..i]))
  {
    hide SegFits;
    FitsPrefix(t, hist, i + 1);
    assert hist[..i + 1][..i] == hist[..i];
  }

  lemma {:induction false} IdsIncrease(t: Table, hist: seq<Seg>, i: nat, j: nat)
    requires HistFits(t, hist) && i < j < |hist|
    ensures hist[i].id < hist[j].id
    decreases j
  {
    hide SegFits;
    FitsAt(t, hist, j);
    if i < j - 1 {
      IdsIncrease(t, hist, i, j - 1);
    }
  }

  lemma {:induction false} SequenceGrows(hist: seq<Seg>, i: nat, j: nat)
    requires i <= j <= |hist|
    ensures LastSequence(hist[..i]) <= LastSequence(hist[..j])
    decreases j
  {
    if i < j {
      SequenceGrows(hist, i, j - 1);
      assert hist[..j][..j - 1] == hist[..j - 1];
    }
  }

  // ---- frames of one segment ----

  lemma {:induction false} FramesFitPrefix(t: Table, day: int, frames: seq<Frame>, last: int, time: int, k: nat)
    requires FramesFit(t, day, frames, last, time) && k <= |frames|
    ensures FramesFit(t, day, frames[..k], last, time)
    decreases |frames|
  {
    hide FrameFits;
    if k < |frames| {
      FramesFitPrefix(t, day, frames[..|frames| - 1], last, time, k);
      assert frames[..|frames| - 1][..k] == frames[..k];
    } else {
      assert frames[..k] == frames;
    }
  }

  lemma {:induction false} FramesFitValid(t: Table, day: int, frames: seq<Frame>, last: int, time: int)
    requires FramesFit(t, day, frames, last, time)
    ensures AllValid(frames)
    decreases |frames|
  {
    hide FrameValid;
    if frames != [] {
      FramesFitValid(t, day, frames[..|frames| - 1], last, time);
    }
  }

  /** Rows of frames that fit are numbered consecutively. */
  lemma {:induction false} FramesNumbered(t: Table, day: int, frames: seq<Frame>, last: int, time: int)
    requires FramesFit(t, day, frames, last, time)
    ensures forall i :: 0 <= i < |Rows(frames)| ==> Rows(frames)[i].sequence == last + 1 + i
    decreases |frames|
  {
    hide FrameValid, FrameRows;
    RowsLength(frames);
    if frames != [] {
      var front := frames[..|frames| - 1];
      FramesNumbered(t, day, front, last, time);
      RowsLength(front);
    }
  }

  /** The rows of a whole history are numbered 1, 2, 3 and so on: none is missing and none repeats. */
  lemma {:induction false} RowsNumbered(t: Table, hist: seq<Seg>)
    requires HistFits(t, hist)
    ensures |Rows(Log(hist))| == LastSequence(hist)
    ensures forall i :: 0 <= i < |Rows(Log(hist))| ==> Rows(Log(hist))[i].sequence == i + 1
  {
    hide FramesFit;
    LogRows(hist);
    RowsLength(Log(hist));
    if hist != [] {
      var front, s := hist[..|hist| - 1], hist[|hist| - 1];
      RowsNumbered(t, front);
      FramesNumbered(t, s.day, s.frames, LastSequence(front), LastTime(front));
      RowsConcat(Log(front), s.frames);
    }
  }

  /** Time never goes back, within a segment and from one to the next. */
  lemma {:induction false} FramesEndLater(t: Table, day: int, frames: seq<Frame>, last: int, time: int)
    requires FramesFit(t, day, frames, last, time)
    ensures EndTime(frames, time) >= time
    ensures frames != [] ==> time <= frames[0].minTime <= EndTime(frames, time)
    ensures frames != [] ==>
              frames[0].minTime / DAY_US == day / DAY_US && EndTime(frames, time) / DAY_US == day / DAY_US
    ensures frames != [] ==> RowTotal(frames) >= 1
    decreases |frames|
  {
    hide ContentValid, RowBytes;
    if frames != [] {
      FramesEndLater(t, day, frames[..|frames| - 1], last, time);
    }
  }

  lemma {:induction false} TimeGrows(t: Table, hist: seq<Seg>, i: nat, j: nat)
    requires HistFits(t, hist) && i <= j <= |hist|
    ensures LastTime(hist[..i]) <= LastTime(hist[..j])
    decreases j
  {
    hide FramesFit;
    if i < j {
      TimeGrows(t, hist, i, j - 1);
      FitsAt(t, hist, j - 1);
      FramesEndLater(t, hist[j - 1].day, hist[j - 1].frames, LastSequence(hist[..j - 1]), LastTime(hist[..j - 1]));
    }
  }
}
