/** What readers of a running table get: in every run of the durability protocol, at
    every moment the table is open, a scan of its readable segments answers for exactly
    the committed rows beyond the retention watermark. */
module Visibility {
  import opened Bytes
  import opened Frames
  import opened Logs
  import opened History
  import opened Recovery
  import opened Reopen
  import opened Durability
  import opened Images
  import opened CrashSafety
  import opened Runs
  import opened Snapshots
  import I = Items
  import S = Scans

  function RowOf(x: I.Item): Row { Row(x.sequence, x.bytes) }

  function RowsOf(items: seq<I.Item>): (r: seq<Row>)
    ensures |r| == |items| && forall i :: 0 <= i < |r| ==> r[i] == RowOf(items[i])
  {
    seq(|items|, i requires 0 <= i < |items| => RowOf(items[i]))
  }

  lemma {:induction false} RowsOfConcat(a: seq<I.Item>, b: seq<I.Item>)
    ensures RowsOf(a + b) == RowsOf(a) + RowsOf(b)
  {
  }

  lemma {:induction false} FrameAgrees(f: Frame)
    requires FrameValid(f)
    ensures RowsOf(FrameItems(f)) == FrameRows(f)
  {
    hide TimeAt, RowSlice, FrameValid;
  }

  /** The items of a segment are its rows. */
  lemma {:induction false} FramesAgree(t: Table, day: int, frames: seq<Frame>, last: int, time: int)
    requires FramesFit(t, day, frames, last, time)
    ensures RowsOf(I.ItemsOf(BatchesOf(frames))) == Rows(frames)
  {
    hide FrameItems, FrameRows, FrameValid;
    if frames != [] {
      var front, f := frames[..|frames| - 1], frames[|frames| - 1];
      FramesAgree(t, day, front, last, time);
      FrameAgrees(f);
      assert BatchesOf(frames)[..|front|] == BatchesOf(front);
      RowsOfConcat(I.ItemsOf(BatchesOf(front)), FrameItems(f));
    }
  }

  /** Which segments of an open table are retired. */
  ghost function Retirement(s: State): nat -> bool
    requires s.Open?
  {
    (i: nat) => i < |s.mem.image.segments| && s.mem.image.segments[i].state == Retired
  }

  /** The first segments: what is readable of them is what is visible of them. */
  lemma {:induction false} ReadableIsVisible(t: Table, s: State, size: nat -> nat, n: nat)
    requires Inv(t, s) && s.Open? && n <= |s.hist| == |s.mem.image.segments|
    ensures RowsOf(I.AllItems(ReadableParts(s.hist[..n], Retirement(s), size))) ==
              Rows(Visible(Contents(s.disk), s.mem.image.segments[..n]))
    decreases n
  {
    hide Inv, BatchesOf, Rows, StoredFrames, Contents, FrameItems, I.ItemsOf, I.AllItems, ReadableParts, SegFits,
         LastSequence, LastTime;
    var metas, retired := s.mem.image.segments, Retirement(s);
    NoHistory(retired, size);
    NoRows();
    if n == 0 {
      assert s.hist[..0] == [] && metas[..0] == [];
    } else {
      ReadableIsVisible(t, s, size, n - 1);
      var front, seg := s.hist[..n - 1], s.hist[n - 1];
      assert s.hist[..n] == front + [seg] && metas[..n][..n - 1] == metas[..n - 1];
      ReadableNext(front, seg, retired, size);
      var parts, v := ReadableParts(front, retired, size), Visible(Contents(s.disk), metas[..n - 1]);
      if retired(n - 1) {
        assert parts + [] == parts && v + [] == v;
      } else {
        SegmentAgrees(t, s, n - 1);
        RowsConcat(v, seg.frames);
        if seg.frames == [] {
          assert parts + [] == parts;
          assert Rows(v) + [] == Rows(v);
        } else {
          I.PartNext(parts + [I.Part(BatchesOf(seg.frames), size(n - 1))], |parts|);
          var more := parts + [I.Part(BatchesOf(seg.frames), size(n - 1))];
          assert more[..|parts|] == parts && more[..|parts| + 1] == more;
          RowsOfConcat(I.AllItems(parts), I.ItemsOf(BatchesOf(seg.frames)));
        }
      }
    }
  }

  lemma {:induction false} SegmentAgrees(t: Table, s: State, i: nat)
    requires Inv(t, s) && s.Open? && i < |s.hist| == |s.mem.image.segments| && s.mem.image.segments[i].state != Retired
    ensures StoredFrames(Contents(s.disk), s.mem.image.segments[i]) == s.hist[i].frames
    ensures RowsOf(I.ItemsOf(BatchesOf(s.hist[i].frames))) == Rows(s.hist[i].frames)
  {
    hide FramesFit, Rows, StoredFrames, Contents, BatchesOf, I.ItemsOf, HistFits, Inv, LastSequence, LastTime;
    VisibleRecord(t, s, i);
    InvRows(t, s);
    FitsAt(t, s.hist, i);
    FramesAgree(t, s.hist[i].day, s.hist[i].frames, LastSequence(s.hist[..i]), LastTime(s.hist[..i]));
  }

  lemma {:induction false} Aligned(t: Table, s: State)
    requires Inv(t, s) && s.Open?
    ensures |s.hist| == |s.mem.image.segments|
  {
    hide HistFits, IsExact, RecordMatches, DiskOk, PcOk, LastSequence, LastTime;
  }

  /** At every moment of every run at which the table is open, its readable segments are in the order that scans and
      snapshots rely on, and they hold exactly the committed rows beyond the watermark, in order, none missing and none
      twice. */
  lemma {:induction false} ReadersSee(t: Table, states: seq<State>, steps: seq<Step>, i: nat, size: nat -> nat)
    requires TableValid(t) && IsRun(t, states, steps) && i < |states| && states[i].Open?
    ensures var s := states[i];
            var readable := ReadableParts(s.hist, Retirement(s), size);
            && S.Scannable(readable)
            && 0 <= s.mem.image.preservedSequence <= |Rows(Log(s.hist))|
            && RowsOf(I.AllItems(readable)) == Rows(Log(s.hist))[s.mem.image.preservedSequence..]
            && Log(s.hist) == Survivors(states, steps, i)
  {
    hide Inv, HistFits, Rows, Log, Visible, ReadableParts, I.AllItems, S.Scannable, Survivors, Contents, Acknowledged,
         LastSequence, LastTime;
    var s := states[i];
    RunKeeps(t, states, steps, i);
    InvRows(t, s);
    HistoryScannable(t, s.hist, Retirement(s), size);
    Aligned(t, s);
    ReadableIsVisible(t, s, size, |s.hist|);
    assert s.hist[..|s.hist|] == s.hist && s.mem.image.segments[..|s.hist|] == s.mem.image.segments;
    VisibleRows(t, s);
    LogIs(t, states, steps, i);
  }
}
