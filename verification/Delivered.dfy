/** From what clients supplied to what readers get: the rows that a scan of the readable segments sees
    (src/query/scan.c:155-170) are, one for one and in order, the rows that requests supplied, and each decodes, in the
    dictionary that its segment defines, to the time and the values supplied for it. */
module Delivered {
  import opened Bytes
  import opened Frames
  import opened Logs
  import opened Schemas
  import opened RowCodec
  import opened SymbolRows
  import opened Commit
  import opened Ledgers
  import opened Appending
  import opened Histories
  import opened Receipts
  import Replay
  import H = History
  import I = Items
  import Snapshots

  /** A row that was supplied, and the segment that holds it. */
  datatype Supply = Supply(segment: Chapter, line: Line)

  function FrameSupply(c: Chapter, k: nat): (r: seq<Supply>)
    requires k < |c.lines|
    ensures |r| == |c.lines[k]| && forall i :: 0 <= i < |r| ==> r[i] == Supply(c, c.lines[k][i])
  {
    seq(|c.lines[k]|, i requires 0 <= i < |c.lines[k]| => Supply(c, c.lines[k][i]))
  }

  /** The rows supplied for the first n frames of a segment. */
  function SegmentSupply(c: Chapter, n: nat): seq<Supply>
    requires n <= |c.lines|
  {
    if n == 0 then [] else SegmentSupply(c, n - 1) + FrameSupply(c, n - 1)
  }

  /** The rows supplied for all segments that are not retired. */
  function Supplied(cs: seq<Chapter>, retired: nat -> bool): seq<Supply> {
    if cs == [] then []
    else
      var n := |cs| - 1;
      Supplied(cs[..n], retired) + if retired(n) then [] else SegmentSupply(cs[n], |cs[n].lines|)
  }

  function LinesIn(supply: seq<Supply>): (r: seq<Line>)
    ensures |r| == |supply| && forall i :: 0 <= i < |r| ==> r[i] == supply[i].line
  {
    seq(|supply|, i requires 0 <= i < |supply| => supply[i].line)
  }

  /** An item is row r of frame k of the segment, which is the row supplied. */
  ghost predicate Stands(s: Schema, limit: nat, x: I.Item, y: Supply, k: nat, r: nat)
    requires Built(s)
  {
    && Faithful(s, limit, y.segment) && k < |y.segment.frames| && r < |y.segment.lines[k]|
    && y.line == y.segment.lines[k][r] && x.time == y.line.time
    && x.sequence == y.segment.frames[k].firstSequence + r
    && RowBytes(r, s.rowWidth) + s.rowWidth <= |y.segment.frames[k].rows|
    && x.bytes == RowAt(y.segment.frames[k].rows, s.rowWidth, r)
  }

  ghost predicate Matches(s: Schema, limit: nat, x: I.Item, y: Supply)
    requires Built(s)
  {
    exists k, r :: Stands(s, limit, x, y, k, r)
  }

  ghost predicate AllMatch(s: Schema, limit: nat, items: seq<I.Item>, supply: seq<Supply>)
    requires Built(s)
  {
    |items| == |supply| && forall i :: 0 <= i < |items| ==> Matches(s, limit, items[i], supply[i])
  }

  lemma {:induction false} MatchConcat(s: Schema, limit: nat, a: seq<I.Item>, x: seq<Supply>, b: seq<I.Item>,
                                       y: seq<Supply>)
    requires Built(s) && AllMatch(s, limit, a, x) && AllMatch(s, limit, b, y)
    ensures AllMatch(s, limit, a + b, x + y)
  {
    hide Built, Matches;
  }

  /** What a reader takes for row r of a frame is the stretch of its bytes at r times the width. */
  lemma {:induction false} SliceIsRow(f: Frame, r: nat)
    requires FrameValid(f) && r < f.rowCount
    ensures RowBytes(r, f.rowWidth) + f.rowWidth <= |f.rows|
    ensures H.RowSlice(f, r) == RowAt(f.rows, f.rowWidth, r)
  {
    hide ContentValid;
    RowBytesMonotone(r + 1, f.rowCount, f.rowWidth);
  }

  lemma {:induction false} FrameMatches(s: Schema, limit: nat, c: Chapter, k: nat)
    requires Built(s) && Faithful(s, limit, c) && k < |c.frames|
    requires FrameValid(c.frames[k]) && c.frames[k].rowWidth == s.rowWidth
    ensures AllMatch(s, limit, Snapshots.FrameItems(c.frames[k]), FrameSupply(c, k))
  {
    hide Built, Replay.Replayed, Replay.Holds, RowsEncode, H.RowSlice, TimeAt, FrameValid, RowAt;
    var f, items, supply := c.frames[k], Snapshots.FrameItems(c.frames[k]), FrameSupply(c, k);
    assert FrameFaithful(s, c, k);
    forall r | 0 <= r < |items| ensures Matches(s, limit, items[r], supply[r]) {
      SliceIsRow(f, r);
      LineTime(s, f, c.lines[k], Meaning(DefsOf(s, c.frames[..k + 1])), r);
      assert Stands(s, limit, items[r], supply[r], k, r);
    }
  }

  ghost predicate Fitting(s: Schema, frames: seq<Frame>) {
    forall k :: 0 <= k < |frames| ==> FrameValid(frames[k]) && frames[k].rowWidth == s.rowWidth
  }

  lemma {:induction false} SegmentMatches(s: Schema, limit: nat, c: Chapter, n: nat)
    requires Built(s) && Faithful(s, limit, c) && Fitting(s, c.frames) && n <= |c.frames|
    ensures AllMatch(s, limit, I.ItemsOf(Snapshots.BatchesOf(c.frames[..n])), SegmentSupply(c, n))
  {
    hide Built, FrameValid, AllMatch, Snapshots.FrameItems, FrameFaithful, Replay.Replayed, Replay.Holds;
    if n == 0 {
      NoneMatch(s, limit);
      assert c.frames[..0] == [];
    } else {
      SegmentMatches(s, limit, c, n - 1);
      FrameMatches(s, limit, c, n - 1);
      var batches := Snapshots.BatchesOf(c.frames[..n]);
      assert batches[..n - 1] == Snapshots.BatchesOf(c.frames[..n - 1]);
      MatchConcat(s, limit, I.ItemsOf(Snapshots.BatchesOf(c.frames[..n - 1])), SegmentSupply(c, n - 1),
                  Snapshots.FrameItems(c.frames[n - 1]), FrameSupply(c, n - 1));
    }
  }

  lemma {:induction false} NoneMatch(s: Schema, limit: nat)
    requires Built(s)
    ensures AllMatch(s, limit, [], []) && I.ItemsOf(Snapshots.BatchesOf([])) == []
  {
    hide Built;
  }

  lemma {:induction false} TableMatches(s: Schema, limit: nat, cs: seq<Chapter>, retired: nat -> bool,
                                        size: nat -> nat)
    requires Built(s) && AllRecorded(cs) && AllFaithful(s, limit, cs)
    requires forall i :: 0 <= i < |cs| ==> Fitting(s, cs[i].frames)
    ensures AllMatch(s, limit, I.AllItems(Snapshots.ReadableParts(HistoryOf(cs), retired, size)),
                     Supplied(cs, retired))
  {
    hide Built, AllMatch, Snapshots.ReadableParts, I.AllItems, I.ItemsOf, Snapshots.BatchesOf, SegmentSupply, Faithful,
         Fitting;
    if cs == [] {
      NoParts(retired, size);
      NoneMatch(s, limit);
    } else {
      var n := |cs| - 1;
      var front, c := cs[..n], cs[n];
      TableMatches(s, limit, front, retired, size);
      assert HistoryOf(cs) == HistoryOf(front) + [SegOf(c)];
      Snapshots.ReadableNext(HistoryOf(front), SegOf(c), retired, size);
      var parts := Snapshots.ReadableParts(HistoryOf(front), retired, size);
      var items, supply := I.AllItems(parts), Supplied(front, retired);
      if retired(n) {
        assert parts + [] == parts && supply + [] == supply;
      } else {
        WholeSegment(s, limit, c);
        MatchConcat(s, limit, items, supply, I.ItemsOf(Snapshots.BatchesOf(c.frames)),
                    SegmentSupply(c, |c.lines|));
        if c.frames == [] {
          NoneMatch(s, limit);
          assert parts + [] == parts && items + [] == items;
        } else {
          var p := I.Part(Snapshots.BatchesOf(c.frames), size(n));
          I.AllConcat(parts, [p]);
          OnePart(p);
        }
      }
    }
  }

  lemma {:induction false} WholeSegment(s: Schema, limit: nat, c: Chapter)
    requires Built(s) && Faithful(s, limit, c) && Fitting(s, c.frames)
    ensures AllMatch(s, limit, I.ItemsOf(Snapshots.BatchesOf(c.frames)), SegmentSupply(c, |c.lines|))
  {
    hide Built, Fitting, AllMatch, I.ItemsOf, Snapshots.BatchesOf, SegmentSupply, FrameFaithful, Replay.Replayed,
         Replay.Holds;
    assert c.frames[..|c.frames|] == c.frames;
    SegmentMatches(s, limit, c, |c.frames|);
  }

  lemma {:induction false} OnePart(p: I.Part)
    ensures I.AllItems([p]) == I.ItemsOf(p.batches)
  {
    assert [p][..0] == [];
    assert I.AllItems([]) == [];
  }

  lemma {:induction false} NoParts(retired: nat -> bool, size: nat -> nat)
    ensures I.AllItems(Snapshots.ReadableParts([], retired, size)) == []
  {
  }

  lemma {:induction false} HistoryFitting(s: Schema, t: H.Table, day: int, frames: seq<Frame>, last: int, time: int)
    requires H.FramesFit(t, day, frames, last, time) && t.rowWidth == s.rowWidth
    ensures Fitting(s, frames)
  {
    hide FrameValid;
    if frames != [] {
      HistoryFitting(s, t, day, frames[..|frames| - 1], last, time);
    }
  }

  lemma {:induction false} OrderedFitting(s: Schema, fingerprint: U64, limit: nat, id: U64, l: Ledger, i: nat)
    requires Built(s) && Ordered(s, fingerprint, limit, id, l) && i < |l.chapters|
    ensures Fitting(s, l.chapters[i].frames)
  {
    hide Built, H.FramesFit, H.HistFits, H.LastSequence, H.LastTime, Fitting, Accepts;
    var t, hist := TableOf(s, fingerprint, limit, id), HistoryOf(l.chapters);
    H.FitsAt(t, hist, i);
    HistoryFitting(s, t, hist[i].day, hist[i].frames, H.LastSequence(hist[..i]), H.LastTime(hist[..i]));
  }

  // ---- the result ----

  /** An item decodes to the time and the values of a line. */
  ghost predicate Decodes(s: Schema, x: I.Item, line: Line, dec: (nat, nat) -> Option<seq<Byte>>)
    requires Built(s)
  {
    && x.time == line.time && |x.bytes| == s.rowWidth && Canonical(s, x.bytes, dec)
    && DecodeValue(s, 0, x.bytes, dec) == Some(Int(line.time))
    && |line.values| == |s.fields| - 1
    && forall i :: 0 < i < |s.fields| ==> DecodeValue(s, i, x.bytes, dec) == Some(ValueOf(line.values, i))
  }

  lemma {:induction false} MatchDecodes(s: Schema, limit: nat, x: I.Item, y: Supply,
                                        dec: (nat, nat) -> Option<seq<Byte>>)
    requires Built(s) && Matches(s, limit, x, y)
    requires Replay.Replayed(Symbolic(s), y.segment.frames).Some?
             && Knows(dec, Replay.Replayed(Symbolic(s), y.segment.frames).value)
    ensures Decodes(s, x, y.line, dec)
  {
    hide Built, Replay.Replayed, Replay.Holds, Knows, Canonical, DecodeValue, FrameFaithful;
    var k, r :| Stands(s, limit, x, y, k, r);
    CommittedReads(s, limit, y.segment, k, r, dec);
  }

  /** The rows that the readable segments of a table show are exactly those supplied for its segments that are not
      retired, in order; and item k decodes, in what the frames of its segment define, to the time and the values that
      were supplied for it. */
  lemma {:induction false} ReadersGet(s: Schema, fingerprint: U64, limit: nat, id: U64, l: Ledger,
                                      retired: nat -> bool, size: nat -> nat, k: nat,
                                      dec: (nat, nat) -> Option<seq<Byte>>)
    requires Built(s) && Ordered(s, fingerprint, limit, id, l) && AllFaithful(s, limit, l.chapters)
    requires k < |Supplied(l.chapters, retired)|
    requires var c := Supplied(l.chapters, retired)[k].segment;
             && Replay.Replayed(Symbolic(s), c.frames).Some?
             && Knows(dec, Replay.Replayed(Symbolic(s), c.frames).value)
    ensures var items, supply := I.AllItems(Snapshots.ReadableParts(HistoryOf(l.chapters), retired, size)),
                                 Supplied(l.chapters, retired);
            |items| == |supply| && Decodes(s, items[k], supply[k].line, dec)
  {
    hide Built, Ordered, Replay.Replayed, Knows, Snapshots.ReadableParts, I.AllItems, Supplied, Decodes, Matches,
         AllFaithful, Fitting;
    var supply := Supplied(l.chapters, retired);
    OrderedRecorded(s, fingerprint, limit, id, l);
    forall i | 0 <= i < |l.chapters| ensures Fitting(s, l.chapters[i].frames) {
      OrderedFitting(s, fingerprint, limit, id, l, i);
    }
    TableMatches(s, limit, l.chapters, retired, size);
    var items := I.AllItems(Snapshots.ReadableParts(HistoryOf(l.chapters), retired, size));
    MatchDecodes(s, limit, items[k], supply[k], dec);
  }

  lemma {:induction false} OrderedRecorded(s: Schema, fingerprint: U64, limit: nat, id: U64, l: Ledger)
    requires Built(s) && Ordered(s, fingerprint, limit, id, l)
    ensures AllRecorded(l.chapters)
  {
    hide Built, H.HistFits;
  }

  /** With nothing retired, what was supplied is all rows of the table's segments, in the order of their commits. */
  lemma {:induction false} AllSupplied(cs: seq<Chapter>, retired: nat -> bool)
    requires forall i :: 0 <= i < |cs| ==> !retired(i)
    ensures LinesIn(Supplied(cs, retired)) == Flat(cs)
  {
    hide SegmentSupply, LinesOf;
    if cs != [] {
      var n := |cs| - 1;
      AllSupplied(cs[..n], retired);
      SegmentLines(cs[n], |cs[n].lines|);
      assert cs[n].lines[..|cs[n].lines|] == cs[n].lines;
      LinesInConcat(Supplied(cs[..n], retired), SegmentSupply(cs[n], |cs[n].lines|));
    }
  }

  lemma {:induction false} SegmentLines(c: Chapter, n: nat)
    requires n <= |c.lines|
    ensures LinesIn(SegmentSupply(c, n)) == LinesOf(c.lines[..n])
  {
    if n > 0 {
      SegmentLines(c, n - 1);
      assert c.lines[..n][..n - 1] == c.lines[..n - 1];
      LinesInConcat(SegmentSupply(c, n - 1), FrameSupply(c, n - 1));
      assert LinesIn(FrameSupply(c, n - 1)) == c.lines[n - 1];
    }
  }

  lemma {:induction false} LinesInConcat(a: seq<Supply>, b: seq<Supply>)
    ensures LinesIn(a + b) == LinesIn(a) + LinesIn(b)
  {
  }
}
