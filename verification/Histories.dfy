/** The segments that commits write form a history that recovery accepts: what
    recovery asks of a frame's content, given to the durability protocol as a
    parameter, is here the replay of its definitions within the budget and the
    validity of its rows (src/storage/segments.c:146-169). */
module Histories {
  import opened Bytes
  import opened Frames
  import opened Schemas
  import opened Symbols
  import opened SymbolRows
  import opened Commit
  import opened Ledgers
  import opened Appending
  import H = History
  import R = Recovery
  import Reopen
  import D = Durability
  import Images

  /** A record whose numbers fit their fields. */
  predicate Recorded(c: Chapter) { 1 <= c.id <= U64_MAX && 0 <= c.day <= I64_MAX && 1 <= c.first <= U64_MAX }

  predicate AllRecorded(cs: seq<Chapter>) { forall i :: 0 <= i < |cs| ==> Recorded(cs[i]) }

  function SegOf(c: Chapter): H.Seg
    requires Recorded(c)
  {
    H.Seg(c.id, c.day, c.first, c.frames)
  }

  function HistoryOf(cs: seq<Chapter>): (r: seq<H.Seg>)
    requires AllRecorded(cs)
    ensures |r| == |cs| && forall i :: 0 <= i < |cs| ==> r[i] == SegOf(cs[i])
  {
    seq(|cs|, i requires 0 <= i < |cs| => SegOf(cs[i]))
  }

  /** What recovery knows of a table. */
  ghost function TableOf(s: Schema, fingerprint: U64, limit: nat, id: U64): H.Table
    requires Built(s)
  {
    WidthFits(s);
    H.Table(id, fingerprint, s.rowWidth, (earlier: seq<Frame>, f: Frame) => Accepts(s, limit, earlier, f))
  }

  /** The segments are a history, the counters its last sequence number and time, and the next identifier is not used
      yet. */
  ghost predicate Ordered(s: Schema, fingerprint: U64, limit: nat, id: U64, l: Ledger)
    requires Built(s)
  {
    && AllRecorded(l.chapters) && H.HistFits(TableOf(s, fingerprint, limit, id), HistoryOf(l.chapters))
    && l.last == H.LastSequence(HistoryOf(l.chapters)) && l.time == H.LastTime(HistoryOf(l.chapters))
    && 1 <= l.next && (l.chapters != [] ==> l.chapters[|l.chapters| - 1].id < l.next)
  }

  lemma {:induction false} StartOrdered(s: Schema, fingerprint: U64, limit: nat, id: U64)
    requires Built(s)
    ensures Ordered(s, fingerprint, limit, id, Ledger([], false, 0, 1, 0, 0, false, []))
  {
    hide Built;
  }

  lemma {:induction false} DayIs(time: I64)
    requires time >= 0
    ensures DayStart(time) % DAY_US == 0 && DayStart(time) / DAY_US == time / DAY_US
  {
    assert time == DAY_US * (time / DAY_US) + time % DAY_US;
  }

  lemma {:induction false} EmptyFits(t: H.Table, hist: seq<H.Seg>, seg: H.Seg)
    requires H.HistFits(t, hist) && seg.id != 0 && seg.day >= 0 && seg.day % DAY_US == 0 && seg.frames == []
    requires seg.first == H.LastSequence(hist) + 1 && (hist != [] ==> hist[|hist| - 1].id < seg.id)
    ensures H.HistFits(t, hist + [seg]) && H.LastSequence(hist + [seg]) == H.LastSequence(hist)
            && H.LastTime(hist + [seg]) == H.LastTime(hist)
  {
    hide H.FrameFits, H.FrameRows, FrameValid;
    assert (hist + [seg])[..|hist|] == hist;
  }

  /** A new segment after a history. */
  lemma {:induction false} CreatedOrdered(s: Schema, fingerprint: U64, limit: nat, id: U64, l: Ledger, first: I64,
                                          skipped: nat)
    requires Built(s) && Ordered(s, fingerprint, limit, id, l) && first >= 0 && l.last < U64_MAX
             && l.next + skipped <= U64_MAX
    ensures Ordered(s, fingerprint, limit, id, Created(l, first, skipped))
  {
    hide Built, H.HistFits, H.LastSequence, H.LastTime, DayStart, TableOf, HistoryOf, AllRecorded;
    var c := Chapter(l.next + skipped, DayStart(first), l.last + 1, [], []);
    NewRecorded(c, first);
    HistoryMore(l.chapters, c);
    NewFits(TableOf(s, fingerprint, limit, id), l.chapters, c);
  }

  lemma {:induction false} NewRecorded(c: Chapter, first: I64)
    requires first >= 0 && c.day == DayStart(first) && 1 <= c.id <= U64_MAX && 1 <= c.first <= U64_MAX
    ensures Recorded(c) && c.day % DAY_US == 0
  {
    DayIs(first);
  }

  lemma {:induction false} HistoryMore(cs: seq<Chapter>, c: Chapter)
    requires AllRecorded(cs) && Recorded(c)
    ensures AllRecorded(cs + [c]) && HistoryOf(cs + [c]) == HistoryOf(cs) + [SegOf(c)]
  {
  }

  lemma {:induction false} NewFits(t: H.Table, cs: seq<Chapter>, c: Chapter)
    requires AllRecorded(cs) && Recorded(c) && H.HistFits(t, HistoryOf(cs)) && c.day % DAY_US == 0 && c.frames == []
    requires c.first == H.LastSequence(HistoryOf(cs)) + 1 && (cs != [] ==> cs[|cs| - 1].id < c.id)
    ensures var hist := HistoryOf(cs) + [SegOf(c)];
            H.HistFits(t, hist) && H.LastSequence(hist) == H.LastSequence(HistoryOf(cs))
            && H.LastTime(hist) == H.LastTime(HistoryOf(cs))
  {
    hide H.HistFits, H.LastSequence, H.LastTime;
    EmptyFits(t, HistoryOf(cs), SegOf(c));
  }

  lemma {:induction false} ExtendedHistory(cs: seq<Chapter>, f: Frame, group: seq<Line>)
    requires cs != [] && AllRecorded(cs)
    ensures AllRecorded(Extended(cs, f, group)) && HistoryOf(Extended(cs, f, group)) == D.AddFrame(HistoryOf(cs), f)
  {
  }

  /** A frame of the next rows, not earlier than the last, in the segment of its day. */
  lemma {:induction false} PublishedOrdered(s: Schema, fingerprint: U64, limit: nat, id: U64, l: Ledger, f: Frame,
                                            n: nat, group: seq<Line>, all: seq<Def>, first: I64, final: I64)
    requires Built(s) && Ordered(s, fingerprint, limit, id, l) && l.chapters != [] && first >= 0 && first >= l.time
    requires Carries(f, fingerprint, s.rowWidth, l.last + 1, |group|, first, final)
             && l.chapters[|l.chapters| - 1].day == DayStart(first)
    requires AllFaithful(s, limit, Extended(l.chapters, f, group))
    ensures Ordered(s, fingerprint, limit, id, Published(l, f, n, group, all))
  {
    hide Built, H.HistFits, H.LastSequence, H.LastTime, DayStart, FrameValid, Faithful, Accepts;
    var t, hist, c := TableOf(s, fingerprint, limit, id), HistoryOf(l.chapters), l.chapters[|l.chapters| - 1];
    DayIs(first);
    LastAccepted(s, limit, l.chapters, f, group);
    Images.AddFrameFits(t, hist, f);
    ExtendedHistory(l.chapters, f, group);
  }

  lemma {:induction false} LastAccepted(s: Schema, limit: nat, cs: seq<Chapter>, f: Frame, group: seq<Line>)
    requires Built(s) && cs != [] && AllFaithful(s, limit, Extended(cs, f, group))
    ensures Accepts(s, limit, cs[|cs| - 1].frames, f)
  {
    hide Built, Faithful, Accepts;
    var c := Extended(cs, f, group)[|cs| - 1];
    var k := |cs[|cs| - 1].frames|;
    assert Faithful(s, limit, c);
    assert c.frames[..k] == cs[|cs| - 1].frames && c.frames[k] == f;
    CommittedAccepted(s, limit, c, k);
  }

  /** A commit keeps the history, if its rows are not earlier than the last ones. */
  lemma {:induction false} CommitOrdered(s: Schema, fingerprint: U64, limit: nat, target: nat, id: U64, l: Ledger,
                                         l': Ledger, outcome: Outcome, ready: bool, moved: bool, f: Frame,
                                         group: seq<Line>, first: I64, final: I64, created: Creation,
                                         reserved: Reservation, wrote: bool)
    requires Built(s) && Ordered(s, fingerprint, limit, id, l) && AllFaithful(s, limit, l'.chapters)
             && (moved || l.chapters != [])
    requires Ended(s, l, l', outcome, ready, moved, f, group, first, created, reserved, wrote)
    requires ready ==> first >= 0 && first >= l.time && l.last + |group| <= U64_MAX && group != []
    requires ready ==> Carries(f, fingerprint, s.rowWidth, l.last + 1, |group|, first, final)
    requires ready ==> Room(s, limit, target, l, moved, first, group)
    ensures Ordered(s, fingerprint, limit, id, l')
  {
    hide Built, Ordered, AllFaithful, Carries, GroupDefs, FrameBytes, DayStart, Suits, FitsNew;
    if ready && (!moved || Makes(l, created)) {
      if moved { CreatedOrdered(s, fingerprint, limit, id, l, first, created.skipped); }
      var m := if moved then Created(l, first, created.skipped) else l;
      if reserved == Ok && wrote {
        PublishedOrdered(s, fingerprint, limit, id, m, f, FrameBytes(f), group,
                         GroupDefs(s, if moved then [] else l.defs, group), first, final);
      } else {
        OrderedSame(s, fingerprint, limit, id, m, l');
      }
    } else {
      OrderedSame(s, fingerprint, limit, id, l, l');
    }
  }

  lemma {:induction false} OrderedSame(s: Schema, fingerprint: U64, limit: nat, id: U64, l: Ledger, l': Ledger)
    requires Built(s) && Ordered(s, fingerprint, limit, id, l)
    requires l'.chapters == l.chapters && l'.last == l.last && l'.time == l.time && l'.next == l.next
    ensures Ordered(s, fingerprint, limit, id, l')
  {
  }

  // ---- how large segments grow ----

  /** A segment never has more frames than an index holds, and is larger than the target only with a single frame. */
  predicate Bounded(target: nat, c: Chapter) {
    |c.frames| <= MAX_INDEX_ENTRIES && (|c.frames| > 1 ==> FileBytes(c.frames) <= target)
  }

  predicate AllBounded(target: nat, cs: seq<Chapter>) { forall i :: 0 <= i < |cs| ==> Bounded(target, cs[i]) }

  /** The size that a table keeps of its active segment is that of its file. */
  predicate Measured(l: Ledger) {
    l.open && l.chapters != [] ==> l.bytes == FileBytes(l.chapters[|l.chapters| - 1].frames)
  }

  lemma {:induction false} FrameAdded(target: nat, l: Ledger, f: Frame, n: nat, group: seq<Line>, all: seq<Def>)
    requires l.chapters != [] && l.open && AllBounded(target, l.chapters) && Measured(l) && n == FrameBytes(f)
    requires var c := l.chapters[|l.chapters| - 1];
             |c.frames| < MAX_INDEX_ENTRIES && (c.frames != [] ==> l.bytes + n <= target)
    ensures var l' := Published(l, f, n, group, all); AllBounded(target, l'.chapters) && Measured(l')
  {
    hide FileBytes, FrameBytes;
    FileGrows(l.chapters[|l.chapters| - 1].frames, f);
  }

  /** Every commit keeps to the bounds of the index and of the target size. */
  lemma {:induction false} CommitBounded(s: Schema, limit: nat, target: nat, l: Ledger, l': Ledger, outcome: Outcome,
                                         ready: bool, moved: bool, f: Frame, group: seq<Line>, first: I64,
                                         created: Creation, reserved: Reservation, wrote: bool)
    requires (moved || l.chapters != []) && AllBounded(target, l.chapters) && Measured(l)
    requires Ended(s, l, l', outcome, ready, moved, f, group, first, created, reserved, wrote)
    requires ready ==> Room(s, limit, target, l, moved, first, group)
    ensures AllBounded(target, l'.chapters) && Measured(l')
  {
    hide FileBytes, FrameBytes, GroupFrame, GroupDefs, FitsAfter, DayStart, Published, Bounded;
    if ready && (!moved || Makes(l, created)) {
      var m := if moved then Created(l, first, created.skipped) else l;
      EmptyBounded(target, l, first, created.skipped);
      if reserved == Ok && wrote {
        FrameAdded(target, m, f, FrameBytes(f), group, GroupDefs(s, if moved then [] else l.defs, group));
      }
    }
  }

  lemma {:induction false} EmptyBounded(target: nat, l: Ledger, first: I64, skipped: nat)
    requires AllBounded(target, l.chapters)
    ensures var m := Created(l, first, skipped); AllBounded(target, m.chapters) && Measured(m)
  {
    hide DayStart;
    NoFrames();
  }

  /** The files of a table that commits have written: recovery accepts every one of their frames, content included, and
      reopens the table exactly when its manifest is not blocked. */
  lemma {:induction false} CommittedRecovers(s: Schema, fingerprint: U64, limit: nat, id: U64, l: Ledger,
                                             m: R.Manifest, files: Reopen.Files, indexed: set<U64>)
    requires Built(s) && Ordered(s, fingerprint, limit, id, l) && id != 0
    requires var t, hist := TableOf(s, fingerprint, limit, id), HistoryOf(l.chapters);
             Reopen.Matches(t, m, hist) && Reopen.FilesHold(t, files, m, hist)
    ensures var t, hist := TableOf(s, fingerprint, limit, id), HistoryOf(l.chapters);
            && (Reopen.Recover(t, m, files, indexed).Reopened? <==> !Reopen.Blocked(m))
            && (!Reopen.Blocked(m) ==>
                  Reopen.Recover(t, m, files, indexed) ==
                    Reopen.Reopened(m.(segments := Reopen.Exact(t, m.segments, hist)), l.last, l.time))
  {
    hide Built, H.HistFits, Reopen.Matches, Reopen.FilesHold, Reopen.Recover, Reopen.Exact, Reopen.Blocked;
    BuiltWidth(s);
    Reopen.RecoveryIff(TableOf(s, fingerprint, limit, id), m, HistoryOf(l.chapters), files, indexed);
  }
}
