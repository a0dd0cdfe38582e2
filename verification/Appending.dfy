/** The table as the writer changes it in wadb_commit_requests
    (src/storage/segments.c:298-424): its dictionary, its active segment and, as ghosts,
    the values that clients supplied for every committed row. */
module Appending {
  import opened Bytes
  import opened Layout
  import opened Frames
  import opened Symbols
  import opened Definitions
  import opened Dictionaries
  import opened Replay
  import Utf8
  import opened Schemas
  import opened RowCodec
  import opened SymbolRows
  import opened Commit
  import opened Ledgers

  function OutcomeOf(s: Status): Outcome {
    match s
    case OK => Ok
    case LIMIT => Limit
    case NOMEM => NoMemory
    case INVALID | CORRUPT => Malformed
  }

  /** The definitions that frames make, none if they do not replay. */
  ghost function DefsOf(s: Schema, frames: seq<Frame>): seq<Def> {
    var r := Replayed(Symbolic(s), frames);
    if r.Some? then r.value else []
  }

  /** Every row of the segment encodes the values supplied for it, its symbols read in the dictionary that the segment's
      frames define up to and including the row's own; and that dictionary fits the budget. */
  ghost predicate Faithful(s: Schema, limit: nat, c: Chapter)
    requires Built(s)
  {
    && |c.frames| == |c.lines|
    && Replayed(Symbolic(s), c.frames).Some? && Holds(|Symbolic(s)|, limit, Replayed(Symbolic(s), c.frames).value)
    && forall k :: 0 <= k < |c.frames| ==> FrameFaithful(s, c, k)
  }

  ghost predicate FrameFaithful(s: Schema, c: Chapter, k: nat)
    requires Built(s) && k < |c.frames| == |c.lines|
  {
    && c.frames[k].rowCount == |c.lines[k]|
    && RowsEncode(s, c.frames[k].rows, c.lines[k], Meaning(DefsOf(s, c.frames[..k + 1])))
  }

  ghost predicate AllFaithful(s: Schema, limit: nat, cs: seq<Chapter>)
    requires Built(s)
  {
    forall k :: 0 <= k < |cs| ==> Faithful(s, limit, cs[k])
  }

  lemma {:induction false} AllMore(s: Schema, limit: nat, cs: seq<Chapter>, c: Chapter)
    requires Built(s)
    ensures AllFaithful(s, limit, cs + [c]) <==> AllFaithful(s, limit, cs) && Faithful(s, limit, c)
  {
    hide Built, Faithful;
    var all := cs + [c];
    if AllFaithful(s, limit, all) {
      forall k | 0 <= k < |cs| ensures Faithful(s, limit, cs[k]) { assert Faithful(s, limit, all[k]); }
      assert Faithful(s, limit, all[|cs|]);
    }
  }

  lemma RowsWider(s: Schema, bytes: seq<Byte>, lines: seq<Line>, a: SymbolRelation, b: SymbolRelation)
    requires Built(s) && RowsEncode(s, bytes, lines, a) && Wider(s, a, b)
    ensures RowsEncode(s, bytes, lines, b)
  {
    hide Built, RowEncodes, Wider;
    forall r | 0 <= r < |lines| ensures RowEncodes(s, bytes, lines, r, b) { RowEncodesWider(s, bytes, lines, r, a, b); }
  }

  /** Appending a frame with the additions since a mark keeps a segment faithful. */
  lemma FaithfulNext(s: Schema, limit: nat, c: Chapter, f: Frame, lines: seq<Line>, defs: seq<Def>, all: seq<Def>)
    requires Built(s) && Faithful(s, limit, c) && Replayed(Symbolic(s), c.frames) == Some(defs)
    requires |all| <= U32_MAX && Extends(Symbolic(s), defs, all) && Holds(|Symbolic(s)|, limit, all)
    requires f.definitions == Exported(all, |defs|) && f.definitionCount == |all| - |defs|
    requires f.rowCount == |lines| && RowsEncode(s, f.rows, lines, Meaning(all))
    ensures Faithful(s, limit, Longer(c, f, lines)) && Replayed(Symbolic(s), c.frames + [f]) == Some(all)
  {
    hide Replayed, RowsEncode, Exported, Meaning, Holds;
    FieldsFew(s);
    ExportReplays(Symbolic(s), c.frames, f, defs, all);
    hide Built, Extends;
    var more := Longer(c, f, lines);
    forall k | 0 <= k < |more.frames| ensures FrameFaithful(s, more, k) {
      if k < |c.frames| {
        assert FrameFaithful(s, c, k);
        assert more.frames[..k + 1] == c.frames[..k + 1];
      } else {
        assert more.frames[..k + 1] == more.frames;
      }
    }
  }

  /** The record of the active segment and its frames. */
  predicate IsActive(c: Chapter, day: int, frames: seq<Frame>) { c.day == day && c.frames == frames }

  lemma {:induction false} AllExtended(s: Schema, limit: nat, cs: seq<Chapter>, day: int, frames: seq<Frame>, f: Frame,
                                       group: seq<Line>, defs: seq<Def>, all: seq<Def>)
    requires Built(s) && AllFaithful(s, limit, cs) && cs != [] && IsActive(cs[|cs| - 1], day, frames)
    requires Replayed(Symbolic(s), frames) == Some(defs)
    requires |all| <= U32_MAX && Extends(Symbolic(s), defs, all) && Holds(|Symbolic(s)|, limit, all)
    requires f.definitions == Exported(all, |defs|) && f.definitionCount == |all| - |defs|
    requires f.rowCount == |group| && RowsEncode(s, f.rows, group, Meaning(all))
    ensures AllFaithful(s, limit, Extended(cs, f, group)) && Replayed(Symbolic(s), frames + [f]) == Some(all)
    ensures |Extended(cs, f, group)| == |cs| && IsActive(Extended(cs, f, group)[|cs| - 1], day, frames + [f])
  {
    hide Built, Replayed, RowsEncode, Exported, Meaning, Holds, Extends, AllFaithful, Faithful;
    var front, c := cs[..|cs| - 1], cs[|cs| - 1];
    assert cs == front + [c] && Extended(cs, f, group) == front + [Longer(c, f, group)];
    AllMore(s, limit, front, c);
    AllMore(s, limit, front, Longer(c, f, group));
    FaithfulNext(s, limit, c, f, group, defs, all);
  }

  lemma FieldsFew(s: Schema)
    requires Built(s)
    ensures |Symbolic(s)| <= MAX_FIELDS
  {
  }

  /** What a dictionary holds beyond a mark was admissible and new when it was added. */
  lemma ViewExtends(d: Dictionary, mark: nat)
    requires d.Valid() && mark <= |d.View()|
    ensures Extends(d.symbolic, d.View()[..mark], d.View()) && |d.View()| <= U32_MAX
  {
    hide FieldCount, Positions, Probing.Filled, Accounted, Internable;
  }

  // ---- the frame that is built is one that the encoder takes ----

  /** Times never go back, start and end as given, and stay in one day. */
  predicate InTime(lines: seq<Line>, minTime: I64, maxTime: I64) {
    && lines != [] && lines[0].time == minTime >= 0 && lines[|lines| - 1].time == maxTime
    && minTime / DAY_US == maxTime / DAY_US
    && forall i, j :: 0 <= i <= j < |lines| ==> lines[i].time <= lines[j].time
  }

  lemma {:induction false} RecordsSize(defs: seq<Def>, mark: nat)
    requires mark <= |defs|
    ensures |Records(defs, mark)| >= 12 * (|defs| - mark) && (mark == |defs| ==> Records(defs, mark) == [])
    decreases |defs| - mark
  {
    hide Record, FieldCount;
    if mark < |defs| { RecordsSize(defs, mark + 1); }
  }

  lemma {:induction false} ExportedSizes(defs: seq<Def>, mark: nat)
    requires mark <= |defs|
    ensures |Exported(defs, mark)| % 8 == 0 && |defs| - mark <= |Exported(defs, mark)| / 12
            && (mark == |defs| ==> Exported(defs, mark) == [])
  {
    hide Records;
    RecordsSize(defs, mark);
  }

  lemma {:induction false} ExportedValid(s: Schema, all: seq<Def>, mark: nat)
    requires Built(s) && mark <= |all| <= U32_MAX && Extends(Symbolic(s), all[..mark], all)
    ensures DefinitionsValid(Exported(all, mark), |all| - mark)
  {
    hide Extends, Parse, DefinitionsValid, Exported, Built;
    FieldsFew(s);
    ExportedSizes(all, mark);
    ParseIff(Symbolic(s), all[..mark], Exported(all, mark), |all| - mark, all);
    ParseValid(Symbolic(s), all[..mark], Exported(all, mark), |all| - mark);
  }

  /** The time that a frame shows for a row is the line's. */
  lemma {:induction false} LineTime(s: Schema, f: Frame, lines: seq<Line>, sym: SymbolRelation, i: nat)
    requires Built(s) && RowsEncode(s, f.rows, lines, sym) && f.rowCount == |lines| && f.rowWidth == s.rowWidth
             && i < |lines|
    ensures f.rowWidth >= 8 && RowBytes(f.rowCount, f.rowWidth) == |f.rows| && TimeAt(f, i) == lines[i].time
  {
    hide Put, Get, Built;
    WideEnough(s);
    RowBytesMonotone(i + 1, |lines|, s.rowWidth);
    var row, at := RowAt(f.rows, s.rowWidth, i), RowBytes(i, s.rowWidth);
    assert RowEncodes(s, f.rows, lines, i, sym);
    TimeIff(s, row, lines[i].time);
    AtMiddle(f.rows, at, at + s.rowWidth, 0, 8);
  }

  lemma {:induction false} BuiltTimes(s: Schema, f: Frame, lines: seq<Line>, sym: SymbolRelation)
    requires Built(s) && RowsEncode(s, f.rows, lines, sym) && f.rowCount == |lines| && f.rowWidth == s.rowWidth
             && InTime(lines, f.minTime, f.maxTime)
    ensures f.rowWidth >= 8 && RowBytes(f.rowCount, f.rowWidth) == |f.rows| && TimesValid(f)
  {
    hide RowsEncode, Built, TimeAt;
    LineTime(s, f, lines, sym, 0);
    LineTime(s, f, lines, sym, |lines| - 1);
    forall i, j | 0 <= i <= j < f.rowCount ensures TimeAt(f, i) <= TimeAt(f, j) {
      LineTime(s, f, lines, sym, i);
      LineTime(s, f, lines, sym, j);
    }
  }

  /** Only the rows of a group in time make a valid frame. */
  lemma {:induction false} ValidInTime(s: Schema, f: Frame, lines: seq<Line>, sym: SymbolRelation)
    requires Built(s) && RowsEncode(s, f.rows, lines, sym) && f.rowCount == |lines| && f.rowWidth == s.rowWidth
    requires FrameValid(f)
    ensures InTime(lines, f.minTime, f.maxTime)
  {
    hide RowsEncode, Built, TimeAt, DefinitionsValid;
    forall i | 0 <= i < |lines| ensures TimeAt(f, i) == lines[i].time {
      LineTime(s, f, lines, sym, i);
    }
    forall i, j | 0 <= i <= j < |lines| ensures lines[i].time <= lines[j].time {
      assert TimeAt(f, i) <= TimeAt(f, j);
    }
  }

  lemma {:induction false} BuiltWidth(s: Schema)
    requires Built(s)
    ensures 0 < s.rowWidth <= MAX_ROW_BYTES && s.rowWidth % 8 == 0
  {
    WideEnough(s);
  }

  /** A group in time whose rows and additions fit a frame makes a valid frame. */
  lemma {:induction false} BuiltValid(s: Schema, f: Frame, lines: seq<Line>, all: seq<Def>, mark: nat,
                                      sym: SymbolRelation)
    requires Built(s) && RowsEncode(s, f.rows, lines, sym) && f.rowCount == |lines| && f.rowWidth == s.rowWidth
             && InTime(lines, f.minTime, f.maxTime)
    requires mark <= |all| <= U32_MAX && Extends(Symbolic(s), all[..mark], all)
    requires f.definitions == Exported(all, mark) && f.definitionCount == |all| - mark && f.firstSequence != 0
             && f.rowCount - 1 <= U64_MAX - f.firstSequence
    requires |f.rows| + |f.definitions| + 96 <= MAX_FRAME_BYTES
    ensures FrameValid(f)
  {
    hide RowsEncode, Built, TimesValid, DefinitionsValid, Exported, Extends, RowBytes;
    BuiltTimes(s, f, lines, sym);
    BuiltWidth(s);
    ExportedValid(s, all, mark);
    ExportedSizes(all, mark);
  }

  // ---- one attempt ----

  /** The bytes of the frame that a group makes after known definitions. */
  ghost function GroupFrame(s: Schema, defs: seq<Def>, lines: seq<Line>): nat {
    var all := GroupDefs(s, defs, lines);
    (if |defs| <= |all| then |Exported(all, |defs|)| else 0) + RowBytes(|lines|, s.rowWidth) + 96
  }

  lemma {:induction false} FrameSize(s: Schema, defs: seq<Def>, lines: seq<Line>)
    ensures GroupFrame(s, defs, lines) >= 96
  {
    hide GroupDefs, Exported;
  }

  /** A group that fits after known definitions: a dictionary built from nothing holds all texts, and a frame its
      additions and rows. */
  ghost predicate FitsAfter(s: Schema, limit: nat, defs: seq<Def>, lines: seq<Line>) {
    Holds(|Symbolic(s)|, limit, GroupDefs(s, defs, lines)) && GroupFrame(s, defs, lines) <= MAX_FRAME_BYTES
  }

  /** A group that a new segment can take. */
  ghost predicate FitsNew(s: Schema, limit: nat, lines: seq<Line>) { FitsAfter(s, limit, [], lines) }

  /** A group that fits after known definitions and, unless it would be the first of its segment, under the target
      size. */
  ghost predicate Suits(s: Schema, limit: nat, target: nat, defs: seq<Def>, group: seq<Line>, free: bool, bytes: nat) {
    FitsAfter(s, limit, defs, group) && (free || bytes + GroupFrame(s, defs, group) <= target)
  }

  /** There is room for a group: in a new segment, or in the active one, which must be the right one. */
  ghost predicate Room(s: Schema, limit: nat, target: nat, l: Ledger, moved: bool, first: I64, group: seq<Line>) {
    if moved then FitsNew(s, limit, group)
    else !Needs(l, first) && Suits(s, limit, target, l.defs, group, l.chapters[|l.chapters| - 1].frames == [], l.bytes)
  }

  lemma {:induction false} NoRoom(s: Schema, limit: nat, target: nat, l: Ledger, first: I64, group: seq<Line>)
    requires Needs(l, first)
    ensures !Room(s, limit, target, l, false, first, group)
  {
  }

  /** Not even an empty dictionary fits a budget below the fixed part. */
  lemma {:induction false} FixedPart(s: Schema, limit: nat, lines: seq<Line>)
    requires DICTIONARY_BYTES + |Symbolic(s)| * COLUMN_BYTES > limit
    ensures !FitsNew(s, limit, lines)
  {
    hide GroupDefs, Symbolic, Exported, FreshBytes, GroupFrame;
    var n := |Symbolic(s)|;
    FreshPrefix(n, GroupDefs(s, [], lines), 0);
    assert GroupDefs(s, [], lines)[..0] == [];
    NothingBytes(n);
  }

  lemma {:induction false} NothingBytes(n: nat)
    ensures FreshBytes(n, []) >= DICTIONARY_BYTES + n * COLUMN_BYTES
  {
    hide Sum, Grown, FreshColumns;
  }

  lemma {:induction false} RecordsExported(defs: seq<Def>, mark: nat)
    requires mark <= |defs|
    ensures |Records(defs, mark)| <= |Exported(defs, mark)|
  {
    hide Records;
  }

  /** Numbers, definitions and frame for a group: lines 314 to 341. */
  method BuildFrame(s: Schema, fingerprint: U64, first: U64, d: Dictionary, buf: array<Byte>, lines: seq<Line>,
                    minTime: I64, maxTime: I64, fails: (nat, nat) -> nat)
    returns (status: Status, frame: Frame, n: nat)
    requires Built(s) && d.Valid() && d.symbolic == Symbolic(s) && RowsEncode(s, buf[..], lines, Upto([], 0))
    requires |lines| <= U32_MAX && buf.Length <= MAX_FRAME_BYTES - 96 && 0 < first && first + |lines| - 1 <= U64_MAX
    modifies buf, d, d.slots
    ensures d.Valid() && (d.slots == old(d.slots) || fresh(d.slots)) && old(d.View()) <= d.View()
    ensures RowsEncode(s, buf[..], lines, Upto([], 0))
    ensures status == OK ==>
              && FrameValid(frame) && n == |EncodeFrame(frame)| == FrameBytes(frame)
              && RowsEncode(s, frame.rows, lines, Meaning(d.View()))
              && frame.definitions == Exported(d.View(), |old(d.View())|)
              && frame.definitionCount == |d.View()| - |old(d.View())|
              && Carries(frame, fingerprint, s.rowWidth, first, |lines|, minTime, maxTime)
              && n == GroupFrame(s, old(d.View()), lines)
    ensures status == OK ==> InTime(lines, minTime, maxTime)
    ensures status == INVALID ==> !InTime(lines, minTime, maxTime)
    ensures status != CORRUPT && ((forall r: nat, f: nat :: fails(r, f) == 0) ==> status != NOMEM)
    ensures status == OK ==> d.View() == GroupDefs(s, old(d.View()), lines)
    ensures status in {OK, INVALID} ==> FitsAfter(s, d.limit, old(d.View()), lines)
    ensures old(d.Tight()) && FitsAfter(s, d.limit, old(d.View()), lines) ==> status != LIMIT
  {
    hide Built, Dictionary.Valid, Dictionary.Tight, RowsEncode, FrameValid, EncodeFrame, Exported, Records, Upto,
         Meaning, InTime, GroupDefs, Holds;
    RowsSize(s, buf[..], lines, Upto([], 0));
    var mark := |d.symbols|;
    n := 0;
    frame := Frame(fingerprint, first, minTime, maxTime, |lines|, 0, 0, [], []);
    status := InternRows(s, d, buf, lines, fails);
    ghost var rows := buf[..];
    if status == OK {
      AnyRows(s, rows, lines, Meaning(d.View()));
      RecordsExported(d.View(), mark);
      var definitions, count;
      status, definitions, count := Export(d, mark, MAX_FRAME_BYTES);
      if status == OK {
        assert buf[..] == rows;
        if |definitions| > MAX_FRAME_BYTES - 96 - buf.Length { return LIMIT, frame, 0; }
        ViewHolds(d);
        WidthFits(s);
        ViewExtends(d, mark);
        frame := Frame(fingerprint, first, minTime, maxTime, |lines|, s.rowWidth, count, definitions, buf[..]);
        if InTime(lines, minTime, maxTime) { BuiltValid(s, frame, lines, d.View(), mark, Meaning(d.View())); }
        var bytes := FrameEncode(frame);
        if bytes.None? { return INVALID, frame, 0; }
        ValidInTime(s, frame, lines, Meaning(d.View()));
        EncodedBytes(frame);
        n := |bytes.value|;
      }
    }
  }

  /** What a dictionary defines, one built from nothing holds too. */
  lemma {:induction false} ViewHolds(d: Dictionary)
    requires d.Valid()
    ensures Holds(|d.symbolic|, d.limit, d.View())
  {
    hide FreshBytes, Accounted, SymbolsOk, ColumnsOk;
    d.Replayable();
  }

  lemma AnyRows(s: Schema, bytes: seq<Byte>, lines: seq<Line>, sym: SymbolRelation)
    requires Built(s) && RowsEncode(s, bytes, lines, sym)
    ensures RowsEncode(s, bytes, lines, Upto([], 0))
  {
    hide Built, RowsEncode;
    Anything(s, sym);
    RowsWider(s, bytes, lines, sym, Upto([], 0));
  }

  lemma {:induction false} RowsSize(s: Schema, bytes: seq<Byte>, lines: seq<Line>, sym: SymbolRelation)
    requires Built(s) && RowsEncode(s, bytes, lines, sym)
    ensures |bytes| == RowBytes(|lines|, s.rowWidth)
  {
    hide RowEncodes, Built;
  }

  lemma WidthFits(s: Schema)
    requires Built(s)
    ensures s.rowWidth <= U32_MAX
  {
  }

  /** The size of a segment file: its header and its frames. */
  function FileBytes(frames: seq<Frame>): nat {
    if frames == [] then 128 else FileBytes(frames[..|frames| - 1]) + FrameBytes(frames[|frames| - 1])
  }

  function FrameBytes(f: Frame): nat { 96 + |f.definitions| + |f.rows| }

  lemma {:induction false} NoFrames()
    ensures FileBytes([]) == 128
  {
  }

  lemma {:induction false} FileGrows(frames: seq<Frame>, f: Frame)
    ensures FileBytes(frames + [f]) == FileBytes(frames) + FrameBytes(f)
  {
    assert (frames + [f])[..|frames|] == frames;
  }

  lemma {:induction false} EncodedBytes(f: Frame)
    requires FrameValid(f)
    ensures |EncodeFrame(f)| == FrameBytes(f)
  {
    hide EncodeFrame, ContentValid;
    EncodeLength(f);
  }

  // ---- the table ----

  lemma GroupFacts(s: Schema, bytes: seq<Byte>, requests: seq<Request>)
    requires Built(s) && requests != [] && forall i :: 0 <= i < |requests| ==> Prepared(s, requests[i])
    requires RowsEncode(s, bytes, Lines(requests), Upto([], 0))
    ensures |bytes| == RowBytes(|Lines(requests)|, s.rowWidth) && |Lines(requests)| > 0
  {
    hide Built, RowEncodes;
    assert Prepared(s, requests[|requests| - 1]);
  }

  lemma {:induction false} NothingFaithful(s: Schema, limit: nat, c: Chapter)
    requires Built(s) && Holds(|Symbolic(s)|, limit, []) && c.frames == [] && c.lines == []
    ensures Faithful(s, limit, c) && Replayed(Symbolic(s), []) == Some([])
  {
  }

  /** A resolver that knows exactly these definitions. */
  ghost predicate Knows(dec: (nat, nat) -> Option<seq<Byte>>, defs: seq<Def>) {
    forall i: nat, id: nat, text: seq<Byte> :: dec(i, id) == Some(text) <==> Means(defs, i, id, text)
  }

  lemma KnowsTexts(symbolic: seq<bool>, dec: (nat, nat) -> Option<seq<Byte>>, defs: seq<Def>)
    requires Extends(symbolic, [], defs) && Knows(dec, defs)
    ensures Resolves(dec)
  {
    forall i: nat, id: nat | dec(i, id).Some?
      ensures |dec(i, id).value| <= MAX_STRING_BYTES && Utf8.Utf8Octets(dec(i, id).value)
    {
      var text := dec(i, id).value;
      assert Means(defs, i, id, text);
      var k :| 0 <= k < |defs| && defs[k] == Def(i, text) && IdAt(defs, k) == id;
      assert Internable(symbolic, defs[k]);
    }
  }

  /** Reading a committed row through the replay of its segment's frames gives the time and the values the request
      supplied. */
  lemma CommittedReads(s: Schema, limit: nat, c: Chapter, k: nat, r: nat, dec: (nat, nat) -> Option<seq<Byte>>)
    requires Built(s) && Faithful(s, limit, c) && k < |c.frames| && r < |c.lines[k]|
             && Knows(dec, Replayed(Symbolic(s), c.frames).value)
    ensures RowBytes(r, s.rowWidth) + s.rowWidth <= |c.frames[k].rows|
    ensures var row := RowAt(c.frames[k].rows, s.rowWidth, r);
            && Canonical(s, row, dec) && DecodeValue(s, 0, row, dec) == Some(Int(c.lines[k][r].time))
            && |c.lines[k][r].values| == |s.fields| - 1
            && forall i :: 0 < i < |s.fields| ==> DecodeValue(s, i, row, dec) == Some(ValueOf(c.lines[k][r].values, i))
  {
    hide Built, Encodes, Replayed, DecodeValue, Extends, Knows, Holds;
    var defs, line := Replayed(Symbolic(s), c.frames).value, c.lines[k][r];
    RowBytesMonotone(r + 1, |c.lines[k]|, s.rowWidth);
    assert FrameFaithful(s, c, k);
    var known := DefsOf(s, c.frames[..k + 1]);
    assert RowEncodes(s, c.frames[k].rows, c.lines[k], r, Meaning(known));
    var row := RowAt(c.frames[k].rows, s.rowWidth, r);
    ReplayedPrefix(Symbolic(s), c.frames, k + 1);
    MeaningGrows(s, known, defs);
    EncodesWider(s, row, line.time, line.values, Meaning(known), Meaning(defs));
    ReplayedExtends(Symbolic(s), c.frames);
    KnowsTexts(Symbolic(s), dec, defs);
    KnowsMeaning(s, dec, defs);
    EncodesWider(s, row, line.time, line.values, Meaning(defs), Resolved(dec));
    RowDecodes(s, row, line.time, line.values, dec);
    ValuesCount(s, row, line.time, line.values, Resolved(dec));
  }

  /** What recovery asks of a frame after the earlier ones of its segment: its definitions replay within the budget, and
      every row is the encoding of some values, its symbols read in what is defined by then. */
  ghost predicate Accepts(s: Schema, limit: nat, earlier: seq<Frame>, f: Frame)
    requires Built(s)
  {
    && Replayed(Symbolic(s), earlier + [f]).Some?
    && Holds(|Symbolic(s)|, limit, Replayed(Symbolic(s), earlier + [f]).value)
    && forall r :: 0 <= r < f.rowCount ==> RowAccepted(s, f, r, Replayed(Symbolic(s), earlier + [f]).value)
  }

  ghost predicate RowAccepted(s: Schema, f: Frame, r: nat, defs: seq<Def>)
    requires Built(s)
  {
    RowBytes(r, s.rowWidth) + s.rowWidth <= |f.rows| &&
    exists time, values :: Encodes(s, RowAt(f.rows, s.rowWidth, r), time, values, Meaning(defs))
  }

  /** Recovery accepts every committed frame. */
  lemma {:induction false} CommittedAccepted(s: Schema, limit: nat, c: Chapter, k: nat)
    requires Built(s) && Faithful(s, limit, c) && k < |c.frames|
    ensures Accepts(s, limit, c.frames[..k], c.frames[k])
  {
    hide Built, Encodes, Replayed, Holds;
    var f := c.frames[k];
    assert c.frames[..k] + [f] == c.frames[..k + 1];
    ReplayedPrefix(Symbolic(s), c.frames, k + 1);
    HoldsPrefix(|Symbolic(s)|, limit, Replayed(Symbolic(s), c.frames[..k + 1]).value,
                Replayed(Symbolic(s), c.frames).value);
    assert FrameFaithful(s, c, k);
    var defs := DefsOf(s, c.frames[..k + 1]);
    forall r | 0 <= r < f.rowCount ensures RowAccepted(s, f, r, defs) {
      RowBytesMonotone(r + 1, |c.lines[k]|, s.rowWidth);
      assert RowEncodes(s, f.rows, c.lines[k], r, Meaning(defs));
    }
  }

  lemma KnowsMeaning(s: Schema, dec: (nat, nat) -> Option<seq<Byte>>, defs: seq<Def>)
    requires Knows(dec, defs)
    ensures Wider(s, Meaning(defs), Resolved(dec))
  {
    hide Means;
  }

  lemma ValuesCount(s: Schema, row: seq<Byte>, time: I64, values: seq<Value>, sym: SymbolRelation)
    requires Built(s) && Encodes(s, row, time, values, sym)
    ensures |values| == |s.fields| - 1
  {
  }

  class Table {
    const schema: Schema
    const fingerprint: U64
    const hash: (nat, seq<Byte>) -> nat
    const limit: nat
    const target: nat
    var dictionary: Dictionary?
    var open: bool                    // the last segment is active
    var day: int                      // its day_start
    var frames: seq<Frame>            // its committed frames
    var bytes: nat                    // its committed_bytes
    var last: nat                     // last_sequence of the table
    var time: int                     // last_time of the table
    var nextId: nat                   // next_segment_id
    var readOnly: bool
    ghost var chapters: seq<Chapter>  // its segments, the active one last

    ghost function Repr(): set<object>
      reads this, dictionary
    {
      if dictionary == null then {this} else
        var d: Dictionary := dictionary;
        {this, d, d.slots}
    }

    /** What the table's dictionary defines. */
    ghost function Defined(): seq<Def>
      reads this, dictionary
    {
      if dictionary == null then [] else dictionary.View()
    }

    ghost function Book(): Ledger
      reads this, dictionary
    {
      Ledger(chapters, open, bytes, nextId, last, time, readOnly, Defined())
    }

    /** Every row of every segment is faithful. */
    ghost predicate Sound()
      reads this
    {
      && Built(schema) && last <= U64_MAX && nextId <= U64_MAX
      && AllFaithful(schema, limit, chapters)
      && (open ==> chapters != [] && IsActive(chapters[|chapters| - 1], day, frames) && bytes == FileBytes(frames))
    }

    /** Besides, the table's dictionary is the replay of the active segment's frames. */
    ghost predicate Valid()
      reads this, Repr()
    {
      && Sound()
      && (dictionary != null ==> Serves(dictionary))
      && (open ==> dictionary != null && Replayed(Symbolic(schema), frames) == Some(dictionary.View()))
    }

    ghost predicate Serves(d: Dictionary)
      reads d, d.slots
    {
      d.Valid() && d.symbolic == Symbolic(schema) && d.hash == hash && d.limit == limit
    }

    /** A new table has no segment. */
    constructor (schema: Schema, fingerprint: U64, hash: (nat, seq<Byte>) -> nat, limit: nat, target: nat)
      requires Built(schema)
      ensures Valid() && fresh(Repr()) && Book() == Ledger([], false, 0, 1, 0, 0, false, [])
      ensures this.schema == schema && this.fingerprint == fingerprint && this.hash == hash && this.limit == limit
              && this.target == target
    {
      this.schema, this.fingerprint, this.hash, this.limit, this.target := schema, fingerprint, hash, limit, target;
      dictionary, open, day, frames, bytes, last, time, nextId := null, false, 0, [], 0, 0, 0, 1;
      readOnly, chapters := false, [];
    }

    /** A reader that replays the active segment, as it is or as it was earlier, stays within the writer's budget. */
    lemma ReadersFit(k: nat)
      requires Valid() && open && k <= |frames|
      ensures Replayed(Symbolic(schema), frames[..k]).Some?
      ensures Holds(|Symbolic(schema)|, limit, Replayed(Symbolic(schema), frames[..k]).value)
    {
      hide Dictionary.Valid, Replayed, Faithful, Holds, Built;
      ReplayFits(dictionary, frames, k);
    }

    /** wadb_dictionary_new for a segment not yet created. */
    method NewDictionary() returns (d: Dictionary?)
      requires Built(schema)
      ensures d != null ==> fresh(d) && fresh(d.slots) && Serves(d) && d.View() == [] && d.Tight()
      ensures d == null <==> DICTIONARY_BYTES + |Symbolic(schema)| * COLUMN_BYTES > limit
    {
      hide Dictionary.Valid, Dictionary.Tight;
      FieldsFew(schema);
      if DICTIONARY_BYTES + |Symbolic(schema)| * COLUMN_BYTES > limit { return null; }
      d := new Dictionary(Symbolic(schema), hash, limit);
    }

    /** A successful create_active, and the new dictionary put in place: lines 71 to 89 and 354 to 356. */
    method Install(d: Dictionary, first: I64, skipped: nat)
      requires Sound() && nextId + skipped < U64_MAX && Serves(d)
      modifies this
      ensures Sound() && Replayed(Symbolic(schema), frames) == Some([])
      ensures dictionary == d && Book() == Created(old(Book()), first, skipped).(defs := d.View())
    {
      hide Faithful, Built, Replayed, Holds, AllFaithful, DayStart, FileBytes, Symbolic, Dictionary.Valid;
      ghost var c := Chapter(nextId + skipped, DayStart(first), last + 1, [], []);
      EmptyHolds(d);
      NothingFaithful(schema, limit, c);
      AllMore(schema, limit, chapters, c);
      NoFrames();
      chapters := chapters + [c];
      open, day, frames, bytes, nextId, dictionary := true, DayStart(first), [], 128, nextId + skipped + 1, d;
    }

    /** Publishing a written frame: lines 383 to 391. */
    method Publish(f: Frame, group: seq<Line>, n: nat, mark: nat)
      requires Sound() && dictionary != null && Serves(dictionary) && open && last + |group| <= U64_MAX
               && n == FrameBytes(f)
      requires mark <= |dictionary.View()| && Replayed(Symbolic(schema), frames) == Some(dictionary.View()[..mark])
      requires f.definitions == Exported(dictionary.View(), mark) && f.definitionCount == |dictionary.View()| - mark
      requires f.rowCount == |group| && RowsEncode(schema, f.rows, group, Meaning(dictionary.View()))
      modifies this
      ensures Valid() && dictionary == old(dictionary) && old(chapters) != []
      ensures Book() == Published(old(Book()), f, n, group, old(Defined()))
    {
      hide Dictionary.Valid, RowsEncode, Exported, Meaning, Replayed, Built, Holds, AllFaithful, FileBytes, FrameBytes,
           Extended;
      ViewExtends(dictionary, mark);
      ViewHolds(dictionary);
      AllExtended(schema, limit, chapters, day, frames, f, group, dictionary.View()[..mark], dictionary.View());
      FileGrows(frames, f);
      chapters := Extended(chapters, f, group);
      frames, bytes, last, time := frames + [f], bytes + n, last + |group|, f.maxTime;
    }

    predicate NeedsSegment(first: I64)
      reads this
    {
      !open || day != DayStart(first) || |frames| >= MAX_INDEX_ENTRIES
    }

    lemma NeedsIs(first: I64)
      requires Sound()
      ensures NeedsSegment(first) <==> Needs(Book(), first)
    {
      hide Built, AllFaithful, FileBytes, DayStart;
    }

    /** A frame built in dictionary d from a mark on, waiting for its segment: d is new if the segment is. */
    ghost predicate Pending(d: Dictionary, moved: bool, mark: nat, f: Frame, group: seq<Line>)
      reads this, Repr(), d, d.slots
    {
      && Sound() && Serves(d) && last + |group| <= U64_MAX && mark <= |d.View()|
      && f.definitions == Exported(d.View(), mark) && f.definitionCount == |d.View()| - mark
      && f.rowCount == |group| && RowsEncode(schema, f.rows, group, Meaning(d.View()))
      && if moved then Valid() && d !in Repr() && d.slots !in Repr() && mark == 0
         else open && d == dictionary && Replayed(Symbolic(schema), frames) == Some(d.View()[..mark])
    }

    /** The state without what a pending frame has added to the dictionary. */
    ghost function Base(moved: bool, mark: nat): Ledger
      requires mark <= |Defined()| || moved
      reads this, dictionary
    {
      if moved then Book() else Book().(defs := Defined()[..mark])
    }

    /** create_active: lines 30 to 99. */
    method Create(d: Dictionary, first: I64, created: Creation) returns (outcome: Outcome)
      requires Valid() && Serves(d) && d !in Repr() && d.slots !in Repr()
      modifies this
      ensures outcome == Making(old(Book()), created)
      ensures outcome == Ok <==> Makes(old(Book()), created)
      ensures outcome == Ok ==> Sound() && open && Replayed(Symbolic(schema), frames) == Some([]) && dictionary == d
      ensures outcome == Ok ==> Book() == Created(old(Book()), first, created.skipped).(defs := d.View())
      ensures outcome != Ok ==> Valid() && dictionary == old(dictionary) && Book() == Unmade(old(Book()), created)
    {
      hide Dictionary.Valid, Replayed, Built, Holds, FileBytes, AllFaithful, DayStart;
      if nextId >= U64_MAX { return Limit; }
      if open && created.saved != Ok { return created.saved; }
      if nextId + created.skipped >= U64_MAX { return Limit; }
      if created.installed != Ok {
        readOnly := readOnly || created.installed == Indeterminate;
        return created.installed;
      }
      Install(d, first, created.skipped);
      outcome := Ok;
    }

    /** Reserving, writing and publishing in the active segment: lines 359 to 415. */
    method WriteOut(d: Dictionary, mark: nat, f: Frame, n: nat, group: seq<Line>, reserved: Reservation, wrote: bool)
      returns (outcome: Outcome)
      requires Pending(d, false, mark, f, group) && n == FrameBytes(f)
      modifies this, d, d.slots
      ensures Valid() && d.slots == old(d.slots) && dictionary == d && old(chapters) != []
      ensures outcome == Writing(reserved, wrote)
      ensures Book() == WrittenOut(old(Base(false, mark)), f, n, group, old(d.View()), reserved, wrote)
    {
      hide Dictionary.Valid, RowsEncode, Exported, Meaning, Replayed, Built, Holds, FrameBytes, FileBytes, AllFaithful,
           DayStart, Extended;
      ghost var defs := d.View();
      if reserved != Ok || !wrote {
        readOnly := readOnly || reserved == Ok;
        d.Rollback(mark);
        assert defs[..|defs|] == defs;
        return Writing(reserved, wrote);
      }
      Publish(f, group, n, mark);
      outcome := Ok;
    }

    /** Creating the segment, writing and publishing, once a frame is built: lines 351 to 415. */
    method Finish(d: Dictionary, moved: bool, mark: nat, f: Frame, n: nat, group: seq<Line>, first: I64,
                  created: Creation, reserved: Reservation, wrote: bool)
      returns (outcome: Outcome)
      requires Pending(d, moved, mark, f, group) && n == FrameBytes(f)
      modifies Repr(), d, d.slots
      ensures Valid() && d.slots == old(d.slots) && Repr() <= old(Repr()) + {d, d.slots}
              && (moved || old(chapters) != [])
      ensures outcome == Fate(old(Base(moved, mark)), moved, created, reserved, wrote)
      ensures Book() == Concluded(old(Base(moved, mark)), moved, f, n, group, first, old(d.View()), created, reserved,
                                  wrote)
    {
      hide Dictionary.Valid, RowsEncode, Exported, Meaning, Replayed, Built, Holds, FrameBytes, FileBytes, AllFaithful,
           DayStart, Makes, Making, Unmade, WrittenOut, Writing, Serves;
      ghost var defs := d.View();
      if moved {
        outcome := Create(d, first, created);
        if outcome != Ok { return; }
        assert defs[..0] == [];
      }
      outcome := WriteOut(d, mark, f, n, group, reserved, wrote);
    }

    /** The frame of a group, or the dictionary as it was: lines 314 to 350. */
    method Prepare(d: Dictionary, moved: bool, buf: array<Byte>, group: seq<Line>, first: I64, final: I64,
                   fails: (nat, nat) -> nat)
      returns (ready: bool, outcome: Outcome, again: bool, mark: nat, f: Frame, n: nat)
      requires Valid() && Serves(d) && RowsEncode(schema, buf[..], group, Upto([], 0))
      requires if moved then d !in Repr() && d.slots !in Repr() && d.View() == []
               else d == dictionary && !NeedsSegment(first)
      requires |group| <= U32_MAX && buf.Length <= MAX_FRAME_BYTES - 96 && last + |group| <= U64_MAX && last < U64_MAX
      modifies buf, d, d.slots
      ensures Serves(d) && (d.slots == old(d.slots) || fresh(d.slots))
              && RowsEncode(schema, buf[..], group, Upto([], 0))
      ensures ready ==> Pending(d, moved, mark, f, group) && mark == |old(d.View())| && n == FrameBytes(f)
      ensures ready ==> d.View() == GroupDefs(schema, old(d.View()), group) && old(d.View()) <= d.View()
      ensures ready ==> n == GroupFrame(schema, old(d.View()), group)
      ensures ready ==> Carries(f, fingerprint, schema.rowWidth, last + 1, |group|, first, final)
      ensures ready ==> Suits(schema, limit, target, old(d.View()), group, moved || frames == [], bytes)
      ensures ready ==> InTime(group, first, final)
      ensures !ready ==> Valid() && d.View() == old(d.View()) && (again ==> !moved)
      ensures !ready && !again && (moved ==> old(d.Tight())) ==>
                Unbuilt(outcome, moved, FitsAfter(schema, limit, old(d.View()), group), Allocates(fails),
                        InTime(group, first, final))
      ensures old(d.Tight()) && Allocates(fails) && InTime(group, first, final) ==>
                (Suits(schema, limit, target, old(d.View()), group, moved || frames == [], bytes) ==> ready)
    {
      hide Dictionary.Valid, Dictionary.Tight, RowsEncode, Exported, Meaning, Replayed, AllFaithful, Built, FrameValid,
           EncodeFrame, Upto, InTime, FileBytes, GroupDefs, FitsAfter, GroupFrame, DayStart;
      ghost var defs := d.View();
      mark := |d.symbols|;
      var status;
      status, f, n := BuildFrame(schema, fingerprint, last + 1, d, buf, group, first, final, fails);
      FrameSize(schema, defs, group);
      var tooLarge := status == OK && !moved && frames != [] && (bytes >= target || n > target - bytes);
      assert d.View()[..mark] == defs;
      ready, again, outcome := status == OK && !tooLarge, !moved && (status == LIMIT || tooLarge), OutcomeOf(status);
      if !ready { d.Rollback(mark); }
    }

    /** The attempt with its dictionary: that of the table, or a new one for a new segment. */
    method AttemptIn(d: Dictionary, moved: bool, buf: array<Byte>, group: seq<Line>, first: I64, final: I64,
                     created: Creation, reserved: Reservation, wrote: bool, fails: (nat, nat) -> nat)
      returns (outcome: Outcome, again: bool, ghost ready: bool, ghost f: Frame)
      requires Valid() && Serves(d) && RowsEncode(schema, buf[..], group, Upto([], 0))
      requires if moved then d !in Repr() && d.slots !in Repr() && d.View() == [] && d.Tight()
               else d == dictionary && !NeedsSegment(first)
      requires |group| <= U32_MAX && buf.Length <= MAX_FRAME_BYTES - 96 && last + |group| <= U64_MAX && last < U64_MAX
      modifies Repr(), buf, d, d.slots
      ensures Valid() && (d.slots == old(d.slots) || fresh(d.slots)) && Repr() <= old(Repr()) + {d, d.slots}
      ensures again ==> !moved && !ready && RowsEncode(schema, buf[..], group, Upto([], 0))
      ensures moved || old(chapters) != []
      ensures Ended(schema, old(Book()), Book(), outcome, ready, moved, f, group, first, created, reserved, wrote)
      ensures ready ==>
                && Carries(f, fingerprint, schema.rowWidth, old(last) + 1, |group|, first, final)
                && Room(schema, limit, target, old(Book()), moved, first, group)
      ensures ready ==> InTime(group, first, final)
      ensures !ready && !again ==>
                Unbuilt(outcome, moved, FitsIn(schema, limit, old(Book()), moved, group), Allocates(fails),
                        InTime(group, first, final))
      ensures Allocates(fails) && InTime(group, first, final)
              && Room(schema, limit, target, old(Book()), moved, first, group) && old(moved || Unrolled()) ==>
                ready
    {
      hide Dictionary.Valid, Dictionary.Tight, RowsEncode, Exported, Meaning, Replayed, AllFaithful, Built, FrameValid,
           EncodeFrame, Upto, InTime, FileBytes, FrameBytes, GroupDefs, FitsAfter, GroupFrame, Serves, DayStart,
           Concluded, Fate;
      NeedsIs(first);
      var mark, n, ready', frame;
      ready', outcome, again, mark, frame, n := Prepare(d, moved, buf, group, first, final, fails);
      ready, f := ready', frame;
      if ready' {
        again := false;
        outcome := Finish(d, moved, mark, frame, n, group, first, created, reserved, wrote);
      }
    }

    /** One turn of the loop: again if the group must go to a new segment. */
    method Attempt(moved: bool, buf: array<Byte>, group: seq<Line>, first: I64, final: I64, created: Creation,
                   reserved: Reservation, wrote: bool, fails: (nat, nat) -> nat)
      returns (outcome: Outcome, again: bool, ghost ready: bool, ghost f: Frame)
      requires Valid() && (moved || !NeedsSegment(first)) && RowsEncode(schema, buf[..], group, Upto([], 0))
      requires |group| <= U32_MAX && buf.Length <= MAX_FRAME_BYTES - 96 && last + |group| <= U64_MAX && last < U64_MAX
      modifies Repr(), buf
      ensures Valid() && fresh(Repr() - old(Repr()))
      ensures again ==> !moved && !ready && RowsEncode(schema, buf[..], group, Upto([], 0))
      ensures moved || old(chapters) != []
      ensures Ended(schema, old(Book()), Book(), outcome, ready, moved, f, group, first, created, reserved, wrote)
      ensures ready ==>
                && Carries(f, fingerprint, schema.rowWidth, old(last) + 1, |group|, first, final)
                && Room(schema, limit, target, old(Book()), moved, first, group)
      ensures ready ==> InTime(group, first, final)
      ensures !ready && !again ==>
                Unbuilt(outcome, moved, FitsIn(schema, limit, old(Book()), moved, group), Allocates(fails),
                        InTime(group, first, final))
      ensures Allocates(fails) && InTime(group, first, final)
              && Room(schema, limit, target, old(Book()), moved, first, group) && old(moved || Unrolled()) ==>
                ready
    {
      hide Dictionary.Valid, Dictionary.Tight, RowsEncode, Replayed, AllFaithful, Built, Upto, InTime, FileBytes,
           GroupDefs, DayStart, Suits, Concluded, Fate, Carries;
      var d := dictionary;
      if moved {
        d := NewDictionary();
        if d == null {
          FixedPart(schema, limit, group);
          ready, f := false, Frame(0, 0, 0, 0, 0, 0, 0, [], []);
          return Limit, false, ready, f;
        }
      }
      outcome, again, ready, f := AttemptIn(d, moved, buf, group, first, final, created, reserved, wrote, fails);
    }

    /** Whether the dictionary is as small as its definitions allow, as it is until a rollback. */
    ghost predicate Unrolled()
      reads this, Repr()
    {
      dictionary != null && dictionary.Tight()
    }

    /** The loop over attempts: in the active segment if it will do, and else, or then, in a new one. */
    method Place(buf: array<Byte>, group: seq<Line>, first: I64, final: I64, created: Creation, reserved: Reservation,
                 wrote: bool, fails: (bool, nat, nat) -> nat)
      returns (outcome: Outcome, ghost ready: bool, ghost moved: bool, ghost f: Frame)
      requires Valid() && buf !in Repr() && RowsEncode(schema, buf[..], group, Upto([], 0))
      requires |group| <= U32_MAX && buf.Length <= MAX_FRAME_BYTES - 96 && last + |group| <= U64_MAX && last < U64_MAX
      modifies Repr(), buf
      ensures Valid() && fresh(Repr() - old(Repr()))
      ensures moved || old(chapters) != []
      ensures Ended(schema, old(Book()), Book(), outcome, ready, moved, f, group, first, created, reserved, wrote)
      ensures ready ==>
                && Carries(f, fingerprint, schema.rowWidth, old(last) + 1, |group|, first, final)
                && Room(schema, limit, target, old(Book()), moved, first, group)
      ensures ready ==> InTime(group, first, final)
      ensures !ready ==> Unbuilt(outcome, moved, FitsIn(schema, limit, old(Book()), moved, group), Quietly(fails),
                                 InTime(group, first, final))
      ensures Quietly(fails) && InTime(group, first, final)
              && Room(schema, limit, target, old(Book()), true, first, group) ==>
                ready
      ensures Quietly(fails) && InTime(group, first, final)
              && Room(schema, limit, target, old(Book()), false, first, group) && old(Unrolled()) ==>
                ready && !moved
    {
      hide Dictionary.Valid, Dictionary.Tight, RowsEncode, Replayed, AllFaithful, Built, Upto, InTime, FileBytes,
           GroupDefs, DayStart, Room, Ended, Carries, Sound;
      ghost var l, unrolled := Book(), Unrolled();
      NeedsIs(first);
      ValidBuilt();
      var needed := NeedsSegment(first);
      if needed { NoRoom(schema, limit, target, l, first, group); }
      var fresh', again := needed, true;
      outcome, ready, moved, f := Limit, false, fresh', Frame(0, 0, 0, 0, 0, 0, 0, [], []);
      while again
        invariant Valid() && buf !in Repr() && fresh(Repr() - old(Repr())) && (needed ==> fresh')
        invariant again ==>
                    (fresh' || !NeedsSegment(first)) && Book() == l && RowsEncode(schema, buf[..], group, Upto([], 0))
        invariant again && !fresh' ==> Unrolled() == unrolled
        invariant again && fresh' && Quietly(fails) && InTime(group, first, final) ==>
                    !(unrolled && Room(schema, limit, target, l, false, first, group))
        invariant !again ==> moved || l.chapters != []
        invariant !again ==>
                    Ended(schema, l, Book(), outcome, ready, moved, f, group, first, created, reserved, wrote)
        invariant !again && ready ==>
                    && Carries(f, fingerprint, schema.rowWidth, l.last + 1, |group|, first, final)
                    && Room(schema, limit, target, l, moved, first, group)
        invariant !again && ready ==> InTime(group, first, final)
        invariant !again && !ready ==> Unbuilt(outcome, moved, FitsIn(schema, limit, l, moved, group), Quietly(fails),
                                               InTime(group, first, final))
        invariant !again && Quietly(fails) && InTime(group, first, final)
                  && Room(schema, limit, target, l, true, first, group) ==>
                    ready
        invariant !again && Quietly(fails) && InTime(group, first, final) && unrolled
                  && Room(schema, limit, target, l, false, first, group) ==>
                    ready && !moved
        decreases again, !fresh'
      {
        QuietAttempt(fails, fresh', (r, f) => fails(fresh', r, f));
        moved := fresh';
        outcome, again, ready, f := Attempt(fresh', buf, group, first, final, created, reserved, wrote,
                                            (r, f) => fails(fresh', r, f));
        if again { Unchanged(schema, l, Book(), outcome, moved, f, group, first, created, reserved, wrote); }
        if again { fresh' := true; }
      }
    }

    lemma ValidBuilt()
      requires Valid()
      ensures Built(schema)
    {
      hide Built, AllFaithful, Dictionary.Valid;
    }

    /** wadb_commit_requests. The parameters after the requests say what the calls it makes return, if they are reached:
        create_active, the reservations, the write with its sync, and the allocations of either attempt. The ghost
        results say whether a frame was built, whether for a new segment, and which. */
    method CommitRequests(requests: seq<Request>, created: Creation, reserved: Reservation, wrote: bool,
                          fails: (bool, nat, nat) -> nat)
      returns (outcome: Outcome, ghost ready: bool, ghost moved: bool, ghost f: Frame)
      requires Valid() && forall i :: 0 <= i < |requests| ==> Prepared(schema, requests[i])
      modifies Repr()
      ensures Valid() && fresh(Repr() - old(Repr())) && (moved || old(chapters) != [])
      ensures Ended(schema, old(Book()), Book(), outcome, ready, moved, f, Lines(requests), FirstTime(requests),
                    created, reserved, wrote)
      ensures readOnly <==>
                old(readOnly) || (outcome == Indeterminate && !(ready && SealFails(old(Book()), moved, created)))
      ensures ready ==> Carries(f, fingerprint, schema.rowWidth, old(last) + 1, |Lines(requests)|, FirstTime(requests),
                                FinalTime(requests))
      ensures ready ==>
                && requests != [] && !old(readOnly)
                && Room(schema, limit, target, old(Book()), moved, FirstTime(requests), Lines(requests))
      ensures ready ==> FrameSized(schema, requests) && Timed(requests)
      ensures !ready ==> Declined(outcome, requests, schema, limit, old(Book()), moved, Quietly(fails))
      ensures outcome == ReadOnly <==> FrameSized(schema, requests) && Clocked(requests) && old(readOnly)
      ensures !ready && outcome == Io <==> FrameSized(schema, requests) && !Clocked(requests)
      ensures Quietly(fails) && old(Takes(requests)) ==> ready
      ensures Quietly(fails) && old(Takes(requests) && Stays(requests) && Unrolled()) ==> !moved
      ensures old(!Stays(requests)) && ready ==> moved
    {
      hide Dictionary.Valid, Dictionary.Tight, RowsEncode, Replayed, AllFaithful, Built, Lines, Prepared, Upto, InTime,
           FileBytes, GroupDefs, Carries, Ended, Sound, Quietly, SealFails, Concluded, Suits, Needs, Serves, FitsAfter;
      ready, moved, f := false, true, Frame(0, 0, 0, 0, 0, 0, 0, [], []);
      ghost var l := Book();
      var group := Lines(requests);
      Refused(schema, l, moved, f, group, FirstTime(requests), created, reserved, wrote);
      if requests == [] { return Limit, ready, moved, f; }
      ValidBuilt();
      var size := GroupBytes(schema, requests);
      var first, final := requests[0].time, requests[|requests| - 1].time;
      InTimeEnds(group, first, final);
      FitsRows(schema, limit, group);
      if size > MAX_FRAME_BYTES - 96 || |group| > U32_MAX { return Limit, ready, moved, f; }
      if first < 0 || final < first || first / DAY_US != final / DAY_US { return Io, ready, moved, f; }
      var buf := Gather(schema, requests);
      if readOnly { return ReadOnly, ready, moved, f; }
      GroupFacts(schema, buf[..], requests);
      if last > U64_MAX - |group| { return Limit, ready, moved, f; }
      outcome, ready, moved, f := Place(buf, group, first, final, created, reserved, wrote, fails);
      EndedReadOnly(schema, l, Book(), outcome, ready, moved, f, group, first, created, reserved, wrote);
    }

    /** Requests in time that a writable table can take in a new segment, with sequence numbers left for them. */
    ghost predicate Takes(requests: seq<Request>)
      reads this
    {
      && Timed(requests) && !readOnly && FitsNew(schema, limit, Lines(requests))
      && |Lines(requests)| <= U32_MAX && last + |Lines(requests)| <= U64_MAX
    }

    /** Requests that the active segment can take. */
    ghost predicate Stays(requests: seq<Request>)
      reads this, dictionary
    {
      Room(schema, limit, target, Book(), false, FirstTime(requests), Lines(requests))
    }
  }

  lemma {:induction false} EmptyHolds(d: Dictionary)
    requires d.Valid()
    ensures Holds(|d.symbolic|, d.limit, [])
  {
    hide Dictionary.Valid, Holds;
    ViewHolds(d);
    HoldsPrefix(|d.symbolic|, d.limit, [], d.View());
  }

  ghost predicate Allocates(fails: (nat, nat) -> nat) { forall r: nat, f: nat :: fails(r, f) == 0 }

  ghost predicate Quietly(fails: (bool, nat, nat) -> nat) { forall p, r: nat, f: nat :: fails(p, r, f) == 0 }

  lemma {:induction false} QuietAttempt(fails: (bool, nat, nat) -> nat, p: bool, some: (nat, nat) -> nat)
    requires forall r: nat, f: nat :: some(r, f) == fails(p, r, f)
    ensures Quietly(fails) ==> Allocates(some)
  {
  }

  /** What a commit does: once a frame f is built the calls decide, and before that nothing has changed. */
  ghost predicate Ended(s: Schema, l: Ledger, l': Ledger, outcome: Outcome, ready: bool, moved: bool, f: Frame,
                        group: seq<Line>, first: I64, created: Creation, reserved: Reservation, wrote: bool)
    requires moved || l.chapters != []
  {
    if ready then
      && outcome == Fate(l, moved, created, reserved, wrote)
      && FrameBytes(f) == GroupFrame(s, if moved then [] else l.defs, group)
      && l' == Concluded(l, moved, f, FrameBytes(f), group, first, GroupDefs(s, if moved then [] else l.defs, group),
                         created, reserved, wrote)
    else l' == l
  }

  lemma {:induction false} Unchanged(s: Schema, l: Ledger, l': Ledger, outcome: Outcome, moved: bool, f: Frame,
                                     group: seq<Line>, first: I64, created: Creation, reserved: Reservation,
                                     wrote: bool)
    requires (moved || l.chapters != []) && Ended(s, l, l', outcome, false, moved, f, group, first, created, reserved,
                                                  wrote)
    ensures l' == l
  {
  }

  lemma {:induction false} Refused(s: Schema, l: Ledger, moved: bool, f: Frame, group: seq<Line>, first: I64,
                                   created: Creation, reserved: Reservation, wrote: bool)
    requires moved || l.chapters != []
    ensures forall outcome :: Ended(s, l, l, outcome, false, moved, f, group, first, created, reserved, wrote)
  {
  }

  lemma {:induction false} EndedReadOnly(s: Schema, l: Ledger, l': Ledger, outcome: Outcome, ready: bool, moved: bool,
                                         f: Frame, group: seq<Line>, first: I64, created: Creation,
                                         reserved: Reservation, wrote: bool)
    requires (moved || l.chapters != []) && Ended(s, l, l', outcome, ready, moved, f, group, first, created, reserved,
                                                  wrote)
    requires !ready ==> outcome != Indeterminate
    ensures l'.readOnly <==> l.readOnly || (outcome == Indeterminate && !(ready && SealFails(l, moved, created)))
    ensures ready ==> outcome != ReadOnly
  {
    hide GroupDefs, FrameBytes, Concluded, SealFails;
    if ready {
      ReadOnlyIff(l, moved, f, FrameBytes(f), group, first, GroupDefs(s, if moved then [] else l.defs, group), created,
                  reserved, wrote);
    }
  }

  /** Why no frame was built in an attempt: the times inside the group, memory, or a group that not even a new segment
      can take. */
  predicate Unbuilt(outcome: Outcome, moved: bool, fits: bool, quiet: bool, timed: bool) {
    || (outcome == Malformed && fits && !timed)
    || (outcome == NoMemory && !quiet)
    || (outcome == Limit && moved && !fits)
  }

  /** A group that fits what its segment defines already, which is nothing in a new one. */
  ghost predicate FitsIn(s: Schema, limit: nat, l: Ledger, moved: bool, group: seq<Line>) {
    FitsAfter(s, limit, if moved then [] else l.defs, group)
  }

  /** A group that is not empty and whose rows alone fit a frame. */
  predicate FrameSized(s: Schema, requests: seq<Request>) {
    && requests != [] && |Lines(requests)| <= U32_MAX
    && RowBytes(|Lines(requests)|, s.rowWidth) <= MAX_FRAME_BYTES - 96
  }

  /** The first and the last request of a group have times in order and in one UTC day. */
  predicate Clocked(requests: seq<Request>) {
    0 <= FirstTime(requests) <= FinalTime(requests) && FirstTime(requests) / DAY_US == FinalTime(requests) / DAY_US
  }

  /** Why no frame was built in a commit: the first of these that applies. */
  ghost predicate Declined(outcome: Outcome, requests: seq<Request>, s: Schema, limit: nat, l: Ledger, moved: bool,
                           quiet: bool)
  {
    if !FrameSized(s, requests) then outcome == Limit
    else if !Clocked(requests) then outcome == Io
    else if l.readOnly then outcome == ReadOnly
    else if l.last + |Lines(requests)| > U64_MAX then outcome == Limit
    else Unbuilt(outcome, moved, FitsIn(s, limit, l, moved, Lines(requests)), quiet, Timed(requests))
  }

  function FirstTime(requests: seq<Request>): I64 { if requests == [] then 0 else requests[0].time }

  function FinalTime(requests: seq<Request>): I64 { if requests == [] then 0 else requests[|requests| - 1].time }

  predicate Timed(requests: seq<Request>) {
    requests != [] && InTime(Lines(requests), FirstTime(requests), FinalTime(requests))
  }

  lemma {:induction false} InTimeEnds(lines: seq<Line>, first: I64, final: I64)
    ensures InTime(lines, first, final) ==> 0 <= first <= final && first / DAY_US == final / DAY_US
  {
  }

  lemma {:induction false} FitsRows(s: Schema, limit: nat, lines: seq<Line>)
    ensures FitsNew(s, limit, lines) ==> RowBytes(|lines|, s.rowWidth) <= MAX_FRAME_BYTES - 96
  {
    hide GroupDefs, Exported, Holds;
  }

  /** A valid frame of this table with these numbers and times. */
  ghost predicate Carries(f: Frame, fingerprint: U64, width: nat, first: nat, rows: nat, minTime: I64, maxTime: I64) {
    && FrameValid(f) && f.schemaHash == fingerprint && f.rowWidth == width
    && f.firstSequence == first && f.rowCount == rows && f.minTime == minTime && f.maxTime == maxTime
  }
}
