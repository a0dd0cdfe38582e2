/** An append that is answered INDETERMINATE although the table stays writable: saving
    the index of the segment to be sealed is what failed (src/storage/segments.c:33-36
    and 352). The exact condition is in the contract of CommitRequests. */
module SealFailure {
  import opened Bytes
  import opened Frames
  import opened Symbols
  import opened Schemas
  import opened RowCodec
  import RowEncoder
  import opened SymbolRows
  import opened Commit
  import opened Ledgers
  import opened Appending
  import Definitions
  import Replay

  /** A request with one row without fields. */
  function OneRow(s: Schema, time: I64, row: seq<Byte>): Request { Request(time, row, [[]]) }

  lemma {:induction false} OneRowPrepared(s: Schema, time: I64, row: seq<Byte>, sym: SymbolRelation)
    requires Built(s) && Encodes(s, row, 0, [], sym) && |row| == s.rowWidth
    ensures Prepared(s, OneRow(s, time, row))
  {
    hide Encodes, Built;
    var lines := LinesAt([[]], time, 0);
    Anything(s, sym);
    EncodesWider(s, row, 0, [], sym, Upto([], 0));
    assert RowBytes(1, s.rowWidth) == RowBytes(0, s.rowWidth) + s.rowWidth == |row|;
    assert RowAt(row, s.rowWidth, 0) == row;
    assert RowEncodes(s, row, lines, 0, Upto([], 0));
  }

  lemma {:induction false} OneLine(s: Schema, time: I64, row: seq<Byte>)
    requires time >= 0
    ensures Lines([OneRow(s, time, row)]) == [Line(time, [])] && Timed([OneRow(s, time, row)])
  {
    var r := OneRow(s, time, row);
    assert [r][..0] == [];
    assert Lines([r]) == Lines([]) + LinesAt([[]], time, 1);
    assert LinesAt([[]], time, 1) == [Line(time, [])];
  }

  lemma {:induction false} NoSymbols(s: Schema, time: I64)
    requires |s.fields| == 1
    ensures GroupDefs(s, [], [Line(time, [])]) == []
  {
    var lines := [Line(time, [])];
    assert lines[..0] == [];
    assert RowDefs(s, [], [], 1) == [];
  }

  lemma {:induction false} OneFits(s: Schema, time: I64)
    requires Built(s) && |s.fields| == 1
    ensures FitsNew(s, FreshBytes(1, []), [Line(time, [])])
  {
    hide FreshBytes, Built;
    NoSymbols(s, time);
    BuiltWidth(s);
    assert |Symbolic(s)| == 1;
    assert Definitions.Exported([], 0) == [] by { NothingExported(); }
    assert RowBytes(1, s.rowWidth) == RowBytes(0, s.rowWidth) + s.rowWidth;
  }

  lemma {:induction false} NothingExported()
    ensures Definitions.Exported([], 0) == []
  {
    ExportedSizes([], 0);
  }

  lemma {:induction false} NextDay()
    ensures DayStart(0) == 0 && DayStart(DAY_US) == DAY_US && DAY_US > 0
  {
  }

  /** A schema without fields and a row of it. */
  method BareRow() returns (s: Schema, row: seq<Byte>)
    ensures Built(s) && |s.fields| == 1 && forall time: I64 :: Prepared(s, OneRow(s, time, row))
  {
    hide Built, Encodes, Prepared;
    var build := SchemaBuild([]);
    s := build.schema;
    var buf := new Byte[s.rowWidth](i => 0);
    var ok := RowEncoder.EncodeRow(s, [], 0, NoNumber, buf);
    assert ok;
    row := buf[..];
    assert buf[..s.rowWidth] == row;
    forall time: I64 ensures Prepared(s, OneRow(s, time, row)) {
      OneRowPrepared(s, time, row, RowEncoder.Assigned(NoNumber));
    }
  }

  function NoNumber(i: nat, text: seq<Byte>): Option<nat> { None }

  /** A commit that nothing disturbs into a table without segments. */
  lemma {:induction false} Opened(s: Schema, l: Ledger, l': Ledger, outcome: Outcome, f: Frame, moved: bool, time: I64)
    requires l == Ledger([], false, 0, 1, 0, 0, false, []) && moved
    requires Ended(s, l, l', outcome, true, moved, f, [Line(time, [])], time, Creation(Ok, Ok, 0), Ok, true)
    ensures l'.open && !l'.readOnly && l'.next == 2 && l'.last == 1 && |l'.chapters| == 1
            && l'.chapters[0].day == DayStart(time)
  {
    hide GroupDefs, FrameBytes, DayStart;
  }

  /** A commit whose index save is uncertain leaves everything as it was. */
  lemma {:induction false} SealedNot(s: Schema, l: Ledger, l': Ledger, outcome: Outcome, f: Frame, group: seq<Line>,
                                     first: I64)
    requires l.open && l.next < U64_MAX
    requires Ended(s, l, l', outcome, true, true, f, group, first, Creation(Indeterminate, Ok, 0), Ok, true)
    ensures outcome == Indeterminate && l' == l
  {
    hide GroupDefs, FrameBytes, DayStart;
  }

  /** After one commit, a commit of the next day whose index save is uncertain: nothing is written, the answer is
      INDETERMINATE, and the table goes on taking writes. */
  method StaysWritable() returns (t: Table, outcome: Outcome)
    ensures fresh(t) && t.Valid() && outcome == Indeterminate && !t.readOnly
    ensures t.last == 1 && |t.chapters| == 1
  {
    hide Built, Prepared, Lines, Timed, InTime, FitsNew, FreshBytes, Ended, Carries, Room, DayStart, Table.Valid,
         OneRow, Quietly;
    var s, row := BareRow();
    var a, b := OneRow(s, 0, row), OneRow(s, DAY_US, row);
    OneLine(s, 0, row);
    OneLine(s, DAY_US, row);
    OneFits(s, 0);
    OneFits(s, DAY_US);
    AllQuiet(NoFailure);
    Times(s, row);
    t := new Table(s, 0, NoHash, FreshBytes(1, []), 0);
    assert t.Takes([a]);
    ghost var ready, moved, f;
    ghost var l := t.Book();
    NoRoom(s, t.limit, t.target, l, 0, [Line(0, [])]);
    outcome, ready, moved, f := t.CommitRequests([a], Creation(Ok, Ok, 0), Ok, true, NoFailure);
    Opened(s, l, t.Book(), outcome, f, moved, 0);
    NextDay();
    assert t.Takes([b]);
    l := t.Book();
    OtherDay(s, t.limit, t.target, l, [Line(DAY_US, [])]);
    outcome, ready, moved, f := t.CommitRequests([b], Creation(Indeterminate, Ok, 0), Ok, true, NoFailure);
    SealedNot(s, l, t.Book(), outcome, f, [Line(DAY_US, [])], DAY_US);
  }

  function NoHash(i: nat, text: seq<Byte>): nat { 0 }

  function NoFailure(p: bool, r: nat, f: nat): nat { 0 }

  lemma {:induction false} AllQuiet(fails: (bool, nat, nat) -> nat)
    requires fails == NoFailure
    ensures Quietly(fails)
  {
  }

  lemma {:induction false} Times(s: Schema, row: seq<Byte>)
    ensures FirstTime([OneRow(s, 0, row)]) == 0 && FirstTime([OneRow(s, DAY_US, row)]) == DAY_US
  {
  }

  lemma {:induction false} OtherDay(s: Schema, limit: nat, target: nat, l: Ledger, group: seq<Line>)
    requires |l.chapters| == 1 && l.chapters[0].day == DayStart(0)
    ensures !Room(s, limit, target, l, false, DAY_US, group)
  {
    NextDay();
  }
}
