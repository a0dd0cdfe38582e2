/** Giving the symbols of a group's rows their numbers: the inner loops of
    wadb_commit_requests (src/storage/segments.c:314-330). */
module SymbolRows {
  import opened Bytes
  import opened Layout
  import opened Frames
  import opened Symbols
  import opened Definitions
  import opened Dictionaries
  import opened Schemas
  import opened RowCodec
  import opened RowEncoder
  import Replay

  function Symbolic(s: Schema): (r: seq<bool>)
    ensures |r| == |s.fields| && forall i :: 0 <= i < |r| ==> r[i] == s.fields[i].ty.Symbol?
  {
    seq(|s.fields|, i requires 0 <= i < |s.fields| => s.fields[i].ty.Symbol?)
  }

  /** The symbols of fields below k have their meaning in defs; the others have any number. */
  ghost function Upto(defs: seq<Def>, k: nat): SymbolRelation {
    (i: nat, id: nat, text: seq<Byte>) => i >= k || Means(defs, i, id, text)
  }

  ghost function Meaning(defs: seq<Def>): SymbolRelation {
    (i: nat, id: nat, text: seq<Byte>) => Means(defs, i, id, text)
  }

  // ---- what a group defines ----

  /** The definitions once field k of a row has its number: one more if it is a symbol with a text not yet defined. */
  function FieldDefs(s: Schema, defs: seq<Def>, values: seq<Value>, k: nat): seq<Def> {
    if 0 < k <= |values| && k < |s.fields| && s.fields[k].ty.Symbol? && values[k - 1].Data?
    && Def(k, values[k - 1].bytes) !in defs
    then defs + [Def(k, values[k - 1].bytes)]
    else defs
  }

  /** The definitions once all fields below k have their numbers. */
  function RowDefs(s: Schema, defs: seq<Def>, values: seq<Value>, k: nat): seq<Def> {
    if k <= 1 then defs else FieldDefs(s, RowDefs(s, defs, values, k - 1), values, k - 1)
  }

  /** The definitions once all rows of a group have their numbers: every text not yet defined, once, in the order of
      first use. */
  function GroupDefs(s: Schema, defs: seq<Def>, lines: seq<Line>): seq<Def> {
    if lines == [] then defs
    else RowDefs(s, GroupDefs(s, defs, lines[..|lines| - 1]), lines[|lines| - 1].values, |s.fields|)
  }

  lemma {:induction false} RowDefsGrow(s: Schema, defs: seq<Def>, values: seq<Value>, k: nat, n: nat)
    requires k <= n
    ensures RowDefs(s, defs, values, k) <= RowDefs(s, defs, values, n)
    decreases n - k
  {
    if k < n {
      RowDefsGrow(s, defs, values, k, n - 1);
      RowDefsNext(s, defs, values, n - 1);
    }
  }

  lemma {:induction false} RowDefsNext(s: Schema, defs: seq<Def>, values: seq<Value>, k: nat)
    ensures RowDefs(s, defs, values, k) <= RowDefs(s, defs, values, k + 1)
    ensures k > 0 ==> RowDefs(s, defs, values, k + 1) == FieldDefs(s, RowDefs(s, defs, values, k), values, k)
  {
  }

  lemma {:induction false} GroupDefsGrow(s: Schema, defs: seq<Def>, lines: seq<Line>, k: nat)
    requires k <= |lines|
    ensures defs <= GroupDefs(s, defs, lines[..k]) <= GroupDefs(s, defs, lines)
    decreases |lines|
  {
    hide RowDefs;
    if lines == [] {
    } else if k == |lines| {
      assert lines[..k] == lines;
      GroupDefsGrow(s, defs, lines[..|lines| - 1], |lines| - 1);
      GroupDefsNext(s, defs, lines, |lines| - 1);
    } else {
      assert lines[..|lines| - 1][..k] == lines[..k];
      GroupDefsGrow(s, defs, lines[..|lines| - 1], k);
      GroupDefsNext(s, defs, lines, |lines| - 1);
      assert lines[..|lines|] == lines;
    }
  }

  lemma {:induction false} GroupDefsNext(s: Schema, defs: seq<Def>, lines: seq<Line>, k: nat)
    requires k < |lines|
    ensures GroupDefs(s, defs, lines[..k + 1]) ==
              RowDefs(s, GroupDefs(s, defs, lines[..k]), lines[k].values, |s.fields|)
    ensures GroupDefs(s, defs, lines[..k]) <= GroupDefs(s, defs, lines[..k + 1])
  {
    hide FieldDefs;
    assert lines[..k + 1][..k] == lines[..k];
    RowDefsStart(s, GroupDefs(s, defs, lines[..k]), lines[k].values);
  }

  lemma {:induction false} RowDefsStart(s: Schema, defs: seq<Def>, values: seq<Value>)
    ensures defs <= RowDefs(s, defs, values, |s.fields|)
  {
    RowDefsGrow(s, defs, values, 0, |s.fields|);
  }

  /** On the fields of a schema one relation is at least as wide as another. */
  ghost predicate Wider(s: Schema, a: SymbolRelation, b: SymbolRelation) {
    forall i: nat, id: nat, text: seq<Byte> :: 0 < i < |s.fields| && a(i, id, text) ==> b(i, id, text)
  }

  lemma EncodesWider(s: Schema, row: seq<Byte>, time: I64, values: seq<Value>, a: SymbolRelation, b: SymbolRelation)
    requires Built(s) && Encodes(s, row, time, values, a) && Wider(s, a, b)
    ensures Encodes(s, row, time, values, b)
  {
    hide Built, UnusedZero, Put;
    forall i | 0 < i < |s.fields| ensures FieldIs(s, row, i, ValueOf(values, i), b) {
      FieldWider(s, row, i, ValueOf(values, i), a, b);
    }
  }

  lemma FieldWider(s: Schema, row: seq<Byte>, i: nat, v: Value, a: SymbolRelation, b: SymbolRelation)
    requires Built(s) && |row| == s.rowWidth && 0 < i < |s.fields| && FieldIs(s, row, i, v, a) && Wider(s, a, b)
    ensures FieldIs(s, row, i, v, b)
  {
    hide Built, Slot, IsNull, Utf8.Utf8Octets, Get, Finite, InRange, Unsigned, Put;
  }

  /** Only a symbol that is not null depends on the relation. */
  lemma FieldAny(s: Schema, row: seq<Byte>, i: nat, v: Value, a: SymbolRelation, b: SymbolRelation)
    requires Built(s) && |row| == s.rowWidth && 0 < i < |s.fields| && FieldIs(s, row, i, v, a)
    requires !s.fields[i].ty.Symbol? || v.Null?
    ensures FieldIs(s, row, i, v, b)
  {
    hide Built, Slot, IsNull, Utf8.Utf8Octets, Get, Finite, InRange, Unsigned, Put;
  }

  lemma UptoGrows(s: Schema, defs: seq<Def>, all: seq<Def>, k: nat)
    requires defs <= all
    ensures Wider(s, Upto(defs, k), Upto(all, k))
  {
    hide Means;
    assert all == defs + all[|defs|..];
    forall i: nat, id: nat, text: seq<Byte> | Means(defs, i, id, text) ensures Means(all, i, id, text) {
      MeansGrows(defs, all[|defs|..], i, id, text);
    }
  }

  lemma SkipStep(s: Schema, row: seq<Byte>, time: I64, values: seq<Value>, defs: seq<Def>, k: nat)
    requires Built(s) && 0 < k < |s.fields| && Encodes(s, row, time, values, Upto(defs, k))
    requires !s.fields[k].ty.Symbol? || ValueOf(values, k).Null?
    ensures Encodes(s, row, time, values, Upto(defs, k + 1))
  {
    hide Built, UnusedZero, Put, FieldIs, Means;
    forall i | 0 < i < |s.fields| ensures FieldIs(s, row, i, ValueOf(values, i), Upto(defs, k + 1)) {
      if i == k { FieldAny(s, row, i, ValueOf(values, i), Upto(defs, k), Upto(defs, k + 1)); }
      else { FieldOther(s, row, i, ValueOf(values, i), defs, k); }
    }
  }

  lemma FieldOther(s: Schema, row: seq<Byte>, i: nat, v: Value, defs: seq<Def>, k: nat)
    requires Built(s) && |row| == s.rowWidth && 0 < i < |s.fields| && i != k && FieldIs(s, row, i, v, Upto(defs, k))
    ensures FieldIs(s, row, i, v, Upto(defs, k + 1))
  {
    hide Built, Slot, IsNull, Utf8.Utf8Octets, Get, Finite, InRange, Unsigned, Put, Means;
  }

  /** A row after a store into the slot of one field: everything else stands for what it did. */
  lemma SlotStored(s: Schema, a: seq<Byte>, b: seq<Byte>, time: I64, values: seq<Value>, sym: SymbolRelation,
                   sym': SymbolRelation, k: nat)
    requires Built(s) && 0 < k < |s.fields| && Encodes(s, a, time, values, sym)
    requires SameOutside(a, b, s.fields[k].offset, s.fields[k].offset + s.fields[k].width)
    requires !ValueOf(values, k).Null? && SlotIs(s.fields[k], k, Slot(s, b, k), ValueOf(values, k), sym')
    requires forall i :: 0 < i < |s.fields| && i != k ==> FieldIs(s, a, i, ValueOf(values, i), sym')
    ensures Encodes(s, b, time, values, sym')
  {
    hide Built, NullBit, SlotIs, Slot, Put, End, IsNull;
    var f := s.fields[k];
    SlotInRow(s, k);
    BitmapInRow(s);
    SamePart(a, b, f.offset, f.offset + f.width, 0, 8);
    assert a[0..8] == a[..8] && b[0..8] == b[..8];
    SamePart(a, b, f.offset, f.offset + f.width, End(s), |a|);
    assert a[End(s)..|a|] == a[End(s)..] && b[End(s)..|a|] == b[End(s)..];
    forall j | s.nullable <= j < 8 * s.nullBytes ensures !NullBit(s, b, j) { SameBits(s, a, b, k, j); }
    SameNull(s, a, b, k, k);
    forall i | 0 < i < |s.fields| ensures FieldIs(s, b, i, ValueOf(values, i), sym') {
      if i == k {
        assert FieldIs(s, a, k, ValueOf(values, k), sym);
      } else {
        SameSlot(s, a, b, k, i);
        SameNull(s, a, b, k, i);
        FieldKept(s, a, b, i, ValueOf(values, i), sym');
      }
    }
  }

  lemma NumberStored(s: Schema, a: seq<Byte>, b: seq<Byte>, time: I64, values: seq<Value>, defs: seq<Def>, k: nat,
                     id: nat)
    requires Built(s) && 0 < k < |s.fields| && Encodes(s, a, time, values, Upto(defs, k))
    requires SameOutside(a, b, s.fields[k].offset, s.fields[k].offset + s.fields[k].width)
    requires s.fields[k].ty.Symbol? && ValueOf(values, k).Data? && Means(defs, k, id, ValueOf(values, k).bytes)
             && 0 < id <= U32_MAX
    requires Slot(s, b, k) == Put(id, 4)
    ensures Encodes(s, b, time, values, Upto(defs, k + 1))
  {
    var v := ValueOf(values, k);
    assert SlotIs(s.fields[k], k, Slot(s, b, k), v, Upto(defs, k + 1)) by {
      hide Built, UnusedZero, Put, Slot, Means, Get, Utf8.Utf8Octets;
      assert FieldIs(s, a, k, v, Upto(defs, k));
      Spans();
      GetPut(id, 4);
    }
    hide *;
    forall i | 0 < i < |s.fields| && i != k ensures FieldIs(s, a, i, ValueOf(values, i), Upto(defs, k + 1)) {
      EncodesField(s, a, time, values, Upto(defs, k), i);
      FieldOther(s, a, i, ValueOf(values, i), defs, k);
    }
    SlotStored(s, a, b, time, values, Upto(defs, k), Upto(defs, k + 1), k);
  }

  lemma EncodesField(s: Schema, row: seq<Byte>, time: I64, values: seq<Value>, sym: SymbolRelation, i: nat)
    requires Built(s) && Encodes(s, row, time, values, sym) && 0 < i < |s.fields|
    ensures |row| == s.rowWidth && |values| == |s.fields| - 1 && FieldIs(s, row, i, ValueOf(values, i), sym)
  {
  }

  // ---- one row ----

  /** The number of a symbol is one that four bytes hold. */
  lemma NumberFits(d: Dictionary, field: nat, id: nat, text: seq<Byte>)
    requires d.Valid() && Means(d.View(), field, id, text)
    ensures 0 < id <= U32_MAX
  {
    hide FieldCount, SymbolsOk, ColumnsOk, Probing.Filled, Accounted, Means;
    MeansDense(d.View(), field, id);
    CountBelow(d.View(), field);
  }

  lemma StoredSlot(s: Schema, was: seq<Byte>, now: seq<Byte>, at: nat, k: nat)
    requires Built(s) && at + s.rowWidth <= |was| == |now| && 0 < k < |s.fields|
    requires SameOutside(was, now, at + s.fields[k].offset, at + s.fields[k].offset + s.fields[k].width)
    ensures s.fields[k].offset + s.fields[k].width <= s.rowWidth
    ensures SameOutside(was[at..at + s.rowWidth], now[at..at + s.rowWidth], s.fields[k].offset,
                        s.fields[k].offset + s.fields[k].width)
    ensures Slot(s, now[at..at + s.rowWidth], k) ==
              now[at + s.fields[k].offset..at + s.fields[k].offset + s.fields[k].width]
  {
    hide Built;
    SlotInRow(s, k);
    var x, y := s.fields[k].offset, s.fields[k].offset + s.fields[k].width;
    PartOfPart(now, at, at + s.rowWidth, x, y);
  }

  lemma PartOfPart(p: seq<Byte>, a: nat, b: nat, x: nat, y: nat)
    requires a <= b <= |p| && x <= y <= b - a
    ensures p[a..b][x..y] == p[a + x..a + y]
  {
    hide *;
    forall i | 0 <= i < y - x ensures p[a..b][x..y][i] == p[a + x..a + y][i] {
      assert p[a..b][x..y][i] == p[a..b][x + i] == p[a + x + i];
    }
  }

  /** wadb_put_u32 of a symbol's number into its slot. */
  method StoreNumber(s: Schema, buf: array<Byte>, at: nat, ghost time: I64, values: seq<Value>, k: nat, id: nat,
                     ghost defs: seq<Def>)
    requires Built(s) && at + s.rowWidth <= buf.Length && 0 < k < |s.fields| && s.fields[k].ty.Symbol?
             && s.fields[k].width == 4
    requires Encodes(s, buf[at..at + s.rowWidth], time, values, Upto(defs, k))
    requires |values| == |s.fields| - 1 && ValueOf(values, k).Data? && Means(defs, k, id, ValueOf(values, k).bytes)
             && 0 < id <= U32_MAX
    modifies buf
    ensures forall j :: 0 <= j < buf.Length && !(at <= j < at + s.rowWidth) ==> buf[j] == old(buf[j])
    ensures Encodes(s, buf[at..at + s.rowWidth], time, values, Upto(defs, k + 1))
  {
    hide Built, Encodes, Means, Put, Upto;
    ghost var was := buf[..];
    SlotInRow(s, k);
    PutAt(buf, at + s.fields[k].offset, id, 4);
    StoredSlot(s, was, buf[..], at, k);
    NumberStored(s, was[at..at + s.rowWidth], buf[at..at + s.rowWidth], time, values, defs, k, id);
  }

  /** One turn of the field loop. */
  method InternField(s: Schema, d: Dictionary, buf: array<Byte>, at: nat, ghost time: I64, values: seq<Value>, k: nat,
                     oom: nat) returns (status: Status)
    requires Built(s) && d.Valid() && d.symbolic == Symbolic(s) && at + s.rowWidth <= buf.Length && 0 < k < |s.fields|
    requires Encodes(s, buf[at..at + s.rowWidth], time, values, Upto(d.View(), k))
    modifies buf, d, d.slots
    ensures d.Valid() && (d.slots == old(d.slots) || fresh(d.slots)) && old(d.View()) <= d.View()
    ensures forall j :: 0 <= j < buf.Length && !(at <= j < at + s.rowWidth) ==> buf[j] == old(buf[j])
    ensures Encodes(s, buf[at..at + s.rowWidth], time, values, Upto(d.View(), if status == OK then k + 1 else k))
    ensures status in {OK, LIMIT, NOMEM} && (oom == 0 ==> status != NOMEM)
    ensures d.View() == if status == OK then FieldDefs(s, old(d.View()), values, k) else old(d.View())
    ensures status != NOMEM && old(d.Tight()) ==> d.Tight()
    ensures old(d.Tight()) && Replay.Holds(|d.symbolic|, d.limit, FieldDefs(s, old(d.View()), values, k)) ==>
              status != LIMIT
  {
    hide Built, Encodes, Dictionary.Valid, Dictionary.Tight, Means, FieldCount, Internable, Upto, Wider, FreshBytes;
    ghost var row, sym, defs := buf[at..at + s.rowWidth], Upto(d.View(), k), d.View();
    EncodesField(s, row, time, values, sym, k);
    var v := ValueOf(values, k);
    status := OK;
    if !s.fields[k].ty.Symbol? || v.Null? {
      SkipStep(s, row, time, values, defs, k);
      return;
    }
    SymbolData(s, row, k, v, sym);
    CountBelow(defs, k);
    var id;
    status, id := d.Intern(k, v.bytes, oom);
    assert row == buf[at..at + s.rowWidth];
    UptoGrows(s, defs, d.View(), k);
    EncodesWider(s, row, time, values, sym, Upto(d.View(), k));
    if status == OK {
      NumberFits(d, k, id, v.bytes);
      StoreNumber(s, buf, at, time, values, k, id, d.View());
    }
  }

  lemma SymbolData(s: Schema, row: seq<Byte>, k: nat, v: Value, sym: SymbolRelation)
    requires Built(s) && |row| == s.rowWidth && 0 < k < |s.fields| && s.fields[k].ty.Symbol? && !v.Null?
             && FieldIs(s, row, k, v, sym)
    ensures v.Data? && s.fields[k].width == 4 && Internable(Symbolic(s), Def(k, v.bytes))
  {
    hide Utf8.Utf8Octets, Get;
    assert PlacedAt(s, k);
  }

  /** The field loop for one row of the buffer. */
  method InternRow(s: Schema, d: Dictionary, buf: array<Byte>, at: nat, ghost time: I64, values: seq<Value>,
                   fails: nat -> nat) returns (status: Status)
    requires Built(s) && d.Valid() && d.symbolic == Symbolic(s) && at + s.rowWidth <= buf.Length
    requires Encodes(s, buf[at..at + s.rowWidth], time, values, Upto([], 0))
    modifies buf, d, d.slots
    ensures d.Valid() && (d.slots == old(d.slots) || fresh(d.slots)) && old(d.View()) <= d.View()
    ensures forall j :: 0 <= j < buf.Length && !(at <= j < at + s.rowWidth) ==> buf[j] == old(buf[j])
    ensures Encodes(s, buf[at..at + s.rowWidth], time, values, if status == OK then Meaning(d.View()) else Upto([], 0))
    ensures status in {OK, LIMIT, NOMEM} && ((forall f: nat :: fails(f) == 0) ==> status != NOMEM)
    ensures status == OK ==> d.View() == RowDefs(s, old(d.View()), values, |s.fields|)
    ensures status != NOMEM && old(d.Tight()) ==> d.Tight()
    ensures old(d.Tight()) && Replay.Holds(|d.symbolic|, d.limit, RowDefs(s, old(d.View()), values, |s.fields|)) ==>
              status != LIMIT
  {
    hide Built, Encodes, Dictionary.Valid, Dictionary.Tight, Means, FieldCount, Put, FieldDefs, RowDefs, Replay.Holds;
    ghost var tight, defs := d.Tight(), d.View();
    RowDefsFirst(s, defs, values);
    var k := 1;
    status := OK;
    EncodesWider(s, buf[at..at + s.rowWidth], time, values, Upto([], 0), Upto(d.View(), 1));
    FieldsPositive(s);
    while k < |s.fields|
      invariant 1 <= k <= |s.fields| && d.Valid() && (d.slots == old(d.slots) || fresh(d.slots))
                && old(d.View()) <= d.View() && status == OK
      invariant Encodes(s, buf[at..at + s.rowWidth], time, values, Upto(d.View(), k))
      invariant d.View() == RowDefs(s, defs, values, k) && (tight ==> d.Tight())
      invariant forall j :: 0 <= j < buf.Length && !(at <= j < at + s.rowWidth) ==> buf[j] == old(buf[j])
    {
      RowDefsNext(s, defs, values, k);
      RowDefsGrow(s, defs, values, k + 1, |s.fields|);
      RowHolds(|d.symbolic|, d.limit, RowDefs(s, defs, values, k + 1), RowDefs(s, defs, values, |s.fields|));
      status := InternField(s, d, buf, at, time, values, k, fails(k));
      if status != OK {
        EncodesWider(s, buf[at..at + s.rowWidth], time, values, Upto(d.View(), k), Upto([], 0));
        return;
      }
      k := k + 1;
    }
    EncodesWider(s, buf[at..at + s.rowWidth], time, values, Upto(d.View(), k), Meaning(d.View()));
  }

  lemma {:induction false} RowDefsFirst(s: Schema, defs: seq<Def>, values: seq<Value>)
    ensures RowDefs(s, defs, values, 1) == defs
  {
  }

  lemma {:induction false} RowHolds(fields: nat, limit: nat, defs: seq<Def>, all: seq<Def>)
    requires defs <= all
    ensures Replay.Holds(fields, limit, all) ==> Replay.Holds(fields, limit, defs)
  {
    hide Replay.Holds;
    if Replay.Holds(fields, limit, all) { Replay.HoldsPrefix(fields, limit, defs, all); }
  }

  lemma FieldsPositive(s: Schema)
    requires Built(s)
    ensures |s.fields| >= 1
  {
  }

  // ---- all rows of a group ----

  datatype Line = Line(time: I64, values: seq<Value>)

  function RowAt(bytes: seq<Byte>, width: nat, r: nat): (row: seq<Byte>)
    requires RowBytes(r, width) + width <= |bytes|
    ensures |row| == width
  {
    bytes[RowBytes(r, width)..RowBytes(r, width) + width]
  }

  ghost predicate RowEncodes(s: Schema, bytes: seq<Byte>, lines: seq<Line>, r: nat, sym: SymbolRelation)
    requires Built(s) && r < |lines| && |bytes| == RowBytes(|lines|, s.rowWidth)
  {
    RowBytesMonotone(r + 1, |lines|, s.rowWidth);
    Encodes(s, RowAt(bytes, s.rowWidth, r), lines[r].time, lines[r].values, sym)
  }

  /** The rows of a frame, one after the other, encode the lines. */
  ghost predicate RowsEncode(s: Schema, bytes: seq<Byte>, lines: seq<Line>, sym: SymbolRelation)
    requires Built(s)
  {
    |bytes| == RowBytes(|lines|, s.rowWidth) && forall r :: 0 <= r < |lines| ==> RowEncodes(s, bytes, lines, r, sym)
  }

  lemma RowEncodesWider(s: Schema, bytes: seq<Byte>, lines: seq<Line>, r: nat, a: SymbolRelation, b: SymbolRelation)
    requires Built(s) && r < |lines| && |bytes| == RowBytes(|lines|, s.rowWidth) && RowEncodes(s, bytes, lines, r, a)
             && Wider(s, a, b)
    ensures RowEncodes(s, bytes, lines, r, b)
  {
    hide Encodes, Wider, Built;
    RowBytesMonotone(r + 1, |lines|, s.rowWidth);
    EncodesWider(s, RowAt(bytes, s.rowWidth, r), lines[r].time, lines[r].values, a, b);
  }

  /** Storing into one row leaves the others. */
  lemma RowElsewhere(s: Schema, a: seq<Byte>, b: seq<Byte>, lines: seq<Line>, r: nat, k: nat, sym: SymbolRelation)
    requires Built(s) && r < |lines| && k < |lines| && r != k && |a| == |b| == RowBytes(|lines|, s.rowWidth)
    requires SameOutside(a, b, RowBytes(k, s.rowWidth), RowBytes(k, s.rowWidth) + s.rowWidth)
             && RowEncodes(s, a, lines, r, sym)
    ensures RowEncodes(s, b, lines, r, sym)
  {
    hide Encodes, Built;
    var w := s.rowWidth;
    RowBytesMonotone(r + 1, |lines|, w);
    if r < k { RowBytesMonotone(r + 1, k, w); } else { RowBytesMonotone(k + 1, r, w); }
    SamePart(a, b, RowBytes(k, w), RowBytes(k, w) + w, RowBytes(r, w), RowBytes(r, w) + w);
  }

  lemma MeaningGrows(s: Schema, defs: seq<Def>, all: seq<Def>)
    requires defs <= all
    ensures Wider(s, Meaning(defs), Meaning(all))
  {
    hide Means;
    assert all == defs + all[|defs|..];
    forall i: nat, id: nat, text: seq<Byte> | Means(defs, i, id, text) ensures Means(all, i, id, text) {
      MeansGrows(defs, all[|defs|..], i, id, text);
    }
  }

  /** One turn of the row loop, with all that it keeps. */
  method InternNext(s: Schema, d: Dictionary, buf: array<Byte>, lines: seq<Line>, k: nat, at: nat, fails: nat -> nat)
    returns (status: Status)
    requires Built(s) && d.Valid() && d.symbolic == Symbolic(s) && k < |lines| && at == RowBytes(k, s.rowWidth)
    requires RowsEncode(s, buf[..], lines, Upto([], 0))
             && forall r :: 0 <= r < k ==> RowEncodes(s, buf[..], lines, r, Meaning(d.View()))
    modifies buf, d, d.slots
    ensures d.Valid() && (d.slots == old(d.slots) || fresh(d.slots)) && old(d.View()) <= d.View()
    ensures RowsEncode(s, buf[..], lines, Upto([], 0))
    ensures status == OK ==> forall r :: 0 <= r < k + 1 ==> RowEncodes(s, buf[..], lines, r, Meaning(d.View()))
    ensures status in {OK, LIMIT, NOMEM} && ((forall f: nat :: fails(f) == 0) ==> status != NOMEM)
    ensures status == OK ==> d.View() == RowDefs(s, old(d.View()), lines[k].values, |s.fields|)
    ensures status != NOMEM && old(d.Tight()) ==> d.Tight()
    ensures old(d.Tight())
            && Replay.Holds(|d.symbolic|, d.limit, RowDefs(s, old(d.View()), lines[k].values, |s.fields|)) ==>
              status != LIMIT
  {
    hide Built, Encodes, Dictionary.Valid, Dictionary.Tight, Means, FieldCount, RowEncodes, Upto, Meaning, Wider,
         RowDefs, Replay.Holds;
    ghost var w, was, defs := s.rowWidth, buf[..], d.View();
    RowBytesMonotone(k + 1, |lines|, w);
    RowOfBuffer(s, buf[..], lines, k, Upto([], 0));
    status := InternRow(s, d, buf, at, lines[k].time, lines[k].values, fails);
    assert SameOutside(was, buf[..], at, at + w);
    MeaningGrows(s, defs, d.View());
    Anything(s, Meaning(d.View()));
    RowOfBuffer(s, buf[..], lines, k, Upto([], 0));
    RowOfBuffer(s, buf[..], lines, k, Meaning(d.View()));
    if status == OK { RowEncodesWider(s, buf[..], lines, k, Meaning(d.View()), Upto([], 0)); }
    forall r | 0 <= r < |lines| && r != k
      ensures RowEncodes(s, buf[..], lines, r, Upto([], 0))
              && (r < k ==> RowEncodes(s, buf[..], lines, r, Meaning(d.View())))
    {
      RowElsewhere(s, was, buf[..], lines, r, k, Upto([], 0));
      if r < k {
        RowElsewhere(s, was, buf[..], lines, r, k, Meaning(defs));
        RowEncodesWider(s, buf[..], lines, r, Meaning(defs), Meaning(d.View()));
      }
    }
  }

  lemma Anything(s: Schema, sym: SymbolRelation)
    ensures Wider(s, sym, Upto([], 0))
  {
  }

  lemma RowOfBuffer(s: Schema, bytes: seq<Byte>, lines: seq<Line>, k: nat, sym: SymbolRelation)
    requires Built(s) && k < |lines| && |bytes| == RowBytes(|lines|, s.rowWidth)
    ensures RowBytes(k, s.rowWidth) + s.rowWidth <= |bytes|
    ensures var at := RowBytes(k, s.rowWidth);
            RowEncodes(s, bytes, lines, k, sym) <==>
              Encodes(s, bytes[at..at + s.rowWidth], lines[k].time, lines[k].values, sym)
  {
    hide Built, Encodes;
    RowBytesMonotone(k + 1, |lines|, s.rowWidth);
  }

  /** The loops over the requests and rows of a group: numbers for all symbols, or the first failure. */
  method InternRows(s: Schema, d: Dictionary, buf: array<Byte>, lines: seq<Line>, fails: (nat, nat) -> nat)
    returns (status: Status)
    requires Built(s) && d.Valid() && d.symbolic == Symbolic(s) && RowsEncode(s, buf[..], lines, Upto([], 0))
    modifies buf, d, d.slots
    ensures d.Valid() && (d.slots == old(d.slots) || fresh(d.slots)) && old(d.View()) <= d.View()
    ensures RowsEncode(s, buf[..], lines, if status == OK then Meaning(d.View()) else Upto([], 0))
    ensures status in {OK, LIMIT, NOMEM} && ((forall r: nat, f: nat :: fails(r, f) == 0) ==> status != NOMEM)
    ensures status == OK ==> d.View() == GroupDefs(s, old(d.View()), lines)
    ensures old(d.Tight()) && Replay.Holds(|d.symbolic|, d.limit, GroupDefs(s, old(d.View()), lines)) ==>
              status != LIMIT
  {
    hide Built, Dictionary.Valid, Dictionary.Tight, RowEncodes, Upto, Meaning, RowDefs, GroupDefs, Replay.Holds;
    ghost var tight, defs := d.Tight(), d.View();
    NoGroupDefs(s, defs, lines);
    var k, at := 0, 0;
    status := OK;
    while k < |lines|
      invariant 0 <= k <= |lines| && at == RowBytes(k, s.rowWidth) && status == OK
      invariant d.Valid() && (d.slots == old(d.slots) || fresh(d.slots)) && old(d.View()) <= d.View()
      invariant RowsEncode(s, buf[..], lines, Upto([], 0))
                && forall r :: 0 <= r < k ==> RowEncodes(s, buf[..], lines, r, Meaning(d.View()))
      invariant d.View() == GroupDefs(s, defs, lines[..k]) && (tight ==> d.Tight())
    {
      GroupDefsNext(s, defs, lines, k);
      GroupDefsGrow(s, defs, lines, k + 1);
      RowHolds(|d.symbolic|, d.limit, GroupDefs(s, defs, lines[..k + 1]), GroupDefs(s, defs, lines));
      status := InternNext(s, d, buf, lines, k, at, f => fails(k, f));
      if status != OK { return; }
      k, at := k + 1, at + s.rowWidth;
    }
    assert lines[..k] == lines;
  }

  lemma {:induction false} NoGroupDefs(s: Schema, defs: seq<Def>, lines: seq<Line>)
    ensures GroupDefs(s, defs, lines[..0]) == defs
  {
  }
}
