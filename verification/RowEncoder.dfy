/** wadb_encode_field and wadb_encode_row of src/core/schema.c: filling a row buffer
    in place. */
module RowEncoder {
  import opened Bytes
  import opened Layout
  import opened Frames
  import opened Utf8
  import opened Schemas
  import opened RowCodec

  function Assigned(enc: (nat, seq<Byte>) -> Option<nat>): SymbolRelation {
    (i: nat, id: nat, text: seq<Byte>) => enc(i, text) == Some(id)
  }

  /** What the C union can hold. */
  predicate Machine(v: Value) {
    (v.Int? ==> I64_MIN <= v.i <= I64_MAX) && (v.Uint? ==> v.u <= U64_MAX) && (v.Real? ==> v.bits <= U64_MAX)
  }

  /** The field can hold the value. */
  predicate Encodable(f: Field, i: nat, v: Value, enc: (nat, seq<Byte>) -> Option<nat>) {
    match f.ty
    case I8 | I16 | I32 | I64 | Timestamp => v.Int? && InRange(v.i, f.width)
    case U8 | U16 | U32 | U64 => v.Uint? && v.u < Span(f.width)
    case Bool => v.Uint? && v.u <= 1
    case F32 | F64 => v.Real? && v.bits < Span(f.width) && Finite(f.ty, v.bits)
    case Uuid | Bytes => v.Data? && |v.bytes| == f.width
    case Text => v.Data? && |v.bytes| <= f.size && Utf8Octets(v.bytes)
    case Symbol =>
      && v.Data? && |v.bytes| <= MAX_STRING_BYTES && Utf8Octets(v.bytes)
      && enc(i, v.bytes).Some? && 0 < enc(i, v.bytes).value <= U32_MAX
  }

  // ---- low bytes of a signed value ----

  lemma {:induction false} SpanGrows(w: nat, wide: nat)
    requires w <= wide
    ensures Span(w) <= Span(wide)
    decreases wide
  {
    if w < wide { SpanGrows(w, wide - 1); }
  }

  lemma LowByte(i: int, x: nat)
    ensures (i + 256 * x) % 256 == i % 256 && (i + 256 * x) / 256 == i / 256 + x
  {
  }

  /** Negative numbers: the low bytes of the wide image are the narrow image. */
  lemma {:induction false} PutWrapped(i: int, w: nat, wide: nat)
    requires w <= wide && i + Span(w) >= 0
    ensures i + Span(wide) >= 0 && Put(i + Span(wide), w) == Put(i + Span(w), w)
    decreases w
  {
    SpanGrows(w, wide);
    if w > 0 {
      var a, b := Span(w - 1), Span(wide - 1);
      LowByte(i, a);
      LowByte(i, b);
      PutWrapped(i / 256, w - 1, wide - 1);
    }
  }

  /** The low bytes of the 64-bit image of a small signed value are its narrow image. */
  lemma PutSigned(i: I64, w: nat)
    requires w in {1, 2, 4, 8} && InRange(i, w)
    ensures Put(Wrap64(i), w) == Put(Unsigned(i, w), w) && 0 <= Unsigned(i, w) < Span(w)
  {
    hide Put, Span;
    Spans();
    if i < 0 { PutWrapped(i, w, 8); }
  }

  // ---- one field ----

  /** The branches of wadb_encode_field that store a number. */
  function Number(f: Field, v: Value): nat
    requires Machine(v) && (v.Int? || v.Uint? || v.Real?)
  {
    if v.Int? then Wrap64(v.i) else if v.Uint? then v.u else v.bits
  }

  predicate Numeric(ty: Type) { ty != Uuid && ty != Type.Bytes && ty != Text && ty != Symbol }

  lemma NumberIs(f: Field, i: nat, v: Value, enc: (nat, seq<Byte>) -> Option<nat>)
    requires Machine(v) && Numeric(f.ty) && f.width == Width(f.ty, f.size) && Encodable(f, i, v, enc)
    ensures !v.Null? && !v.Data? && SlotIs(f, i, Put(Number(f, v), f.width), v, Assigned(enc))
  {
    hide Put, Get, Span, Finite;
    Spans();
    if v.Int? {
      PutSigned(v.i, f.width);
      GetPut(Unsigned(v.i, f.width), f.width);
    } else {
      GetPut(Number(f, v), f.width);
    }
  }

  /** Length and bytes of a text into a zeroed slot. */
  method WriteText(buf: array<Byte>, at: nat, text: seq<Byte>, size: nat)
    requires at + 4 + size <= buf.Length && |text| <= size && AllZero(buf[at..at + 4 + size])
    modifies buf
    ensures buf[at..at + 4 + size] == Put(|text|, 4) + text + Zeros(size - |text|)
    ensures forall j :: 0 <= j < buf.Length && !(at <= j < at + 4 + size) ==> buf[j] == old(buf[j])
  {
    hide Put;
    ghost var was := buf[at..at + 4 + size];
    PutAt(buf, at, |text|, 4);
    ghost var head := buf[at..at + 4];
    CopyAt(buf, at + 4, text);
    ghost var now, n := buf[at..at + 4 + size], |text|;
    forall j | 0 <= j < 4 ensures now[j] == head[j] { assert buf[at..at + 4][j] == buf[at + j]; }
    assert now[..4] == head;
    forall j | 0 <= j < n ensures now[4..4 + n][j] == text[j] { assert buf[at + 4..at + 4 + n][j] == buf[at + 4 + j]; }
    assert now[4..4 + n] == text;
    TextWritten(was, now, text);
  }

  /** wadb_encode_field into a zeroed slot. */
  method EncodeField(f: Field, i: nat, v: Value, enc: (nat, seq<Byte>) -> Option<nat>, buf: array<Byte>, at: nat)
    returns (ok: bool)
    requires Machine(v) && !v.Null? && f.width == Width(f.ty, f.size) && f.size <= MAX_ROW_BYTES
    requires at + f.width <= buf.Length && AllZero(buf[at..at + f.width])
    modifies buf
    ensures ok <==> Encodable(f, i, v, enc)
    ensures ok ==> SlotIs(f, i, buf[at..at + f.width], v, Assigned(enc))
    ensures forall j :: 0 <= j < buf.Length && !(at <= j < at + f.width) ==> buf[j] == old(buf[j])
  {
    hide Put, Get, Span, Finite, Utf8Octets;
    if !Encodable(f, i, v, enc) { return false; }
    Spans();
    if Numeric(f.ty) {
      NumberIs(f, i, v, enc);
      PutAt(buf, at, Number(f, v), f.width);
    } else if f.ty == Text {
      WriteText(buf, at, v.bytes, f.size);
    } else if f.ty == Symbol {
      var id := enc(i, v.bytes).value;
      PutAt(buf, at, id, 4);
      GetPut(id, 4);
    } else {
      CopyAt(buf, at, v.bytes);
    }
    ok := true;
  }

  lemma TextWritten(was: seq<Byte>, now: seq<Byte>, text: seq<Byte>)
    requires |was| == |now| && 4 + |text| <= |was| && AllZero(was) && now[..4] == Put(|text|, 4)
             && now[4..4 + |text|] == text
    requires forall j :: 4 + |text| <= j < |now| ==> now[j] == was[j]
    ensures now == Put(|text|, 4) + text + Zeros(|now| - 4 - |text|)
  {
    hide Put, Zeros;
    var n := 4 + |text|;
    forall j | n <= j < |now| ensures now[j] == 0 { assert was[j] == 0; }
    ZeroIff(now[n..]);
    assert |now[n..]| == |now| - n;
    ThreeParts(now, Put(|text|, 4), text, Zeros(|now| - n));
  }

  // ---- a row ----

  /** The row with its first fields written: the slots of the others, their null bits and the padding are still zero. */
  ghost predicate Partly(s: Schema, row: seq<Byte>, time: I64, values: seq<Value>, sym: SymbolRelation, n: nat)
    requires Built(s) && |values| == |s.fields| - 1
  {
    && |row| == s.rowWidth && 1 <= n <= |s.fields|
    && (BitmapInRow(s); row[..8] == Put(Wrap64(time), 8))
    && (forall i :: 0 < i < n ==> FieldIs(s, row, i, ValueOf(values, i), sym))
    && (forall i :: n <= i < |s.fields| ==> AllZero(Slot(s, row, i)))
    && BitsClearFrom(s, row, Nullables(s.fields[..n]))
    && (BitmapInRow(s); AllZero(row[End(s)..]))
  }

  ghost predicate BitsClearFrom(s: Schema, row: seq<Byte>, from: nat)
    requires Built(s) && |row| == s.rowWidth
  {
    forall k :: from <= k < 8 * s.nullBytes ==> !NullBit(s, row, k)
  }

  lemma PartlyStart(s: Schema, row: seq<Byte>, time: I64, values: seq<Value>, sym: SymbolRelation)
    requires Built(s) && |values| == |s.fields| - 1 && |row| == s.rowWidth
    requires |row| >= 8 && row[..8] == Put(Wrap64(time), 8) && AllZero(row[8..])
    ensures Partly(s, row, time, values, sym, 1)
  {
    hide Put, PlacedAt, Nullables, Bit, End;
    BitmapInRow(s);
    forall i | 1 <= i < |s.fields| ensures AllZero(Slot(s, row, i)) {
      SlotInRow(s, i);
      ZeroPart(row, s.fields[i].offset, s.fields[i].offset + s.fields[i].width);
    }
    ZeroPart(row, End(s), |row|);
    assert row[End(s)..] == row[End(s)..|row|];
    forall k | 0 <= k < 8 * s.nullBytes ensures !NullBit(s, row, k) {
      assert row[8..][k / 8] == row[8 + k / 8];
      NoBits(0, k % 8);
    }
  }

  lemma ZeroPart(row: seq<Byte>, a: nat, b: nat)
    requires 8 <= a <= b <= |row| && AllZero(row[8..])
    ensures AllZero(row[a..b])
  {
    forall j | a <= j < b ensures row[j] == 0 { assert row[8..][j - 8] == 0; }
  }

  lemma PartlyDone(s: Schema, row: seq<Byte>, time: I64, values: seq<Value>, sym: SymbolRelation)
    requires Built(s) && |values| == |s.fields| - 1 && Partly(s, row, time, values, sym, |s.fields|)
    ensures Encodes(s, row, time, values, sym)
  {
    hide Put, PlacedAt, Nullables, NullBit, FieldIs, End;
    assert s.fields[..|s.fields|] == s.fields;
  }

  /** Field i looks the same in two rows that agree on its slot and its bit. */
  lemma FieldKept(s: Schema, a: seq<Byte>, b: seq<Byte>, i: nat, v: Value, sym: SymbolRelation)
    requires Built(s) && |a| == |b| == s.rowWidth && 0 < i < |s.fields|
    requires Slot(s, a, i) == Slot(s, b, i) && IsNull(s, a, i) == IsNull(s, b, i) && FieldIs(s, a, i, v, sym)
    ensures FieldIs(s, b, i, v, sym)
  {
  }

  ghost predicate SameOutside(a: seq<Byte>, b: seq<Byte>, from: nat, to: nat) {
    |a| == |b| && forall j :: 0 <= j < |a| && !(from <= j < to) ==> a[j] == b[j]
  }

  lemma SamePart(a: seq<Byte>, b: seq<Byte>, from: nat, to: nat, x: nat, y: nat)
    requires SameOutside(a, b, from, to) && x <= y <= |a| && (y <= from || to <= x)
    ensures a[x..y] == b[x..y]
  {
  }

  lemma SameBits(s: Schema, a: seq<Byte>, b: seq<Byte>, n: nat, k: nat)
    requires Built(s) && |a| == s.rowWidth && 0 < n < |s.fields| && k < 8 * s.nullBytes
    requires SameOutside(a, b, s.fields[n].offset, s.fields[n].offset + s.fields[n].width)
    ensures NullBit(s, a, k) == NullBit(s, b, k)
  {
    hide Bit, PlacedAt, Nullables, End;
    SlotInRow(s, n);
    BitmapInRow(s);
    assert 8 + k / 8 < 8 + s.nullBytes;
  }

  lemma SameNull(s: Schema, a: seq<Byte>, b: seq<Byte>, n: nat, i: nat)
    requires Built(s) && |a| == s.rowWidth && 0 < n < |s.fields| && 0 < i < |s.fields|
    requires SameOutside(a, b, s.fields[n].offset, s.fields[n].offset + s.fields[n].width)
    ensures IsNull(s, a, i) == IsNull(s, b, i)
  {
    hide NullBit, Built;
    if s.fields[i].nullable {
      NullBits(s, i, i);
      SameBits(s, a, b, n, s.fields[i].nullBit);
    }
  }

  lemma SameSlot(s: Schema, a: seq<Byte>, b: seq<Byte>, n: nat, i: nat)
    requires Built(s) && |a| == s.rowWidth && 0 < n < |s.fields| && 0 < i < |s.fields| && i != n
    requires SameOutside(a, b, s.fields[n].offset, s.fields[n].offset + s.fields[n].width)
    ensures Slot(s, a, i) == Slot(s, b, i)
  {
    hide Built;
    SlotInRow(s, i);
    SlotInRow(s, n);
    SlotsOrdered(s, if i < n then i else n, if i < n then n else i);
    SamePart(a, b, s.fields[n].offset, s.fields[n].offset + s.fields[n].width, s.fields[i].offset,
             s.fields[i].offset + s.fields[i].width);
  }

  lemma NextNullables(s: Schema, n: nat)
    requires Built(s) && 0 < n < |s.fields|
    ensures Nullables(s.fields[..n + 1]) == Nullables(s.fields[..n]) + if s.fields[n].nullable then 1 else 0
    ensures s.fields[n].nullable ==> s.fields[n].nullBit == Nullables(s.fields[..n])
  {
    assert s.fields[..n + 1][..n] == s.fields[..n];
    assert PlacedAt(s, n);
  }

  lemma SlotStep(s: Schema, a: seq<Byte>, b: seq<Byte>, time: I64, values: seq<Value>, sym: SymbolRelation, n: nat)
    requires Built(s) && |values| == |s.fields| - 1 && 0 < n < |s.fields| && Partly(s, a, time, values, sym, n)
    requires SameOutside(a, b, s.fields[n].offset, s.fields[n].offset + s.fields[n].width)
    requires !ValueOf(values, n).Null? && SlotIs(s.fields[n], n, Slot(s, b, n), ValueOf(values, n), sym)
    ensures Partly(s, b, time, values, sym, n + 1)
  {
    hide Put, SlotIs, NullBit, Built, FieldIs, Slot, End, Nullables, IsNull;
    var f := s.fields[n];
    NextNullables(s, n);
    SlotInRow(s, n);
    BitmapInRow(s);
    SamePart(a, b, f.offset, f.offset + f.width, 0, 8);
    assert a[0..8] == a[..8] && b[0..8] == b[..8];
    SamePart(a, b, f.offset, f.offset + f.width, End(s), |a|);
    assert a[End(s)..|a|] == a[End(s)..] && b[End(s)..|a|] == b[End(s)..];
    forall k | Nullables(s.fields[..n]) <= k < 8 * s.nullBytes ensures !NullBit(s, b, k) { SameBits(s, a, b, n, k); }
    forall i | 0 < i < n + 1 ensures FieldIs(s, b, i, ValueOf(values, i), sym) {
      if i < n {
        SameSlot(s, a, b, n, i);
        SameNull(s, a, b, n, i);
        FieldKept(s, a, b, i, ValueOf(values, i), sym);
      } else {
        FreshField(s, b, n, ValueOf(values, n), sym);
      }
    }
    forall i | n + 1 <= i < |s.fields| ensures AllZero(Slot(s, b, i)) { SameSlot(s, a, b, n, i); }
  }

  lemma FreshField(s: Schema, b: seq<Byte>, n: nat, v: Value, sym: SymbolRelation)
    requires Built(s) && |b| == s.rowWidth && 0 < n < |s.fields| && BitsClearFrom(s, b, Nullables(s.fields[..n]))
    requires !v.Null? && SlotIs(s.fields[n], n, Slot(s, b, n), v, sym)
    ensures FieldIs(s, b, n, v, sym)
  {
    hide SlotIs, Slot, Built, NullBit;
    NextNullables(s, n);
    if s.fields[n].nullable { NullBits(s, n, n); }
  }

  // ---- setting a null bit ----

  ghost predicate BitAdded(a: seq<Byte>, b: seq<Byte>, k: nat) {
    8 + k / 8 < |a| && WithBit(a[8 + k / 8], k % 8) < 256 && b == a[8 + k / 8 := WithBit(a[8 + k / 8], k % 8)]
  }

  lemma BitSet(s: Schema, a: seq<Byte>, b: seq<Byte>, k: nat, j: nat)
    requires Built(s) && |a| == s.rowWidth && k < 8 * s.nullBytes && j < 8 * s.nullBytes
    requires BitAdded(a, b, k)
    ensures NullBit(s, b, j) <==> j == k || NullBit(s, a, j)
  {
    hide Bit, WithBit, Built;
    BitmapInRow(s);
    BitWith(a[8 + k / 8], k % 8, j % 8);
  }

  lemma BitStep(s: Schema, a: seq<Byte>, b: seq<Byte>, time: I64, values: seq<Value>, sym: SymbolRelation, n: nat)
    requires Built(s) && |values| == |s.fields| - 1 && 0 < n < |s.fields| && Partly(s, a, time, values, sym, n)
    requires s.fields[n].nullable && ValueOf(values, n).Null?
    requires BitAdded(a, b, s.fields[n].nullBit)
    ensures Partly(s, b, time, values, sym, n + 1)
  {
    hide Put, SlotIs, NullBit, Built, FieldIs, Slot, End, Nullables, IsNull, WithBit;
    var k := s.fields[n].nullBit;
    NextNullables(s, n);
    NullBits(s, n, n);
    BitmapInRow(s);
    var x := 8 + k / 8;
    SamePart(a, b, x, x + 1, 0, 8);
    assert a[0..8] == a[..8] && b[0..8] == b[..8];
    SamePart(a, b, x, x + 1, End(s), |a|);
    assert a[End(s)..|a|] == a[End(s)..] && b[End(s)..|a|] == b[End(s)..];
    forall j | k < j < 8 * s.nullBytes ensures !NullBit(s, b, j) { BitSet(s, a, b, k, j); }
    forall i | 0 < i < |s.fields| ensures Slot(s, a, i) == Slot(s, b, i) { SlotUntouched(s, a, b, x, i); }
    forall i | 0 < i < n + 1 ensures FieldIs(s, b, i, ValueOf(values, i), sym) {
      NullUntouched(s, a, b, n, i);
      if i < n {
        FieldKept(s, a, b, i, ValueOf(values, i), sym);
      } else {
        NullField(s, b, n, sym);
      }
    }
  }

  lemma SlotUntouched(s: Schema, a: seq<Byte>, b: seq<Byte>, x: nat, i: nat)
    requires Built(s) && |a| == s.rowWidth && 0 < i < |s.fields| && x < 8 + s.nullBytes && SameOutside(a, b, x, x + 1)
    ensures Slot(s, a, i) == Slot(s, b, i)
  {
    hide Built;
    SlotInRow(s, i);
    SamePart(a, b, x, x + 1, s.fields[i].offset, s.fields[i].offset + s.fields[i].width);
  }

  lemma NullUntouched(s: Schema, a: seq<Byte>, b: seq<Byte>, n: nat, i: nat)
    requires Built(s) && |a| == s.rowWidth && 0 < n < |s.fields| && 0 < i < |s.fields| && s.fields[n].nullable
    requires BitAdded(a, b, s.fields[n].nullBit)
    ensures IsNull(s, b, i) <==> i == n || IsNull(s, a, i)
  {
    hide Built, NullBit, WithBit;
    NullBits(s, n, n);
    if s.fields[i].nullable {
      NullBits(s, i, n);
      BitSet(s, a, b, s.fields[n].nullBit, s.fields[i].nullBit);
    }
  }

  lemma NullField(s: Schema, b: seq<Byte>, n: nat, sym: SymbolRelation)
    requires Built(s) && |b| == s.rowWidth && 0 < n < |s.fields| && IsNull(s, b, n) && AllZero(Slot(s, b, n))
    ensures FieldIs(s, b, n, Null, sym)
  {
  }

  lemma SlotOfBuffer(s: Schema, buf: seq<Byte>, i: nat)
    requires Built(s) && s.rowWidth <= |buf| && 0 < i < |s.fields|
    ensures s.fields[i].offset + s.fields[i].width <= s.rowWidth
    ensures Slot(s, buf[..s.rowWidth], i) == buf[s.fields[i].offset..s.fields[i].offset + s.fields[i].width]
  {
    hide Built;
    SlotInRow(s, i);
  }

  /** One turn of the loop of wadb_encode_row. */
  method EncodeOne(s: Schema, ghost time: I64, values: seq<Value>, enc: (nat, seq<Byte>) -> Option<nat>,
                   row: array<Byte>, i: nat) returns (ok: bool)
    requires Built(s) && |values| == |s.fields| - 1 && 0 < i < |s.fields| && Machine(ValueOf(values, i))
             && s.rowWidth <= row.Length
    requires Partly(s, row[..s.rowWidth], time, values, Assigned(enc), i)
    modifies row
    ensures ok <==> Holds(s.fields[i], i, ValueOf(values, i), enc)
    ensures ok ==> Partly(s, row[..s.rowWidth], time, values, Assigned(enc), i + 1)
    ensures forall j :: s.rowWidth <= j < row.Length ==> row[j] == old(row[j])
  {
    hide Put, Encodable, Partly, SlotIs, Built;
    ghost var was := row[..s.rowWidth];
    var f, v := s.fields[i], ValueOf(values, i);
    if v.Null? {
      if !f.nullable { return false; }
      NullBits(s, i, i);
      BitmapInRow(s);
      var at, bit := 8 + f.nullBit / 8, f.nullBit % 8;
      WithBitByte(row[at], bit);
      row[at] := WithBit(row[at], bit);
      assert row[..s.rowWidth] == was[at := WithBit(was[at], bit)];
      BitStep(s, was, row[..s.rowWidth], time, values, Assigned(enc), i);
      return true;
    }
    SlotInRow(s, i);
    SlotFacts(s, was, time, values, Assigned(enc), i);
    SlotOfBuffer(s, row[..], i);
    ok := EncodeField(f, i, v, enc, row, f.offset);
    if ok {
      SlotOfBuffer(s, row[..], i);
      SlotStep(s, was, row[..s.rowWidth], time, values, Assigned(enc), i);
    }
  }

  /** wadb_encode_row: it succeeds exactly when every field can hold its value, and then the row encodes the values. */
  method EncodeRow(s: Schema, values: seq<Value>, time: I64, enc: (nat, seq<Byte>) -> Option<nat>, row: array<Byte>)
    returns (ok: bool)
    requires Built(s) && |values| == |s.fields| - 1 && forall i :: 0 <= i < |values| ==> Machine(values[i])
    modifies row
    ensures ok <==> row.Length >= s.rowWidth && forall i :: 0 < i < |s.fields| ==>
              Holds(s.fields[i], i, ValueOf(values, i), enc)
    ensures ok ==> Encodes(s, row[..s.rowWidth], time, values, Assigned(enc))
    ensures forall j :: s.rowWidth <= j < row.Length ==> row[j] == old(row[j])
  {
    hide Put, Holds, Partly, Encodes;
    if row.Length < s.rowWidth { return false; }
    BitmapInRow(s);
    forall j | 0 <= j < s.rowWidth { row[j] := 0; }
    PutAt(row, 0, Wrap64(time), 8);
    assert row[..s.rowWidth][..8] == row[0..8];
    PartlyStart(s, row[..s.rowWidth], time, values, Assigned(enc));
    var i := 1;
    while i < |s.fields|
      invariant 1 <= i <= |s.fields| && Partly(s, row[..s.rowWidth], time, values, Assigned(enc), i)
      invariant forall k :: 0 < k < i ==> Holds(s.fields[k], k, ValueOf(values, k), enc)
      invariant forall j :: s.rowWidth <= j < row.Length ==> row[j] == old(row[j])
    {
      ok := EncodeOne(s, time, values, enc, row, i);
      if !ok { return false; }
      i := i + 1;
    }
    PartlyDone(s, row[..s.rowWidth], time, values, Assigned(enc));
    ok := true;
  }

  /** A field can hold a value: null if it is nullable, else an encodable value. */
  predicate Holds(f: Field, i: nat, v: Value, enc: (nat, seq<Byte>) -> Option<nat>) {
    if v.Null? then f.nullable else Encodable(f, i, v, enc)
  }

  lemma WithBitByte(b: Byte, k: nat)
    requires k < 8
    ensures WithBit(b, k) < 256
  {
    hide Power2;
    TwoByte();
    WithBitSmall(b, k, BYTE_BITS);
  }

  lemma SlotFacts(s: Schema, row: seq<Byte>, time: I64, values: seq<Value>, sym: SymbolRelation, n: nat)
    requires Built(s) && |values| == |s.fields| - 1 && 0 < n < |s.fields| && Partly(s, row, time, values, sym, n)
    ensures AllZero(Slot(s, row, n)) && s.fields[n].width == Width(s.fields[n].ty, s.fields[n].size)
            && s.fields[n].size <= MAX_ROW_BYTES
  {
    assert PlacedAt(s, n);
    SlotInRow(s, n);
  }

  // ---- the codec as a bijection ----

  /** Interning and resolving are inverse, as they are in one dictionary. */
  ghost predicate Inverse(enc: (nat, seq<Byte>) -> Option<nat>, dec: (nat, nat) -> Option<seq<Byte>>) {
    forall i: nat, id: nat, text: seq<Byte> :: enc(i, text) == Some(id) <==> dec(i, id) == Some(text)
  }

  lemma SameRelation(s: Schema, row: seq<Byte>, i: nat, v: Value, enc: (nat, seq<Byte>) -> Option<nat>,
                     dec: (nat, nat) -> Option<seq<Byte>>)
    requires Built(s) && |row| == s.rowWidth && 0 < i < |s.fields| && Inverse(enc, dec)
    ensures FieldIs(s, row, i, v, Assigned(enc)) <==> FieldIs(s, row, i, v, Resolved(dec))
  {
    hide Built, Slot, IsNull, Utf8Octets, Get, Finite, InRange, Unsigned, Put;
  }

  /** For one dictionary, a row is the encoding of values exactly when it validates and decodes to them; and a row that
      validates is the only encoding of what it decodes to. */
  lemma RowRoundTrip(s: Schema, row: seq<Byte>, time: I64, values: seq<Value>, enc: (nat, seq<Byte>) -> Option<nat>,
                     dec: (nat, nat) -> Option<seq<Byte>>)
    requires Built(s) && |row| == s.rowWidth && |values| == |s.fields| - 1 && Inverse(enc, dec) && Resolves(dec)
    ensures Encodes(s, row, time, values, Assigned(enc)) <==>
            Canonical(s, row, dec) && TimeOf(s, row) == time
            && forall i :: 0 < i < |s.fields| ==> DecodeValue(s, i, row, dec) == Some(ValueOf(values, i))
    ensures Encodes(s, row, time, values, Assigned(enc)) ==>
              forall other :: Encodes(s, other, time, values, Assigned(enc)) ==> other == row
  {
    hide Built, FieldIs, UnusedZero, Resolves, Inverse, DecodeValue, Put, TimeOf;
    forall i, v | 0 < i < |s.fields| ensures FieldIs(s, row, i, v, Assigned(enc)) <==>
      FieldIs(s, row, i, v, Resolved(dec)) {
      SameRelation(s, row, i, v, enc, dec);
    }
    assert Encodes(s, row, time, values, Assigned(enc)) <==> Encodes(s, row, time, values, Resolved(dec));
    if Encodes(s, row, time, values, Resolved(dec)) {
      RowDecodes(s, row, time, values, dec);
      TimeAgrees(s, row, time, dec);
      AssignedFunctional(enc);
      forall other | Encodes(s, other, time, values, Assigned(enc)) ensures other == row {
        RowUnique(s, other, row, time, values, Assigned(enc));
      }
    }
    if Canonical(s, row, dec) && TimeOf(s, row) == time && forall i :: 0 < i < |s.fields| ==>
      DecodeValue(s, i, row, dec) == Some(ValueOf(values, i)) {
      var t, vs :| Encodes(s, row, t, vs, Resolved(dec));
      RowDecodes(s, row, t, vs, dec);
      TimeAgrees(s, row, t, dec);
      forall i | 0 <= i < |vs| ensures vs[i] == values[i] { assert ValueOf(vs, i + 1) == ValueOf(values, i + 1); }
      assert vs == values;
    }
  }

  lemma TimeAgrees(s: Schema, row: seq<Byte>, time: I64, dec: (nat, nat) -> Option<seq<Byte>>)
    requires Built(s) && |row| == s.rowWidth && DecodeValue(s, 0, row, dec) == Some(Int(time))
    ensures TimeOf(s, row) == time
  {
  }

  lemma AssignedFunctional(enc: (nat, seq<Byte>) -> Option<nat>)
    ensures Functional(Assigned(enc))
  {
  }
}
