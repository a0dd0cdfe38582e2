/** Row bytes of src/core/schema.c: which bytes stand for which values, and the
    encoder, decoder and validator against that relation. Floating-point values are
    their bit patterns. A symbol's number is related to its text by sym. */
module RowCodec {
  import opened Bytes
  import opened Layout
  import opened Frames
  import opened Utf8
  import opened Schemas

  datatype Value = Null | Int(i: int) | Uint(u: nat) | Real(bits: nat) | Data(bytes: seq<Byte>)

  type SymbolRelation = (nat, nat, seq<Byte>) -> bool

  // ---- null bits ----

  function Bit(b: nat, k: nat): bool
    decreases k
  {
    if k == 0 then b % 2 == 1 else Bit(b / 2, k - 1)
  }

  /** b with bit k set, as the or with a shifted one sets it. */
  function WithBit(b: nat, k: nat): nat
    decreases k
  {
    if k == 0 then b / 2 * 2 + 1 else 2 * WithBit(b / 2, k - 1) + b % 2
  }

  lemma {:induction false} BitWith(b: nat, k: nat, j: nat)
    ensures Bit(WithBit(b, k), j) <==> j == k || Bit(b, j)
    decreases k
  {
    if k > 0 && j > 0 { BitWith(b / 2, k - 1, j - 1); }
  }

  lemma TwoByte()
    ensures Power2(BYTE_BITS) == 256
  {
    assert Power2(1) == 2 && Power2(2) == 4 && Power2(3) == 8 && Power2(4) == 16 && Power2(5) == 32 && Power2(6) == 64
           && Power2(7) == 128;
  }

  lemma {:induction false} WithBitSmall(b: nat, k: nat, n: nat)
    requires b < Power2(n) && k < n
    ensures WithBit(b, k) < Power2(n)
    decreases k
  {
    hide Power2, WithBit;
    PowerNext(n);
    WithBitNext(b, k);
    if k == 0 {
      Halved(b, Power2(n - 1), 0);
    } else {
      Halved(b, Power2(n - 1), 0);
      WithBitSmall(b / 2, k - 1, n - 1);
      Halved(b, Power2(n - 1), WithBit(b / 2, k - 1));
    }
  }

  lemma {:induction false} PowerNext(n: nat)
    requires n > 0
    ensures Power2(n) == 2 * Power2(n - 1)
  {
  }

  lemma {:induction false} WithBitNext(b: nat, k: nat)
    ensures WithBit(b, k) == if k == 0 then b / 2 * 2 + 1 else 2 * WithBit(b / 2, k - 1) + b % 2
  {
  }

  /** Halving a number below twice p, and doubling one below p. */
  lemma {:induction false} Halved(b: nat, p: nat, x: nat)
    requires b < 2 * p
    ensures b / 2 < p && b / 2 * 2 + 1 < 2 * p
    ensures x < p ==> 2 * x + b % 2 < 2 * p
  {
    hide *;
  }

  lemma {:induction false} BitsEqual(b: nat, c: nat, n: nat)
    requires b < Power2(n) && c < Power2(n) && forall k :: 0 <= k < n ==> Bit(b, k) == Bit(c, k)
    ensures b == c
    decreases n
  {
    if n > 0 {
      assert Bit(b, 0) == Bit(c, 0);
      forall k | 0 <= k < n - 1 ensures Bit(b / 2, k) == Bit(c / 2, k) { assert Bit(b, k + 1) == Bit(c, k + 1); }
      BitsEqual(b / 2, c / 2, n - 1);
    }
  }

  lemma {:induction false} NoBits(n: nat, k: nat)
    requires n == 0
    ensures !Bit(n, k)
    decreases k
  {
    if k > 0 { NoBits(0, k - 1); }
  }

  // ---- one slot ----

  function Unsigned(i: int, w: nat): int { if i < 0 then i + Span(w) else i }

  function SignedOf(u: nat, w: nat): int { if 2 * u < Span(w) then u else u - Span(w) }

  predicate InRange(i: int, w: nat) { 0 - Span(w) <= 2 * i < Span(w) }

  /** Not an infinity or a not-a-number: the exponent is not all ones. */
  predicate Finite(ty: Type, bits: nat) {
    if ty == F32 then bits / 0x80_0000 % 256 != 255 else bits / 0x10_0000_0000_0000 % 2048 != 2047
  }

  /** The bytes of a slot stand for a value that is not null. */
  predicate SlotIs(f: Field, i: nat, b: seq<Byte>, v: Value, sym: SymbolRelation) {
    && |b| == f.width
    && match f.ty
       case I8 | I16 | I32 | I64 | Timestamp => v.Int? && InRange(v.i, f.width) && Get(b) == Unsigned(v.i, f.width)
       case U8 | U16 | U32 | U64 => v == Uint(Get(b))
       case Bool => v == Uint(Get(b)) && v.u <= 1
       case F32 | F64 => v == Real(Get(b)) && Finite(f.ty, v.bits)
       case Uuid | Bytes => v == Data(b)
       case Text =>
         && v.Data? && |v.bytes| <= f.size && Utf8Octets(v.bytes)
         && b == Put(|v.bytes|, 4) + v.bytes + Zeros(f.size - |v.bytes|)
       case Symbol =>
         && v.Data? && |v.bytes| <= MAX_STRING_BYTES && Utf8Octets(v.bytes)
         && Get(b) != 0 && sym(i, Get(b), v.bytes)
  }

  /** The part of wadb_decode_value after the null check. */
  function DecodeSlot(f: Field, i: nat, b: seq<Byte>, dec: (nat, nat) -> Option<seq<Byte>>): Option<Value>
    requires |b| == f.width && (f.ty == Text ==> f.width == f.size + 4)
  {
    match f.ty
    case I8 | I16 | I32 | I64 | Timestamp => Some(Int(SignedOf(Get(b), f.width)))
    case U8 | U16 | U32 | U64 => Some(Uint(Get(b)))
    case Bool => if Get(b) > 1 then None else Some(Uint(Get(b)))
    case F32 | F64 => if Finite(f.ty, Get(b)) then Some(Real(Get(b))) else None
    case Uuid | Bytes => Some(Data(b))
    case Text =>
      var n := At(b, 0, 4);
      if n > f.size || !Utf8Octets(b[4..4 + n]) then None else Some(Data(b[4..4 + n]))
    case Symbol => if Get(b) == 0 || dec(i, Get(b)).None? then None else Some(Data(dec(i, Get(b)).value))
  }

  /** The bytes that validation wants zero: those of a text slot after the text. */
  predicate TailZero(f: Field, b: seq<Byte>, v: Value) {
    f.ty == Text && v.Data? && 4 + |v.bytes| <= |b| ==> AllZero(b[4 + |v.bytes|..])
  }

  /** A resolver gives texts that could have been interned. */
  ghost predicate Resolves(dec: (nat, nat) -> Option<seq<Byte>>) {
    forall i, id :: dec(i, id).Some? ==> |dec(i, id).value| <= MAX_STRING_BYTES && Utf8Octets(dec(i, id).value)
  }

  function Resolved(dec: (nat, nat) -> Option<seq<Byte>>): SymbolRelation {
    (i: nat, id: nat, text: seq<Byte>) => dec(i, id) == Some(text)
  }

  lemma SignedRange(u: nat, w: nat)
    requires u < Span(w)
    ensures InRange(SignedOf(u, w), w) && Unsigned(SignedOf(u, w), w) == u
  {
  }

  lemma ThreeParts(b: seq<Byte>, x: seq<Byte>, y: seq<Byte>, z: seq<Byte>)
    requires |b| == |x| + |y| + |z|
    ensures b == x + y + z <==> b[..|x|] == x && b[|x|..|x| + |y|] == y && b[|x| + |y|..] == z
  {
    hide *;
    var m, n := |x|, |x| + |y|;
    assert b == b[..m] + b[m..n] + b[n..];
    var c := x + y + z;
    assert c[..m] == x && c[m..n] == y && c[n..] == z;
  }

  lemma TextIff(b: seq<Byte>, size: nat, text: seq<Byte>)
    requires |b| == size + 4 && size <= MAX_ROW_BYTES && |text| <= size
    ensures b == Put(|text|, 4) + text + Zeros(size - |text|) <==>
            At(b, 0, 4) == |text| && b[4..4 + |text|] == text && AllZero(b[4 + |text|..])
  {
    hide Get, Put, Span, Zeros;
    Spans();
    assert b[..4] == b[0..4];
    LastField(|text|, 4, b[0..4]);
    ThreeParts(b, Put(|text|, 4), text, Zeros(size - |text|));
    ZeroIff(b[4 + |text|..]);
  }

  lemma ZeroIff(b: seq<Byte>)
    ensures AllZero(b) <==> b == Zeros(|b|)
  {
  }

  /** Decoding accepts a slot as a value exactly when the slot stands for that value. */
  lemma SlotIff(f: Field, i: nat, b: seq<Byte>, v: Value, dec: (nat, nat) -> Option<seq<Byte>>)
    requires |b| == f.width && (f.ty == Text ==> f.width == f.size + 4 && f.size <= MAX_ROW_BYTES) && Resolves(dec)
    ensures SlotIs(f, i, b, v, Resolved(dec)) <==> DecodeSlot(f, i, b, dec) == Some(v) && TailZero(f, b, v)
  {
    hide Get, Put, Utf8Octets, Span, Finite;
    SignedRange(Get(b), f.width);
    if f.ty == Text && v.Data? && |v.bytes| <= f.size { TextIff(b, f.size, v.bytes); }
  }

  /** The numbers that a slot of an integer type can stand for, spelled out. */
  predicate RoomFor(ty: Type, v: Value) {
    match ty
    case I8 => v.Int? && -0x80 <= v.i < 0x80
    case I16 => v.Int? && -0x8000 <= v.i < 0x8000
    case I32 => v.Int? && -0x8000_0000 <= v.i < 0x8000_0000
    case I64 | Timestamp => v.Int? && -0x8000_0000_0000_0000 <= v.i < 0x8000_0000_0000_0000
    case U8 => v.Uint? && v.u < 0x100
    case U16 => v.Uint? && v.u < 0x1_0000
    case U32 => v.Uint? && v.u < 0x1_0000_0000
    case U64 => v.Uint? && v.u < 0x1_0000_0000_0000_0000
    case Bool => v == Uint(0) || v == Uint(1)
    case _ => false
  }

  predicate Integral(ty: Type) {
    ty in {I8, I16, I32, I64, Timestamp, U8, U16, U32, U64, Bool}
  }

  /** A field of an integer type takes a number exactly when its type has room for it. */
  lemma {:induction false} HeldIff(f: Field, i: nat, v: Value, sym: SymbolRelation)
    requires f.width == Width(f.ty, f.size) && Integral(f.ty)
    ensures (exists b: seq<Byte> :: SlotIs(f, i, b, v, sym)) <==> RoomFor(f.ty, v)
  {
    hide Get, Put, Utf8Octets, Span, Finite;
    Spans();
    if RoomFor(f.ty, v) {
      var u := if v.Int? then Unsigned(v.i, f.width) else v.u;
      GetPut(u, f.width);
      assert SlotIs(f, i, Put(u, f.width), v, sym);
    }
  }

  /** Each text of a field has at most one number. */
  ghost predicate Functional(sym: SymbolRelation) {
    forall i, id, id', text :: sym(i, id, text) && sym(i, id', text) ==> id == id'
  }

  /** A value has one slot. */
  lemma SlotUnique(f: Field, i: nat, b: seq<Byte>, c: seq<Byte>, v: Value, sym: SymbolRelation)
    requires SlotIs(f, i, b, v, sym) && SlotIs(f, i, c, v, sym) && Functional(sym)
    ensures b == c
  {
    hide Get, Put, Utf8Octets, Span, Finite;
    if f.ty != Text && f.ty != Uuid && f.ty != Type.Bytes {
      assert Get(b) == Get(c);
      GetInjective(b, c);
    }
  }

  // ---- a row ----

  function Slot(s: Schema, row: seq<Byte>, i: nat): (b: seq<Byte>)
    requires Built(s) && |row| == s.rowWidth && 0 < i < |s.fields|
    ensures |b| == s.fields[i].width
  {
    SlotInRow(s, i);
    row[s.fields[i].offset..s.fields[i].offset + s.fields[i].width]
  }

  /** Bit k of the bitmap. */
  predicate NullBit(s: Schema, row: seq<Byte>, k: nat)
    requires Built(s) && |row| == s.rowWidth && k < 8 * s.nullBytes
  {
    BitmapInRow(s);
    Bit(row[8 + k / 8], k % 8)
  }

  predicate IsNull(s: Schema, row: seq<Byte>, i: nat)
    requires Built(s) && |row| == s.rowWidth && 0 < i < |s.fields|
  {
    s.fields[i].nullable && (NullBits(s, i, i); NullBit(s, row, s.fields[i].nullBit))
  }

  lemma BitmapInRow(s: Schema)
    requires Built(s)
    ensures 8 + s.nullBytes <= End(s) <= s.rowWidth
  {
    hide Width, Nullables;
    if |s.fields| > 1 { SlotInRow(s, |s.fields| - 1); }
  }

  /** Field i of a row stands for a value: its null bit and its whole slot. */
  predicate FieldIs(s: Schema, row: seq<Byte>, i: nat, v: Value, sym: SymbolRelation)
    requires Built(s) && |row| == s.rowWidth && 0 < i < |s.fields|
  {
    if v.Null? then IsNull(s, row, i) && AllZero(Slot(s, row, i))
    else !IsNull(s, row, i) && SlotIs(s.fields[i], i, Slot(s, row, i), v, sym)
  }

  predicate UnusedZero(s: Schema, row: seq<Byte>)
    requires Built(s) && |row| == s.rowWidth
  {
    && (forall k :: s.nullable <= k < 8 * s.nullBytes ==> !NullBit(s, row, k))
    && (BitmapInRow(s); AllZero(row[End(s)..]))
  }

  /** The value for field i: the time field has none. */
  function ValueOf(values: seq<Value>, i: nat): Value
    requires 0 < i <= |values|
  {
    values[i - 1]
  }

  /** A row is the encoding of a time and values: every bit of it is accounted for. */
  predicate Encodes(s: Schema, row: seq<Byte>, time: I64, values: seq<Value>, sym: SymbolRelation)
    requires Built(s)
  {
    && |row| == s.rowWidth && |values| == |s.fields| - 1
    && (BitmapInRow(s); row[..8] == Put(Wrap64(time), 8))
    && (forall i :: 0 < i < |s.fields| ==> FieldIs(s, row, i, ValueOf(values, i), sym))
    && UnusedZero(s, row)
  }

  // ---- values determine the row ----

  lemma {:induction false} SlotOwner(s: Schema, n: nat, j: nat) returns (i: nat)
    requires Built(s) && 0 < n < |s.fields| && 8 + s.nullBytes <= j < s.fields[n].offset + s.fields[n].width
    ensures 0 < i <= n && s.fields[i].offset <= j < s.fields[i].offset + s.fields[i].width
    decreases n
  {
    hide Width, Nullables, End;
    assert PlacedAt(s, n);
    if j >= s.fields[n].offset { i := n; } else { i := SlotOwner(s, n - 1, j); }
  }

  lemma {:induction false} BitOwner(s: Schema, n: nat, k: nat) returns (i: nat)
    requires Built(s) && n <= |s.fields| && k < Nullables(s.fields[..n])
    ensures 0 < i < n && s.fields[i].nullable && s.fields[i].nullBit == k
    decreases n
  {
    hide Width, End;
    assert n > 0;
    assert s.fields[..n][..n - 1] == s.fields[..n - 1];
    if k < Nullables(s.fields[..n - 1]) { i := BitOwner(s, n - 1, k); } else {
      i := n - 1;
      assert i > 0 ==> PlacedAt(s, i);
    }
  }

  lemma BitsAgree(s: Schema, a: seq<Byte>, b: seq<Byte>, time: I64, values: seq<Value>, sym: SymbolRelation, k: nat)
    requires Built(s) && Encodes(s, a, time, values, sym) && Encodes(s, b, time, values, sym) && k < 8 * s.nullBytes
    ensures NullBit(s, a, k) == NullBit(s, b, k)
  {
    hide SlotIs, Bit, PlacedAt, Put, End;
    if k < s.nullable {
      assert s.fields[..|s.fields|] == s.fields;
      var i := BitOwner(s, |s.fields|, k);
      assert FieldIs(s, a, i, ValueOf(values, i), sym) && FieldIs(s, b, i, ValueOf(values, i), sym);
    }
  }

  lemma BitmapAgrees(s: Schema, a: seq<Byte>, b: seq<Byte>, time: I64, values: seq<Value>, sym: SymbolRelation, j: nat)
    requires Built(s) && Encodes(s, a, time, values, sym) && Encodes(s, b, time, values, sym)
             && 8 <= j < 8 + s.nullBytes
    ensures |a| == |b| > j && a[j] == b[j]
  {
    hide SlotIs, Bit, Nullables, PlacedAt, Put, Power2;
    BitmapInRow(s);
    TwoByte();
    forall k | 0 <= k < 8 ensures Bit(a[j], k) == Bit(b[j], k) {
      var bit := 8 * (j - 8) + k;
      assert bit / 8 == j - 8 && bit % 8 == k;
      BitsAgree(s, a, b, time, values, sym, bit);
    }
    BitsEqual(a[j], b[j], BYTE_BITS);
  }

  lemma SlotByte(s: Schema, a: seq<Byte>, i: nat, j: nat)
    requires Built(s) && |a| == s.rowWidth && 0 < i < |s.fields|
    requires s.fields[i].offset <= j < s.fields[i].offset + s.fields[i].width
    ensures j < |a| && a[j] == Slot(s, a, i)[j - s.fields[i].offset]
  {
    hide Built;
    SlotInRow(s, i);
  }

  lemma SlotBytesAgree(s: Schema, a: seq<Byte>, b: seq<Byte>, time: I64, values: seq<Value>, sym: SymbolRelation,
                       j: nat)
    requires Built(s) && Encodes(s, a, time, values, sym) && Encodes(s, b, time, values, sym) && Functional(sym)
    requires 8 + s.nullBytes <= j < End(s)
    ensures |a| == |b| > j && a[j] == b[j]
  {
    hide SlotIs, Slot, Nullables, PlacedAt, UnusedZero, Functional, FieldIs;
    BitmapInRow(s);
    var i := SlotOwner(s, |s.fields| - 1, j);
    SlotsAgree(s, a, b, i, ValueOf(values, i), sym);
    SlotByte(s, a, i, j);
    SlotByte(s, b, i, j);
  }

  /** The same values at the same time have one encoding. */
  lemma RowUnique(s: Schema, a: seq<Byte>, b: seq<Byte>, time: I64, values: seq<Value>, sym: SymbolRelation)
    requires Built(s) && Encodes(s, a, time, values, sym) && Encodes(s, b, time, values, sym) && Functional(sym)
    ensures a == b
  {
    hide Built, FieldIs, NullBit, Functional, End, Put;
    BitmapInRow(s);
    forall j | 0 <= j < |a| ensures a[j] == b[j] {
      if j < 8 {
        assert a[..8][j] == b[..8][j];
      } else if j < 8 + s.nullBytes {
        BitmapAgrees(s, a, b, time, values, sym, j);
      } else if j < End(s) {
        SlotBytesAgree(s, a, b, time, values, sym, j);
      } else {
        assert a[End(s)..][j - End(s)] == 0 == b[End(s)..][j - End(s)];
      }
    }
  }

  lemma SlotsAgree(s: Schema, a: seq<Byte>, b: seq<Byte>, i: nat, v: Value, sym: SymbolRelation)
    requires Built(s) && |a| == |b| == s.rowWidth && 0 < i < |s.fields| && Functional(sym)
    requires FieldIs(s, a, i, v, sym) && FieldIs(s, b, i, v, sym)
    ensures Slot(s, a, i) == Slot(s, b, i)
  {
    hide SlotIs, Slot, Built, Functional, IsNull;
    if !v.Null? { SlotUnique(s.fields[i], i, Slot(s, a, i), Slot(s, b, i), v, sym); }
  }

  // ---- decoding and validating ----

  /** wadb_decode_value. */
  function DecodeValue(s: Schema, i: nat, row: seq<Byte>, dec: (nat, nat) -> Option<seq<Byte>>): Option<Value>
    requires Built(s) && |row| == s.rowWidth && i < |s.fields|
  {
    if i == 0 then BitmapInRow(s); Some(Int(Signed64(U64At(row, 0))))
    else if IsNull(s, row, i) then Some(Null)
    else assert PlacedAt(s, i); DecodeSlot(s.fields[i], i, Slot(s, row, i), dec)
  }

  /** Decoding gives a value and the bytes it does not use are zero, exactly when the field stands for that value. */
  lemma FieldIff(s: Schema, row: seq<Byte>, i: nat, v: Value, dec: (nat, nat) -> Option<seq<Byte>>)
    requires Built(s) && |row| == s.rowWidth && 0 < i < |s.fields| && Resolves(dec)
    ensures FieldIs(s, row, i, v, Resolved(dec)) <==>
            DecodeValue(s, i, row, dec) == Some(v)
            && (if v.Null? then AllZero(Slot(s, row, i)) else TailZero(s.fields[i], Slot(s, row, i), v))
  {
    hide SlotIs, Slot, IsNull, Resolves, TailZero;
    assert PlacedAt(s, i);
    SlotInRow(s, i);
    SlotIff(s.fields[i], i, Slot(s, row, i), v, dec);
    NeverNull(s.fields[i], i, Slot(s, row, i), dec);
  }

  lemma NeverNull(f: Field, i: nat, b: seq<Byte>, dec: (nat, nat) -> Option<seq<Byte>>)
    requires |b| == f.width && (f.ty == Text ==> f.width == f.size + 4)
    ensures DecodeSlot(f, i, b, dec) != Some(Null) && !SlotIs(f, i, b, Null, Resolved(dec))
  {
  }

  lemma TimeIff(s: Schema, row: seq<Byte>, time: I64)
    requires Built(s) && |row| == s.rowWidth
    ensures |row| >= 8 && (row[..8] == Put(Wrap64(time), 8) <==> Signed64(U64At(row, 0)) == time)
  {
    hide Built, Put, Get;
    BitmapInRow(s);
    Spans();
    assert row[..8] == row[0..8];
    LastField(Wrap64(time), 8, row[0..8]);
  }

  /** A row that encodes values decodes to them. */
  lemma RowDecodes(s: Schema, row: seq<Byte>, time: I64, values: seq<Value>, dec: (nat, nat) -> Option<seq<Byte>>)
    requires Built(s) && Encodes(s, row, time, values, Resolved(dec)) && Resolves(dec)
    ensures DecodeValue(s, 0, row, dec) == Some(Int(time))
    ensures forall i :: 0 < i < |s.fields| ==> DecodeValue(s, i, row, dec) == Some(ValueOf(values, i))
  {
    TimeIff(s, row, time);
    forall i | 0 < i < |s.fields| ensures DecodeValue(s, i, row, dec) == Some(ValueOf(values, i)) {
      hide DecodeValue, FieldIs, Resolves;
      FieldIff(s, row, i, ValueOf(values, i), dec);
    }
  }

  /** A canonical row: the encoding of some values. */
  ghost predicate Canonical(s: Schema, row: seq<Byte>, dec: (nat, nat) -> Option<seq<Byte>>)
    requires Built(s)
  {
    exists time, values :: Encodes(s, row, time, values, Resolved(dec))
  }

  predicate FieldOk(s: Schema, row: seq<Byte>, i: nat, dec: (nat, nat) -> Option<seq<Byte>>)
    requires Built(s) && |row| == s.rowWidth && i < |s.fields|
  {
    var v := DecodeValue(s, i, row, dec);
    v.Some? && (i > 0 ==> if v.value.Null? then AllZero(Slot(s, row, i)) else TailZero(s.fields[i], Slot(s, row, i),
        v.value))
  }

  /** The decoded values, with null where decoding fails. */
  function Decoded(s: Schema, row: seq<Byte>, dec: (nat, nat) -> Option<seq<Byte>>): (r: seq<Value>)
    requires Built(s) && |row| == s.rowWidth
    ensures |r| == |s.fields| - 1
  {
    seq(|s.fields| - 1, k requires 0 <= k < |s.fields| - 1 => DecodedAt(s, row, k + 1, dec))
  }

  function DecodedAt(s: Schema, row: seq<Byte>, i: nat, dec: (nat, nat) -> Option<seq<Byte>>): Value
    requires Built(s) && |row| == s.rowWidth && i < |s.fields|
  {
    var v := DecodeValue(s, i, row, dec);
    if v.Some? then v.value else Null
  }

  lemma EncodesFieldOk(s: Schema, row: seq<Byte>, time: I64, values: seq<Value>, dec: (nat, nat) -> Option<seq<Byte>>,
                       i: nat)
    requires Built(s) && Encodes(s, row, time, values, Resolved(dec)) && Resolves(dec) && i < |s.fields|
    ensures FieldOk(s, row, i, dec)
  {
    hide FieldIs, Resolves, TailZero, Built, Slot, UnusedZero, DecodeSlot, IsNull;
    if i > 0 { FieldIff(s, row, i, ValueOf(values, i), dec); }
  }

  lemma FieldOkIs(s: Schema, row: seq<Byte>, dec: (nat, nat) -> Option<seq<Byte>>, i: nat)
    requires Built(s) && |row| == s.rowWidth && 0 < i < |s.fields| && FieldOk(s, row, i, dec) && Resolves(dec)
    ensures FieldIs(s, row, i, ValueOf(Decoded(s, row, dec), i), Resolved(dec))
  {
    hide FieldIs, Resolves, TailZero, Built, Slot, DecodeValue;
    assert ValueOf(Decoded(s, row, dec), i) == DecodedAt(s, row, i, dec);
    FieldIff(s, row, i, DecodedAt(s, row, i, dec), dec);
  }

  /** Validation field by field, and of what no field owns, accepts exactly the canonical rows. */
  lemma CanonicalIff(s: Schema, row: seq<Byte>, dec: (nat, nat) -> Option<seq<Byte>>)
    requires Built(s) && |row| == s.rowWidth && Resolves(dec)
    ensures Canonical(s, row, dec) <==>
              (forall i :: 0 <= i < |s.fields| ==> FieldOk(s, row, i, dec)) && UnusedZero(s, row)
  {
    hide FieldIs, UnusedZero, Resolves, Built, FieldOk, Decoded, TimeOf;
    if Canonical(s, row, dec) {
      var time, values :| Encodes(s, row, time, values, Resolved(dec));
      forall i | 0 <= i < |s.fields| ensures FieldOk(s, row, i, dec) { EncodesFieldOk(s, row, time, values, dec, i); }
    }
    if (forall i :: 0 <= i < |s.fields| ==> FieldOk(s, row, i, dec)) && UnusedZero(s, row) {
      DecodedEncodes(s, row, dec);
    }
  }

  lemma DecodedEncodes(s: Schema, row: seq<Byte>, dec: (nat, nat) -> Option<seq<Byte>>)
    requires Built(s) && |row| == s.rowWidth && Resolves(dec)
    requires (forall i :: 0 <= i < |s.fields| ==> FieldOk(s, row, i, dec)) && UnusedZero(s, row)
    ensures Encodes(s, row, TimeOf(s, row), Decoded(s, row, dec), Resolved(dec))
  {
    hide FieldIs, UnusedZero, Resolves, Built, FieldOk;
    TimeIff(s, row, TimeOf(s, row));
    forall i | 0 < i < |s.fields| ensures FieldIs(s, row, i, ValueOf(Decoded(s, row, dec), i), Resolved(dec)) {
      FieldOkIs(s, row, dec, i);
    }
  }

  function TimeOf(s: Schema, row: seq<Byte>): I64
    requires Built(s) && |row| == s.rowWidth
  {
    BitmapInRow(s);
    Signed64(U64At(row, 0))
  }

  predicate HighClear(b: nat, r: nat, n: nat) { forall k :: r <= k < n ==> !Bit(b, k) }

  lemma {:induction false} HighBits(b: nat, r: nat, n: nat)
    requires r <= n && b < Power2(n)
    ensures b < Power2(r) <==> HighClear(b, r, n)
    decreases n
  {
    if r == 0 {
      forall k | 0 <= k < n ensures !Bit(0, k) { NoBits(0, k); }
      if HighClear(b, 0, n) { BitsEqual(b, 0, n); }
    } else {
      HighBits(b / 2, r - 1, n - 1);
      if HighClear(b, r, n) {
        forall k | r - 1 <= k < n - 1 ensures !Bit(b / 2, k) { assert !Bit(b, k + 1); }
      }
      if HighClear(b / 2, r - 1, n - 1) {
        forall k | r <= k < n ensures !Bit(b, k) { assert !Bit(b / 2, k - 1); }
      }
    }
  }

  /** The one test of unused null bits: the last byte of the bitmap against a mask. */
  lemma UnusedBits(s: Schema, row: seq<Byte>)
    requires Built(s) && |row| == s.rowWidth
    ensures 8 + s.nullBytes <= |row|
    ensures (forall k :: s.nullable <= k < 8 * s.nullBytes ==> !NullBit(s, row, k)) <==>
            s.nullable % 8 == 0 || row[8 + s.nullBytes - 1] < Power2(s.nullable % 8)
  {
    hide Bit, Nullables, PlacedAt, End, Power2;
    BitmapInRow(s);
    TwoByte();
    var r := s.nullable % 8;
    if r != 0 {
      var b := row[8 + s.nullBytes - 1];
      HighBits(b, r, BYTE_BITS);
      var base := 8 * (s.nullBytes - 1);
      assert s.nullable == base + r;
      forall k | base <= k < 8 * s.nullBytes ensures NullBit(s, row, k) == Bit(b, k - base) {
        assert k / 8 == s.nullBytes - 1 && k % 8 == k - base;
      }
      if forall k :: s.nullable <= k < 8 * s.nullBytes ==> !NullBit(s, row, k) {
        forall k | r <= k < 8 ensures !Bit(b, k) { assert !NullBit(s, row, base + k); }
      }
      if HighClear(b, r, BYTE_BITS) {
        forall k | s.nullable <= k < 8 * s.nullBytes ensures !NullBit(s, row, k) { assert !Bit(b, k - base); }
      }
    }
  }

  /** A run of bytes compared with zero. */
  method CheckZero(row: seq<Byte>, from: nat, to: nat) returns (zero: bool)
    requires from <= to <= |row|
    ensures zero <==> AllZero(row[from..to])
  {
    var j := from;
    while j < to
      invariant from <= j <= to && forall k :: from <= k < j ==> row[k] == 0
    {
      if row[j] != 0 {
        assert row[from..to][j - from] != 0;
        return false;
      }
      j := j + 1;
    }
    return true;
  }

  /** One turn of the loop of wadb_validate_row. */
  method ValidateField(s: Schema, row: seq<Byte>, i: nat, dec: (nat, nat) -> Option<seq<Byte>>) returns (ok: bool)
    requires Built(s) && |row| == s.rowWidth && i < |s.fields|
    ensures ok == FieldOk(s, row, i, dec)
  {
    hide Bit, Nullables, End, Get, Utf8Octets, Finite, SignedOf;
    var v := DecodeValue(s, i, row, dec);
    if v.None? { return false; }
    if i == 0 { return true; }
    SlotInRow(s, i);
    assert PlacedAt(s, i);
    var f := s.fields[i];
    var start := if v.value.Null? then 0 else if f.ty == Text then 4 + |v.value.bytes| else f.width;
    ok := CheckZero(row, f.offset + start, f.offset + f.width);
    assert row[f.offset + start..f.offset + f.width] == Slot(s, row, i)[start..];
  }

  /** wadb_validate_row accepts exactly the canonical rows. */
  method ValidateRow(s: Schema, row: seq<Byte>, dec: (nat, nat) -> Option<seq<Byte>>) returns (ok: bool)
    requires Built(s) && |row| == s.rowWidth && Resolves(dec)
    ensures ok <==> Canonical(s, row, dec)
  {
    hide FieldOk, Built, NullBit, Canonical, Nullables, Resolves, Power2, End;
    CanonicalIff(s, row, dec);
    UnusedBits(s, row);
    BitmapInRow(s);
    var i := 0;
    while i < |s.fields|
      invariant 0 <= i <= |s.fields| && forall k :: 0 <= k < i ==> FieldOk(s, row, k, dec)
    {
      var fine := ValidateField(s, row, i, dec);
      if !fine { return false; }
      i := i + 1;
    }
    NullBytesPositive(s);
    if s.nullable % 8 != 0 && row[8 + s.nullBytes - 1] >= Power2(s.nullable % 8) { return false; }
    assert row[End(s)..] == row[End(s)..s.rowWidth];
    EndOf(s);
    var last := s.fields[|s.fields| - 1];
    ok := CheckZero(row, if |s.fields| == 1 then 8 + s.nullBytes else last.offset + last.width, s.rowWidth);
  }

  lemma NullBytesPositive(s: Schema)
    requires Built(s)
    ensures |s.fields| > 0 && (s.nullable % 8 != 0 ==> s.nullBytes > 0)
  {
  }

  lemma EndOf(s: Schema)
    requires Built(s)
    ensures var last := s.fields[|s.fields| - 1];
            End(s) == if |s.fields| == 1 then 8 + s.nullBytes else last.offset + last.width
  {
  }
}
