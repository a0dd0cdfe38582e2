/** Table schemas of src/core/schema.c: what wadb_schema_build lays out. The
    fingerprint over the definitions is not part of this model. */
module Schemas {
  import opened Bytes
  import opened Frames

  datatype Type =
    I8 | U8 | I16 | U16 | I32 | U32 | I64 | U64 | F32 | F64 | Bool | Timestamp | Uuid | Bytes | Text | Symbol

  datatype FieldDef = FieldDef(name: string, ty: Type, size: nat, nullable: bool)

  datatype Field = Field(name: string, ty: Type, size: nat, nullable: bool, offset: nat, width: nat, nullBit: nat)

  datatype Schema = Schema(fields: seq<Field>, nullable: nat, nullBytes: nat, rowWidth: nat)

  /** type_width. */
  function Width(ty: Type, size: nat): nat {
    match ty
    case I8 | U8 | Bool => 1
    case I16 | U16 => 2
    case I32 | U32 | F32 | Symbol => 4
    case I64 | U64 | F64 | Timestamp => 8
    case Uuid => 16
    case Bytes => size
    case Text => size + 4
  }

  predicate Sized(ty: Type) { ty == Bytes || ty == Text }

  /** A size is given exactly for the sized types, and is not larger than a row. */
  predicate DefOk(d: FieldDef) {
    if Sized(d.ty) then 0 < d.size <= MAX_ROW_BYTES else d.size == 0
  }

  const NAME_CAP: nat := 64

  predicate NameChar(c: char, first: bool) {
    c == '_' || 'A' <= c <= 'Z' || 'a' <= c <= 'z' || (!first && '0' <= c <= '9')
  }

  /** wadb_identifier: the loop over the characters, with room for the terminating zero. */
  method Identifier(name: string) returns (ok: bool)
    ensures ok <==> IsIdentifier(name)
  {
    if name == [] { return false; }
    var i := 0;
    while i < NAME_CAP
      invariant 0 <= i <= NAME_CAP && i <= |name| && forall k :: 0 <= k < i ==> NameChar(name[k], k == 0)
    {
      if i == |name| { return true; }
      if !NameChar(name[i], i == 0) { return false; }
      i := i + 1;
    }
    return false;
  }

  predicate IsIdentifier(name: string) {
    0 < |name| < NAME_CAP && forall k :: 0 <= k < |name| ==> NameChar(name[k], k == 0)
  }

  // ---- what the layout is ----

  function Nullables(fields: seq<Field>): (n: nat)
    ensures n <= |fields|
  {
    if fields == [] then 0 else Nullables(fields[..|fields| - 1]) + if fields[|fields| - 1].nullable then 1 else 0
  }

  /** The end of the last slot. */
  function End(s: Schema): nat
    requires s.fields != []
  {
    var last := s.fields[|s.fields| - 1];
    if |s.fields| == 1 then 8 + s.nullBytes else last.offset + last.width
  }

  predicate PlacedAt(s: Schema, i: nat)
    requires 0 < i < |s.fields|
  {
    var f := s.fields[i];
    && f.size <= MAX_ROW_BYTES && f.width == Width(f.ty, f.size) > 0 && (f.ty == Text ==> f.width == f.size + 4)
    && f.offset == (if i == 1 then 8 + s.nullBytes else s.fields[i - 1].offset + s.fields[i - 1].width)
    && (f.nullable ==> f.nullBit == Nullables(s.fields[..i]))
  }

  /** A schema as built: time at offset zero, the null bitmap, then the slots one after the other, then padding to
      eight. */
  predicate Built(s: Schema) {
    && 1 <= |s.fields| <= MAX_FIELDS
    && s.fields[0].ty == Timestamp && !s.fields[0].nullable && s.fields[0].offset == 0 && s.fields[0].width == 8
    && s.nullable == Nullables(s.fields) && s.nullBytes == (s.nullable + 7) / 8
    && (forall i :: 0 < i < |s.fields| ==> PlacedAt(s, i))
    && End(s) <= s.rowWidth < End(s) + 8 && s.rowWidth % 8 == 0 && s.rowWidth <= MAX_ROW_BYTES
  }

  /** Slots follow each other without overlap, after the bitmap. */
  lemma {:induction false} SlotsOrdered(s: Schema, i: nat, j: nat)
    requires Built(s) && 0 < i <= j < |s.fields|
    ensures 8 + s.nullBytes <= s.fields[i].offset
    ensures i < j ==> s.fields[i].offset + s.fields[i].width <= s.fields[j].offset
    decreases j
  {
    hide Width, Nullables, End;
    assert PlacedAt(s, i) && PlacedAt(s, j);
    if i < j {
      assert PlacedAt(s, j - 1);
      SlotsOrdered(s, i, j - 1);
    } else if 1 < i {
      SlotsOrdered(s, i - 1, i - 1);
    }
  }

  /** Every slot lies between the bitmap and the padding. */
  lemma {:induction false} SlotInRow(s: Schema, i: nat)
    requires Built(s) && 0 < i < |s.fields|
    ensures 8 + s.nullBytes <= s.fields[i].offset && s.fields[i].offset + s.fields[i].width <= End(s) <= s.rowWidth
  {
    hide Width, Nullables;
    SlotsOrdered(s, i, |s.fields| - 1);
  }

  lemma {:induction false} NullablesGrow(fields: seq<Field>, i: nat, j: nat)
    requires i <= j <= |fields|
    ensures Nullables(fields[..i]) <= Nullables(fields[..j])
    ensures i < j && fields[i].nullable ==> Nullables(fields[..i]) < Nullables(fields[..j])
    decreases j
  {
    if i < j {
      NullablesGrow(fields, i, j - 1);
      assert fields[..j][..j - 1] == fields[..j - 1];
    }
  }

  /** Each nullable field has its own bit of the bitmap. */
  lemma {:induction false} NullBits(s: Schema, i: nat, j: nat)
    requires Built(s) && 0 < i < |s.fields| && 0 < j < |s.fields| && s.fields[i].nullable && s.fields[j].nullable
    ensures s.fields[i].nullBit < s.nullable <= 8 * s.nullBytes
    ensures i != j ==> s.fields[i].nullBit != s.fields[j].nullBit
  {
    hide Nullables, Width;
    assert PlacedAt(s, i) && PlacedAt(s, j);
    assert s.fields[..|s.fields|] == s.fields;
    NullablesGrow(s.fields, i, |s.fields|);
    if i < j { NullablesGrow(s.fields, i, j); }
    if j < i { NullablesGrow(s.fields, j, i); }
  }

  // ---- building ----

  function NullableDefs(defs: seq<FieldDef>): nat {
    if defs == [] then 0 else NullableDefs(defs[..|defs| - 1]) + if defs[|defs| - 1].nullable then 1 else 0
  }

  function Widths(defs: seq<FieldDef>): nat {
    if defs == [] then 0 else Widths(defs[..|defs| - 1]) + Width(defs[|defs| - 1].ty, defs[|defs| - 1].size)
  }

  datatype Build = Done(schema: Schema) | Invalid | TooWide

  /** The definitions are accepted one by one, and the row holds the time, the bitmap and all slots. */
  predicate DefsOk(defs: seq<FieldDef>) {
    |defs| < MAX_FIELDS && forall i :: 0 <= i < |defs| ==> DefOk(defs[i]) && Named(defs, i)
  }

  /** The name is an identifier, not the reserved one, and not that of an earlier definition. */
  predicate Named(defs: seq<FieldDef>, i: nat)
    requires i < |defs|
  {
    IsIdentifier(defs[i].name) && defs[i].name != TIME_FIELD.name
    && forall j :: 0 <= j < i ==> defs[j].name != defs[i].name
  }

  /** The name checks of one definition. */
  method CheckName(defs: seq<FieldDef>, i: nat) returns (ok: bool)
    requires i < |defs|
    ensures ok <==> Named(defs, i)
  {
    ok := Identifier(defs[i].name);
    if !ok || defs[i].name == TIME_FIELD.name { return false; }
    var j := 0;
    while j < i
      invariant 0 <= j <= i && forall k :: 0 <= k < j ==> defs[k].name != defs[i].name
    {
      if defs[j].name == defs[i].name { return false; }
      j := j + 1;
    }
    ok := true;
  }

  /** No two fields have the same name. */
  predicate NamesApart(fields: seq<Field>) { forall i, j :: 0 <= i < j < |fields| ==> fields[i].name != fields[j].name }

  lemma {:induction false} BuiltApart(fields: seq<Field>, defs: seq<FieldDef>)
    requires DefsOk(defs) && |fields| == |defs| + 1 && fields[0] == TIME_FIELD
    requires forall i :: 0 <= i < |defs| ==> DescribesDef(fields[i + 1], defs[i])
    ensures NamesApart(fields)
  {
    forall i, j | 0 <= i < j < |fields| ensures fields[i].name != fields[j].name {
      assert Named(defs, j - 1) && DescribesDef(fields[j - 1 + 1], defs[j - 1]);
      if i > 0 { assert DescribesDef(fields[i - 1 + 1], defs[i - 1]); }
    }
  }

  /** wadb_schema_find: the only field of a name. */
  method Find(s: Schema, name: string) returns (i: Option<nat>)
    requires NamesApart(s.fields)
    ensures i.None? <==> forall k :: 0 <= k < |s.fields| ==> s.fields[k].name != name
    ensures i.Some? ==>
              && i.value < |s.fields|
              && forall k :: 0 <= k < |s.fields| ==> (s.fields[k].name == name <==> k == i.value)
  {
    var k := 0;
    while k < |s.fields|
      invariant 0 <= k <= |s.fields| && forall j :: 0 <= j < k ==> s.fields[j].name != name
    {
      if s.fields[k].name == name { return Some(k); }
      k := k + 1;
    }
    i := None;
  }

  predicate DescribesDef(f: Field, d: FieldDef) {
    f.name == d.name && f.ty == d.ty && f.size == d.size && f.nullable == d.nullable
  }

  /** The part of a schema that is laid out so far. */
  ghost predicate Partial(fields: seq<Field>, defs: seq<FieldDef>, nullBytes: nat) {
    && 1 <= |fields| <= |defs| + 1
    && fields[0] == TIME_FIELD
    && (forall i :: 0 < i < |fields| ==> DescribesDef(fields[i], defs[i - 1]))
    && (forall i :: 0 < i < |fields| ==> PlacedAt(Schema(fields, 0, nullBytes, 0), i))
  }

  const TIME_FIELD := Field("_time", Timestamp, 0, false, 0, 8, U32_MAX)

  lemma {:induction false} NullablesOf(fields: seq<Field>, defs: seq<FieldDef>, n: nat)
    requires n <= |defs| && |fields| == n + 1 && !fields[0].nullable
    requires forall i :: 0 < i < |fields| ==> DescribesDef(fields[i], defs[i - 1])
    ensures Nullables(fields) == NullableDefs(defs[..n])
    decreases n
  {
    if n > 0 {
      NullablesOf(fields[..n], defs, n - 1);
      assert defs[..n][..n - 1] == defs[..n - 1];
    } else {
      assert fields[..0] == [];
    }
  }

  lemma {:induction false} WidthsGrow(defs: seq<FieldDef>, i: nat)
    requires i <= |defs|
    ensures Widths(defs[..i]) <= Widths(defs)
  {
    hide Width;
    if i < |defs| {
      var front := defs[..|defs| - 1];
      WidthsGrow(front, i);
      assert front[..i] == defs[..i];
    } else {
      assert defs[..i] == defs;
    }
  }

  /** The first loop of wadb_schema_build: check each definition and count the nullable ones. */
  method CheckDefs(defs: seq<FieldDef>) returns (ok: bool, nullable: nat)
    ensures ok <==> DefsOk(defs)
    ensures ok ==> nullable == NullableDefs(defs) <= |defs|
  {
    nullable := 0;
    if |defs| >= MAX_FIELDS { return false, 0; }
    var i := 0;
    while i < |defs|
      invariant 0 <= i <= |defs| && nullable == NullableDefs(defs[..i]) <= i
      invariant forall k :: 0 <= k < i ==> DefOk(defs[k]) && Named(defs, k)
    {
      ok := CheckName(defs, i);
      if !ok || !DefOk(defs[i]) { return false, 0; }
      assert defs[..i + 1][..i] == defs[..i];
      nullable := nullable + if defs[i].nullable then 1 else 0;
      i := i + 1;
    }
    assert defs[..i] == defs;
    ok := true;
  }

  /** wadb_schema_build: the layout, or the reason there is none. */
  method SchemaBuild(defs: seq<FieldDef>) returns (r: Build)
    ensures r.Invalid? <==> !DefsOk(defs)
    ensures r.TooWide? <==> DefsOk(defs) && 8 + (NullableDefs(defs) + 7) / 8 + Widths(defs) > MAX_ROW_BYTES
    ensures r.Done? ==> Built(r.schema) && |r.schema.fields| == |defs| + 1 && NamesApart(r.schema.fields)
    ensures r.Done? ==> forall i :: 0 <= i < |defs| ==> DescribesDef(r.schema.fields[i + 1], defs[i])
  {
    hide Width, Nullables, NullableDefs, PlacedAt, Built;
    var ok, nullable := CheckDefs(defs);
    if !ok { return Invalid; }
    var nullBytes := (nullable + 7) / 8;
    var offset, nullBit := 8 + nullBytes, 0;
    var fields, i := [TIME_FIELD], 0;
    assert Nullables(fields) == 0 by { NoNullables(); }
    while i < |defs|
      invariant 0 <= i <= |defs| && |fields| == i + 1 && Partial(fields, defs, nullBytes)
      invariant offset == 8 + nullBytes + Widths(defs[..i]) == End(Schema(fields, 0, nullBytes, 0)) <= MAX_ROW_BYTES
      invariant nullBit == Nullables(fields)
    {
      var d := defs[i];
      var width := Width(d.ty, d.size);
      assert defs[..i + 1][..i] == defs[..i];
      WidthsGrow(defs, i + 1);
      if width > MAX_ROW_BYTES - offset { return TooWide; }
      WidthPositive(d);
      var f := Field(d.name, d.ty, d.size, d.nullable, offset, width, if d.nullable then nullBit else U32_MAX);
      PartialNext(fields, defs, nullBytes, f);
      fields := fields + [f];
      nullBit := nullBit + if d.nullable then 1 else 0;
      offset, i := offset + width, i + 1;
    }
    assert defs[..i] == defs;
    PartialWhole(fields, defs, nullable, nullBytes, offset);
    BuiltApart(fields, defs);
    r := Done(Schema(fields, nullable, nullBytes, (offset + 7) / 8 * 8));
  }

  lemma {:induction false} PartialWhole(fields: seq<Field>, defs: seq<FieldDef>, nullable: nat, nullBytes: nat,
                                        offset: nat)
    requires Partial(fields, defs, nullBytes) && |fields| == |defs| + 1 <= MAX_FIELDS
    requires nullable == NullableDefs(defs) && nullBytes == (nullable + 7) / 8
    requires offset == End(Schema(fields, 0, nullBytes, 0)) <= MAX_ROW_BYTES
    ensures Built(Schema(fields, nullable, nullBytes, (offset + 7) / 8 * 8))
    ensures forall i :: 0 <= i < |defs| ==> DescribesDef(fields[i + 1], defs[i])
  {
    hide Width, Nullables, NullableDefs, DescribesDef;
    var s := Schema(fields, nullable, nullBytes, (offset + 7) / 8 * 8);
    assert defs[..|defs|] == defs;
    NullablesOf(fields, defs, |defs|);
    forall i | 0 < i < |fields| ensures PlacedAt(s, i) { assert PlacedAt(Schema(fields, 0, nullBytes, 0), i); }
  }

  lemma NoNullables()
    ensures Nullables([TIME_FIELD]) == 0
  {
    assert [TIME_FIELD][..0] == [];
  }

  lemma {:induction false} WidthPositive(d: FieldDef)
    requires DefOk(d)
    ensures Width(d.ty, d.size) > 0 && (d.ty == Text ==> Width(d.ty, d.size) == d.size + 4)
  {
  }

  lemma {:induction false} PartialNext(fields: seq<Field>, defs: seq<FieldDef>, nullBytes: nat, f: Field)
    requires Partial(fields, defs, nullBytes) && |fields| <= |defs| && DescribesDef(f, defs[|fields| - 1])
    requires f.size <= MAX_ROW_BYTES && f.width == Width(f.ty, f.size) > 0 && (f.ty == Text ==> f.width == f.size + 4)
    requires f.offset == End(Schema(fields, 0, nullBytes, 0)) && (f.nullable ==> f.nullBit == Nullables(fields))
    ensures Partial(fields + [f], defs, nullBytes)
    ensures Nullables(fields + [f]) == Nullables(fields) + if f.nullable then 1 else 0
  {
    hide Width;
    var more := fields + [f];
    assert more[..|fields|] == fields;
    forall i | 0 < i < |more| ensures PlacedAt(Schema(more, 0, nullBytes, 0), i) {
      if i < |fields| {
        assert PlacedAt(Schema(fields, 0, nullBytes, 0), i);
        assert more[..i] == fields[..i];
      }
    }
  }
}
