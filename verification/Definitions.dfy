/** The serialized dictionary additions of a frame (src/storage/dictionary.c,
    wadb_dictionary_export_limit and wadb_dictionary_apply): what is written for the
    definitions after a mark, and what reading such bytes after known definitions
    yields. */
module Definitions {
  import opened Bytes
  import opened Layout
  import opened Frames
  import opened Utf8
  import opened Symbols

  /** What may be interned: a symbol field of the schema and a text that is not too long. */
  predicate Internable(symbolic: seq<bool>, d: Def) {
    && 0 < d.field < |symbolic| && symbolic[d.field]
    && |d.text| <= MAX_STRING_BYTES && Utf8Octets(d.text)
  }

  // ---- writing ----

  const RECORD_WIDTHS: seq<nat> := [2, 2, 4, 4]

  lemma RecordOffsets()
    ensures |RECORD_WIDTHS| == 4
    ensures Offset(RECORD_WIDTHS, 0) == 0 && Offset(RECORD_WIDTHS, 1) == 2 && Offset(RECORD_WIDTHS, 2) == 4
    ensures Offset(RECORD_WIDTHS, 3) == 8 && Offset(RECORD_WIDTHS, 4) == 12
  {
  }

  function RecordHead(d: Def, id: nat): (r: seq<Byte>)
    ensures |r| == 12
  {
    RecordOffsets();
    PackLength(RECORD_WIDTHS, [d.field, 0, id, |d.text|]);
    Pack(RECORD_WIDTHS, [d.field, 0, id, |d.text|])
  }

  function Record(d: Def, id: nat): (r: seq<Byte>)
    ensures |r| == 12 + |d.text|
  {
    RecordHead(d, id) + d.text
  }

  /** The records of the definitions from a mark on. */
  function Records(defs: seq<Def>, mark: nat): seq<Byte>
    requires mark <= |defs|
    decreases |defs| - mark
  {
    if mark == |defs| then [] else Record(defs[mark], IdAt(defs, mark)) + Records(defs, mark + 1)
  }

  function Padding(n: nat): nat { (8 - n % 8) % 8 }

  /** What a frame carries for these definitions. */
  function Exported(defs: seq<Def>, mark: nat): (r: seq<Byte>)
    requires mark <= |defs|
    ensures |r| % 8 == 0
  {
    Records(defs, mark) + Zeros(Padding(|Records(defs, mark)|))
  }

  // ---- reading ----

  /** The checks on one record: a symbol field, the next identifier of that field, and a text not yet defined. */
  predicate RecordOk(symbolic: seq<bool>, defs: seq<Def>, s: seq<Byte>) {
    && |s| >= 12
    && At(s, 8, 4) <= |s| - 12
    && Internable(symbolic, RecordDef(s))
    && At(s, 4, 4) == FieldCount(defs, At(s, 0, 2)) + 1
    && At(s, 2, 2) == 0
    && RecordDef(s) !in defs
  }

  function RecordDef(s: seq<Byte>): Def
    requires |s| >= 12 && At(s, 8, 4) <= |s| - 12
  {
    Def(At(s, 0, 2), s[12..12 + At(s, 8, 4)])
  }

  /** The definitions after reading count records and the padding, or None. */
  function Parse(symbolic: seq<bool>, defs: seq<Def>, s: seq<Byte>, count: nat): Option<seq<Def>>
    decreases count
  {
    if count == 0 then (if |s| < 8 && AllZero(s) then Some(defs) else None)
    else if !RecordOk(symbolic, defs, s) then None
    else Parse(symbolic, defs + [RecordDef(s)], s[12 + At(s, 8, 4)..], count - 1)
  }

  /** all adds admissible definitions to defs, each new. */
  predicate Extends(symbolic: seq<bool>, defs: seq<Def>, all: seq<Def>) {
    && |defs| <= |all| && all[..|defs|] == defs
    && forall i :: |defs| <= i < |all| ==> Internable(symbolic, all[i]) && all[i] !in all[..i]
  }

  // ---- one record ----

  lemma HeadIff(s: seq<Byte>, d: Def, id: nat)
    requires |s| >= 12 && d.field < 0x1_0000 && id <= U32_MAX && |d.text| <= MAX_STRING_BYTES
    ensures s[..12] == RecordHead(d, id) <==>
            At(s, 0, 2) == d.field && At(s, 2, 2) == 0 && At(s, 4, 4) == id && At(s, 8, 4) == |d.text|
  {
    hide Get, Pack;
    RecordOffsets();
    Spans();
    var vs: seq<nat> := [d.field, 0, id, |d.text|];
    PackIffReads(RECORD_WIDTHS, vs, s[..12]);
    forall i | 0 <= i < 4
      ensures ReadsField(RECORD_WIDTHS, vs, s[..12], i) <==> At(s, Offset(RECORD_WIDTHS, i), RECORD_WIDTHS[i]) == vs[i]
    {
      FieldInPrefix(RECORD_WIDTHS, vs, s, i);
    }
    assert ReadsField(RECORD_WIDTHS, vs, s[..12], 0) <==> At(s, 0, 2) == d.field;
    assert ReadsField(RECORD_WIDTHS, vs, s[..12], 1) <==> At(s, 2, 2) == 0;
    assert ReadsField(RECORD_WIDTHS, vs, s[..12], 2) <==> At(s, 4, 4) == id;
    assert ReadsField(RECORD_WIDTHS, vs, s[..12], 3) <==> At(s, 8, 4) == |d.text|;
  }

  /** A record that passes is the record of what it defines. */
  lemma RecordRead(symbolic: seq<bool>, defs: seq<Def>, s: seq<Byte>)
    requires RecordOk(symbolic, defs, s)
    ensures var d := RecordDef(s);
            var n := 12 + |d.text|;
            && n == 12 + At(s, 8, 4) <= |s| && s == Record(d, FieldCount(defs, d.field) + 1) + s[n..]
  {
    hide Get, RecordHead, FieldCount, Utf8Octets;
    var d := RecordDef(s);
    Spans();
    assert At(s, 0, 2) < Span(2) && At(s, 4, 4) < Span(4);
    HeadIff(s, d, FieldCount(defs, d.field) + 1);
    assert s == s[..12] + s[12..12 + |d.text|] + s[12 + |d.text|..];
  }

  /** A written record passes. */
  lemma RecordWritten(symbolic: seq<bool>, defs: seq<Def>, d: Def, tail: seq<Byte>)
    requires |symbolic| <= MAX_FIELDS && Internable(symbolic, d) && d !in defs && FieldCount(defs, d.field) < U32_MAX
    ensures var s := Record(d, FieldCount(defs, d.field) + 1) + tail;
            RecordOk(symbolic, defs, s) && RecordDef(s) == d && At(s, 8, 4) == |d.text| && s[12 + |d.text|..] == tail
  {
    hide Get, RecordHead, FieldCount, Utf8Octets;
    var id := FieldCount(defs, d.field) + 1;
    var s := Record(d, id) + tail;
    assert s[..12] == RecordHead(d, id);
    HeadIff(s, d, id);
    assert s[12..12 + |d.text|] == d.text;
  }

  // ---- the list ----

  lemma {:induction false} CountBelow(defs: seq<Def>, field: nat)
    ensures FieldCount(defs, field) <= |defs|
  {
    if defs != [] {
      CountBelow(defs[..|defs| - 1], field);
    }
  }

  /** Written additions read back, after the same earlier definitions. */
  lemma {:induction false} ParseWritten(symbolic: seq<bool>, defs: seq<Def>, all: seq<Def>, pad: seq<Byte>)
    requires |symbolic| <= MAX_FIELDS && Extends(symbolic, defs, all) && |all| <= U32_MAX && |pad| < 8 && AllZero(pad)
    ensures Parse(symbolic, defs, Records(all, |defs|) + pad, |all| - |defs|) == Some(all)
    decreases |all| - |defs|
  {
    hide Record, FieldCount, Internable, RecordOk, RecordDef;
    var k := |defs|;
    if k == |all| {
      assert all == defs && Records(all, k) + pad == pad;
    } else {
      var d, rest := all[k], Records(all, k + 1) + pad;
      var next := defs + [d];
      assert all[..k + 1] == next;
      CountBelow(defs, d.field);
      RecordWritten(symbolic, defs, d, rest);
      assert Records(all, k) + pad == Record(d, IdAt(all, k)) + rest;
      ParseWritten(symbolic, next, all, pad);
    }
  }

  /** Whatever is accepted is the written form of what it yields. */
  lemma {:induction false} WrittenParse(symbolic: seq<bool>, defs: seq<Def>, s: seq<Byte>, count: nat)
    requires Parse(symbolic, defs, s, count).Some?
    ensures var all := Parse(symbolic, defs, s, count).value;
            && Extends(symbolic, defs, all) && |all| == |defs| + count
            && Records(all, |defs|) <= s && |s| - |Records(all, |defs|)| < 8 && AllZero(s[|Records(all, |defs|)|..])
    decreases count
  {
    hide Record, FieldCount, Internable, RecordDef;
    var k := |defs|;
    var all := Parse(symbolic, defs, s, count).value;
    if count > 0 {
      RecordRead(symbolic, defs, s);
      var d := RecordDef(s);
      var n := 12 + |d.text|;
      WrittenParse(symbolic, defs + [d], s[n..], count - 1);
      ExtendsFrom(symbolic, defs, d, all);
      assert Internable(symbolic, d);
      var r := Records(all, k + 1);
      assert Records(all, k) == Record(d, FieldCount(defs, d.field) + 1) + r;
      Consumed(s, Record(d, FieldCount(defs, d.field) + 1), r);
    }
  }

  lemma ExtendsFrom(symbolic: seq<bool>, defs: seq<Def>, d: Def, all: seq<Def>)
    requires Extends(symbolic, defs + [d], all) && Internable(symbolic, d) && d !in defs
    ensures Extends(symbolic, defs, all) && |all| > |defs| && all[|defs|] == d && all[..|defs|] == defs
  {
    hide Internable;
    var k := |defs|;
    assert all[..k + 1] == defs + [d];
    assert all[..k] == all[..k + 1][..k];
    assert all[k] == all[..k + 1][k];
  }

  lemma Consumed(s: seq<Byte>, head: seq<Byte>, r: seq<Byte>)
    requires |head| <= |s| && s == head + s[|head|..] && r <= s[|head|..]
    ensures head + r <= s && s[|head + r|..] == s[|head|..][|r|..]
  {
    hide *;
  }

  /** Bytes yield a list of definitions exactly when they are the list's additions, as exported. */
  lemma ParseIff(symbolic: seq<bool>, defs: seq<Def>, s: seq<Byte>, count: nat, all: seq<Def>)
    requires |symbolic| <= MAX_FIELDS && |s| % 8 == 0 && |defs| + count <= U32_MAX
    ensures Parse(symbolic, defs, s, count) == Some(all) <==>
            Extends(symbolic, defs, all) && |all| == |defs| + count && s == Exported(all, |defs|)
  {
    hide Parse, Extends, Records;
    if Parse(symbolic, defs, s, count) == Some(all) {
      WrittenParse(symbolic, defs, s, count);
      PadUnique(s, Records(all, |defs|));
    }
    if Extends(symbolic, defs, all) && |all| == |defs| + count && s == Exported(all, |defs|) {
      ParseWritten(symbolic, defs, all, Zeros(Padding(|Records(all, |defs|)|)));
    }
  }

  lemma PadUnique(s: seq<Byte>, r: seq<Byte>)
    requires r <= s && |s| - |r| < 8 && AllZero(s[|r|..]) && |s| % 8 == 0
    ensures s == r + Zeros(Padding(|r|))
  {
    assert |s| - |r| == Padding(|r|);
    assert s == r + s[|r|..];
    assert s[|r|..] == Zeros(Padding(|r|));
  }

  /** Definitions that a schema admits pass the schema-independent checks of a frame. */
  lemma {:induction false} ParseValid(symbolic: seq<bool>, defs: seq<Def>, s: seq<Byte>, count: nat)
    requires |symbolic| <= MAX_FIELDS && Parse(symbolic, defs, s, count).Some?
    ensures DefinitionsValid(s, count)
    decreases count
  {
    hide Get, FieldCount, Utf8Octets;
    if count > 0 {
      ParseValid(symbolic, defs + [RecordDef(s)], s[12 + At(s, 8, 4)..], count - 1);
    }
  }
}
