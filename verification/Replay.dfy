/** Exporting a dictionary's additions, applying them to another dictionary, and
    rebuilding a dictionary from a segment's frames (src/storage/dictionary.c,
    src/query/scan.c:25-46, src/storage/index.c:229-256). */
module Replay {
  import opened Bytes
  import opened Layout
  import opened Frames
  import opened Symbols
  import opened Definitions
  import opened Dictionaries

  // ---- export ----

  lemma {:induction false} RecordsLonger(defs: seq<Def>, mark: nat, k: nat)
    requires mark <= k <= |defs|
    ensures |Records(defs, mark)| >= |Records(defs, k)|
    decreases k - mark
  {
    hide Record, FieldCount;
    if mark < k {
      RecordsLonger(defs, mark + 1, k);
    }
  }

  /** The bytes of the records between two positions. */
  ghost function Between(defs: seq<Def>, mark: nat, k: nat): int
    requires mark <= k <= |defs|
  {
    |Records(defs, mark)| - |Records(defs, k)|
  }

  /** wadb_dictionary_export_limit. */
  method Export(d: Dictionary, mark: nat, limit: nat) returns (status: Status, bytes: seq<Byte>, count: nat)
    requires d.Valid()
    ensures status in {OK, INVALID, LIMIT} && (status == INVALID <==> mark > |d.View()|)
    ensures mark <= |d.View()| ==>
              (status == LIMIT <==> |Exported(d.View(), mark)| > limit || |Records(d.View(), mark)| > U32_MAX - 7)
    ensures status == OK ==> bytes == Exported(d.View(), mark) && count == |d.View()| - mark
  {
    hide Dictionary.Valid, FieldCount, Record;
    bytes, count := [], 0;
    if mark > |d.symbols| { return INVALID, [], 0; }
    var n, i := 0, mark;
    while i < |d.symbols|
      invariant mark <= i <= |d.symbols| && n == Between(d.View(), mark, i)
      invariant i == mark || (n <= limit && n <= U32_MAX - 7)
    {
      RecordsLonger(d.View(), mark, i + 1);
      RecordsLonger(d.View(), i + 1, |d.symbols|);
      n := n + 12 + |d.symbols[i].text|;
      if n > limit || n > U32_MAX - 7 { return LIMIT, [], 0; }
      i := i + 1;
    }
    n := n + Padding(n);
    if n > limit { return LIMIT, [], 0; }
    if n == 0 { return OK, [], 0; }
    bytes := Fill(d, mark, n);
    return OK, bytes, |d.symbols| - mark;
  }

  /** One record: three stores and a copy into zeroed bytes. */
  method WriteRecord(buf: array<Byte>, offset: nat, d: Def, id: nat)
    requires offset + 12 + |d.text| <= buf.Length
    modifies buf
    ensures buf[offset..offset + 12 + |d.text|] == Record(d, id)
    ensures forall i :: 0 <= i < buf.Length && !(offset <= i < offset + 12 + |d.text|) ==> buf[i] == old(buf[i])
  {
    hide Pack;
    RecordOffsets();
    PackInto(buf, offset, RECORD_WIDTHS, [d.field, 0, id, |d.text|]);
    ghost var head := buf[offset..offset + 12];
    CopyAt(buf, offset + 12, d.text);
    assert buf[offset..offset + 12] == head;
    assert buf[offset..offset + 12 + |d.text|] == buf[offset..offset + 12] + buf[offset + 12..offset + 12 + |d.text|];
  }

  lemma SymbolId(d: Dictionary, i: nat)
    requires d.Valid() && i < |d.symbols|
    ensures d.symbols[i].id == IdAt(d.View(), i)
  {
    hide FieldCount, Positions, Probing.Filled, Accounted;
  }

  /** The buffer holds the first bytes of all; the rest is still zero. */
  ghost predicate Filling(all: seq<Byte>, buf: seq<Byte>, offset: nat) {
    offset <= |all| == |buf| && buf[..offset] == all[..offset] && AllZero(buf[offset..])
  }

  lemma Written(all: seq<Byte>, was: seq<Byte>, now: seq<Byte>, offset: nat, record: seq<Byte>, rest: seq<Byte>)
    requires Filling(all, was, offset) && |now| == |was| && offset + |record| <= |all| && all[offset..] == record + rest
    requires now[offset..offset + |record|] == record
    requires forall i :: 0 <= i < |now| && !(offset <= i < offset + |record|) ==> now[i] == was[i]
    ensures Filling(all, now, offset + |record|) && all[offset + |record|..] == rest
  {
    var o := offset + |record|;
    assert all[o..] == all[offset..][|record|..];
    assert all[offset..o] == all[offset..][..|record|];
    assert all[..o] == all[..offset] + all[offset..o];
    assert now[..offset] == was[..offset];
    assert now[..o] == now[..offset] + now[offset..o];
    forall i | o <= i < |now| ensures now[i] == 0 { assert was[offset..][i - offset] == 0; }
  }

  lemma Finished(all: seq<Byte>, buf: seq<Byte>, offset: nat)
    requires Filling(all, buf, offset) && AllZero(all[offset..])
    ensures buf == all
  {
    assert buf == buf[..offset] + buf[offset..] && all == all[..offset] + all[offset..];
    assert buf[offset..] == all[offset..];
  }

  lemma NextRecord(defs: seq<Def>, i: nat, pad: seq<Byte>)
    requires i < |defs|
    ensures Records(defs, i) + pad == Record(defs[i], IdAt(defs, i)) + (Records(defs, i + 1) + pad)
  {
    hide Record, IdAt;
  }

  /** The second loop: the records written one after the other into a zeroed buffer. */
  method Fill(d: Dictionary, mark: nat, n: nat) returns (bytes: seq<Byte>)
    requires d.Valid() && mark <= |d.View()| && n == |Exported(d.View(), mark)|
    ensures bytes == Exported(d.View(), mark)
  {
    hide Dictionary.Valid, FieldCount, Record, IdAt, Filling, Records;
    var buf := new Byte[n](i => 0);
    var offset, i := 0, mark;
    ghost var all, pad := Exported(d.View(), mark), Zeros(Padding(|Records(d.View(), mark)|));
    Start(all, buf[..]);
    while i < |d.symbols|
      invariant mark <= i <= |d.symbols| && 0 <= offset <= n && Filling(all, buf[..], offset)
      invariant all[offset..] == Records(d.View(), i) + pad
    {
      var s := d.symbols[i];
      SymbolId(d, i);
      NextRecord(d.View(), i, pad);
      ghost var was := buf[..];
      assert |all[offset..]| == n - offset;
      WriteRecord(buf, offset, Def(s.field, s.text), s.id);
      Written(all, was, buf[..], offset, Record(d.View()[i], s.id), Records(d.View(), i + 1) + pad);
      offset, i := offset + 12 + |s.text|, i + 1;
    }
    bytes := buf[..];
    NoRecords(d.View(), pad);
    Finished(all, bytes, offset);
  }

  lemma Start(all: seq<Byte>, buf: seq<Byte>)
    requires |buf| == |all| && AllZero(buf)
    ensures Filling(all, buf, 0)
  {
  }

  lemma NoRecords(defs: seq<Def>, pad: seq<Byte>)
    requires AllZero(pad)
    ensures AllZero(Records(defs, |defs|) + pad)
  {
  }

  // ---- apply ----

  ghost predicate NoFailures(fails: nat -> nat) { forall i :: fails(i) == 0 }

  /** What a dictionary with this budget can hold when it is built from nothing. */
  ghost predicate Holds(fields: nat, limit: nat, defs: seq<Def>) {
    FreshBytes(fields, defs) <= limit && |defs| <= U32_MAX
  }

  lemma HoldsPrefix(fields: nat, limit: nat, defs: seq<Def>, all: seq<Def>)
    requires |defs| <= |all| && all[..|defs|] == defs && Holds(fields, limit, all)
    ensures Holds(fields, limit, defs)
  {
    hide FreshBytes;
    FreshPrefix(fields, all, |defs|);
  }

  lemma TightHolds(d: Dictionary)
    requires d.Valid() && d.Tight()
    ensures Holds(|d.symbolic|, d.limit, d.View())
  {
    hide FreshBytes, Accounted, SymbolsOk, ColumnsOk;
    d.TightBytes();
  }

  /** Reading on from a record that passes only adds definitions. */
  lemma ParseGrows(symbolic: seq<bool>, defs: seq<Def>, s: seq<Byte>, count: nat)
    requires count > 0 && Parse(symbolic, defs, s, count).Some?
    ensures RecordOk(symbolic, defs, s)
    ensures var all, next := Parse(symbolic, defs, s, count).value, defs + [RecordDef(s)];
            |next| <= |all| && all[..|next|] == next
  {
    hide FieldCount, Internable, Get;
    WrittenParse(symbolic, defs + [RecordDef(s)], s[12 + At(s, 8, 4)..], count - 1);
  }

  lemma NewId(d: Dictionary, was: seq<Def>, new': Def, id: nat)
    requires d.Valid() && d.View() == was + [new'] && Means(d.View(), new'.field, id, new'.text)
    ensures id == FieldCount(was, new'.field) + 1
  {
    hide FieldCount, Positions, Probing.Filled, Accounted, Means;
    AddedMeans(was, new'.field, new'.text);
    MeansUnique(d.View(), new'.field, id, new'.text, FieldCount(was, new'.field) + 1, new'.text);
  }

  /** One turn of the loop of wadb_dictionary_apply. */
  method ApplyRecord(d: Dictionary, s: seq<Byte>, oom: nat) returns (status: Status)
    requires d.Valid()
    modifies d, d.slots
    ensures d.Valid() && (d.slots == old(d.slots) || fresh(d.slots))
    ensures status in {OK, CORRUPT, LIMIT, NOMEM} && (status == NOMEM ==> oom != 0)
    ensures status == CORRUPT <==> !RecordOk(d.symbolic, old(d.View()), s)
    ensures d.View() == if status == OK then old(d.View()) + [RecordDef(s)] else old(d.View())
    ensures old(d.Tight()) && oom == 0 ==> d.Tight()
    ensures old(d.Tight()) && oom == 0 && RecordOk(d.symbolic, old(d.View()), s) ==>
              (status == OK <==> Holds(|d.symbolic|, d.limit, old(d.View()) + [RecordDef(s)]))
  {
    hide FieldCount, Dictionary.Valid, Get, Utf8.Utf8Octets, FreshBytes, Means, Dictionary.Tight;
    if |s| < 12 { return CORRUPT; }
    var field, id, length := At(s, 0, 2), At(s, 4, 4), At(s, 8, 4);
    if field == 0 || field >= |d.symbolic| || !d.symbolic[field] { return CORRUPT; }
    d.Sizes(field);
    if id != |d.columns[field].indices| + 1 || At(s, 2, 2) != 0 || length > |s| - 12 { return CORRUPT; }
    ghost var was := d.View();
    var before := |d.symbols|;
    CountBelow(was, field);
    var got;
    status, got := d.Intern(field, s[12..12 + length], oom);
    if d.Tight() && oom == 0 { TightHolds(d); }
    if status == INVALID { return CORRUPT; }
    if status != OK { return; }
    if |d.symbols| == before + 1 { NewId(d, was, RecordDef(s), got); }
    if got != id || |d.symbols| != before + 1 { return CORRUPT; }
  }

  /** The loop: records are added until one is refused. */
  method ApplyRecords(d: Dictionary, s: seq<Byte>, count: nat, fails: nat -> nat) returns (status: Status, offset: nat)
    requires d.Valid()
    modifies d, d.slots
    ensures d.Valid() && (d.slots == old(d.slots) || fresh(d.slots))
    ensures old(d.View()) <= d.View() && status in {OK, CORRUPT, LIMIT, NOMEM}
    ensures status == OK ==>
              offset <= |s| && Parse(d.symbolic, old(d.View()), s, count) == Parse(d.symbolic, d.View(), s[offset..], 0)
    ensures status == CORRUPT ==> Parse(d.symbolic, old(d.View()), s, count).None?
    ensures status == NOMEM ==> !NoFailures(fails)
    ensures old(d.Tight()) && NoFailures(fails) ==> d.Tight()
    ensures old(d.Tight()) && NoFailures(fails) && Parse(d.symbolic, old(d.View()), s, count).Some? ==>
              (status == OK <==> Holds(|d.symbolic|, d.limit, Parse(d.symbolic, old(d.View()), s, count).value))
  {
    hide FieldCount, Dictionary.Valid, Dictionary.Tight, Get, Internable, Holds;
    ghost var was, parsed := d.View(), Parse(d.symbolic, d.View(), s, count);
    var i := 0;
    offset, status := 0, OK;
    assert s[0..] == s;
    while i < count
      invariant 0 <= i <= count && offset <= |s| && status == OK && d.Valid()
                && (d.slots == old(d.slots) || fresh(d.slots))
      invariant was <= d.View() && parsed == Parse(d.symbolic, d.View(), s[offset..], count - i)
      invariant old(d.Tight()) && NoFailures(fails) ==> d.Tight()
    {
      ghost var now, rest := d.View(), s[offset..];
      if parsed.Some? { ParseGrows(d.symbolic, now, rest, count - i); }
      status := ApplyRecord(d, s[offset..], fails(i));
      if status != OK {
        if parsed.Some? && Holds(|d.symbolic|, d.limit, parsed.value) {
          HoldsPrefix(|d.symbolic|, d.limit, now + [RecordDef(rest)], parsed.value);
        }
        return;
      }
      var length := At(s[offset..], 8, 4);
      assert s[offset..][12 + length..] == s[offset + 12 + length..];
      offset, i := offset + 12 + length, i + 1;
    }
    if d.Tight() { TightHolds(d); }
  }

  /** wadb_dictionary_apply: all of a frame's definitions or none. */
  method Apply(d: Dictionary, s: seq<Byte>, count: nat, fails: nat -> nat) returns (status: Status)
    requires d.Valid()
    modifies d, d.slots
    ensures d.Valid() && (d.slots == old(d.slots) || fresh(d.slots)) && status in {OK, CORRUPT, LIMIT, NOMEM}
    ensures status == OK ==> |s| % 8 == 0 && Parse(d.symbolic, old(d.View()), s, count) == Some(d.View())
    ensures status != OK ==> d.View() == old(d.View())
    ensures status == CORRUPT ==> |s| % 8 != 0 || Parse(d.symbolic, old(d.View()), s, count).None?
    ensures status == NOMEM ==> !NoFailures(fails)
    ensures old(d.Tight()) && NoFailures(fails) && status == OK ==> d.Tight()
    ensures old(d.Tight()) && NoFailures(fails) && |s| % 8 == 0 && Parse(d.symbolic, old(d.View()), s, count).Some? ==>
              (status == OK <==> Holds(|d.symbolic|, d.limit, Parse(d.symbolic, old(d.View()), s, count).value))
  {
    hide FieldCount, Dictionary.Valid, Dictionary.Tight, Get, Internable, RecordOk, Holds;
    var mark, offset := |d.symbols|, 0;
    status, offset := ApplyRecords(d, s, count, fails);
    if status == OK && (|s| % 8 != 0 || |s| - offset >= 8) { status := CORRUPT; }
    if status == OK {
      while offset < |s|
        invariant offset <= |s| && Parse(d.symbolic, old(d.View()), s, count) ==
                    Parse(d.symbolic, d.View(), s[offset..], 0)
      {
        if s[offset] != 0 {
          status := CORRUPT;
          break;
        }
        assert s[offset..] == [0] + s[offset + 1..];
        offset := offset + 1;
      }
    }
    if status != OK { d.Rollback(mark); }
  }

  // ---- rebuilding from frames ----

  /** The definitions that a run of frames makes, read one frame after the other. */
  function Replayed(symbolic: seq<bool>, frames: seq<Frame>): Option<seq<Def>> {
    if frames == [] then Some([]) else
      var defs, f := Replayed(symbolic, frames[..|frames| - 1]), frames[|frames| - 1];
      if defs.None? || |f.definitions| % 8 != 0 then None
      else Parse(symbolic, defs.value, f.definitions, f.definitionCount)
  }

  /** Earlier frames make a prefix of the definitions. */
  lemma {:induction false} ReplayedPrefix(symbolic: seq<bool>, frames: seq<Frame>, k: nat)
    requires Replayed(symbolic, frames).Some? && k <= |frames|
    ensures Replayed(symbolic, frames[..k]).Some?
    ensures Replayed(symbolic, frames[..k]).value <= Replayed(symbolic, frames).value
  {
    hide Parse;
    if k < |frames| {
      var front, f := frames[..|frames| - 1], frames[|frames| - 1];
      ReplayedPrefix(symbolic, front, k);
      assert front[..k] == frames[..k];
      WrittenParse(symbolic, Replayed(symbolic, front).value, f.definitions, f.definitionCount);
    } else {
      assert frames[..k] == frames;
    }
  }

  /** Rebuilding a dictionary: a new one, to which the frames are applied in order. */
  method Rebuild(symbolic: seq<bool>, hash: (nat, seq<Byte>) -> nat, limit: nat, frames: seq<Frame>,
                 fails: (nat, nat) -> nat)
    returns (status: Status, d: Dictionary?)
    requires |symbolic| <= MAX_FIELDS && forall i :: 0 <= i < |frames| && frames[i].definitionCount == 0 ==>
               frames[i].definitions == []
    ensures d == null || fresh(d)
    ensures status == OK ==> d != null && fresh(d.slots) && d.Valid() && d.symbolic == symbolic && d.limit == limit
    ensures status == OK ==> Replayed(symbolic, frames) == Some(d.View())
    ensures status == CORRUPT ==> Replayed(symbolic, frames).None?
    ensures (forall i, j :: fails(i, j) == 0) && Replayed(symbolic, frames).Some? ==>
              (status == OK <==> Holds(|symbolic|, limit, Replayed(symbolic, frames).value))
  {
    hide Parse, Dictionary.Valid, Dictionary.Tight, Holds;
    d := null;
    ghost var all, quiet := Replayed(symbolic, frames), forall i, j :: fails(i, j) == 0;
    assert frames[..|frames|] == frames;
    if DICTIONARY_BYTES + |symbolic| * COLUMN_BYTES > limit {
      if all.Some? { BaseTooLarge(|symbolic|, limit, all.value); }
      return LIMIT, null;
    }
    var r := new Dictionary(symbolic, hash, limit);
    var i := 0;
    while i < |frames|
      invariant 0 <= i <= |frames| && fresh(r) && fresh(r.slots) && r.Valid() && r.symbolic == symbolic
                && r.limit == limit
      invariant Replayed(symbolic, frames[..i]) == Some(r.View())
      invariant quiet ==> r.Tight()
    {
      var f := frames[i];
      assert frames[..i + 1][..i] == frames[..i];
      ghost var was := r.View();
      if all.Some? { ReplayedPrefix(symbolic, frames, i + 1); }
      status := OK;
      if f.definitionCount != 0 {
        status := Apply(r, f.definitions, f.definitionCount, j => fails(i, j));
      } else {
        NothingDefined(symbolic, was);
      }
      if status != OK {
        if all.Some? && Holds(|symbolic|, limit, all.value) {
          HoldsPrefix(|symbolic|, limit, Replayed(symbolic, frames[..i + 1]).value, all.value);
        }
        return status, null;
      }
      i := i + 1;
    }
    if quiet { TightHolds(r); }
    return OK, r;
  }

  lemma NothingDefined(symbolic: seq<bool>, defs: seq<Def>)
    ensures Parse(symbolic, defs, [], 0) == Some(defs)
  {
  }

  lemma BaseTooLarge(fields: nat, limit: nat, defs: seq<Def>)
    requires DICTIONARY_BYTES + fields * COLUMN_BYTES > limit
    ensures !Holds(fields, limit, defs)
  {
    hide Sum, TextBytes, Grown;
  }

  /** The frames of a dictionary that was ever within its budget replay within that budget, and so does every
      earlier run of them: whatever rollbacks the writer's dictionary went through. */
  lemma ReplayFits(w: Dictionary, frames: seq<Frame>, k: nat)
    requires w.Valid() && Replayed(w.symbolic, frames) == Some(w.View()) && k <= |frames|
    ensures Replayed(w.symbolic, frames[..k]).Some?
            && Holds(|w.symbolic|, w.limit, Replayed(w.symbolic, frames[..k]).value)
  {
    hide Replayed, FreshBytes, Accounted, SymbolsOk, ColumnsOk;
    w.Replayable();
    ReplayedPrefix(w.symbolic, frames, k);
    HoldsPrefix(|w.symbolic|, w.limit, Replayed(w.symbolic, frames[..k]).value, w.View());
  }

  /** A further frame with the additions since a mark replays to the definitions since then. */
  lemma ExportReplays(symbolic: seq<bool>, frames: seq<Frame>, f: Frame, defs: seq<Def>, all: seq<Def>)
    requires |symbolic| <= MAX_FIELDS && |all| <= U32_MAX
    requires Replayed(symbolic, frames) == Some(defs) && Extends(symbolic, defs, all)
    requires f.definitions == Exported(all, |defs|) && f.definitionCount == |all| - |defs|
    ensures Replayed(symbolic, frames + [f]) == Some(all)
  {
    hide Parse, Exported, Extends;
    assert (frames + [f])[..|frames|] == frames;
    ParseIff(symbolic, defs, f.definitions, f.definitionCount, all);
  }

  lemma {:induction false} ReplayedExtends(symbolic: seq<bool>, frames: seq<Frame>)
    requires Replayed(symbolic, frames).Some?
    ensures Extends(symbolic, [], Replayed(symbolic, frames).value)
  {
    hide Parse, Internable;
    if frames != [] {
      var front, f := frames[..|frames| - 1], frames[|frames| - 1];
      ReplayedExtends(symbolic, front);
      var defs := Replayed(symbolic, front).value;
      WrittenParse(symbolic, defs, f.definitions, f.definitionCount);
      var all := Replayed(symbolic, frames).value;
      forall i | 0 <= i < |defs| ensures Internable(symbolic, all[i]) && all[i] !in all[..i] {
        assert all[..|defs|][..i] == all[..i] && defs[i] == all[i];
      }
    }
  }

  /** The checkpoint in a sealed segment's index, which holds all definitions as one block, reads as the frames do. */
  lemma CheckpointReplays(symbolic: seq<bool>, frames: seq<Frame>)
    requires |symbolic| <= MAX_FIELDS && Replayed(symbolic, frames).Some?
             && |Replayed(symbolic, frames).value| <= U32_MAX
    ensures var all := Replayed(symbolic, frames).value;
            Parse(symbolic, [], Exported(all, 0), |all|) == Replayed(symbolic, frames)
  {
    hide Parse, Exported, Replayed, Extends;
    var all := Replayed(symbolic, frames).value;
    ReplayedExtends(symbolic, frames);
    ExportedLength(all);
    ParseIff(symbolic, [], Exported(all, 0), |all|, all);
  }

  lemma ExportedLength(defs: seq<Def>)
    ensures |Exported(defs, 0)| % 8 == 0
  {
    hide Records;
  }
}
