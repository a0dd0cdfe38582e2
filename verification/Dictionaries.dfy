/** The interning dictionary of src/storage/dictionary.c, with its hash table, its
    rollback and its byte budget. It stands for a list of definitions. */
module Dictionaries {
  import opened Bytes
  import opened Frames
  import opened Utf8
  import opened Probing
  import opened Symbols
  import opened Definitions

  datatype Status = OK | INVALID | NOMEM | CORRUPT | LIMIT

  datatype Symbol = Symbol(field: nat, id: nat, hash: nat, text: seq<Byte>)

  datatype Column = Column(indices: seq<nat>, capacity: nat)

  function DefOf(s: Symbol): Def { Def(s.field, s.text) }

  function Defs(symbols: seq<Symbol>): (r: seq<Def>)
    ensures |r| == |symbols| && forall i :: 0 <= i < |r| ==> r[i] == DefOf(symbols[i])
  {
    seq(|symbols|, i requires 0 <= i < |symbols| => DefOf(symbols[i]))
  }

  function Hashes(symbols: seq<Symbol>): (r: seq<nat>)
    ensures |r| == |symbols| && forall i :: 0 <= i < |r| ==> r[i] == symbols[i].hash
  {
    seq(|symbols|, i requires 0 <= i < |symbols| => symbols[i].hash)
  }

  function Capacities(columns: seq<Column>): (r: seq<nat>)
    ensures |r| == |columns| && forall i :: 0 <= i < |r| ==> r[i] == columns[i].capacity
  {
    seq(|columns|, i requires 0 <= i < |columns| => columns[i].capacity)
  }

  /** A capacity is zero or got by doubling from its first size. */
  predicate Capacity(first: nat, c: nat)
    requires first > 0
  {
    c == 0 || Doubling(first, c)
  }

  /** Every symbol carries its rank and its hash; definitions are admissible and distinct. */
  ghost predicate SymbolsOk(symbolic: seq<bool>, hash: (nat, seq<Byte>) -> nat, symbols: seq<Symbol>) {
    && (forall i :: 0 <= i < |symbols| ==>
          symbols[i].id == IdAt(Defs(symbols), i) && symbols[i].hash == hash(symbols[i].field, symbols[i].text))
    && (forall i :: 0 <= i < |symbols| ==> Internable(symbolic, Defs(symbols)[i]))
    && Symbols.Distinct(Defs(symbols))
  }

  /** Each column lists the positions of its field's definitions, in order. */
  ghost predicate ColumnsOk(fields: nat, defs: seq<Def>, columns: seq<Column>) {
    && |columns| == fields
    && forall f :: 0 <= f < |columns| ==>
         columns[f].indices == Positions(defs, f) && |columns[f].indices| <= columns[f].capacity
         && Capacity(8, columns[f].capacity)
  }

  class Dictionary {
    const symbolic: seq<bool>
    const hash: (nat, seq<Byte>) -> nat
    const limit: nat
    var symbols: seq<Symbol>
    var capacity: nat
    var slots: array<nat>
    var columns: seq<Column>
    var charged: nat

    /** The definitions the dictionary stands for. */
    function View(): seq<Def>
      reads this
    {
      Defs(symbols)
    }

    /** Load at most one half, and every symbol can be found. */
    ghost predicate SlotsOk()
      reads this, slots
    {
      && Capacity(32, slots.Length)
      && 2 * |symbols| <= slots.Length
      && (slots.Length > 0 ==> Filled(slots[..], Hashes(symbols)))
    }

    /** The accounted bytes are the sum of what was charged, within the limit. */
    ghost predicate BytesOk()
      reads this, slots
    {
      && |symbols| <= capacity && Capacity(16, capacity) && |symbols| <= U32_MAX && |symbolic| <= MAX_FIELDS
      && charged == Accounted(|symbolic|, capacity, slots.Length, Capacities(columns), View())
      && charged <= limit
    }

    ghost predicate Valid()
      reads this, slots
    {
      SymbolsOk(symbolic, hash, symbols) && ColumnsOk(|symbolic|, View(), columns) && SlotsOk() && BytesOk()
    }

    /** No capacity is larger than its present content needs: true unless something was rolled back. */
    ghost predicate Tight()
      reads this, slots
    {
      && capacity == Grown(16, |symbols|)
      && slots.Length == Grown(32, 2 * |symbols|)
      && Capacities(columns) == FreshColumns(View(), |symbolic|)
    }

    /** However it came about, a dictionary accounts for at least what its definitions need in a new one. */
    lemma Replayable()
      requires Valid()
      ensures FreshBytes(|symbolic|, View()) <= charged <= limit
    {
      hide Positions, FieldCount, Filled, SymbolsOk, Sum, TextBytes;
      if |symbols| > 0 {
        DoubleToLeast(16, capacity, |symbols|);
        DoubleToLeast(32, slots.Length, 2 * |symbols|);
      }
      var a, b := FreshColumns(View(), |symbolic|), Capacities(columns);
      forall f | 0 <= f < |symbolic| ensures a[f] <= b[f] {
        if FieldCount(View(), f) > 0 { DoubleToLeast(8, columns[f].capacity, FieldCount(View(), f)); }
      }
      SumMonotone(a, b);
    }

    /** Without rollbacks the accounted bytes are those of a dictionary built from nothing. */
    lemma TightBytes()
      requires Valid() && Tight()
      ensures charged == FreshBytes(|symbolic|, View())
    {
    }

    /** The sizes that intern compares. */
    lemma Sizes(field: nat)
      requires Valid() && field < |symbolic|
      ensures |symbols| <= U32_MAX && |columns| == |symbolic|
              && |columns[field].indices| == FieldCount(View(), field) <= columns[field].capacity
      ensures |symbols| < Doubled(|symbols| == capacity, capacity, 16) && charged <= limit
      ensures FieldCount(View(), field) < Doubled(FieldCount(View(), field) == columns[field].capacity,
                                                  columns[field].capacity, 8)
      ensures 2 * (|symbols| + 1) <= Doubled(slots.Length < 2 * (|symbols| + 1), slots.Length, 32)
      ensures Capacities(columns)[field] == columns[field].capacity
    {
      if slots.Length > 0 { DoublingMore(32, slots.Length); }
    }

    /** wadb_dictionary_new, for a limit that covers the fixed part. */
    constructor (symbolic: seq<bool>, hash: (nat, seq<Byte>) -> nat, limit: nat)
      requires DICTIONARY_BYTES + |symbolic| * COLUMN_BYTES <= limit && |symbolic| <= MAX_FIELDS
      ensures Valid() && Tight() && View() == [] && fresh(slots)
      ensures this.symbolic == symbolic && this.hash == hash && this.limit == limit
    {
      this.symbolic, this.hash, this.limit := symbolic, hash, limit;
      symbols, capacity, charged := [], 0, DICTIONARY_BYTES + |symbolic| * COLUMN_BYTES;
      slots := new nat[0];
      columns := seq(|symbolic|, i => Column([], 0));
      new;
      assert View() == [];
      ZeroSum(Capacities(columns));
    }

    /** The look-up at the head of wadb_dictionary_intern. */
    method Lookup(field: nat, text: seq<Byte>) returns (id: Option<nat>)
      requires Valid()
      ensures id.None? <==> Def(field, text) !in View()
      ensures id.Some? ==> Means(View(), field, id.value, text)
    {
      hide FieldCount, Positions, Accounted, Internable, Symbols.Distinct;
      id := None;
      if slots.Length > 0 {
        var key, symbols' := hash(field, text), symbols;
        FreeSlot(slots[..], Hashes(symbols));
        var matches := i => 0 <= i < |symbols'| && symbols'[i].hash == key && symbols'[i].field == field
            && symbols'[i].text == text;
        var slot, found := Probe(slots, key % slots.Length, matches);
        if found {
          var s := symbols[slots[slot] - 1];
          assert View()[slots[slot] - 1] == Def(field, text);
          id := Some(s.id);
        } else {
          forall i | 0 <= i < |symbols| ensures View()[i] != Def(field, text) {
            if View()[i] == Def(field, text) {
              NotThere(slots[..], Hashes(symbols), key, slot, i);
            }
          }
        }
      }
    }

    /** wadb_dictionary_resolve. */
    method Resolve(field: nat, id: nat) returns (text: Option<seq<Byte>>)
      requires Valid()
      ensures text.Some? ==> Means(View(), field, id, text.value)
      ensures text.None? ==> forall x :: !Means(View(), field, id, x)
    {
      hide FieldCount, Positions, Accounted, Filled, Symbols.Distinct;
      MeansDense(View(), field, id);
      if field == 0 || field >= |symbolic| || id == 0 || !symbolic[field] || id > |columns[field].indices| {
        if field == 0 || field >= |symbolic| || !symbolic[field] {
          forall x ensures !Means(View(), field, id, x) {
            if Means(View(), field, id, x) { MeansSymbolic(symbolic, View(), field, id, x); }
          }
        }
        return None;
      }
      var i := Positioned(View(), field, id - 1);
      var s := symbols[columns[field].indices[id - 1]];
      assert View()[i] == Def(field, s.text);
      text := Some(s.text);
    }

    // ---- growth, in the order of wadb_dictionary_intern; charged moves with each allocation ----

    method GrowSymbols(to: nat)
      requires Valid() && (to == capacity || to == Doubled(true, capacity, 16))
      requires charged + (to - capacity) * SYMBOL_BYTES <= limit
      modifies this`capacity, this`charged
      ensures Valid() && capacity == to && charged == old(charged) + (to - old(capacity)) * SYMBOL_BYTES
    {
      hide FieldCount, Positions, Filled, SymbolsOk, ColumnsOk, Sum, TextBytes;
      if to != capacity {
        if capacity != 0 { DoublingMore(16, capacity); }
        charged := charged + (to - capacity) * SYMBOL_BYTES;
        capacity := to;
      }
    }

    method GrowSlots(to: nat)
      requires Valid() && (to == slots.Length || to == Doubled(true, slots.Length, 32))
      requires charged + (to - slots.Length) * 4 <= limit
      modifies this`slots, this`charged
      ensures Valid() && slots.Length == to && (slots == old(slots) || fresh(slots))
      ensures charged == old(charged) + (to - old(slots.Length)) * 4
    {
      hide FieldCount, Positions, Filled, SymbolsOk, ColumnsOk, Sum, TextBytes;
      if to != slots.Length {
        if slots.Length != 0 { DoublingMore(32, slots.Length); }
        charged := charged + (to - slots.Length) * 4;
        slots := new nat[to];
        Rehash(slots, Hashes(symbols));
      }
    }

    method GrowColumn(field: nat, to: nat)
      requires Valid() && field < |columns|
      requires to == columns[field].capacity || to == Doubled(true, columns[field].capacity, 8)
      requires charged + (to - columns[field].capacity) * 4 <= limit
      modifies this`columns, this`charged
      ensures Valid() && columns == old(columns)[field := old(columns)[field].(capacity := to)]
      ensures Capacities(columns) == old(Capacities(columns))[field := to]
      ensures charged == old(charged) + (to - old(columns)[field].capacity) * 4
    {
      hide FieldCount, Positions, Filled, TextBytes, SymbolsOk;
      var c := columns[field];
      ghost var before := Capacities(columns);
      if to != c.capacity && c.capacity != 0 { DoublingMore(8, c.capacity); }
      charged := charged + (to - c.capacity) * 4;
      columns := columns[field := c.(capacity := to)];
      SumUpdate(before, field, to);
      assert Capacities(columns) == before[field := to];
    }

    /** The new symbol, once there is room for it. */
    method Add(field: nat, text: seq<Byte>) returns (id: nat)
      requires Valid() && Internable(symbolic, Def(field, text)) && Def(field, text) !in View()
      requires |symbols| < capacity && |symbols| < U32_MAX && 2 * (|symbols| + 1) <= slots.Length
               && |columns[field].indices| < columns[field].capacity
      requires charged + |text| + 1 <= limit
      modifies this, slots
      ensures Valid() && slots == old(slots) && capacity == old(capacity)
              && Capacities(columns) == old(Capacities(columns))
      ensures View() == old(View()) + [Def(field, text)] && id == FieldCount(old(View()), field) + 1
    {
      hide Filled, Sum, FieldCount, Positions, SymbolsOk, TextBytes, Utf8Octets;
      ghost var before := View();
      var key, n := hash(field, text), |symbols|;
      id := |columns[field].indices| + 1;
      ghost var hashes := Hashes(symbols);
      AddSymbol(symbolic, hash, symbols, field, text);
      AddColumn(|symbolic|, before, columns, Def(field, text));
      columns := columns[field := columns[field].(indices := columns[field].indices + [n])];
      symbols := symbols + [Symbol(field, id, key, text)];
      Place(slots, hashes, key, n);
      charged := charged + |text| + 1;
      assert View() == before + [Def(field, text)];
      assert Hashes(symbols) == hashes + [key];
      assert Capacities(columns) == old(Capacities(columns));
    }

    /** Room for one more symbol of a field: allocations one to three of wadb_dictionary_intern. */
    method Reserve(field: nat, capacity': nat, slots': nat, column': nat, oom: nat) returns (ok: bool)
      requires Valid() && field < |columns|
      requires capacity' == capacity || capacity' == Doubled(true, capacity, 16)
      requires slots' == slots.Length || slots' == Doubled(true, slots.Length, 32)
      requires column' == columns[field].capacity || column' == Doubled(true, columns[field].capacity, 8)
      requires charged + Extra(capacity, capacity', slots.Length, slots', columns[field].capacity, column') <= limit
      modifies this`capacity, this`slots, this`columns, this`charged
      ensures Valid() && (slots == old(slots) || fresh(slots)) && (!ok ==> 1 <= oom <= 3)
      ensures ok ==>
                && capacity == capacity' && slots.Length == slots'
                && columns == old(columns)[field := old(columns)[field].(capacity := column')]
      ensures ok ==> Capacities(columns) == old(Capacities(columns))[field := column']
      ensures ok ==> charged == old(charged + Extra(capacity, capacity', slots.Length, slots', columns[field].capacity,
                                                    column'))
    {
      hide Valid;
      ok := false;
      if capacity' != capacity && oom == 1 { return; }
      GrowSymbols(capacity');
      if slots' != slots.Length && oom == 2 { return; }
      GrowSlots(slots');
      if column' != columns[field].capacity && oom == 3 { return; }
      GrowColumn(field, column');
      ok := true;
    }

    lemma Either(full: bool, c: nat, first: nat)
      ensures Doubled(full, c, first) == c || Doubled(full, c, first) == Doubled(true, c, first)
    {
    }

    lemma HasColumn(field: nat, text: seq<Byte>)
      requires Valid() && Internable(symbolic, Def(field, text))
      ensures field < |columns|
    {
    }

    /** No room for one more symbol: numbers or the byte budget are used up. */
    ghost predicate Full(field: nat, text: seq<Byte>)
      requires field < |columns|
      reads this, slots
    {
      var c := columns[field];
      || |symbols| == U32_MAX || |c.indices| == U32_MAX
      || charged + Extra(capacity, Doubled(|symbols| == capacity, capacity, 16), slots.Length,
                         Doubled(slots.Length < 2 * (|symbols| + 1), slots.Length, 32), c.capacity,
                         Doubled(|c.indices| == c.capacity, c.capacity, 8)) + |text| + 1 > limit
    }

    /** The rest of wadb_dictionary_intern, for a text it does not know. */
    method Extend(field: nat, text: seq<Byte>, oom: nat) returns (status: Status, id: nat)
      requires Valid() && Internable(symbolic, Def(field, text)) && Def(field, text) !in View()
      modifies this, slots
      ensures Valid() && (slots == old(slots) || fresh(slots))
      ensures status in {OK, NOMEM, LIMIT} && (status == NOMEM ==> 1 <= oom <= 4)
      ensures View() == if status == OK then old(View()) + [Def(field, text)] else old(View())
      ensures status == OK ==> id == FieldCount(old(View()), field) + 1
      ensures status != NOMEM && old(Tight()) ==> Tight()
      ensures status == LIMIT <==> old(Full(field, text))
      ensures status == OK ==>
                && capacity == old(Doubled(|symbols| == capacity, capacity, 16))
                && slots.Length == old(Doubled(slots.Length < 2 * (|symbols| + 1), slots.Length, 32))
                && Capacities(columns) ==
                   old(Capacities(columns)[field := Doubled(|columns[field].indices| == columns[field].capacity,
                                                            columns[field].capacity, 8)])
      ensures old(Tight()) ==>
                (status == LIMIT <==>
                   |old(View())| == U32_MAX || FieldCount(old(View()), field) == U32_MAX ||
                   FreshBytes(|symbolic|, old(View()) + [Def(field, text)]) > limit)
    {
      hide FieldCount, Grown, Utf8Octets, FreshBytes, Valid, FreshColumns, Capacities, Doubled, Extra;
      id := 0;
      Sizes(field);
      var column := columns[field];
      if |symbols| == U32_MAX || |column.indices| == U32_MAX { return LIMIT, 0; }
      var capacity' := Doubled(|symbols| == capacity, capacity, 16);
      var slots' := Doubled(slots.Length < 2 * (|symbols| + 1), slots.Length, 32);
      var column' := Doubled(|column.indices| == column.capacity, column.capacity, 8);
      var extra := Extra(capacity, capacity', slots.Length, slots', column.capacity, column') + |text| + 1;
      if Tight() {
        TightBytes();
        TightExtra(|symbolic|, View(), Def(field, text), capacity, slots.Length, column.capacity);
      }
      if extra > limit - charged { return LIMIT, 0; }
      Either(|symbols| == capacity, capacity, 16);
      Either(slots.Length < 2 * (|symbols| + 1), slots.Length, 32);
      Either(|column.indices| == column.capacity, column.capacity, 8);
      var reserved := Reserve(field, capacity', slots', column', oom);
      if !reserved || oom == 4 { return NOMEM, 0; }
      id := Add(field, text);
      status := OK;
    }

    /** wadb_dictionary_intern. oom tells which of its four allocations fails, if that one is reached. */
    method Intern(field: nat, text: seq<Byte>, oom: nat) returns (status: Status, id: nat)
      requires Valid()
      modifies this, slots
      ensures Valid() && (slots == old(slots) || fresh(slots))
      ensures status == INVALID <==> !Internable(symbolic, Def(field, text))
      ensures status == NOMEM ==> 1 <= oom <= 4
      ensures status != CORRUPT && (status == OK ==> Means(View(), field, id, text))
      ensures View() == if status == OK && Def(field, text) !in old(View()) then old(View()) + [Def(field, text)]
                        else old(View())
      ensures Internable(symbolic, Def(field, text)) && Def(field, text) in old(View()) ==> status == OK
      ensures status != NOMEM && old(Tight()) ==> Tight()
      ensures Internable(symbolic, Def(field, text)) && Def(field, text) !in old(View()) ==>
                field < |old(columns)| && (status == LIMIT <==> old(Full(field, text)))
      ensures old(Tight()) && Internable(symbolic, Def(field, text)) && Def(field, text) !in old(View()) ==>
                (status == LIMIT <==>
                   |old(View())| == U32_MAX || FieldCount(old(View()), field) == U32_MAX ||
                   FreshBytes(|symbolic|, old(View()) + [Def(field, text)]) > limit)
    {
      hide *;
      if !Internable(symbolic, Def(field, text)) { return INVALID, 0; }
      HasColumn(field, text);
      var known := Lookup(field, text);
      if known.Some? { return OK, known.value; }
      AddedMeans(View(), field, text);
      status, id := Extend(field, text, oom);
    }

    /** wadb_dictionary_rollback: the definitions after the mark go, every capacity stays. */
    method Rollback(mark: nat)
      requires Valid()
      modifies this`symbols, this`columns, this`charged, slots
      ensures Valid() && View() == if mark < |old(View())| then old(View())[..mark] else old(View())
      ensures mark <= |old(View())| ==> View() == old(View())[..mark]
    {
      hide FieldCount, Positions, Filled, Sum, SymbolsOk, ColumnsOk, TextBytes;
      if mark >= |symbols| { return; }
      ghost var was := View();
      while |symbols| > mark
        invariant mark <= |symbols| <= |was| && View() == was[..|symbols|] && 2 * |was| <= slots.Length
        invariant SymbolsOk(symbolic, hash, symbols) && ColumnsOk(|symbolic|, View(), columns) && BytesOk()
      {
        var n := |symbols| - 1;
        var s := symbols[n];
        DropSymbol(symbolic, hash, symbols);
        assert View()[n].field == s.field;
        DropColumn(|symbolic|, View(), columns);
        var c := columns[s.field];
        ghost var caps, defs := Capacities(columns), View();
        symbols := symbols[..n];
        columns := columns[s.field := c.(indices := c.indices[..|c.indices| - 1])];
        charged := charged - (|s.text| + 1);
        assert View() == defs[..n] == was[..n];
        assert Capacities(columns) == caps;
      }
      Rehash(slots, Hashes(symbols));
    }
  }

  lemma DropSymbol(symbolic: seq<bool>, hash: (nat, seq<Byte>) -> nat, symbols: seq<Symbol>)
    requires SymbolsOk(symbolic, hash, symbols) && symbols != []
    ensures var n := |symbols| - 1;
            && SymbolsOk(symbolic, hash, symbols[..n]) && Defs(symbols[..n]) == Defs(symbols)[..n]
            && 0 < symbols[n].field < |symbolic|
            && TextBytes(Defs(symbols)) == TextBytes(Defs(symbols)[..n]) + |symbols[n].text| + 1
  {
    hide FieldCount;
    var n, defs := |symbols| - 1, Defs(symbols);
    assert Defs(symbols[..n]) == defs[..n];
    assert Internable(symbolic, defs[n]);
    forall i | 0 <= i < n ensures IdAt(defs[..n], i) == IdAt(defs, i) && Internable(symbolic, defs[..n][i]) {
      IdPrefix(defs, n, i);
      assert Internable(symbolic, defs[i]);
    }
  }

  lemma DropColumn(fields: nat, defs: seq<Def>, columns: seq<Column>)
    requires ColumnsOk(fields, defs, columns) && defs != [] && defs[|defs| - 1].field < fields
    ensures var n := |defs| - 1;
            var f := defs[n].field;
            var c := columns[f];
            && |columns| == fields && c.indices != []
            && ColumnsOk(fields, defs[..n], columns[f := c.(indices := c.indices[..|c.indices| - 1])])
  {
    hide FieldCount, Positions;
    var n := |defs| - 1;
    assert defs == defs[..n] + [defs[n]];
    forall f ensures Positions(defs, f) == Positions(defs[..n], f) + if defs[n].field == f then [n] else [] {
      PositionsOn(defs[..n], defs[n], f);
    }
  }

  lemma TightExtra(fields: nat, defs: seq<Def>, d: Def, c: nat, s: nat, l: nat)
    requires d.field < fields
    requires c == Grown(16, |defs|) && s == Grown(32, 2 * |defs|) && l == Grown(8, FieldCount(defs, d.field))
    ensures Doubled(|defs| == c, c, 16) == Grown(16, |defs| + 1)
    ensures Doubled(s < 2 * (|defs| + 1), s, 32) == Grown(32, 2 * (|defs| + 1))
    ensures FreshColumns(defs + [d], fields) ==
              FreshColumns(defs, fields)[d.field := Doubled(FieldCount(defs, d.field) == l, l, 8)]
    ensures FreshBytes(fields, defs + [d]) == FreshBytes(fields, defs) + |d.text| + 1 +
              Extra(c, Doubled(|defs| == c, c, 16), s, Doubled(s < 2 * (|defs| + 1), s, 32), l,
                    Doubled(FieldCount(defs, d.field) == l, l, 8))
  {
    hide *;
    GrownNext(16, |defs|);
    GrownNextTable(|defs|);
    GrownNext(8, FieldCount(defs, d.field));
    FreshColumnsNext(fields, defs, d);
    FreshNext(fields, defs, d);
  }

  lemma MeansSymbolic(symbolic: seq<bool>, defs: seq<Def>, field: nat, id: nat, text: seq<Byte>)
    requires (forall i :: 0 <= i < |defs| ==> Internable(symbolic, defs[i])) && Means(defs, field, id, text)
    ensures 0 < field < |symbolic| && symbolic[field]
  {
    var i :| 0 <= i < |defs| && defs[i] == Def(field, text) && IdAt(defs, i) == id;
    assert Internable(symbolic, defs[i]);
  }

  lemma AddSymbol(symbolic: seq<bool>, hash: (nat, seq<Byte>) -> nat, symbols: seq<Symbol>, field: nat, text: seq<Byte>)
    requires SymbolsOk(symbolic, hash, symbols) && Internable(symbolic, Def(field, text))
             && Def(field, text) !in Defs(symbols)
    ensures var id := FieldCount(Defs(symbols), field) + 1;
            && SymbolsOk(symbolic, hash, symbols + [Symbol(field, id, hash(field, text), text)])
            && Defs(symbols + [Symbol(field, id, hash(field, text), text)]) == Defs(symbols) + [Def(field, text)]
            && TextBytes(Defs(symbols) + [Def(field, text)]) == TextBytes(Defs(symbols)) + |text| + 1
  {
    hide FieldCount, Internable;
    var d, defs := Def(field, text), Defs(symbols);
    var s := Symbol(field, FieldCount(defs, field) + 1, hash(field, text), text);
    var more := symbols + [s];
    assert Defs(more) == defs + [d] && (defs + [d])[..|defs|] == defs;
    forall i | 0 <= i < |more|
      ensures more[i].id == IdAt(Defs(more), i) && more[i].hash == hash(more[i].field, more[i].text)
    {
      if i < |symbols| { IdPrefix(Defs(more), |defs|, i); }
    }
  }

  lemma AddColumn(fields: nat, defs: seq<Def>, columns: seq<Column>, d: Def)
    requires ColumnsOk(fields, defs, columns) && d.field < fields
             && |columns[d.field].indices| < columns[d.field].capacity
    ensures ColumnsOk(fields, defs + [d],
                      columns[d.field := columns[d.field].(indices := columns[d.field].indices + [|defs|])])
  {
    hide FieldCount, Positions;
    forall f ensures Positions(defs + [d], f) == Positions(defs, f) + if d.field == f then [|defs|] else [] {
      PositionsOn(defs, d, f);
    }
  }

  lemma AddedMeans(defs: seq<Def>, field: nat, text: seq<Byte>)
    ensures Means(defs + [Def(field, text)], field, FieldCount(defs, field) + 1, text)
  {
    var more := defs + [Def(field, text)];
    assert more[..|defs|] == defs;
    assert more[|defs|] == Def(field, text) && IdAt(more, |defs|) == FieldCount(defs, field) + 1;
  }

  lemma {:induction false} ZeroSum(xs: seq<nat>)
    requires forall i :: 0 <= i < |xs| ==> xs[i] == 0
    ensures Sum(xs) == 0
  {
    if xs != [] {
      ZeroSum(xs[..|xs| - 1]);
    }
  }
}
