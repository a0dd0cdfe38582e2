/** The index file of a sealed segment (src/storage/index.c:65-164): its header, its
    entries, read a page of sixty-four at a time, and the dictionary block behind them. */
module IndexFiles {
  import opened Bytes
  import opened Layout
  import opened Crc32c
  import opened Frames
  import opened Logs
  import opened Segments
  import opened History
  import opened Recovery
  import opened Indexes

  const INDEX_MAGIC: U64 := 0x3158_4449_4244_4157   // WADBIDX1
  const INDEX_HEADER_BYTES: nat := 128
  const INDEX_MOST: nat := 65536
  const DICTIONARY_MOST: nat := 0x400_0000
  const PAGE: nat := 64

  datatype IndexHeader = IndexHeader(tableId: U64, segmentId: U64, schemaHash: U64, committed: U64, count: U64,
                                     block: U64, blockBytes: U64, definitions: U32, minTime: I64, maxTime: I64,
                                     first: U64, last: U64, rowWidth: U32, blockCrc: U32)

  // ---- the header ----

  /** Offsets 0, 8, 12, 16, 24, 32, 40, 48, 56, 64, 72, 76. */
  const FRONT_WIDTHS: seq<nat> := [8, 4, 4, 8, 8, 8, 8, 8, 8, 8, 4, 4]

  /** Offsets 80, 88, 96, 104, 112, 116, 120, and then 124 for the checksum. */
  const BACK_WIDTHS: seq<nat> := [8, 8, 8, 8, 4, 4, 4]

  lemma {:induction false} FrontOffsets()
    ensures |FRONT_WIDTHS| == 12
    ensures Offset(FRONT_WIDTHS, 0) == 0 && Offset(FRONT_WIDTHS, 1) == 8 && Offset(FRONT_WIDTHS, 2) == 12
    ensures Offset(FRONT_WIDTHS, 3) == 16 && Offset(FRONT_WIDTHS, 4) == 24 && Offset(FRONT_WIDTHS, 5) == 32
    ensures Offset(FRONT_WIDTHS, 6) == 40 && Offset(FRONT_WIDTHS, 7) == 48 && Offset(FRONT_WIDTHS, 8) == 56
    ensures Offset(FRONT_WIDTHS, 9) == 64 && Offset(FRONT_WIDTHS, 10) == 72 && Offset(FRONT_WIDTHS, 11) == 76
    ensures Offset(FRONT_WIDTHS, 12) == 80
  {
  }

  lemma {:induction false} BackOffsets()
    ensures |BACK_WIDTHS| == 7
    ensures Offset(BACK_WIDTHS, 0) == 0 && Offset(BACK_WIDTHS, 1) == 8 && Offset(BACK_WIDTHS, 2) == 16
    ensures Offset(BACK_WIDTHS, 3) == 24 && Offset(BACK_WIDTHS, 4) == 32 && Offset(BACK_WIDTHS, 5) == 36
    ensures Offset(BACK_WIDTHS, 6) == 40 && Offset(BACK_WIDTHS, 7) == 44
  {
  }

  function FrontValues(h: IndexHeader): seq<nat> {
    [INDEX_MAGIC, FORMAT_VERSION, INDEX_HEADER_BYTES, h.tableId, h.segmentId, h.schemaHash, h.committed, h.count,
     h.block, h.blockBytes, h.definitions, 0]
  }

  function BackValues(h: IndexHeader): seq<nat> {
    [Wrap64(h.minTime), Wrap64(h.maxTime), h.first, h.last, h.rowWidth, h.blockCrc, 0]
  }

  function FrontBytes(h: IndexHeader): seq<Byte> { Pack(FRONT_WIDTHS, FrontValues(h)) }

  function BackBytes(h: IndexHeader): seq<Byte> { Pack(BACK_WIDTHS, BackValues(h)) }

  function HeaderBytesOf(h: IndexHeader): seq<Byte> { WithChecksum(FrontBytes(h) + BackBytes(h)) }

  /** The header as open_raw reads it, after the checks that concern no segment. */
  function ReadHeader(p: seq<Byte>): Option<IndexHeader>
    requires |p| == 128
  {
    if U64At(p, 0) != INDEX_MAGIC || U32At(p, 8) != FORMAT_VERSION || U32At(p, 12) != INDEX_HEADER_BYTES ||
       U32At(p, 124) != Checksum(p[..124]) || U32At(p, 76) != 0 || U32At(p, 120) != 0
    then None
    else Some(IndexHeader(U64At(p, 16), U64At(p, 24), U64At(p, 32), U64At(p, 40), U64At(p, 48), U64At(p, 56),
                          U64At(p, 64), U32At(p, 72), I64At(p, 80), I64At(p, 88), U64At(p, 96), U64At(p, 104),
                          U32At(p, 112), U32At(p, 116)))
  }

  predicate FrontAt(h: IndexHeader, r: seq<Byte>)
    requires |r| == 80
  {
    && At(r, 0, 8) == INDEX_MAGIC && At(r, 8, 4) == FORMAT_VERSION && At(r, 12, 4) == INDEX_HEADER_BYTES
    && At(r, 16, 8) == h.tableId && At(r, 24, 8) == h.segmentId && At(r, 32, 8) == h.schemaHash
    && At(r, 40, 8) == h.committed
    && At(r, 48, 8) == h.count && At(r, 56, 8) == h.block && At(r, 64, 8) == h.blockBytes
    && At(r, 72, 4) == h.definitions
    && At(r, 76, 4) == 0
  }

  predicate BackAt(h: IndexHeader, r: seq<Byte>)
    requires |r| == 44
  {
    && At(r, 0, 8) == Wrap64(h.minTime) && At(r, 8, 8) == Wrap64(h.maxTime) && At(r, 16, 8) == h.first
    && At(r, 24, 8) == h.last
    && At(r, 32, 4) == h.rowWidth && At(r, 36, 4) == h.blockCrc && At(r, 40, 4) == 0
  }

  lemma {:induction false} FrontFields(h: IndexHeader, r: seq<Byte>)
    requires |r| == 80
    ensures FrontAt(h, r) <==> r == FrontBytes(h)
  {
    hide Get, Put, Pack;
    var ws, vs := FRONT_WIDTHS, FrontValues(h);
    FrontOffsets();
    Spans();
    assert Fits(ws, vs) by {
      forall i | 0 <= i < 12 ensures vs[i] < Span(ws[i]) { assert ws[i] == 4 || ws[i] == 8; }
    }
    PackIffReads(ws, vs, r);
    if Reads(ws, vs, r) {
      assert ReadsField(ws, vs, r, 0) && ReadsField(ws, vs, r, 1) && ReadsField(ws, vs, r, 2)
             && ReadsField(ws, vs, r, 3);
      assert ReadsField(ws, vs, r, 4) && ReadsField(ws, vs, r, 5) && ReadsField(ws, vs, r, 6)
             && ReadsField(ws, vs, r, 7);
      assert ReadsField(ws, vs, r, 8) && ReadsField(ws, vs, r, 9) && ReadsField(ws, vs, r, 10)
             && ReadsField(ws, vs, r, 11);
    }
  }

  lemma {:induction false} BackFields(h: IndexHeader, r: seq<Byte>)
    requires |r| == 44
    ensures BackAt(h, r) <==> r == BackBytes(h)
  {
    hide Get, Put, Pack;
    var ws, vs := BACK_WIDTHS, BackValues(h);
    BackOffsets();
    Spans();
    assert Fits(ws, vs) by {
      forall i | 0 <= i < 7 ensures vs[i] < Span(ws[i]) { assert ws[i] == 4 || ws[i] == 8; }
    }
    PackIffReads(ws, vs, r);
    if Reads(ws, vs, r) {
      assert ReadsField(ws, vs, r, 0) && ReadsField(ws, vs, r, 1) && ReadsField(ws, vs, r, 2)
             && ReadsField(ws, vs, r, 3);
      assert ReadsField(ws, vs, r, 4) && ReadsField(ws, vs, r, 5) && ReadsField(ws, vs, r, 6);
    }
  }

  lemma {:induction false} FrontReads(h: IndexHeader, p: seq<Byte>)
    requires |p| == 128
    ensures FrontAt(h, p[..80]) <==>
            && U64At(p, 0) == INDEX_MAGIC && U32At(p, 8) == FORMAT_VERSION && U32At(p, 12) == INDEX_HEADER_BYTES
            && U64At(p, 16) == h.tableId
            && U64At(p, 24) == h.segmentId && U64At(p, 32) == h.schemaHash && U64At(p, 40) == h.committed
            && U64At(p, 48) == h.count
            && U64At(p, 56) == h.block && U64At(p, 64) == h.blockBytes && U32At(p, 72) == h.definitions
            && U32At(p, 76) == 0
  {
    hide Get;
    AtPrefix(p, 80, 0, 8);
    AtPrefix(p, 80, 8, 4);
    AtPrefix(p, 80, 12, 4);
    AtPrefix(p, 80, 16, 8);
    AtPrefix(p, 80, 24, 8);
    AtPrefix(p, 80, 32, 8);
    AtPrefix(p, 80, 40, 8);
    AtPrefix(p, 80, 48, 8);
    AtPrefix(p, 80, 56, 8);
    AtPrefix(p, 80, 64, 8);
    AtPrefix(p, 80, 72, 4);
    AtPrefix(p, 80, 76, 4);
  }

  lemma {:induction false} BackReads(h: IndexHeader, p: seq<Byte>)
    requires |p| == 128
    ensures BackAt(h, p[80..124]) <==>
            && I64At(p, 80) == h.minTime && I64At(p, 88) == h.maxTime && U64At(p, 96) == h.first
            && U64At(p, 104) == h.last
            && U32At(p, 112) == h.rowWidth && U32At(p, 116) == h.blockCrc && U32At(p, 120) == 0
  {
    hide Get, Signed64, Wrap64;
    SignedIff(U64At(p, 80), h.minTime);
    SignedIff(U64At(p, 88), h.maxTime);
    AtMiddle(p, 80, 124, 0, 8);
    AtMiddle(p, 80, 124, 8, 8);
    AtMiddle(p, 80, 124, 16, 8);
    AtMiddle(p, 80, 124, 24, 8);
    AtMiddle(p, 80, 124, 32, 4);
    AtMiddle(p, 80, 124, 36, 4);
    AtMiddle(p, 80, 124, 40, 4);
  }

  lemma {:induction false} HeaderLength(h: IndexHeader)
    ensures |FrontBytes(h)| == 80 && |BackBytes(h)| == 44 && |HeaderBytesOf(h)| == 128
  {
    hide Pack, Checksum;
    FrontOffsets();
    BackOffsets();
    PackLength(FRONT_WIDTHS, FrontValues(h));
    PackLength(BACK_WIDTHS, BackValues(h));
  }

  /** A header reads as h exactly when it is the encoding of h. */
  lemma {:induction false} HeaderIff(h: IndexHeader, p: seq<Byte>)
    requires |p| == 128
    ensures ReadHeader(p) == Some(h) <==> p == HeaderBytesOf(h)
  {
    hide Get, Put, Pack, Checksum, FrontBytes, BackBytes, FrontAt, BackAt, Signed64;
    HeaderLength(h);
    FrontFields(h, p[..80]);
    BackFields(h, p[80..124]);
    FrontReads(h, p);
    BackReads(h, p);
    assert p[..124] == p[..80] + p[80..124] && p == p[..124] + p[124..] && p[124..128] == p[124..];
    ChecksumTail(p[..124], p[124..]);
    var x := FrontBytes(h) + BackBytes(h);
    if p == HeaderBytesOf(h) { assert p[..124] == x && x[..80] == FrontBytes(h) && x[80..124] == BackBytes(h); }
  }

  // ---- the file ----

  function Entries(entries: seq<Entry>): seq<Byte> {
    if entries == [] then [] else Entries(entries[..|entries| - 1]) + EntryBytes(entries[|entries| - 1])
  }

  lemma {:induction false} EntryLength(v: Entry)
    ensures |EntryBytes(v)| == 64
  {
    hide Pack, Checksum;
    EntryOffsets();
    PackLength(ENTRY_WIDTHS, EntryValues(v));
  }

  /** Entry k stands at its place. */
  lemma {:induction false} EntryPlace(entries: seq<Entry>, k: nat)
    requires k < |entries|
    ensures |Entries(entries)| == 64 * |entries| && Entries(entries)[64 * k..64 * k + 64] == EntryBytes(entries[k])
  {
    hide EntryBytes;
    EntriesLength(entries);
    var n := |entries| - 1;
    EntriesLength(entries[..n]);
    EntryLength(entries[n]);
    if k < n {
      EntryPlace(entries[..n], k);
      assert Entries(entries)[64 * k..64 * k + 64] == Entries(entries[..n])[64 * k..64 * k + 64];
    }
  }

  lemma {:induction false} EntriesLength(entries: seq<Entry>)
    ensures |Entries(entries)| == 64 * |entries|
  {
    hide EntryBytes;
    if entries != [] {
      EntriesLength(entries[..|entries| - 1]);
      EntryLength(entries[|entries| - 1]);
    }
  }

  /** What a saved index says of a segment. */
  function HeaderFor(t: Table, m: Meta, count: U64, block: seq<Byte>, definitions: U32): IndexHeader
    requires RecordFits(m) && |block| <= DICTIONARY_MOST && count <= INDEX_MOST
  {
    ChecksumBound(block);
    IndexHeader(t.id, m.id, t.schemaHash, m.bytes, count, 128 + 64 * count, |block|, definitions, m.minTime, m.maxTime,
                m.first, m.last, t.rowWidth, Checksum(block))
  }

  /** A segment record whose numbers fit the header. */
  predicate RecordFits(m: Meta) {
    m.bytes <= U64_MAX && 0 <= m.last <= U64_MAX && I64_MIN <= m.minTime <= I64_MAX && I64_MIN <= m.maxTime <= I64_MAX
  }

  /** wadb_index_save. */
  function SaveIndex(t: Table, m: Meta, entries: seq<Entry>, block: seq<Byte>, definitions: U32): seq<Byte>
    requires RecordFits(m) && |block| <= DICTIONARY_MOST && |entries| <= INDEX_MOST
  {
    HeaderBytesOf(HeaderFor(t, m, |entries|, block, definitions)) + Entries(entries) + block
  }

  /** The checks of open_raw against the segment and the size of the file. */
  predicate HeaderOk(t: Table, m: Meta, size: nat, h: IndexHeader) {
    && h.tableId == t.id && h.segmentId == m.id && h.schemaHash == t.schemaHash && h.committed == m.bytes
    && h.count <= INDEX_MOST && h.block == 128 + 64 * h.count && h.blockBytes <= DICTIONARY_MOST
    && h.blockBytes % 8 == 0
    && size == h.block + h.blockBytes && h.definitions <= h.blockBytes / 12
    && h.minTime == m.minTime && h.maxTime == m.maxTime && h.first == m.first && h.last == m.last
    && h.rowWidth == t.rowWidth
    && (h.count == 0 <==> m.last == 0)
  }

  function EntryOf(t: Table, m: Meta, file: seq<Byte>, k: nat): Option<Entry>
    requires 128 + 64 * k + 64 <= |file|
  {
    DecodeEntry(m, t.rowWidth, file[128 + 64 * k..128 + 64 * k + 64])
  }

  /** The ends of the index decode and agree with the segment. */
  predicate EndsAgree(t: Table, m: Meta, file: seq<Byte>, count: nat)
    requires 128 + 64 * count <= |file|
  {
    count > 0 ==>
      var first, last := EntryOf(t, m, file, 0), EntryOf(t, m, file, count - 1);
      first.Some? && last.Some? && EndsOk(m, [first.value, last.value])
  }

  /** The file is an index of the segment as far as open_raw looks. */
  predicate Opens(t: Table, m: Meta, file: seq<Byte>) {
    && |file| >= 128 && ReadHeader(file[..128]).Some?
    && HeaderOk(t, m, |file|, ReadHeader(file[..128]).value)
    && EndsAgree(t, m, file, ReadHeader(file[..128]).value.count)
  }

  // ---- reading ----

  /** The records of a page: sixty-four, or what is left. */
  function PageEnd(page: nat, count: nat): nat { if count < PAGE * page + PAGE then count else PAGE * page + PAGE }

  lemma {:induction false} InPage(k: nat, count: nat)
    requires k < count
    ensures var page := k / PAGE; PAGE * page <= k < PageEnd(page, count) <= count && k == PAGE * page + k % PAGE
  {
  }

  /** A record of a page is that of the file. */
  lemma {:induction false} PageSlice(file: seq<Byte>, a: nat, b: nat, at: nat)
    requires a <= b <= |file| && at + 64 <= b - a
    ensures file[a..b][at..at + 64] == file[a + at..a + at + 64]
  {
    hide *;
    var x, y := file[a..b][at..at + 64], file[a + at..a + at + 64];
    forall i | 0 <= i < 64 ensures x[i] == y[i] { }
  }

  class Reader {
    const table: Table
    const meta: Meta
    const file: seq<Byte>
    const count: nat
    var page: Option<nat>
    var bytes: seq<Byte>

    /** The page in memory is the one of the file. */
    ghost predicate Valid()
      reads this
    {
      && 128 + 64 * count <= |file|
      && (page.Some? ==>
            && PAGE * page.value < count
            && bytes == file[128 + 64 * (PAGE * page.value)..128 + 64 * PageEnd(page.value, count)])
    }

    constructor (table: Table, meta: Meta, file: seq<Byte>, count: nat)
      requires 128 + 64 * count <= |file|
      ensures Valid() && this.table == table && this.meta == meta && this.file == file && this.count == count
    {
      this.table, this.meta, this.file, this.count := table, meta, file, count;
      page, bytes := None, [];
    }

    /** get_raw: through the page that holds the record, read from the file only when it is another one. */
    method Get(k: nat) returns (e: Option<Entry>)
      requires Valid()
      modifies this`page, this`bytes
      ensures Valid() && e == if k < count then EntryOf(table, meta, file, k) else None
    {
      hide DecodeEntry, PageEnd;
      if k >= count { return None; }
      InPage(k, count);
      var p := k / PAGE;
      if page != Some(p) { page, bytes := Some(p), file[128 + 64 * (PAGE * p)..128 + 64 * PageEnd(p, count)]; }
      PageSlice(file, 128 + 64 * (PAGE * p), 128 + 64 * PageEnd(p, count), 64 * (k % PAGE));
      e := DecodeEntry(meta, table.rowWidth, bytes[64 * (k % PAGE)..64 * (k % PAGE) + 64]);
    }
  }

  /** open_raw. */
  method Open(t: Table, m: Meta, file: seq<Byte>) returns (r: Reader?)
    ensures r != null <==> Opens(t, m, file)
    ensures r != null ==>
              && fresh(r) && r.Valid() && r.table == t && r.meta == m && r.file == file
              && r.count == ReadHeader(file[..128]).value.count
  {
    hide ReadHeader, DecodeEntry, EndsOk;
    r := null;
    if |file| < 128 { return; }
    var h := ReadHeader(file[..128]);
    if h.None? || !HeaderOk(t, m, |file|, h.value) { return; }
    var reader := new Reader(t, m, file, h.value.count);
    if reader.count > 0 {
      var first := reader.Get(0);
      var last := reader.Get(reader.count - 1);
      if first.None? || last.None? || !EndsOk(m, [first.value, last.value]) { return; }
    }
    r := reader;
  }

  // ---- what is saved opens and reads back ----

  lemma {:induction false} MetaFits(t: Table, s: Seg, last: int, time: int, state: SegState)
    requires SegFits(t, s, last, time) && |SegBytes(t, s)| <= U64_MAX && AllValid(s.frames)
    ensures RecordFits(MetaOf(t, s, state)) && (MetaOf(t, s, state).last == 0 <==> s.frames == [])
  {
    hide SegBytes, FramesFit, ContentValid, RowBytes;
    if s.frames != [] {
      var f := s.frames[|s.frames| - 1];
      assert FrameValid(f);
    }
  }

  lemma {:induction false} FileParts(h: seq<Byte>, e: seq<Byte>, b: seq<Byte>, k: nat)
    requires |h| == 128 && k + 64 <= |e|
    ensures (h + e + b)[..128] == h && (h + e + b)[128 + k..128 + k + 64] == e[k..k + 64]
            && (h + e + b)[128 + |e|..] == b
  {
    hide *;
  }

  lemma {:induction false} FileEnds(h: seq<Byte>, b: seq<Byte>)
    requires |h| == 128
    ensures (h + [] + b)[..128] == h && (h + [] + b)[128..] == b
  {
    hide *;
  }

  /** The index of any segment that this table wrote, as create_active saves it when it seals the segment, opens and
      reads back: every entry at its position, and behind the entries the dictionary block with its checksum. */
  lemma {:induction false} SavedOpens(t: Table, s: Seg, last: int, time: int, state: SegState, block: seq<Byte>,
                                      definitions: U32)
    requires TableValid(t) && SegFits(t, s, last, time) && |SegBytes(t, s)| <= U64_MAX && AllValid(s.frames)
             && |s.frames| <= INDEX_MOST
    requires |block| <= DICTIONARY_MOST && |block| % 8 == 0 && definitions <= |block| / 12
    ensures RecordFits(MetaOf(t, s, state))
    ensures var m, entries := MetaOf(t, s, state), IndexOf(s.frames);
            var file, h := SaveIndex(t, m, entries, block, definitions), HeaderFor(t, m, |entries|, block, definitions);
            && |file| >= 128 + 64 * |entries| && ReadHeader(file[..128]) == Some(h)
            && Opens(t, m, file)
            && (forall k :: 0 <= k < |entries| ==> EntryOf(t, m, file, k) == Some(entries[k]))
            && file[h.block..] == block && Checksum(file[h.block..]) == h.blockCrc
  {
    hide FrameValid, IndexOf, SegBytes, SegFits, MetaOf, ReadHeader, DecodeEntry, EntryBytes, HeaderBytesOf, Entries,
         Checksum, RecordFits, EndsOk;
    MetaFits(t, s, last, time, state);
    var m, entries := MetaOf(t, s, state), IndexOf(s.frames);
    var h := HeaderFor(t, m, |entries|, block, definitions);
    var file := SaveIndex(t, m, entries, block, definitions);
    HeaderLength(h);
    EntriesLength(entries);
    HeaderIff(h, HeaderBytesOf(h));
    if entries == [] {
      assert Entries(entries) == [];
      FileEnds(HeaderBytesOf(h), block);
    } else {
      FileParts(HeaderBytesOf(h), Entries(entries), block, 0);
    }
    forall k | 0 <= k < |entries| ensures EntryOf(t, m, file, k) == Some(entries[k]) {
      FileParts(HeaderBytesOf(h), Entries(entries), block, 64 * k);
      EntryPlace(entries, k);
      SavedReads(t, s, last, time, state, k);
    }
    SavedEnds(t, s, last, time, state);
    SameEnds(m, entries);
    MetaIds(t, s, state);
  }

  lemma {:induction false} SameEnds(m: Meta, entries: seq<Entry>)
    ensures entries != [] && EndsOk(m, entries) ==> EndsOk(m, [entries[0], entries[|entries| - 1]])
  {
  }

  lemma {:induction false} MetaIds(t: Table, s: Seg, state: SegState)
    ensures MetaOf(t, s, state).id == s.id && MetaOf(t, s, state).first == s.first
  {
    hide SegBytes;
  }

  /** An index that was saved for another table, another segment or another state of the segment does not open, nor does
      one that was cut or grew. */
  lemma {:induction false} StaleRefused(t: Table, m: Meta, file: seq<Byte>, t': Table, m': Meta, entries: seq<Entry>,
                                        block: seq<Byte>, definitions: U32)
    requires RecordFits(m') && |block| <= DICTIONARY_MOST && |entries| <= INDEX_MOST
    requires |file| >= 128 && |SaveIndex(t', m', entries, block, definitions)| >= 128
    requires file[..128] == SaveIndex(t', m', entries, block, definitions)[..128] && Opens(t, m, file)
    ensures t'.id == t.id && t'.schemaHash == t.schemaHash && t'.rowWidth == t.rowWidth
    ensures m'.id == m.id && m'.bytes == m.bytes && m'.first == m.first && m'.last == m.last
    ensures m'.minTime == m.minTime && m'.maxTime == m.maxTime && (entries == [] <==> m.last == 0)
    ensures |file| == 128 + 64 * |entries| + |block|
  {
    hide ReadHeader, HeaderBytesOf, Entries, Checksum, EndsAgree;
    var h := HeaderFor(t', m', |entries|, block, definitions);
    HeaderLength(h);
    HeaderIff(h, HeaderBytesOf(h));
    assert SaveIndex(t', m', entries, block, definitions)[..128] == HeaderBytesOf(h);
  }

  /** Nor does an index open whose entries do not begin with the first frame of the segment and end with its last
      one. */
  lemma {:induction false} OpenEnds(t: Table, m: Meta, entries: seq<Entry>, block: seq<Byte>, definitions: U32)
    requires RecordFits(m) && |block| <= DICTIONARY_MOST && 0 < |entries| <= INDEX_MOST
    requires Storable(entries[0]) && Storable(entries[|entries| - 1])
    requires Opens(t, m, SaveIndex(t, m, entries, block, definitions))
    ensures var first, last := entries[0], entries[|entries| - 1];
            && Believable(m, t.rowWidth, first) && Believable(m, t.rowWidth, last)
            && first.offset == 128 && first.first == m.first && first.minTime == m.minTime
            && last.offset + last.bytes == m.bytes && last.first + last.rows - 1 == m.last && last.maxTime == m.maxTime
  {
    hide ReadHeader, DecodeEntry, EntryBytes, HeaderBytesOf, Entries, Checksum, Believable, HeaderOk, Storable;
    var h := HeaderFor(t, m, |entries|, block, definitions);
    HeaderLength(h);
    EntriesLength(entries);
    HeaderIff(h, HeaderBytesOf(h));
    FileParts(HeaderBytesOf(h), Entries(entries), block, 0);
    SavedEntry(t, m, entries, block, definitions, 0);
    SavedEntry(t, m, entries, block, definitions, |entries| - 1);
  }

  /** What a saved index gives back at a position is what was saved there or nothing. */
  lemma {:induction false} SavedEntry(t: Table, m: Meta, entries: seq<Entry>, block: seq<Byte>, definitions: U32,
                                      k: nat)
    requires RecordFits(m) && |block| <= DICTIONARY_MOST && k < |entries| <= INDEX_MOST && Storable(entries[k])
    ensures |SaveIndex(t, m, entries, block, definitions)| == 128 + 64 * |entries| + |block|
    ensures var v := EntryOf(t, m, SaveIndex(t, m, entries, block, definitions), k);
            v.Some? ==> v.value == entries[k] && Believable(m, t.rowWidth, entries[k])
  {
    hide ReadHeader, ReadEntry, EntryBytes, HeaderBytesOf, Entries, Checksum, Believable, EntryOk, Storable;
    var h := HeaderFor(t, m, |entries|, block, definitions);
    HeaderLength(h);
    EntriesLength(entries);
    FileParts(HeaderBytesOf(h), Entries(entries), block, 64 * k);
    EntryPlace(entries, k);
    EntryLength(entries[k]);
    EntryIff(entries[k], EntryBytes(entries[k]));
    EntryTaken(m, t.rowWidth, entries[k]);
  }
}
