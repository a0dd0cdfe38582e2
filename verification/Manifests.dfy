/** The manifest file of src/storage/metadata.c: saving and loading undo each
    other, and loading accepts nothing else. */
module Manifests {
  import opened Bytes
  import opened Layout
  import opened Crc32c
  import opened Frames
  import Recovery
  import opened Segments

  type Meta = Recovery.Meta
  type Manifest = Recovery.Manifest

  const MAX_SEGMENTS: nat := 1_000_000
  const MANIFEST_MAGIC: U64 := 0x314e_414d_4244_4157   // WADBMAN1

  function StateCode(s: Recovery.SegState): (c: nat)
    ensures 1 <= c <= 3
  {
    match s case Active => 1 case Sealed => 2 case Retired => 3
  }

  function CodeState(c: nat): Option<Recovery.SegState> {
    if c == 1 then Some(Recovery.Active) else if c == 2 then Some(Recovery.Sealed)
    else if c == 3 then Some(Recovery.Retired) else None
  }

  // ---- one record ----

  /** Offsets 0, 8, 16, 24, 32, 40, 48, 56 and, reserved, 60. */
  const RECORD_WIDTHS: seq<nat> := [8, 8, 8, 8, 8, 8, 8, 4, 4]

  lemma RecordOffsets()
    ensures |RECORD_WIDTHS| == 9
    ensures Offset(RECORD_WIDTHS, 0) == 0 && Offset(RECORD_WIDTHS, 1) == 8 && Offset(RECORD_WIDTHS, 2) == 16
    ensures Offset(RECORD_WIDTHS, 3) == 24 && Offset(RECORD_WIDTHS, 4) == 32 && Offset(RECORD_WIDTHS, 5) == 40
    ensures Offset(RECORD_WIDTHS, 6) == 48 && Offset(RECORD_WIDTHS, 7) == 56 && Offset(RECORD_WIDTHS, 8) == 60
    ensures Offset(RECORD_WIDTHS, 9) == 64
  {
  }

  /** The C types of the record's fields, and times that are not negative. */
  predicate RecordStorable(s: Meta) {
    && s.day >= 0 && 0 <= s.last <= U64_MAX && 0 <= s.minTime <= I64_MAX && 0 <= s.maxTime <= I64_MAX
    && s.bytes <= I64_MAX
  }

  /** The C types alone. */
  predicate Typed(s: Meta) {
    && 0 <= s.last <= U64_MAX && I64_MIN <= s.minTime <= I64_MAX && I64_MIN <= s.maxTime <= I64_MAX
    && s.bytes <= U64_MAX
  }

  function RecordValues(s: Meta): seq<nat>
    requires RecordStorable(s)
  {
    [s.id, s.day, s.first, s.last, s.minTime, s.maxTime, s.bytes, StateCode(s.state), 0]
  }

  function RecordBytes(s: Meta): seq<Byte>
    requires RecordStorable(s)
  {
    Pack(RECORD_WIDTHS, RecordValues(s))
  }

  /** Reading a record; None for an unknown state or nonzero reserved bytes. */
  function ReadRecord(r: seq<Byte>): (out: Option<Meta>)
    requires |r| == 64
    ensures out.Some? ==> Typed(out.value)
  {
    var state := CodeState(U32At(r, 56));
    if state.None? || U32At(r, 60) != 0 then None
    else Some(Recovery.Meta(U64At(r, 0), I64At(r, 8), U64At(r, 16), U64At(r, 24), I64At(r, 32), I64At(r, 40),
                            U64At(r, 48), state.value))
  }

  predicate RecordAt(s: Meta, r: seq<Byte>)
    requires RecordStorable(s) && |r| == 64
  {
    && At(r, 0, 8) == s.id && At(r, 8, 8) == s.day && At(r, 16, 8) == s.first && At(r, 24, 8) == s.last
    && At(r, 32, 8) == s.minTime && At(r, 40, 8) == s.maxTime && At(r, 48, 8) == s.bytes
    && At(r, 56, 4) == StateCode(s.state) && At(r, 60, 4) == 0
  }

  lemma RecordFields(s: Meta, r: seq<Byte>)
    requires RecordStorable(s) && |r| == 64
    ensures RecordAt(s, r) <==> r == RecordBytes(s)
  {
    hide Get, Put, Pack;
    var ws, vs := RECORD_WIDTHS, RecordValues(s);
    RecordOffsets();
    Spans();
    assert Fits(ws, vs) by {
      forall i | 0 <= i < 9 ensures vs[i] < Span(ws[i]) {
        assert ws[i] == 4 || ws[i] == 8;
      }
    }
    PackIffReads(ws, vs, r);
    if Reads(ws, vs, r) {
      assert ReadsField(ws, vs, r, 0) && ReadsField(ws, vs, r, 1) && ReadsField(ws, vs, r, 2);
      assert ReadsField(ws, vs, r, 3) && ReadsField(ws, vs, r, 4) && ReadsField(ws, vs, r, 5);
      assert ReadsField(ws, vs, r, 6) && ReadsField(ws, vs, r, 7) && ReadsField(ws, vs, r, 8);
    }
  }

  /** A record with storable values reads back exactly when it is its own encoding. */
  lemma RecordIff(s: Meta, r: seq<Byte>)
    requires RecordStorable(s) && |r| == 64
    ensures ReadRecord(r) == Some(s) <==> r == RecordBytes(s)
  {
    hide Get, RecordBytes;
    RecordFields(s, r);
    Spans();
  }

  // ---- the list of records ----

  predicate AllStorable(metas: seq<Meta>) { forall i :: 0 <= i < |metas| ==> RecordStorable(metas[i]) }

  function RecordsBytes(metas: seq<Meta>): (r: seq<Byte>)
    requires AllStorable(metas)
  {
    if metas == [] then [] else RecordsBytes(metas[..|metas| - 1]) + RecordBytes(metas[|metas| - 1])
  }

  lemma RecordLength(s: Meta)
    requires RecordStorable(s)
    ensures |RecordBytes(s)| == 64
  {
    hide Pack;
    RecordOffsets();
    PackLength(RECORD_WIDTHS, RecordValues(s));
  }

  lemma {:induction false} RecordsLength(metas: seq<Meta>)
    requires AllStorable(metas)
    ensures |RecordsBytes(metas)| == 64 * |metas|
  {
    hide RecordBytes, RecordStorable;
    if metas != [] {
      RecordsLength(metas[..|metas| - 1]);
      RecordLength(metas[|metas| - 1]);
    }
  }

  /** The first n records of p. */
  function ReadRecords(p: seq<Byte>, n: nat): (r: Option<seq<Meta>>)
    requires 64 * n <= |p|
    ensures r.Some? ==> |r.value| == n && forall i :: 0 <= i < n ==> Typed(r.value[i])
  {
    if n == 0 then Some([])
    else
      var front, s := ReadRecords(p, n - 1), ReadRecord(p[64 * (n - 1)..64 * n]);
      if front.None? || s.None? then None else Some(front.value + [s.value])
  }

  lemma {:induction false} RecordsIff(metas: seq<Meta>, p: seq<Byte>)
    requires AllStorable(metas) && 64 * |metas| <= |p|
    ensures ReadRecords(p, |metas|) == Some(metas) <==> p[..64 * |metas|] == RecordsBytes(metas)
    decreases |metas|
  {
    hide RecordBytes, RecordStorable, ReadRecord;
    RecordsLength(metas);
    if metas != [] {
      var n := |metas| - 1;
      var front, s, a := metas[..n], metas[n], 64 * n;
      RecordsIff(front, p);
      RecordsLength(front);
      RecordIff(s, p[a..a + 64]);
      RecordLength(s);
      assert metas == front + [s];
      Splits(p, a, RecordsBytes(front), RecordBytes(s));
    }
  }

  lemma Splits(p: seq<Byte>, a: nat, x: seq<Byte>, y: seq<Byte>)
    requires a + 64 <= |p| && |x| == a && |y| == 64
    ensures p[..a + 64] == x + y <==> p[..a] == x && p[a..a + 64] == y
  {
    hide *;
    assert p[..a + 64] == p[..a] + p[a..a + 64];
    assert (x + y)[..a] == x && (x + y)[a..] == y;
    assert p[..a + 64][..a] == p[..a] && p[..a + 64][a..] == p[a..a + 64];
  }

  // ---- the whole file ----

  /** Offsets 0, 8, 12, 16, 24, 32, 40, 48, 56, 64, and three reserved words. */
  const MANIFEST_WIDTHS: seq<nat> := [8, 4, 4, 8, 8, 8, 8, 8, 8, 4, 4, 4, 4]

  lemma ManifestOffsets()
    ensures |MANIFEST_WIDTHS| == 13
    ensures Offset(MANIFEST_WIDTHS, 0) == 0 && Offset(MANIFEST_WIDTHS, 1) == 8 && Offset(MANIFEST_WIDTHS, 2) == 12
    ensures Offset(MANIFEST_WIDTHS, 3) == 16 && Offset(MANIFEST_WIDTHS, 4) == 24 && Offset(MANIFEST_WIDTHS, 5) == 32
    ensures Offset(MANIFEST_WIDTHS, 6) == 40 && Offset(MANIFEST_WIDTHS, 7) == 48 && Offset(MANIFEST_WIDTHS, 8) == 56
    ensures Offset(MANIFEST_WIDTHS, 9) == 64 && Offset(MANIFEST_WIDTHS, 10) == 68 && Offset(MANIFEST_WIDTHS, 11) == 72
    ensures Offset(MANIFEST_WIDTHS, 12) == 76 && Offset(MANIFEST_WIDTHS, 13) == 80
  {
  }

  /** The C types of a table's fields, and the limit on segments that saving enforces. */
  predicate Storable(m: Manifest) {
    && m.nextId <= U64_MAX && 0 <= m.preservedSequence <= U64_MAX && 0 <= m.preservedTime <= I64_MAX
    && m.retention <= I64_MAX && m.generation <= U64_MAX
    && |m.segments| <= MAX_SEGMENTS && AllStorable(m.segments)
  }

  function ManifestValues(id: U64, m: Manifest): seq<nat>
    requires Storable(m)
  {
    [MANIFEST_MAGIC, FORMAT_VERSION, 80, id, m.nextId, m.preservedSequence, m.preservedTime, m.retention, m.generation,
     |m.segments|, 0, 0, 0]
  }

  /** The bytes that wadb_save_manifest installs. */
  function SaveManifest(id: U64, m: Manifest): seq<Byte>
    requires Storable(m)
  {
    WithChecksum(Pack(MANIFEST_WIDTHS, ManifestValues(id, m)) + RecordsBytes(m.segments))
  }

  predicate EnvelopeOk(id: U64, p: seq<Byte>) {
    && |p| >= 84
    && U64At(p, 0) == MANIFEST_MAGIC && U32At(p, 8) == FORMAT_VERSION && U32At(p, 12) == 80 && U64At(p, 16) == id
    && U32At(p, 64) <= MAX_SEGMENTS && |p| == 84 + 64 * U32At(p, 64)
    && U32At(p, 68) == 0 && U32At(p, 72) == 0 && U32At(p, 76) == 0
  }

  /** wadb_load_manifest; None stands for CORRUPT and, after a good checksum, for VERSION. */
  function LoadManifest(id: U64, p: seq<Byte>): Option<Manifest> {
    if !EnvelopeOk(id, p) || !Sealed(p) then None
    else
      var segments := ReadRecords(p[80..|p| - 4], U32At(p, 64));
      if segments.None? then None
      else
        var m := Recovery.Manifest(U64At(p, 24), U64At(p, 32), I64At(p, 40), U64At(p, 48), U64At(p, 56),
                                   segments.value);
        if Recovery.ManifestLoads(m) then Some(m) else None
  }

  predicate ManifestAt(id: U64, m: Manifest, p: seq<Byte>)
    requires Storable(m) && |p| >= 84
  {
    && At(p, 0, 8) == MANIFEST_MAGIC && At(p, 8, 4) == FORMAT_VERSION && At(p, 12, 4) == 80 && At(p, 16, 8) == id
    && At(p, 24, 8) == m.nextId && At(p, 32, 8) == m.preservedSequence && At(p, 40, 8) == m.preservedTime
    && At(p, 48, 8) == m.retention && At(p, 56, 8) == m.generation && At(p, 64, 4) == |m.segments|
    && At(p, 68, 4) == 0 && At(p, 72, 4) == 0 && At(p, 76, 4) == 0
  }

  lemma ManifestFields(id: U64, m: Manifest, p: seq<Byte>)
    requires Storable(m) && |p| >= 84
    ensures ManifestAt(id, m, p) <==> p[..80] == Pack(MANIFEST_WIDTHS, ManifestValues(id, m))
  {
    hide Get, Put, Pack, AllStorable;
    var ws, vs := MANIFEST_WIDTHS, ManifestValues(id, m);
    ManifestOffsets();
    Spans();
    assert Fits(ws, vs) by {
      forall i | 0 <= i < 13 ensures vs[i] < Span(ws[i]) {
        assert ws[i] == 4 || ws[i] == 8;
      }
    }
    PackIffReads(ws, vs, p[..80]);
    forall i | 0 <= i < 13
      ensures ReadsField(ws, vs, p[..80], i) <==> Offset(ws, i) + ws[i] <= |p| && At(p, Offset(ws, i), ws[i]) == vs[i]
    {
      FieldInPrefix(ws, vs, p, i);
    }
    if Reads(ws, vs, p[..80]) {
      assert ReadsField(ws, vs, p[..80], 0) && ReadsField(ws, vs, p[..80], 1) && ReadsField(ws, vs, p[..80], 2);
      assert ReadsField(ws, vs, p[..80], 3) && ReadsField(ws, vs, p[..80], 4) && ReadsField(ws, vs, p[..80], 5);
      assert ReadsField(ws, vs, p[..80], 6) && ReadsField(ws, vs, p[..80], 7) && ReadsField(ws, vs, p[..80], 8);
      assert ReadsField(ws, vs, p[..80], 9) && ReadsField(ws, vs, p[..80], 10) && ReadsField(ws, vs, p[..80], 11);
      assert ReadsField(ws, vs, p[..80], 12);
    }
  }

  /** The manifest read field by field, given its records. */
  lemma LoadFields(id: U64, m: Manifest, p: seq<Byte>)
    requires Storable(m) && Recovery.ManifestLoads(m) && |p| == 84 + 64 * |m.segments|
    ensures LoadManifest(id, p) == Some(m) <==>
            ManifestAt(id, m, p) && ReadRecords(p[80..|p| - 4], |m.segments|) == Some(m.segments) && Sealed(p)
  {
    hide Get, Sealed, ReadRecords, AllStorable, Recovery.ManifestLoads;
    Spans();
  }

  lemma FileParts(p: seq<Byte>, x: seq<Byte>, y: seq<Byte>)
    requires |x| == 80 && |p| == 84 + |y|
    ensures p == WithChecksum(x + y) <==> p[..80] == x && p[80..|p| - 4] == y && p == WithChecksum(p[..|p| - 4])
  {
    hide Checksum;
    var n := |p| - 4;
    assert p[..n] == p[..80] + p[80..n];
    ChecksumPrefix(x + y, 0, n);
    assert (x + y)[..n] == x + y && (x + y)[..80] == x && (x + y)[80..] == y;
    if p == WithChecksum(x + y) {
      assert p[..80] == p[..n][..80] && p[80..n] == p[..n][80..];
    }
  }

  lemma LoadedStorable(id: U64, p: seq<Byte>)
    requires LoadManifest(id, p).Some?
    ensures Storable(LoadManifest(id, p).value)
    ensures Recovery.ManifestLoads(LoadManifest(id, p).value)
    ensures |p| == 84 + 64 * |LoadManifest(id, p).value.segments|
  {
    hide Get, Sealed;
    var m := LoadManifest(id, p).value;
    forall i | 0 <= i < |m.segments| ensures RecordStorable(m.segments[i]) {
      assert Recovery.MetaLoads(m, i);
    }
  }

  /** Loading a file yields m exactly when the file is what saving m writes and m passes the checks. */
  lemma LoadIff(id: U64, m: Manifest, p: seq<Byte>)
    ensures LoadManifest(id, p) == Some(m) <==> Storable(m) && Recovery.ManifestLoads(m) && p == SaveManifest(id, m)
  {
    hide Sealed, LoadManifest, WithChecksum, Pack, ReadRecords, RecordsBytes, AllStorable, Recovery.ManifestLoads,
         ManifestAt;
    if LoadManifest(id, p) == Some(m) {
      LoadedStorable(id, p);
    }
    if Storable(m) && Recovery.ManifestLoads(m) {
      ManifestOffsets();
      PackLength(MANIFEST_WIDTHS, ManifestValues(id, m));
      RecordsLength(m.segments);
      if |p| == 84 + 64 * |m.segments| {
        LoadFields(id, m, p);
        ManifestFields(id, m, p);
        SealedIff(p);
        var body := p[80..|p| - 4];
        RecordsIff(m.segments, body);
        assert body[..64 * |m.segments|] == body;
        FileParts(p, Pack(MANIFEST_WIDTHS, ManifestValues(id, m)), RecordsBytes(m.segments));
      }
    }
  }

  /** The loop of wadb_load_manifest, which carries the previous identifier and counts active records. */
  method CheckRecords(m: Manifest) returns (ok: bool)
    ensures ok == forall i :: 0 <= i < |m.segments| ==> Recovery.MetaLoads(m, i)
  {
    var previous, active, i := 0, 0, 0;
    while i < |m.segments|
      invariant 0 <= i <= |m.segments|
      invariant previous == if i == 0 then 0 else m.segments[i - 1].id
      invariant active == 0 || (active == 1 && i == |m.segments|)
      invariant forall k :: 0 <= k < i ==> Recovery.MetaLoads(m, k)
    {
      var s := m.segments[i];
      if s.state == Recovery.Active { active := active + 1; }
      if s.id <= previous || s.id >= m.nextId || s.day < 0 || s.day % DAY_US != 0 || s.first == 0 ||
         s.bytes < SEGMENT_HEADER_BYTES || s.bytes > I64_MAX ||
         (s.last != 0 && (s.last < s.first || s.minTime < s.day || s.maxTime < s.minTime ||
                          s.maxTime / DAY_US != s.day / DAY_US)) ||
         (s.last == 0 && (s.minTime != 0 || s.maxTime != 0 || s.bytes != SEGMENT_HEADER_BYTES)) ||
         (s.state == Recovery.Active && (active > 1 || i + 1 != |m.segments|))
      {
        assert !Recovery.MetaLoads(m, i);
        return false;
      }
      previous, i := s.id, i + 1;
    }
    return true;
  }
}
