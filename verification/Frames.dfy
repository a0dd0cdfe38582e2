/** The frame format of src/storage/format.c: a header, the definitions, the rows
    and a trailer, under two checksums. Every format refusal is the status CORRUPT, so a decoder
    answers None. Magic strings are written as the number that their eight bytes
    spell little-endian. */
module Frames {
  import opened Bytes
  import opened Layout
  import opened Crc32c
  import opened Utf8

  const MAX_FIELDS: nat := 256
  const MAX_ROW_BYTES: nat := 16384
  const MAX_FRAME_BYTES: nat := 1048576
  const MAX_STRING_BYTES: nat := 65536
  const FRAME_HEADER_BYTES: nat := 80
  const FRAME_TRAILER_BYTES: nat := 16
  const DAY_US: nat := 86_400_000_000

  const FRAME_MAGIC: U64 := 0x3154_4142_4244_4157   // WADBBAT1
  const END_MAGIC: U64 := 0x3144_4e45_4244_4157     // WADBEND1

  /** A frame as the encoder receives it; the byte counts are the lengths of the sequences. */
  datatype Frame = Frame(
    schemaHash: U64, firstSequence: U64, minTime: I64, maxTime: I64,
    rowCount: U32, rowWidth: U32, definitionCount: U32,
    definitions: seq<Byte>, rows: seq<Byte>)

  /** What inspecting a frame header yields. */
  datatype Header = Header(
    schemaHash: U64, firstSequence: U64, minTime: I64, maxTime: I64,
    rowCount: U32, rowWidth: U32, definitionCount: U32, definitionBytes: nat, frameBytes: nat)

  /** frame_sizes, without the total it also reports. */
  predicate SizesValid(h: Header) {
    && h.rowCount != 0 && h.rowWidth != 0 && h.rowWidth <= MAX_ROW_BYTES && h.rowWidth % 8 == 0
    && h.firstSequence != 0 && h.rowCount - 1 <= U64_MAX - h.firstSequence
    && 0 <= h.minTime <= h.maxTime && h.minTime / DAY_US == h.maxTime / DAY_US
    && h.definitionBytes % 8 == 0 && h.definitionBytes <= MAX_FRAME_BYTES
    && h.definitionCount <= h.definitionBytes / 12
    && (h.definitionCount == 0 ==> h.definitionBytes == 0)
    && TotalBytes(h) <= MAX_FRAME_BYTES
  }

  /** The bytes of some rows, which is their product; kept as a sum so that proofs stay linear. */
  function RowBytes(count: nat, width: nat): nat
    decreases count
  {
    if count == 0 then 0 else RowBytes(count - 1, width) + width
  }

  function TotalBytes(h: Header): nat {
    RowBytes(h.rowCount, h.rowWidth) + h.definitionBytes + FRAME_HEADER_BYTES + FRAME_TRAILER_BYTES
  }

  /** The definitions that a frame carries: count records of field, reserved, ID, length and text, then under eight zero
      bytes. */
  predicate DefinitionsValid(s: seq<Byte>, count: nat)
    decreases count
  {
    if count == 0 then |s| < 8 && AllZero(s)
    else DefinitionValid(s) && DefinitionsValid(s[12 + At(s, 8, 4)..], count - 1)
  }

  predicate AllZero(s: seq<Byte>) { forall i :: 0 <= i < |s| ==> s[i] == 0 }

  predicate DefinitionValid(s: seq<Byte>) {
    && |s| >= 12
    && 0 < At(s, 0, 2) < MAX_FIELDS
    && At(s, 2, 2) == 0
    && At(s, 4, 4) != 0
    && At(s, 8, 4) <= MAX_STRING_BYTES
    && At(s, 8, 4) <= |s| - 12
    && Utf8Octets(s[12..12 + At(s, 8, 4)])
  }

  /** times_valid: the row times start at minTime, never decrease and end at maxTime. */
  predicate TimesValid(f: Frame)
    requires f.rowWidth >= 8 && RowBytes(f.rowCount, f.rowWidth) == |f.rows|
  {
    && f.rowCount > 0
    && TimeAt(f, 0) == f.minTime
    && TimeAt(f, f.rowCount - 1) == f.maxTime
    && forall i, j :: 0 <= i <= j < f.rowCount ==> TimeAt(f, i) <= TimeAt(f, j)
  }

  function TimeAt(f: Frame, i: nat): I64
    requires f.rowWidth >= 8 && RowBytes(f.rowCount, f.rowWidth) == |f.rows| && i < f.rowCount
  {
    RowBytesMonotone(i + 1, f.rowCount, f.rowWidth);
    I64At(f.rows, RowBytes(i, f.rowWidth))
  }

  lemma {:induction false} RowBytesMonotone(i: nat, n: nat, width: nat)
    requires i <= n
    ensures RowBytes(i, width) <= RowBytes(n, width)
    decreases n
  {
    if i < n {
      RowBytesMonotone(i, n - 1, width);
    }
  }

  predicate ContentValid(f: Frame)
    requires f.rowWidth >= 8 && RowBytes(f.rowCount, f.rowWidth) == |f.rows|
  {
    DefinitionsValid(f.definitions, f.definitionCount) && TimesValid(f)
  }

  function U32At(s: seq<Byte>, at: nat): U32
    requires at + 4 <= |s|
  {
    Spans();
    At(s, at, 4)
  }

  function U64At(s: seq<Byte>, at: nat): U64
    requires at + 8 <= |s|
  {
    Spans();
    At(s, at, 8)
  }

  function I64At(s: seq<Byte>, at: nat): I64
    requires at + 8 <= |s|
  {
    Signed64(U64At(s, at))
  }

  /** The conditions under which wadb_frame_encode accepts a frame. */
  predicate FrameValid(f: Frame) {
    && SizesValid(HeaderOf(f))
    && RowBytes(f.rowCount, f.rowWidth) == |f.rows|
    && ContentValid(f)
  }

  function HeaderOf(f: Frame): Header {
    var h := Header(f.schemaHash, f.firstSequence, f.minTime, f.maxTime, f.rowCount, f.rowWidth,
                    f.definitionCount, |f.definitions|, 0);
    h.(frameBytes := TotalBytes(h))
  }

  // ---- bytes ----

  /** Offsets 0, 8, 12, 16, 20, 24, 32, 40, 48, 52, 56, 60, 64, and then 72 for the checksum and 76. */
  const HEADER_WIDTHS: seq<nat> := [8, 4, 4, 4, 4, 8, 8, 8, 4, 4, 4, 4, 8]

  lemma HeaderOffsets()
    ensures |HEADER_WIDTHS| == 13
    ensures Offset(HEADER_WIDTHS, 0) == 0 && Offset(HEADER_WIDTHS, 1) == 8 && Offset(HEADER_WIDTHS, 2) == 12
    ensures Offset(HEADER_WIDTHS, 3) == 16 && Offset(HEADER_WIDTHS, 4) == 20 && Offset(HEADER_WIDTHS, 5) == 24
    ensures Offset(HEADER_WIDTHS, 6) == 32 && Offset(HEADER_WIDTHS, 7) == 40 && Offset(HEADER_WIDTHS, 8) == 48
    ensures Offset(HEADER_WIDTHS, 9) == 52 && Offset(HEADER_WIDTHS, 10) == 56 && Offset(HEADER_WIDTHS, 11) == 60
    ensures Offset(HEADER_WIDTHS, 12) == 64 && Offset(HEADER_WIDTHS, 13) == 72
  {
  }

  function HeaderValues(h: Header): seq<nat>
    requires SizesValid(h)
  {
    [FRAME_MAGIC, h.frameBytes, FRAME_HEADER_BYTES, h.rowCount, h.rowWidth, h.firstSequence, h.minTime, h.maxTime,
     h.definitionBytes, h.definitionCount, FRAME_HEADER_BYTES + h.definitionBytes, 0, h.schemaHash]
  }

  function HeaderBytes(h: Header): seq<Byte>
    requires SizesValid(h)
  {
    WithChecksum(Pack(HEADER_WIDTHS, HeaderValues(h))) + Zeros(4)
  }

  function WithChecksum(s: seq<Byte>): (r: seq<Byte>)
    ensures |r| == |s| + 4
  {
    s + Put(Checksum(s), 4)
  }

  const TRAILER_WIDTHS: seq<nat> := [8, 4]

  /** The end mark and the repeated length. */
  function Trailer(n: nat): seq<Byte> { Pack(TRAILER_WIDTHS, [END_MAGIC, n]) }

  /** The bytes that wadb_frame_encode writes. */
  function EncodeFrame(f: Frame): seq<Byte>
    requires FrameValid(f)
  {
    WithChecksum(HeaderBytes(HeaderOf(f)) + f.definitions + f.rows + Trailer(HeaderOf(f).frameBytes))
  }

  /** wadb_frame_inspect. */
  function InspectFrame(p: seq<Byte>): (r: Option<Header>)
    ensures r.Some? ==> |p| >= 80 && SizesValid(r.value) && r.value.frameBytes == TotalBytes(r.value)
  {
    if |p| < 80 || U64At(p, 0) != FRAME_MAGIC || U32At(p, 12) != FRAME_HEADER_BYTES ||
       Checksum(p[..72]) != U32At(p, 72) || U32At(p, 60) != 0 || U32At(p, 76) != 0 then None
    else
      var h := Header(U64At(p, 64), U64At(p, 24), I64At(p, 32), I64At(p, 40), U32At(p, 16), U32At(p, 20),
                      U32At(p, 52), U32At(p, 48), U32At(p, 8));
      if !SizesValid(h) || TotalBytes(h) != h.frameBytes || U32At(p, 56) != FRAME_HEADER_BYTES + h.definitionBytes
      then None else Some(h)
  }

  /** The frame that a header and the bytes behind it describe. */
  function FrameIn(h: Header, p: seq<Byte>): (f: Frame)
    requires SizesValid(h) && |p| == TotalBytes(h)
    ensures f.rowWidth >= 8 && RowBytes(f.rowCount, f.rowWidth) == |f.rows|
  {
    var at := 80 + h.definitionBytes;
    Frame(h.schemaHash, h.firstSequence, h.minTime, h.maxTime, h.rowCount, h.rowWidth, h.definitionCount,
          p[80..at], p[at..|p| - 16])
  }

  /** The trailer: end mark, repeated length and checksum of everything before it. */
  predicate Closed(p: seq<Byte>) {
    |p| >= 16 && U64At(p, |p| - 16) == END_MAGIC && U32At(p, |p| - 8) == |p| && Sealed(p)
  }

  /** wadb_frame_decode. */
  function DecodeFrame(p: seq<Byte>): Option<Frame> {
    var h := InspectFrame(p);
    if h.None? || |p| != h.value.frameBytes || !Closed(p) then None
    else
      var f := FrameIn(h.value, p);
      if ContentValid(f) then Some(f) else None
  }

  // ---- the header undoes ----

  /** The thirteen checked header fields, at the offsets the source writes them to. */
  predicate HeaderAt(h: Header, p: seq<Byte>)
    requires SizesValid(h) && |p| >= 80
  {
    && At(p, 0, 8) == FRAME_MAGIC && At(p, 8, 4) == h.frameBytes && At(p, 12, 4) == FRAME_HEADER_BYTES
    && At(p, 16, 4) == h.rowCount && At(p, 20, 4) == h.rowWidth && At(p, 24, 8) == h.firstSequence
    && At(p, 32, 8) == h.minTime && At(p, 40, 8) == h.maxTime && At(p, 48, 4) == h.definitionBytes
    && At(p, 52, 4) == h.definitionCount && At(p, 56, 4) == FRAME_HEADER_BYTES + h.definitionBytes
    && At(p, 60, 4) == 0 && At(p, 64, 8) == h.schemaHash
  }

  lemma HeaderFields(h: Header, p: seq<Byte>)
    requires SizesValid(h) && |p| >= 80
    ensures HeaderAt(h, p) <==> Reads(HEADER_WIDTHS, HeaderValues(h), p[..72])
  {
    var ws, vs := HEADER_WIDTHS, HeaderValues(h);
    HeaderOffsets();
    forall i | 0 <= i < 13
      ensures ReadsField(ws, vs, p[..72], i) <==> Offset(ws, i) + ws[i] <= |p| && At(p, Offset(ws, i), ws[i]) == vs[i]
    {
      FieldInPrefix(ws, vs, p, i);
    }
    if HeaderAt(h, p) {
      forall i | 0 <= i < 13 ensures ReadsField(ws, vs, p[..72], i) {
      }
    }
    if Reads(ws, vs, p[..72]) {
      assert ReadsField(ws, vs, p[..72], 0) && ReadsField(ws, vs, p[..72], 1) && ReadsField(ws, vs, p[..72], 2);
      assert ReadsField(ws, vs, p[..72], 3) && ReadsField(ws, vs, p[..72], 4) && ReadsField(ws, vs, p[..72], 5);
      assert ReadsField(ws, vs, p[..72], 6) && ReadsField(ws, vs, p[..72], 7) && ReadsField(ws, vs, p[..72], 8);
      assert ReadsField(ws, vs, p[..72], 9) && ReadsField(ws, vs, p[..72], 10) && ReadsField(ws, vs, p[..72], 11);
      assert ReadsField(ws, vs, p[..72], 12);
    }
  }

  lemma HeaderFits(h: Header)
    requires SizesValid(h) && h.frameBytes == TotalBytes(h)
    ensures Fits(HEADER_WIDTHS, HeaderValues(h))
  {
    Spans();
    var ws, vs := HEADER_WIDTHS, HeaderValues(h);
    assert |ws| == 13 && |vs| == 13;
    forall i | 0 <= i < 13 ensures vs[i] < Span(ws[i]) {
      assert ws[i] == 4 || ws[i] == 8;
    }
  }

  lemma ChecksumTail(s: seq<Byte>, t: seq<Byte>)
    requires |t| == 4
    ensures s + t == WithChecksum(s) <==> Get(t) == Checksum(s)
  {
    hide Checksum;
    ChecksumBound(s);
    Spans();
    LastField(Checksum(s), 4, t);
    assert (s + t)[|s|..] == t && WithChecksum(s)[|s|..] == Put(Checksum(s), 4);
  }

  lemma ZeroField(t: seq<Byte>)
    requires |t| == 4
    ensures Get(t) == 0 <==> t == Zeros(4)
  {
    PutGet(t);
    Spans();
    PutZero(4);
    GetPut(0, 4);
  }

  lemma {:induction false} PutZero(w: nat)
    ensures Put(0, w) == Zeros(w)
  {
    if w > 0 {
      PutZero(w - 1);
    }
  }

  lemma HeaderParts(x: seq<Byte>, p: seq<Byte>)
    requires |x| == 72 && |p| >= 80
    ensures p[..80] == WithChecksum(x) + Zeros(4) <==>
            p[..72] == x && Get(p[72..76]) == Checksum(x) && Get(p[76..80]) == 0
  {
    hide Checksum;
    var crc, pad := p[72..76], p[76..80];
    ChecksumTail(x, crc);
    ZeroField(pad);
    assert p[..80] == p[..72] + crc + pad;
    var y := WithChecksum(x) + Zeros(4);
    assert y[..72] == x && y[..76] == WithChecksum(x) && y[76..] == Zeros(4);
    if p[..80] == y {
      assert p[..72] == y[..72] && p[..72] + crc == y[..76] && pad == y[76..];
    }
  }

  /** A header is accepted as h exactly when the first eighty bytes are the encoding of h. */
  lemma InspectIff(h: Header, p: seq<Byte>)
    requires SizesValid(h) && h.frameBytes == TotalBytes(h) && |p| >= 80
    ensures InspectFrame(p) == Some(h) <==> p[..80] == HeaderBytes(h)
  {
    var x := Pack(HEADER_WIDTHS, HeaderValues(h));
    HeaderFits(h);
    PackIffReads(HEADER_WIDTHS, HeaderValues(h), p[..72]);
    PackLength(HEADER_WIDTHS, HeaderValues(h));
    HeaderOffsets();
    HeaderFields(h, p);
    InspectFields(h, p);
    HeaderParts(x, p);
  }

  lemma InspectFields(h: Header, p: seq<Byte>)
    requires SizesValid(h) && h.frameBytes == TotalBytes(h) && |p| >= 80
    ensures InspectFrame(p) == Some(h) <==>
            HeaderAt(h, p) && Get(p[72..76]) == Checksum(p[..72]) && Get(p[76..80]) == 0
  {
    Spans();
  }

  // ---- frames undo ----

  lemma TrailerOffsets()
    ensures |TRAILER_WIDTHS| == 2
    ensures Offset(TRAILER_WIDTHS, 0) == 0 && Offset(TRAILER_WIDTHS, 1) == 8 && Offset(TRAILER_WIDTHS, 2) == 12
  {
  }

  lemma TrailerIff(n: U32, t: seq<Byte>)
    requires |t| == 12
    ensures t == Trailer(n) <==> At(t, 0, 8) == END_MAGIC && At(t, 8, 4) == n
  {
    Spans();
    TrailerOffsets();
    var vs: seq<nat> := [END_MAGIC, n];
    PackIffReads(TRAILER_WIDTHS, vs, t);
    if Reads(TRAILER_WIDTHS, vs, t) {
      assert ReadsField(TRAILER_WIDTHS, vs, t, 0) && ReadsField(TRAILER_WIDTHS, vs, t, 1);
    }
  }

  lemma TrailerLength(n: nat)
    ensures |Trailer(n)| == 12
  {
    TrailerOffsets();
    PackLength(TRAILER_WIDTHS, [END_MAGIC, n]);
  }

  lemma SealedIff(s: seq<Byte>)
    requires |s| >= 4
    ensures Sealed(s) <==> s == WithChecksum(s[..|s| - 4])
  {
    hide Checksum;
    assert s == s[..|s| - 4] + s[|s| - 4..];
    ChecksumTail(s[..|s| - 4], s[|s| - 4..]);
  }

  lemma TrailerAt(p: seq<Byte>)
    requires 16 <= |p| <= U32_MAX
    ensures p[|p| - 16..|p| - 4] == Trailer(|p|) <==> U64At(p, |p| - 16) == END_MAGIC && U32At(p, |p| - 8) == |p|
  {
    var n := |p|;
    TrailerIff(n, p[n - 16..n - 4]);
    AtMiddle(p, n - 16, n - 4, 0, 8);
    AtMiddle(p, n - 16, n - 4, 8, 4);
  }

  lemma SplitTail(p: seq<Byte>, t: seq<Byte>)
    requires |p| >= 16 && |t| == 12
    ensures p[|p| - 16..|p| - 4] == t <==> p[..|p| - 4] == p[..|p| - 16] + t
  {
    hide *;
    var n := |p|;
    assert p[..n - 4] == p[..n - 16] + p[n - 16..n - 4];
    assert (p[..n - 16] + t)[n - 16..] == t && p[..n - 4][n - 16..] == p[n - 16..n - 4];
  }

  /** A frame is closed exactly when its last sixteen bytes are the trailer of its own length and content. */
  lemma ClosedIff(p: seq<Byte>)
    requires 16 <= |p| <= U32_MAX
    ensures Closed(p) <==> p == WithChecksum(p[..|p| - 16] + Trailer(|p|))
  {
    hide Checksum, Trailer, Sealed, U64At, U32At, WithChecksum;
    var n := |p|;
    var x := p[..n - 16] + Trailer(n);
    TrailerAt(p);
    SealedIff(p);
    TrailerLength(n);
    SplitTail(p, Trailer(n));
    ChecksumPrefix(x, 0, |x|);
    assert x[..|x|] == x;
  }

  lemma EncodeLength(f: Frame)
    requires FrameValid(f)
    ensures |EncodeFrame(f)| == HeaderOf(f).frameBytes == TotalBytes(HeaderOf(f)) >= 96
  {
    hide Checksum;
    HeaderLength(HeaderOf(f));
    TrailerLength(HeaderOf(f).frameBytes);
  }

  lemma HeaderLength(h: Header)
    requires SizesValid(h)
    ensures |HeaderBytes(h)| == 80
  {
    HeaderOffsets();
    PackLength(HEADER_WIDTHS, HeaderValues(h));
  }

  lemma FourParts(a: seq<Byte>, b: seq<Byte>, c: seq<Byte>, d: seq<Byte>)
    ensures var s := a + b + c + d;
            && s[..|a|] == a && s[|a|..|a| + |b|] == b && s[|a| + |b|..|s| - |d|] == c && s[..|s| - |d|] == a + b + c
  {
    hide *;
  }

  lemma ChecksumPrefix(s: seq<Byte>, i: nat, j: nat)
    requires i <= j <= |s|
    ensures WithChecksum(s)[i..j] == s[i..j] && WithChecksum(s)[..j] == s[..j]
  {
    hide Checksum;
  }

  /** A string of the right length with the header, the parts and the trailer of a frame. */
  predicate Assembled(f: Frame, p: seq<Byte>)
    requires SizesValid(HeaderOf(f)) && |p| == HeaderOf(f).frameBytes
  {
    && p[..80] == HeaderBytes(HeaderOf(f))
    && FrameIn(HeaderOf(f), p) == f
    && p == WithChecksum(p[..|p| - 16] + Trailer(|p|))
  }

  lemma EncodeAssembles(f: Frame)
    requires FrameValid(f)
    ensures |EncodeFrame(f)| == HeaderOf(f).frameBytes && Assembled(f, EncodeFrame(f))
  {
    hide Checksum, HeaderBytes, Trailer, WithChecksum, SizesValid, ContentValid;
    var h := HeaderOf(f);
    EncodeLength(f);
    HeaderLength(h);
    TrailerLength(h.frameBytes);
    PartsOf(HeaderBytes(h), f.definitions, f.rows, Trailer(h.frameBytes));
    FrameInIff(f, EncodeFrame(f));
  }

  lemma PartsOf(a: seq<Byte>, b: seq<Byte>, c: seq<Byte>, d: seq<Byte>)
    requires |d| == 12
    ensures var p := WithChecksum(a + b + c + d);
            && |p| == |a| + |b| + |c| + 16
            && p[..|a|] == a && p[|a|..|a| + |b|] == b && p[|a| + |b|..|p| - 16] == c
            && p == WithChecksum(p[..|p| - 16] + d)
  {
    hide *;
    var s := a + b + c + d;
    FourParts(a, b, c, d);
    ChecksumPrefix(s, 0, |a|);
    ChecksumPrefix(s, |a|, |a| + |b|);
    ChecksumPrefix(s, |a| + |b|, |s| - 12);
    assert s == s[..|s| - 12] + d;
  }

  lemma AssembledEncodes(f: Frame, p: seq<Byte>)
    requires FrameValid(f) && |p| == HeaderOf(f).frameBytes && Assembled(f, p)
    ensures EncodeFrame(f) == p
  {
    hide Checksum, HeaderBytes, Trailer;
    var h, at := HeaderOf(f), 80 + |f.definitions|;
    FrameInIff(f, p);
    Rebuild(p, at, HeaderBytes(h), f.definitions, f.rows, Trailer(h.frameBytes));
  }

  lemma Rebuild(p: seq<Byte>, at: nat, a: seq<Byte>, b: seq<Byte>, c: seq<Byte>, d: seq<Byte>)
    requires 80 <= at <= |p| - 16 && p == WithChecksum(p[..|p| - 16] + d)
    requires p[..80] == a && p[80..at] == b && p[at..|p| - 16] == c
    ensures p == WithChecksum(a + b + c + d)
  {
    hide Checksum;
    assert p[..|p| - 16] == p[..80] + p[80..at] + p[at..|p| - 16];
  }

  lemma FrameInIff(f: Frame, p: seq<Byte>)
    requires SizesValid(HeaderOf(f)) && |p| == HeaderOf(f).frameBytes
    ensures var at := 80 + |f.definitions|;
            FrameIn(HeaderOf(f), p) == f <==> p[80..at] == f.definitions && p[at..|p| - 16] == f.rows
  {
  }

  lemma AssembledIff(f: Frame, p: seq<Byte>)
    requires SizesValid(HeaderOf(f)) && |p| == HeaderOf(f).frameBytes
    ensures Assembled(f, p) <==>
            InspectFrame(p) == Some(HeaderOf(f)) && Closed(p) && FrameIn(HeaderOf(f), p) == f
  {
    hide HeaderBytes, Trailer, InspectFrame, Closed;
    InspectIff(HeaderOf(f), p);
    ClosedIff(p);
  }

  /** Encoding a valid frame and decoding it gives the frame back. */
  lemma DecodeEncode(f: Frame)
    requires FrameValid(f)
    ensures DecodeFrame(EncodeFrame(f)) == Some(f)
  {
    hide EncodeFrame, InspectFrame, Closed;
    EncodeAssembles(f);
    AssembledIff(f, EncodeFrame(f));
  }

  /** Every byte string that decodes is the encoding of the valid frame it decodes to. */
  lemma EncodeDecode(p: seq<Byte>)
    requires DecodeFrame(p).Some?
    ensures FrameValid(DecodeFrame(p).value) && EncodeFrame(DecodeFrame(p).value) == p
  {
    hide EncodeFrame, InspectFrame, Closed;
    var h := InspectFrame(p).value;
    FrameInHeader(h, p);
    AssembledIff(FrameIn(h, p), p);
    AssembledEncodes(FrameIn(h, p), p);
  }

  lemma FrameInHeader(h: Header, p: seq<Byte>)
    requires SizesValid(h) && |p| == TotalBytes(h) == h.frameBytes
    ensures HeaderOf(FrameIn(h, p)) == h
  {
    hide Checksum;
  }

  lemma {:induction false} RowBytesProduct(count: nat, width: nat)
    ensures RowBytes(count, width) == count * width
  {
    if count > 0 {
      RowBytesProduct(count - 1, width);
      assert count * width == (count - 1) * width + width;
    }
  }

  /** What is known of a frame that the decoder lets through: at least one row, of a width within the limits, numbers
      and times within their ranges and in one UTC day, as many bytes as announced, and rows in order of their times. */
  lemma {:induction false} AcceptedFrame(p: seq<Byte>, f: Frame)
    requires DecodeFrame(p) == Some(f)
    ensures f.rowCount > 0 && 0 < f.rowWidth <= 16384 && f.rowWidth % 8 == 0
    ensures f.firstSequence > 0 && f.firstSequence + f.rowCount - 1 <= U64_MAX
    ensures 0 <= f.minTime <= f.maxTime && f.minTime / DAY_US == f.maxTime / DAY_US
    ensures |f.definitions| % 8 == 0 && 12 * f.definitionCount <= |f.definitions|
            && (f.definitionCount == 0 ==> f.definitions == [])
    ensures |f.rows| == f.rowCount * f.rowWidth && |p| == 96 + |f.definitions| + |f.rows| <= 0x10_0000
    ensures forall i :: 0 <= i < f.rowCount ==> 0 <= i * f.rowWidth && i * f.rowWidth + 8 <= |f.rows|
    ensures I64At(f.rows, 0) == f.minTime && I64At(f.rows, (f.rowCount - 1) * f.rowWidth) == f.maxTime
    ensures forall i, j :: 0 <= i <= j < f.rowCount ==>
              I64At(f.rows, i * f.rowWidth) <= I64At(f.rows, j * f.rowWidth)
  {
    hide DefinitionsValid, I64At, EncodeFrame, Closed, InspectFrame, RowBytes;
    EncodeDecode(p);
    EncodeLength(f);
    RowBytesProduct(f.rowCount, f.rowWidth);
    forall i | 0 <= i < f.rowCount
      ensures 0 <= i * f.rowWidth && i * f.rowWidth + 8 <= |f.rows| && TimeAt(f, i) == I64At(f.rows, i * f.rowWidth)
    {
      RowBytesMonotone(i + 1, f.rowCount, f.rowWidth);
      RowBytesProduct(i, f.rowWidth);
      RowBytesProduct(i + 1, f.rowWidth);
      assert (i + 1) * f.rowWidth == i * f.rowWidth + f.rowWidth;
    }
    forall i, j | 0 <= i <= j < f.rowCount ensures I64At(f.rows, i * f.rowWidth) <= I64At(f.rows, j * f.rowWidth) {
      assert TimeAt(f, i) <= TimeAt(f, j);
    }
  }

  /** Changing an accepted frame inside any four neighbouring bytes makes it unacceptable. */
  lemma CorruptionRejected(s: seq<Byte>, t: seq<Byte>, i: nat)
    requires DecodeFrame(s).Some? && |t| == |s| && t != s
    requires i + 4 <= |s| && s[..i] == t[..i] && s[i + 4..] == t[i + 4..]
    ensures DecodeFrame(t).None?
  {
    if DecodeFrame(t).Some? {
      BurstDetected(s, t, i);
    }
  }

  /** In particular, one changed byte is always caught. */
  lemma ByteChangeRejected(s: seq<Byte>, k: nat, b: Byte)
    requires DecodeFrame(s).Some? && k < |s| && s[k] != b
    ensures DecodeFrame(s[k := b]).None?
  {
    var i := if k + 4 <= |s| then k else |s| - 4;
    ChangeInWindow(s, k, b, i);
    CorruptionRejected(s, s[k := b], i);
  }

  lemma ChangeInWindow(s: seq<Byte>, k: nat, b: Byte, i: nat)
    requires i <= k < i + 4 <= |s| && s[k] != b
    ensures var t := s[k := b];
            t != s && |t| == |s| && s[..i] == t[..i] && s[i + 4..] == t[i + 4..]
  {
    assert s[k := b][k] == b;
  }

  // ---- the loops of the validity checks and of the encoder ----

  /** dictionary_valid. */
  method CheckDefinitions(s: seq<Byte>, count: nat) returns (valid: bool)
    ensures valid == DefinitionsValid(s, count)
  {
    hide Utf8Octets, Get;
    var offset, i := 0, 0;
    while i < count
      invariant 0 <= i <= count && 0 <= offset <= |s|
      invariant DefinitionsValid(s, count) == DefinitionsValid(s[offset..], count - i)
    {
      if !DefinitionValid(s[offset..]) { return false; }
      var length := At(s[offset..], 8, 4);
      assert s[offset..][12 + length..] == s[offset + 12 + length..];
      offset, i := offset + 12 + length, i + 1;
    }
    return |s| - offset < 8 && AllZero(s[offset..]);
  }

  /** times_valid. */
  method CheckTimes(f: Frame) returns (valid: bool)
    requires f.rowWidth >= 8 && RowBytes(f.rowCount, f.rowWidth) == |f.rows| && f.rowCount > 0
    ensures valid == TimesValid(f)
  {
    hide TimeAt;
    var previous, i := f.minTime, 0;
    while i < f.rowCount
      invariant 0 <= i <= f.rowCount
      invariant f.minTime <= previous
      invariant i == 0 ==> previous == f.minTime
      invariant i > 0 ==> TimeAt(f, 0) == f.minTime && TimeAt(f, i - 1) == previous && previous <= f.maxTime
      invariant forall j, k :: 0 <= j <= k < i ==> TimeAt(f, j) <= TimeAt(f, k)
    {
      var time := TimeAt(f, i);
      ghost var before := if i > 0 then TimeAt(f, i - 1) else time;
      ghost var last := TimeAt(f, f.rowCount - 1);
      if time < previous || time > f.maxTime || (i == 0 && time != f.minTime) {
        return false;
      }
      previous, i := time, i + 1;
    }
    return previous == f.maxTime;
  }

  /** Store the checksum of the first n bytes behind them. */
  method Seal(buf: array<Byte>, n: nat)
    requires n + 4 <= buf.Length
    modifies buf
    ensures buf[..n + 4] == WithChecksum(old(buf[..n]))
    ensures forall i :: n + 4 <= i < buf.Length ==> buf[i] == old(buf[i])
  {
    hide Checksum;
    ghost var body := buf[..n];
    PutAt(buf, n, Checksum(buf[..n]), 4);
    assert buf[..n + 4] == body + buf[n..n + 4];
  }

  /** A packed record at the start of a buffer, and its checksum behind it. */
  method WriteSealed(buf: array<Byte>, ws: seq<nat>, vs: seq<nat>)
    requires |ws| == |vs| && Offset(ws, |ws|) + 4 <= buf.Length
    modifies buf
    ensures buf[..Offset(ws, |ws|) + 4] == WithChecksum(Pack(ws, vs))
    ensures forall i :: Offset(ws, |ws|) + 4 <= i < buf.Length ==> buf[i] == old(buf[i])
  {
    hide Checksum;
    var n := Offset(ws, |ws|);
    PackInto(buf, 0, ws, vs);
    assert buf[..n] == buf[0..n];
    Seal(buf, n);
  }

  method WriteHeader(buf: array<Byte>, h: Header)
    requires SizesValid(h) && buf.Length >= 80
    requires forall i :: 0 <= i < buf.Length ==> buf[i] == 0
    modifies buf
    ensures buf[..80] == HeaderBytes(h)
  {
    hide Checksum;
    HeaderOffsets();
    WriteSealed(buf, HEADER_WIDTHS, HeaderValues(h));
    assert buf[76..80] == Zeros(4);
    assert buf[..80] == buf[..76] + buf[76..80];
  }

  method WriteTrailer(buf: array<Byte>)
    requires 16 <= buf.Length <= U32_MAX
    modifies buf
    ensures buf[..] == WithChecksum(old(buf[..buf.Length - 16]) + Trailer(buf.Length))
  {
    hide Checksum, WithChecksum, Pack;
    var total := buf.Length;
    ghost var front := buf[..total - 16];
    ghost var t := Trailer(total);
    TrailerOffsets();
    PackInto(buf, total - 16, TRAILER_WIDTHS, [END_MAGIC, total]);
    assert buf[..total - 16] == front && buf[total - 16..total - 4] == t;
    assert buf[..total - 4] == buf[..total - 16] + buf[total - 16..total - 4];
    Seal(buf, total - 4);
    assert buf[..] == buf[..total];
  }

  /** The checks at the head of wadb_frame_encode. */
  method CheckFrame(f: Frame) returns (valid: bool)
    ensures valid == FrameValid(f)
  {
    if !SizesValid(HeaderOf(f)) || RowBytes(f.rowCount, f.rowWidth) != |f.rows| { return false; }
    var definitionsValid := CheckDefinitions(f.definitions, f.definitionCount);
    var timesValid := CheckTimes(f);
    return definitionsValid && timesValid;
  }

  /** The two memcpy calls between header and trailer. */
  method WriteBody(buf: array<Byte>, definitions: seq<Byte>, rows: seq<Byte>)
    requires buf.Length == 96 + |definitions| + |rows|
    modifies buf
    ensures buf[..buf.Length - 16] == old(buf[..80]) + definitions + rows
  {
    ghost var head := buf[..80];
    CopyAt(buf, 80, definitions);
    CopyAt(buf, 80 + |definitions|, rows);
    assert buf[..80] == head;
    var at, end := 80 + |definitions|, buf.Length - 16;
    assert buf[80..at] == definitions;
    assert buf[..end] == buf[..80] + buf[80..at] + buf[at..end];
  }

  /** wadb_frame_encode: fill a zeroed buffer field by field; the frame is refused exactly when it is not valid. */
  method FrameEncode(f: Frame) returns (out: Option<seq<Byte>>)
    ensures out.Some? <==> FrameValid(f)
    ensures out.Some? ==> out.value == EncodeFrame(f)
  {
    var valid := CheckFrame(f);
    if !valid { return None; }
    var h := HeaderOf(f);
    var buf := new Byte[h.frameBytes](i => 0);
    WriteHeader(buf, h);
    WriteBody(buf, f.definitions, f.rows);
    WriteTrailer(buf);
    return Some(buf[..]);
  }
}
