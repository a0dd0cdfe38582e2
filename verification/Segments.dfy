/** The segment header of src/storage/format.c. */
module Segments {
  import opened Bytes
  import opened Layout
  import opened Crc32c
  import opened Frames

  const SEGMENT_HEADER_BYTES: nat := 128
  const FORMAT_VERSION: nat := 1
  const SEGMENT_MAGIC: U64 := 0x3147_4553_4244_4157   // WADBSEG1

  datatype SegmentHeader = SegmentHeader(
    tableId: U64, segmentId: U64, schemaHash: U64, rowWidth: U32, dayStart: I64, firstSequence: U64)

  datatype Decoded = Ok(header: SegmentHeader) | Corrupt | Version

  /** What wadb_segment_encode demands of its values. */
  predicate SegmentValid(h: SegmentHeader) {
    && h.tableId != 0 && h.segmentId != 0 && h.firstSequence != 0
    && 0 < h.rowWidth <= MAX_ROW_BYTES && h.rowWidth % 8 == 0
    && h.dayStart >= 0 && h.dayStart % DAY_US == 0
  }

  /** Offsets 0, 8, 12, 16, 24, 32, 40, 44, 48, 56; sixty reserved bytes follow, then the checksum at 124. */
  const SEGMENT_WIDTHS: seq<nat> := [8, 4, 4, 8, 8, 8, 4, 4, 8, 8]

  lemma SegmentOffsets()
    ensures |SEGMENT_WIDTHS| == 10
    ensures Offset(SEGMENT_WIDTHS, 0) == 0 && Offset(SEGMENT_WIDTHS, 1) == 8 && Offset(SEGMENT_WIDTHS, 2) == 12
    ensures Offset(SEGMENT_WIDTHS, 3) == 16 && Offset(SEGMENT_WIDTHS, 4) == 24 && Offset(SEGMENT_WIDTHS, 5) == 32
    ensures Offset(SEGMENT_WIDTHS, 6) == 40 && Offset(SEGMENT_WIDTHS, 7) == 44 && Offset(SEGMENT_WIDTHS, 8) == 48
    ensures Offset(SEGMENT_WIDTHS, 9) == 56 && Offset(SEGMENT_WIDTHS, 10) == 64
  {
  }

  function SegmentValues(h: SegmentHeader): seq<nat>
    requires SegmentValid(h)
  {
    [SEGMENT_MAGIC, FORMAT_VERSION, SEGMENT_HEADER_BYTES, h.tableId, h.segmentId, h.schemaHash, h.rowWidth, 0,
     h.dayStart, h.firstSequence]
  }

  function EncodeSegment(h: SegmentHeader): seq<Byte>
    requires SegmentValid(h)
  {
    WithChecksum(Pack(SEGMENT_WIDTHS, SegmentValues(h)) + Zeros(60))
  }

  /** wadb_segment_decode. */
  function DecodeSegment(p: seq<Byte>): (r: Decoded)
    ensures r.Ok? ==> |p| == 128
  {
    if |p| != 128 || U64At(p, 0) != SEGMENT_MAGIC || !Sealed(p) then Corrupt
    else if U32At(p, 8) != FORMAT_VERSION then Version
    else if U32At(p, 12) != SEGMENT_HEADER_BYTES || U32At(p, 44) != 0 || !AllZero(p[64..124]) then Corrupt
    else
      var h := SegmentHeader(U64At(p, 16), U64At(p, 24), U64At(p, 32), U32At(p, 40), I64At(p, 48), U64At(p, 56));
      if SegmentValid(h) then Ok(h) else Corrupt
  }

  /** The checked fields, at the offsets the source writes them to. */
  predicate SegmentAt(h: SegmentHeader, p: seq<Byte>)
    requires SegmentValid(h) && |p| == 128
  {
    && At(p, 0, 8) == SEGMENT_MAGIC && At(p, 8, 4) == FORMAT_VERSION && At(p, 12, 4) == SEGMENT_HEADER_BYTES
    && At(p, 16, 8) == h.tableId && At(p, 24, 8) == h.segmentId && At(p, 32, 8) == h.schemaHash
    && At(p, 40, 4) == h.rowWidth && At(p, 44, 4) == 0 && At(p, 48, 8) == h.dayStart
    && At(p, 56, 8) == h.firstSequence
  }

  lemma SegmentFields(h: SegmentHeader, p: seq<Byte>)
    requires SegmentValid(h) && |p| == 128
    ensures SegmentAt(h, p) <==> p[..64] == Pack(SEGMENT_WIDTHS, SegmentValues(h))
  {
    hide Get, Put, Pack;
    var ws, vs := SEGMENT_WIDTHS, SegmentValues(h);
    SegmentOffsets();
    Spans();
    assert Fits(ws, vs) by {
      forall i | 0 <= i < 10 ensures vs[i] < Span(ws[i]) {
        assert ws[i] == 4 || ws[i] == 8;
      }
    }
    PackIffReads(ws, vs, p[..64]);
    forall i | 0 <= i < 10
      ensures ReadsField(ws, vs, p[..64], i) <==> Offset(ws, i) + ws[i] <= |p| && At(p, Offset(ws, i), ws[i]) == vs[i]
    {
      FieldInPrefix(ws, vs, p, i);
    }
    if Reads(ws, vs, p[..64]) {
      assert ReadsField(ws, vs, p[..64], 0) && ReadsField(ws, vs, p[..64], 1) && ReadsField(ws, vs, p[..64], 2);
      assert ReadsField(ws, vs, p[..64], 3) && ReadsField(ws, vs, p[..64], 4) && ReadsField(ws, vs, p[..64], 5);
      assert ReadsField(ws, vs, p[..64], 6) && ReadsField(ws, vs, p[..64], 7) && ReadsField(ws, vs, p[..64], 8);
      assert ReadsField(ws, vs, p[..64], 9);
    }
  }

  lemma SegmentParts(p: seq<Byte>, x: seq<Byte>)
    requires |p| == 128 && |x| == 64
    ensures p == WithChecksum(x + Zeros(60)) <==> p[..64] == x && AllZero(p[64..124]) && p == WithChecksum(p[..124])
  {
    hide Checksum;
    var y := x + Zeros(60);
    assert p[..124] == p[..64] + p[64..124];
    ChecksumPrefix(y, 0, 124);
    assert y[..124] == y && y[..64] == x && y[64..124] == Zeros(60);
    if p == WithChecksum(y) {
      assert p[..64] == p[..124][..64] && p[64..124] == p[..124][64..124];
    }
    if AllZero(p[64..124]) {
      assert p[64..124] == Zeros(60);
    }
  }

  lemma DecodeFields(h: SegmentHeader, p: seq<Byte>)
    requires |p| == 128
    ensures DecodeSegment(p) == Ok(h) <==>
            SegmentValid(h) && SegmentAt(h, p) && AllZero(p[64..124]) && Sealed(p)
  {
    hide Sealed, Get;
  }

  /** Segment headers decode to exactly the values they were encoded from, and nothing else decodes. */
  lemma SegmentIff(h: SegmentHeader, p: seq<Byte>)
    ensures DecodeSegment(p) == Ok(h) <==> SegmentValid(h) && p == EncodeSegment(h)
  {
    hide Checksum, Sealed, DecodeSegment, WithChecksum, Pack;
    if SegmentValid(h) {
      SegmentOffsets();
      PackLength(SEGMENT_WIDTHS, SegmentValues(h));
    }
    if |p| == 128 {
      DecodeFields(h, p);
      SealedIff(p);
      if SegmentValid(h) {
        SegmentFields(h, p);
        SegmentParts(p, Pack(SEGMENT_WIDTHS, SegmentValues(h)));
      }
    }
  }

  lemma HeaderSize(h: SegmentHeader)
    requires SegmentValid(h)
    ensures |EncodeSegment(h)| == 128
  {
    hide Checksum;
    SegmentOffsets();
    PackLength(SEGMENT_WIDTHS, SegmentValues(h));
    var x := Pack(SEGMENT_WIDTHS, SegmentValues(h));
    assert |x| == 64;
    assert |Zeros(60)| == 60;
    assert EncodeSegment(h) == WithChecksum(x + Zeros(60));
  }
}
