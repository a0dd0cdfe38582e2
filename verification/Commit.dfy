/** Committing a group of append requests (src/storage/segments.c:274-424): gather the
    rows, number their symbols, and append a frame to the active segment or to a new
    one. What the disk does is given by the parameters of the call. */
module Commit {
  import opened Bytes
  import opened Layout
  import opened Frames
  import opened Symbols
  import opened Definitions
  import opened Dictionaries
  import opened Replay
  import opened Schemas
  import opened RowCodec
  import opened RowEncoder
  import opened SymbolRows

  const MAX_INDEX_ENTRIES: nat := 65536

  /** An append request as the writer receives it: rows encoded at time zero with placeholder numbers, and the values
      they encode. */
  datatype Request = Request(time: I64, bytes: seq<Byte>, values: seq<seq<Value>>)

  function LinesAt(values: seq<seq<Value>>, time: I64, done: nat): (r: seq<Line>)
    ensures |r| == |values| && forall k :: 0 <= k < |r| ==> r[k] == Line(if k < done then time else 0, values[k])
  {
    seq(|values|, k requires 0 <= k < |values| => Line(if k < done then time else 0, values[k]))
  }

  ghost predicate Prepared(s: Schema, r: Request)
    requires Built(s)
  {
    r.values != [] && RowsEncode(s, r.bytes, LinesAt(r.values, r.time, 0), Upto([], 0))
  }

  /** The rows of a group in order, each with its request's time. */
  function Lines(requests: seq<Request>): seq<Line> {
    if requests == [] then []
    else Lines(requests[..|requests| - 1]) + LinesAt(requests[|requests| - 1].values, requests[|requests| - 1].time,
                                                     |requests[|requests| - 1].values|)
  }

  // ---- gathering ----

  lemma {:induction false} RowBytesAdd(m: nat, n: nat, w: nat)
    ensures RowBytes(m + n, w) == RowBytes(m, w) + RowBytes(n, w)
    decreases n
  {
    if n > 0 { RowBytesAdd(m, n - 1, w); }
  }

  lemma LeftPart(a: seq<Byte>, b: seq<Byte>, x: nat, y: nat)
    requires x <= y <= |a|
    ensures (a + b)[x..y] == a[x..y]
  {
    hide *;
  }

  lemma RightPart(a: seq<Byte>, b: seq<Byte>, x: nat, y: nat)
    requires x <= y <= |b|
    ensures (a + b)[|a| + x..|a| + y] == b[x..y]
  {
    hide *;
  }

  lemma RowsConcat(s: Schema, a: seq<Byte>, la: seq<Line>, b: seq<Byte>, lb: seq<Line>, sym: SymbolRelation)
    requires Built(s) && RowsEncode(s, a, la, sym) && RowsEncode(s, b, lb, sym)
    ensures RowsEncode(s, a + b, la + lb, sym)
  {
    hide Built, Encodes;
    var w := s.rowWidth;
    RowBytesAdd(|la|, |lb|, w);
    forall r | 0 <= r < |la + lb| ensures RowEncodes(s, a + b, la + lb, r, sym) {
      RowBytesMonotone(r + 1, |la + lb|, w);
      if r < |la| {
        assert RowEncodes(s, a, la, r, sym);
        RowBytesMonotone(r + 1, |la|, w);
        LeftPart(a, b, RowBytes(r, w), RowBytes(r, w) + w);
      } else {
        assert RowEncodes(s, b, lb, r - |la|, sym);
        RowBytesAdd(|la|, r - |la|, w);
        RowBytesMonotone(r - |la| + 1, |lb|, w);
        RightPart(a, b, RowBytes(r - |la|, w), RowBytes(r - |la|, w) + w);
      }
    }
  }

  /** A row whose time is overwritten encodes the same values at the new time. */
  lemma Restamped(s: Schema, a: seq<Byte>, b: seq<Byte>, was: I64, time: I64, values: seq<Value>, sym: SymbolRelation)
    requires Built(s) && Encodes(s, a, was, values, sym) && SameOutside(a, b, 0, 8) && |b| >= 8
             && b[..8] == Put(Wrap64(time), 8)
    ensures Encodes(s, b, time, values, sym)
  {
    hide Built, SlotIs, Put, End, Bit, Slot;
    BitmapInRow(s);
    SamePart(a, b, 0, 8, End(s), |a|);
    assert a[End(s)..|a|] == a[End(s)..] && b[End(s)..|a|] == b[End(s)..];
    forall k | 0 <= k < 8 * s.nullBytes ensures NullBit(s, a, k) == NullBit(s, b, k) { }
    forall i | 0 < i < |s.fields| ensures FieldIs(s, b, i, ValueOf(values, i), sym) {
      assert FieldIs(s, a, i, ValueOf(values, i), sym);
      SlotInRow(s, i);
      SlotAfterTime(s, a, b, i);
      if s.fields[i].nullable { NullBits(s, i, i); }
    }
  }

  lemma SlotAfterTime(s: Schema, a: seq<Byte>, b: seq<Byte>, i: nat)
    requires Built(s) && |a| == s.rowWidth && SameOutside(a, b, 0, 8) && 0 < i < |s.fields|
    ensures Slot(s, a, i) == Slot(s, b, i)
  {
    hide Built;
    SlotInRow(s, i);
    SamePart(a, b, 0, 8, s.fields[i].offset, s.fields[i].offset + s.fields[i].width);
  }

  lemma StampedRow(s: Schema, a: seq<Byte>, b: seq<Byte>, values: seq<seq<Value>>, time: I64, j: nat)
    requires Built(s) && j < |values| && RowsEncode(s, a, LinesAt(values, time, j), Upto([], 0)) && |b| == |a|
    requires var at := RowBytes(j, s.rowWidth);
             at + 8 <= |a| && SameOutside(a, b, at, at + 8) && b[at..at + 8] == Put(Wrap64(time), 8)
    ensures RowsEncode(s, b, LinesAt(values, time, j + 1), Upto([], 0))
  {
    hide Built, Encodes, Put, Upto;
    var w, at, la, lb := s.rowWidth, RowBytes(j, s.rowWidth), LinesAt(values, time, j), LinesAt(values, time, j + 1);
    WideEnough(s);
    RowBytesMonotone(j + 1, |values|, w);
    forall r | 0 <= r < |lb| ensures RowEncodes(s, b, lb, r, Upto([], 0)) {
      assert RowEncodes(s, a, la, r, Upto([], 0));
      RowBytesMonotone(r + 1, |values|, w);
      if r == j {
        var x, y := RowAt(a, w, j), RowAt(b, w, j);
        assert y[..8] == b[at..at + 8];
        Restamped(s, x, y, la[j].time, time, values[j], Upto([], 0));
      } else {
        if r < j { RowBytesMonotone(r + 1, j, w); } else { RowBytesMonotone(j + 1, r, w); }
        SamePart(a, b, at, at + 8, RowBytes(r, w), RowBytes(r, w) + w);
      }
    }
  }

  lemma WideEnough(s: Schema)
    requires Built(s)
    ensures s.rowWidth >= 8
  {
    BitmapInRow(s);
  }

  /** The time stores for one request, over its copied rows. */
  method Stamp(s: Schema, buf: array<Byte>, at: nat, values: seq<seq<Value>>, time: I64)
    requires Built(s) && at + RowBytes(|values|, s.rowWidth) <= buf.Length
    requires RowsEncode(s, buf[at..at + RowBytes(|values|, s.rowWidth)], LinesAt(values, time, 0), Upto([], 0))
    modifies buf
    ensures RowsEncode(s, buf[at..at + RowBytes(|values|, s.rowWidth)], LinesAt(values, time, |values|), Upto([], 0))
    ensures forall i :: 0 <= i < buf.Length && !(at <= i < at + RowBytes(|values|, s.rowWidth)) ==>
              buf[i] == old(buf[i])
  {
    hide Built, RowsEncode, Put, Upto, LinesAt;
    ghost var n := RowBytes(|values|, s.rowWidth);
    WideEnough(s);
    var j, p := 0, at;
    while j < |values|
      invariant 0 <= j <= |values| && p == at + RowBytes(j, s.rowWidth)
      invariant RowsEncode(s, buf[at..at + n], LinesAt(values, time, j), Upto([], 0))
      invariant forall i :: 0 <= i < buf.Length && !(at <= i < at + n) ==> buf[i] == old(buf[i])
    {
      RowBytesMonotone(j + 1, |values|, s.rowWidth);
      ghost var was := buf[at..at + n];
      PutAt(buf, p, Wrap64(time), 8);
      PartOfPart(buf[..], at, at + n, p - at, p - at + 8);
      assert buf[..][at..at + n] == buf[at..at + n] && buf[..][p..p + 8] == buf[p..p + 8];
      StampedRow(s, was, buf[at..at + n], values, time, j);
      j, p := j + 1, p + s.rowWidth;
    }
  }

  lemma LinesNext(requests: seq<Request>, i: nat)
    requires i < |requests|
    ensures Lines(requests[..i + 1]) == Lines(requests[..i]) + LinesAt(requests[i].values, requests[i].time,
        |requests[i].values|)
  {
    assert requests[..i + 1][..i] == requests[..i];
  }

  lemma {:induction false} LinesGrow(requests: seq<Request>, i: nat)
    requires i <= |requests|
    ensures |Lines(requests[..i])| <= |Lines(requests)|
  {
    if i < |requests| {
      var front := requests[..|requests| - 1];
      LinesGrow(front, i);
      assert front[..i] == requests[..i];
    } else {
      assert requests[..i] == requests;
    }
  }

  lemma NoLines(s: Schema, sym: SymbolRelation)
    requires Built(s)
    ensures Lines([]) == [] && RowsEncode(s, [], [], sym)
  {
  }

  /** The bytes of all rows. */
  method GroupBytes(s: Schema, requests: seq<Request>) returns (total: nat)
    requires Built(s) && forall i :: 0 <= i < |requests| ==> Prepared(s, requests[i])
    ensures total == RowBytes(|Lines(requests)|, s.rowWidth)
  {
    hide Built, RowEncodes, LinesAt, Lines, Upto;
    total := 0;
    NoLines(s, Upto([], 0));
    assert requests[..0] == [];
    for i := 0 to |requests|
      invariant total == RowBytes(|Lines(requests[..i])|, s.rowWidth)
    {
      assert Prepared(s, requests[i]);
      LinesNext(requests, i);
      RowBytesAdd(|Lines(requests[..i])|, |requests[i].values|, s.rowWidth);
      total := total + |requests[i].bytes|;
    }
    assert requests[..|requests|] == requests;
  }

  /** One request's rows, copied behind those already in the buffer and stamped. */
  method PlaceRequest(s: Schema, buf: array<Byte>, at: nat, r: Request, ghost lines: seq<Line>)
    requires Built(s) && Prepared(s, r) && at + |r.bytes| <= buf.Length && RowsEncode(s, buf[..at], lines, Upto([], 0))
    modifies buf
    ensures RowsEncode(s, buf[..at + |r.bytes|], lines + LinesAt(r.values, r.time, |r.values|), Upto([], 0))
  {
    hide Built, RowEncodes, Upto, LinesAt;
    ghost var done := buf[..at];
    CopyAt(buf, at, r.bytes);
    Stamp(s, buf, at, r.values, r.time);
    assert buf[..at] == done;
    ghost var part := buf[at..at + |r.bytes|];
    assert buf[..at + |r.bytes|] == done + part;
    RowsConcat(s, done, lines, part, LinesAt(r.values, r.time, |r.values|), Upto([], 0));
  }

  /** Copying and stamping the requests' rows into one buffer. */
  method Gather(s: Schema, requests: seq<Request>) returns (buf: array<Byte>)
    requires Built(s) && forall i :: 0 <= i < |requests| ==> Prepared(s, requests[i])
    ensures fresh(buf) && RowsEncode(s, buf[..], Lines(requests), Upto([], 0))
  {
    hide Built, RowEncodes, Upto, LinesAt, Lines;
    var total := GroupBytes(s, requests);
    buf := new Byte[total](i => 0);
    var at, i := 0, 0;
    NoLines(s, Upto([], 0));
    assert requests[..0] == [] && buf[..0] == [];
    while i < |requests|
      invariant 0 <= i <= |requests| && at == RowBytes(|Lines(requests[..i])|, s.rowWidth) <= buf.Length
      invariant RowsEncode(s, buf[..at], Lines(requests[..i]), Upto([], 0))
    {
      var r := requests[i];
      assert Prepared(s, r);
      LinesNext(requests, i);
      LinesGrow(requests, i + 1);
      RowBytesAdd(|Lines(requests[..i])|, |r.values|, s.rowWidth);
      RowBytesMonotone(|Lines(requests[..i + 1])|, |Lines(requests)|, s.rowWidth);
      PlaceRequest(s, buf, at, r, Lines(requests[..i]));
      at, i := at + |r.bytes|, i + 1;
    }
    assert requests[..|requests|] == requests;
    assert buf[..at] == buf[..];
  }
}
