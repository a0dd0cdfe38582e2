/** Fixed records of little-endian fields, the shape shared by segment headers,
    frame headers, index entries and manifest records. */
module Layout {
  import opened Bytes

  /** Where field i starts when fields of the given widths are packed. */
  function Offset(ws: seq<nat>, i: nat): nat
    requires i <= |ws|
  {
    if i == 0 then 0 else Offset(ws, i - 1) + ws[i - 1]
  }

  /** The packed bytes of the fields. */
  function Pack(ws: seq<nat>, vs: seq<nat>): seq<Byte>
    requires |ws| == |vs|
  {
    if ws == [] then [] else Pack(ws[..|ws| - 1], vs[..|vs| - 1]) + Put(vs[|vs| - 1], ws[|ws| - 1])
  }

  predicate Fits(ws: seq<nat>, vs: seq<nat>) {
    |ws| == |vs| && forall i :: 0 <= i < |ws| ==> vs[i] < Span(ws[i])
  }

  /** The number read at an offset, as the wadb_get functions read it. */
  function At(s: seq<Byte>, at: nat, w: nat): nat
    requires at + w <= |s|
  {
    Get(s[at..at + w])
  }

  /** Reading each field at its offset gives the listed values. */
  predicate Reads(ws: seq<nat>, vs: seq<nat>, s: seq<Byte>)
    requires |ws| == |vs|
  {
    && |s| == Offset(ws, |ws|)
    && forall i :: 0 <= i < |ws| ==> ReadsField(ws, vs, s, i)
  }

  predicate ReadsField(ws: seq<nat>, vs: seq<nat>, s: seq<Byte>, i: nat)
    requires |ws| == |vs| && i < |ws|
  {
    Offset(ws, i) + ws[i] <= |s| && At(s, Offset(ws, i), ws[i]) == vs[i]
  }

  lemma {:induction false} OffsetPrefix(ws: seq<nat>, n: nat, i: nat)
    requires i <= n <= |ws|
    ensures Offset(ws[..n], i) == Offset(ws, i)
    decreases i
  {
    if i > 0 {
      OffsetPrefix(ws, n, i - 1);
    }
  }

  lemma {:induction false} OffsetMonotone(ws: seq<nat>, i: nat, j: nat)
    requires i <= j <= |ws|
    ensures Offset(ws, i) <= Offset(ws, j)
    decreases j
  {
    if i < j {
      OffsetMonotone(ws, i, j - 1);
    }
  }

  lemma {:induction false} PackLength(ws: seq<nat>, vs: seq<nat>)
    requires |ws| == |vs|
    ensures |Pack(ws, vs)| == Offset(ws, |ws|)
    decreases |ws|
  {
    if ws != [] {
      var n := |ws| - 1;
      PackLength(ws[..n], vs[..n]);
      OffsetPrefix(ws, n, n);
    }
  }

  /** Packing and reading undo each other: a record reads as the values exactly when it is their packing. */
  lemma {:induction false} PackIffReads(ws: seq<nat>, vs: seq<nat>, s: seq<Byte>)
    requires Fits(ws, vs)
    ensures s == Pack(ws, vs) <==> Reads(ws, vs, s)
    decreases |ws|
  {
    PackLength(ws, vs);
    if ws != [] && |s| == Offset(ws, |ws|) {
      var n := |ws| - 1;
      var m := Offset(ws, n);
      var front, last := s[..m], s[m..];
      OffsetPrefix(ws, n, n);
      PackIffReads(ws[..n], vs[..n], front);
      PackLength(ws[..n], vs[..n]);
      LastField(vs[n], ws[n], last);
      assert s == front + last;
      assert s[m..m + ws[n]] == last;
      ReadsFront(ws, vs, s);
      assert ReadsField(ws, vs, s, n) <==> At(s, m, ws[n]) == vs[n];
      if s == Pack(ws, vs) {
        assert front == Pack(ws[..n], vs[..n]) && last == Put(vs[n], ws[n]);
      }
    }
  }

  lemma LastField(v: nat, w: nat, s: seq<Byte>)
    requires v < Span(w) && |s| == w
    ensures s == Put(v, w) <==> Get(s) == v
  {
    GetPut(v, w);
    PutGet(s);
  }

  lemma ReadsFront(ws: seq<nat>, vs: seq<nat>, s: seq<Byte>)
    requires |ws| == |vs| && ws != [] && |s| == Offset(ws, |ws|)
    ensures var n := |ws| - 1;
            && Offset(ws, n) <= |s|
            && (Reads(ws[..n], vs[..n], s[..Offset(ws, n)]) <==>
                forall i :: 0 <= i < n ==> ReadsField(ws, vs, s, i))
  {
    var n := |ws| - 1;
    var m := Offset(ws, n);
    OffsetPrefix(ws, n, n);
    forall i | 0 <= i < n
      ensures ReadsField(ws[..n], vs[..n], s[..m], i) <==> ReadsField(ws, vs, s, i)
    {
      OffsetPrefix(ws, n, i);
      OffsetMonotone(ws, i + 1, n);
      var at := Offset(ws, i);
      assert s[..m][at..at + ws[i]] == s[at..at + ws[i]];
    }
  }

  lemma FieldWithin(ws: seq<nat>, i: nat)
    requires i < |ws|
    ensures Offset(ws, i) + ws[i] <= Offset(ws, |ws|)
  {
    OffsetMonotone(ws, i + 1, |ws|);
  }

  /** Fields can be read from any string that starts with the record. */
  lemma FieldInPrefix(ws: seq<nat>, vs: seq<nat>, p: seq<Byte>, i: nat)
    requires |ws| == |vs| && i < |ws| && Offset(ws, |ws|) <= |p|
    ensures Offset(ws, i) + ws[i] <= |p|
    ensures ReadsField(ws, vs, p[..Offset(ws, |ws|)], i) <==> At(p, Offset(ws, i), ws[i]) == vs[i]
  {
    FieldWithin(ws, i);
    AtPrefix(p, Offset(ws, |ws|), Offset(ws, i), ws[i]);
  }

  lemma AtPrefix(p: seq<Byte>, n: nat, at: nat, w: nat)
    requires at + w <= n <= |p|
    ensures At(p[..n], at, w) == At(p, at, w)
  {
    assert p[..n][at..at + w] == p[at..at + w];
  }

  lemma AtSuffix(p: seq<Byte>, n: nat, at: nat, w: nat)
    requires n <= |p| && n + at + w <= |p|
    ensures At(p[n..], at, w) == At(p, n + at, w)
  {
    assert p[n..][at..at + w] == p[n + at..n + at + w];
  }

  lemma AtMiddle(p: seq<Byte>, a: nat, b: nat, at: nat, w: nat)
    requires a <= b <= |p| && at + w <= b - a
    ensures At(p[a..b], at, w) == At(p, a + at, w)
  {
    assert p[a..b] == p[..b][a..];
    AtSuffix(p[..b], a, at, w);
    AtPrefix(p, b, a + at, w);
  }

  /** A run of wadb_put calls: the fields of a record, one after the other, from an offset on. */
  method PackInto(buf: array<Byte>, at: nat, ws: seq<nat>, vs: seq<nat>)
    requires |ws| == |vs| && at + Offset(ws, |ws|) <= buf.Length
    modifies buf
    ensures buf[at..at + Offset(ws, |ws|)] == Pack(ws, vs)
    ensures forall i :: 0 <= i < buf.Length && !(at <= i < at + Offset(ws, |ws|)) ==> buf[i] == old(buf[i])
  {
    hide Pack, Put;
    PackNone(ws, vs);
    var k, p := 0, at;
    while k < |ws|
      invariant 0 <= k <= |ws| && p == at + Offset(ws, k) <= at + Offset(ws, |ws|)
      invariant buf[at..p] == Pack(ws[..k], vs[..k])
      invariant forall i :: 0 <= i < buf.Length && !(at <= i < p) ==> buf[i] == old(buf[i])
    {
      FieldWithin(ws, k);
      ghost var before := buf[at..p];
      PutAt(buf, p, vs[k], ws[k]);
      assert buf[at..p] == before;
      assert buf[at..p + ws[k]] == buf[at..p] + buf[p..p + ws[k]];
      PackNext(ws, vs, k);
      p, k := p + ws[k], k + 1;
    }
    assert ws[..k] == ws && vs[..k] == vs;
  }

  lemma PackNone(ws: seq<nat>, vs: seq<nat>)
    requires |ws| == |vs|
    ensures Pack(ws[..0], vs[..0]) == []
  {
  }

  lemma PackNext(ws: seq<nat>, vs: seq<nat>, k: nat)
    requires |ws| == |vs| && k < |ws|
    ensures Pack(ws[..k + 1], vs[..k + 1]) == Pack(ws[..k], vs[..k]) + Put(vs[k], ws[k])
  {
    assert ws[..k + 1][..k] == ws[..k] && vs[..k + 1][..k] == vs[..k];
  }
}
