/** Time buckets (src/query/plan.c:19-27 and 106-117, src/query/query.c:295-305). */
module Buckets {
  import opened Bytes

  /** The remainder of C: it has the sign of the dividend. */
  function Remainder(a: int, b: int): int
    requires b > 0
  {
    if a >= 0 then a % b else 0 - ((0 - a) % b)
  }

  /** wadb_bucket_floor; None when the boundary would be below the smallest timestamp. */
  function BucketFloor(time: I64, width: I64, origin: I64): Option<I64>
    requires width > 0
  {
    var a := Nonnegative(time, width);
    var b := Nonnegative(origin, width);
    var distance := if a >= b then a - b else width - (b - a);
    if time < I64_MIN + distance then None else Some(time - distance)
  }

  function Nonnegative(x: int, width: int): (a: int)
    requires width > 0
    ensures 0 <= a < width
  {
    var a := Remainder(x, width);
    if a < 0 then a + width else a
  }

  // ---- arithmetic ----

  lemma {:induction false} OneQuotient(w: int, q: int, r: int, p: int, s: int)
    requires w > 0 && w * q + r == w * p + s && 0 <= r < w && 0 <= s < w
    ensures q == p && r == s
  {
    if q > p { Further(w, p, q); }
    if q < p { Further(w, q, p); }
  }

  lemma {:induction false} Further(w: int, p: int, q: int)
    requires w > 0 && p < q
    ensures w * q >= w * p + w
    decreases q - p
  {
    assert w * q == w * (q - 1) + w;
    if p < q - 1 { Further(w, p, q - 1); }
  }

  /** The only way to split a number into a multiple and a remainder. */
  lemma {:induction false} Split(x: int, w: int, q: int, r: int)
    requires w > 0 && x == w * q + r && 0 <= r < w
    ensures x % w == r && x / w == q
  {
    OneQuotient(w, q, r, x / w, x % w);
  }

  /** The C remainder, made nonnegative, is the mathematical one. */
  lemma {:induction false} NonnegativeMod(x: int, w: int)
    requires w > 0
    ensures Nonnegative(x, w) == x % w
  {
    if x < 0 {
      var y := 0 - x;
      var q, r := y / w, y % w;
      assert y == w * q + r;
      if r == 0 { Negated(w, q); Split(x, w, 0 - q, 0); }
      else { Negated(w, q + 1); assert w * (q + 1) == w * q + w; Split(x, w, 0 - (q + 1), w - r); }
    }
  }

  lemma {:induction false} Negated(w: int, q: int)
    ensures w * (0 - q) == 0 - w * q
  {
  }

  /** A boundary: a time that differs from the origin by whole widths. */
  predicate Boundary(t: int, width: int, origin: int)
    requires width > 0
  {
    (t - origin) % width == 0
  }

  lemma {:induction false} Distance(time: int, origin: int, w: int)
    requires w > 0
    ensures var a, b := time % w, origin % w;
            (time - origin) % w == if a >= b then a - b else w - (b - a)
  {
    var a, b, p, q := time % w, origin % w, time / w, origin / w;
    assert time == w * p + a && origin == w * q + b;
    assert w * (p - q) == w * p - w * q;
    if a >= b { Split(time - origin, w, p - q, a - b); }
    else { assert w * (p - q - 1) == w * (p - q) - w; Split(time - origin, w, p - q - 1, w - (b - a)); }
  }

  lemma {:induction false} LessMultiple(x: int, w: int)
    requires w > 0
    ensures (x - x % w) % w == 0
  {
    Split(x - x % w, w, x / w, 0);
  }

  /** The boundary at or before a time, wherever it is. */
  function FloorOf(time: int, width: int, origin: int): int
    requires width > 0
  {
    time - (time - origin) % width
  }

  lemma {:induction false} FloorOfIs(time: int, width: int, origin: int)
    requires width > 0
    ensures FloorOf(time, width, origin) <= time < FloorOf(time, width, origin) + width
            && Boundary(FloorOf(time, width, origin), width, origin)
  {
    LessMultiple(time - origin, width);
    assert FloorOf(time, width, origin) - origin == (time - origin) - (time - origin) % width;
  }

  /** The floor is that boundary; there is none only when it is below the smallest timestamp. */
  lemma {:induction false} FloorIs(time: I64, width: I64, origin: I64)
    requires width > 0
    ensures var f, b := BucketFloor(time, width, origin), FloorOf(time, width, origin);
            && (f.None? <==> b < I64_MIN) && (f.Some? ==> f.value == b)
            && b <= time < b + width && Boundary(b, width, origin)
  {
    hide Remainder, Boundary;
    NonnegativeMod(time, width);
    NonnegativeMod(origin, width);
    Distance(time, origin, width);
    FloorOfIs(time, width, origin);
  }

  /** Boundaries less than a width apart are the same, so the floor is the only such boundary. */
  lemma {:induction false} BoundaryUnique(x: int, y: int, width: int, origin: int)
    requires width > 0 && Boundary(x, width, origin) && Boundary(y, width, origin) && x <= y < x + width
    ensures x == y
  {
    var p, q := (x - origin) / width, (y - origin) / width;
    assert x - origin == width * p && y - origin == width * q;
    OneQuotient(width, p, y - x, q, 0);
  }

  // ---- all buckets of an interval ----

  /** Boundary number k after a first one. */
  function Nth(first: int, width: int, k: nat): int { if k == 0 then first else Nth(first, width, k - 1) + width }

  lemma {:induction false} NthIs(first: int, width: int, k: nat)
    ensures Nth(first, width, k) == first + width * k
    decreases k
  {
    if k > 0 { NthIs(first, width, k - 1); }
  }

  lemma {:induction false} NthBoundary(first: int, width: int, origin: int, k: nat)
    requires width > 0 && Boundary(first, width, origin)
    ensures Boundary(Nth(first, width, k), width, origin)
    decreases k
  {
    if k > 0 {
      NthBoundary(first, width, origin, k - 1);
      var x := Nth(first, width, k - 1) - origin;
      assert x == width * (x / width);
      assert width * (x / width + 1) == width * (x / width) + width;
      Split(x + width, width, x / width + 1, 0);
    }
  }

  /** The number of whole widths between two boundaries. */
  lemma {:induction false} Between(first: int, y: int, width: int, origin: int)
    requires width > 0 && Boundary(first, width, origin) && Boundary(y, width, origin) && first <= y
    ensures (y - first) / width >= 0 && Nth(first, width, (y - first) / width) == y
  {
    var p, q := (first - origin) / width, (y - origin) / width;
    assert first - origin == width * p && y - origin == width * q;
    assert width * (q - p) == width * q - width * p;
    Split(y - first, width, q - p, 0);
    if q < p { Further(width, q, p); }
    NthIs(first, width, q - p);
  }

  datatype Plan = Buckets(first: I64, count: nat) | Refused

  /** How many widths lie between two boundaries, by unsigned arithmetic. */
  function Steps(first: I64, last: I64, width: I64): nat
    requires width > 0
  {
    (Wrap64(last) - Wrap64(first)) % 0x1_0000_0000_0000_0000 / width
  }

  /** The bucket part of wadb_query_compile: the first bucket and how many there are, or a refusal. */
  function PlanBuckets(start: I64, end: I64, width: I64, origin: I64, most: nat): Plan
    requires width > 0 && start < end
  {
    var first, last := BucketFloor(start, width, origin), BucketFloor(end - 1, width, origin);
    if first.None? || last.None? then Refused
    else
      var n := Steps(first.value, last.value, width);
      if n >= most then Refused else Buckets(first.value, n + 1)
  }

  lemma {:induction false} Unwrapped(a: I64, b: I64)
    requires a <= b
    ensures (Wrap64(b) - Wrap64(a)) % 0x1_0000_0000_0000_0000 == b as int - a
  {
  }

  /** Planning is refused exactly when the floor of the start is below the smallest timestamp, or when one more bucket
      than allowed would begin before the end. */
  lemma {:induction false} RefusedIff(start: I64, end: I64, width: I64, origin: I64, most: nat)
    requires width > 0 && start < end
    ensures var first := FloorOf(start, width, origin);
            PlanBuckets(start, end, width, origin, most).Refused? <==> first < I64_MIN || Nth(first, width, most) < end
  {
    hide BucketFloor, Nth, Boundary, FloorOf;
    FloorIs(start, width, origin);
    FloorIs(end - 1, width, origin);
    if BucketFloor(start, width, origin).Some? {
      FloorsOrdered(start, end - 1, width, origin);
      var first: int, last: int := BucketFloor(start, width, origin).value, BucketFloor(end - 1, width, origin).value;
      Unwrapped(first, last);
      Between(first, last, width, origin);
      var n: nat := (last - first) / width;
      if n < most { NthGrows(first, width, n, most); }
      if most < n { NthGrows(first, width, most, n); }
    }
  }

  /** The planned buckets are the floors of the interval's times: every time falls into one of them, none of them is
      without such a time, and none is out of range. */
  lemma {:induction false} PlannedBuckets(start: I64, end: I64, width: I64, origin: I64, most: nat)
    requires width > 0 && start < end && PlanBuckets(start, end, width, origin, most).Buckets?
    ensures var p := PlanBuckets(start, end, width, origin, most);
            && 0 < p.count <= most
            && (forall t: I64 :: start <= t < end ==> FloorAmong(t, width, origin, p))
            && (forall k :: 0 <= k < p.count ==> IsFloor(Nth(p.first, width, k), start, end, width, origin))
  {
    hide BucketFloor, Nth, Boundary, FloorOf;
    var p := PlanBuckets(start, end, width, origin, most);
    FloorIs(start, width, origin);
    FloorIs(end - 1, width, origin);
    var first, last := p.first, BucketFloor(end - 1, width, origin).value;
    FloorsOrdered(start, end - 1, width, origin);
    Unwrapped(first, last);
    Between(first, last, width, origin);
    forall t: I64 | start <= t < end ensures FloorAmong(t, width, origin, p) {
      TimeFalls(start, end, width, origin, most, t);
    }
    forall k | 0 <= k < p.count ensures IsFloor(Nth(first, width, k), start, end, width, origin) {
      BucketUsed(start, end, width, origin, most, k);
    }
  }

  /** The time has a floor, and it is one of the planned buckets. */
  ghost predicate FloorAmong(t: I64, width: I64, origin: I64, p: Plan)
    requires width > 0 && p.Buckets?
  {
    var f := BucketFloor(t, width, origin);
    f.Some? && exists k: nat :: k < p.count && Nth(p.first, width, k) == f.value
  }

  ghost predicate IsFloor(b: int, start: I64, end: I64, width: I64, origin: I64)
    requires width > 0
  {
    I64_MIN <= b <= I64_MAX && exists t: I64 :: start <= t < end && BucketFloor(t, width, origin) == Some(b)
  }

  lemma {:induction false} FloorsOrdered(s: I64, t: I64, width: I64, origin: I64)
    requires width > 0 && s <= t && BucketFloor(s, width, origin).Some?
    ensures BucketFloor(t, width, origin).Some? && BucketFloor(s, width, origin).value <= BucketFloor(t, width,
        origin).value
  {
    hide BucketFloor, FloorOf, Boundary;
    FloorIs(s, width, origin);
    FloorIs(t, width, origin);
    var x, y := FloorOf(s, width, origin), FloorOf(t, width, origin);
    if y < x { BoundaryUnique(y, x, width, origin); }
  }

  lemma {:induction false} QuotientMonotone(x: int, y: int, w: int)
    requires w > 0 && 0 <= x <= y
    ensures 0 <= x / w <= y / w
  {
    if x / w > y / w { Further(w, y / w, x / w); }
  }

  lemma {:induction false} TimeFalls(start: I64, end: I64, width: I64, origin: I64, most: nat, t: I64)
    requires width > 0 && start <= t < end && PlanBuckets(start, end, width, origin, most).Buckets?
    ensures FloorAmong(t, width, origin, PlanBuckets(start, end, width, origin, most))
  {
    hide BucketFloor, Nth, Boundary, FloorOf;
    FloorsOrdered(start, t, width, origin);
    FloorsOrdered(t, end - 1, width, origin);
    FloorIs(start, width, origin);
    FloorIs(t, width, origin);
    var first: int, f: int, last: int := BucketFloor(start, width, origin).value, BucketFloor(t, width, origin).value,
        BucketFloor(end - 1, width, origin).value;
    Unwrapped(first, last);
    QuotientMonotone(f - first, last - first, width);
    Between(first, f, width, origin);
    assert Nth(first, width, (f - first) / width) == f;
  }

  lemma {:induction false} NthGrows(first: int, width: int, i: nat, j: nat)
    requires width > 0 && i < j
    ensures Nth(first, width, i) + width <= Nth(first, width, j)
    decreases j
  {
    if i < j - 1 { NthGrows(first, width, i, j - 1); }
  }

  lemma {:induction false} BucketUsed(start: I64, end: I64, width: I64, origin: I64, most: nat, k: nat)
    requires width > 0 && start < end && PlanBuckets(start, end, width, origin, most).Buckets?
             && k < PlanBuckets(start, end, width, origin, most).count
    ensures IsFloor(Nth(PlanBuckets(start, end, width, origin, most).first, width, k), start, end, width, origin)
  {
    hide BucketFloor, Boundary, FloorOf;
    var p := PlanBuckets(start, end, width, origin, most);
    FloorIs(start, width, origin);
    FloorIs(end - 1, width, origin);
    FloorsOrdered(start, end - 1, width, origin);
    var first: int, last: int := p.first, BucketFloor(end - 1, width, origin).value;
    Unwrapped(first, last);
    Between(first, last, width, origin);
    var b := Nth(first, width, k);
    if k < p.count - 1 { NthGrows(first, width, k, p.count - 1); }
    if k == 0 {
      assert BucketFloor(start, width, origin) == Some(b);
    } else {
      NthGrows(first, width, 0, k);
      NthBoundary(first, width, origin, k);
      SelfFloor(b, width, origin);
      assert start <= b < end;
    }
  }

  /** A boundary is its own floor. */
  lemma {:induction false} SelfFloor(b: I64, width: I64, origin: I64)
    requires width > 0 && Boundary(b, width, origin)
    ensures BucketFloor(b, width, origin) == Some(b)
  {
    hide BucketFloor, FloorOf;
    FloorIs(b, width, origin);
    BoundaryUnique(FloorOf(b, width, origin), b, width, origin);
  }

  /** The loop that makes a group for every bucket before any row is read: no addition leaves the range of
      timestamps. */
  method BucketKeys(start: I64, end: I64, width: I64, origin: I64, most: nat) returns (keys: seq<I64>)
    requires width > 0 && start < end && PlanBuckets(start, end, width, origin, most).Buckets?
    ensures |keys| == PlanBuckets(start, end, width, origin, most).count
    ensures forall k :: 0 <= k < |keys| ==> keys[k] == Nth(PlanBuckets(start, end, width, origin, most).first, width, k)
  {
    hide PlanBuckets, BucketFloor, IsFloor;
    var p := PlanBuckets(start, end, width, origin, most);
    PlannedBuckets(start, end, width, origin, most);
    keys := [];
    var i: nat, bucket: I64 := 0, p.first;
    while i < p.count
      invariant 0 <= i <= p.count && |keys| == i && (i < p.count ==> bucket == Nth(p.first, width, i))
      invariant forall k :: 0 <= k < i ==> keys[k] == Nth(p.first, width, k)
    {
      keys := keys + [bucket];
      if i + 1 < p.count {
        assert IsFloor(Nth(p.first, width, i + 1), start, end, width, origin);
        InRange(Nth(p.first, width, i + 1), start, end, width, origin);
        bucket := bucket + width;
      }
      i := i + 1;
    }
  }

  lemma {:induction false} InRange(b: int, start: I64, end: I64, width: I64, origin: I64)
    requires width > 0 && IsFloor(b, start, end, width, origin)
    ensures I64_MIN <= b <= I64_MAX
  {
  }
}
