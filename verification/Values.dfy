/** Values of query columns and their order (src/query/plan.c:8-18), with the part of a
    key that its hash sees (src/query/query.c:100-115). A floating-point value is a real
    number with a sign for zero: rounding plays no part in comparing. */
module Values {
  import opened Bytes

  datatype Value = Null | Int(i: I64) | Uint(u: U64) | Float(r: real, negative: bool) | Data(bytes: seq<Byte>)

  /** Values of one column: null or of one kind. */
  predicate Comparable(a: Value, b: Value) {
    a.Null? || b.Null? || (a.Int? && b.Int?) || (a.Uint? && b.Uint?) || (a.Float? && b.Float?) || (a.Data? && b.Data?)
  }

  function Sign(less: bool, more: bool): int { (if more then 1 else 0) - (if less then 1 else 0) }

  /** memcmp over the common length, then the lengths. */
  function CompareBytes(a: seq<Byte>, b: seq<Byte>): int {
    if a == [] || b == [] then Sign(a == [] && b != [], a != [] && b == [])
    else if a[0] != b[0] then Sign(a[0] < b[0], a[0] > b[0])
    else CompareBytes(a[1..], b[1..])
  }

  /** wadb_value_compare: nulls are last. */
  function Compare(a: Value, b: Value): int
    requires Comparable(a, b)
  {
    if a.Null? || b.Null? then Sign(b.Null? && !a.Null?, a.Null? && !b.Null?)
    else match a
      case Data(x) => CompareBytes(x, b.bytes)
      case Int(x) => Sign(x < b.i, x > b.i)
      case Float(x, _) => Sign(x < b.r, x > b.r)
      case Uint(x) => Sign(x < b.u, x > b.u)
      case Null => 0
  }

  lemma {:induction false} BytesOrder(a: seq<Byte>, b: seq<Byte>, c: seq<Byte>)
    ensures CompareBytes(a, b) == 0 - CompareBytes(b, a)
    ensures CompareBytes(a, b) == 0 <==> a == b
    ensures CompareBytes(a, b) <= 0 && CompareBytes(b, c) <= 0 ==> CompareBytes(a, c) <= 0
    decreases |a|
  {
    if a == [] || b == [] {
      if a == [] && b != [] && c != [] && CompareBytes(b, c) <= 0 { }
    } else {
      if a[0] == b[0] {
        assert a == [a[0]] + a[1..] && b == [b[0]] + b[1..];
      }
      BytesOrder(a[1..], b[1..], if c == [] then [] else c[1..]);
    }
  }

  // ---- what comparing means ----

  /** Equal up to position k, where x ends or has the smaller byte. */
  predicate Sooner(x: seq<Byte>, y: seq<Byte>, k: nat) {
    k <= |x| && k < |y| && x[..k] == y[..k] && (k == |x| || x[k] < y[k])
  }

  /** x is below y: as numbers, or as strings at their first difference; nulls are above all else. */
  ghost predicate Below(x: Value, y: Value)
    requires Comparable(x, y)
  {
    if x.Null? || y.Null? then !x.Null? && y.Null?
    else if x.Int? then x.i < y.i
    else if x.Uint? then x.u < y.u
    else if x.Float? then x.r < y.r
    else exists k :: Sooner(x.bytes, y.bytes, k)
  }

  /** The same number or string, whatever the sign of a zero; or both null. */
  predicate Alike(x: Value, y: Value)
    requires Comparable(x, y)
  {
    if x.Null? || y.Null? then x.Null? && y.Null?
    else if x.Int? then x.i == y.i
    else if x.Uint? then x.u == y.u
    else if x.Float? then x.r == y.r
    else x.bytes == y.bytes
  }

  lemma {:induction false} SoonerHead(x: seq<Byte>, y: seq<Byte>, k: nat)
    requires Sooner(x, y, k)
    ensures k > 0 ==> x != [] && y != [] && x[0] == y[0]
  {
    if k > 0 { assert x[..k][0] == y[..k][0]; }
  }

  lemma {:induction false} BytesMean(x: seq<Byte>, y: seq<Byte>)
    ensures CompareBytes(x, y) < 0 <==> exists k :: Sooner(x, y, k)
    decreases |x|
  {
    if y != [] && (x == [] || x[0] != y[0]) {
      assert CompareBytes(x, y) < 0 <==> Sooner(x, y, 0);
      forall k: nat | Sooner(x, y, k) ensures k == 0 {
        SoonerHead(x, y, k);
      }
    } else if y != [] {
      BytesMean(x[1..], y[1..]);
      if k: nat :| Sooner(x[1..], y[1..], k) {
        assert x[..k + 1] == [x[0]] + x[1..][..k] && y[..k + 1] == [y[0]] + y[1..][..k];
        assert Sooner(x, y, k + 1);
      }
      if k: nat :| Sooner(x, y, k) {
        assert k > 0;
        assert x[1..][..k - 1] == x[..k][1..] && y[1..][..k - 1] == y[..k][1..];
        assert Sooner(x[1..], y[1..], k - 1);
      }
    }
  }

  /** The sign of a comparison says which value is below the other, and zero that they are alike. */
  lemma {:induction false} CompareMeans(x: Value, y: Value)
    requires Comparable(x, y)
    ensures Comparable(y, x) && Compare(x, y) in {-1, 0, 1}
    ensures Compare(x, y) < 0 <==> Below(x, y)
    ensures Compare(x, y) > 0 <==> Below(y, x)
    ensures Compare(x, y) == 0 <==> Alike(x, y)
  {
    hide CompareBytes, Sooner;
    if x.Data? && y.Data? {
      BytesMean(x.bytes, y.bytes);
      BytesMean(y.bytes, x.bytes);
      BytesOrder(x.bytes, y.bytes, []);
      BytesSign(x.bytes, y.bytes);
    }
  }

  lemma {:induction false} BytesSign(x: seq<Byte>, y: seq<Byte>)
    ensures CompareBytes(x, y) in {-1, 0, 1}
    decreases |x|
  {
    if x != [] && y != [] { BytesSign(x[1..], y[1..]); }
  }

  /** A total order in which only equal values, and the two zeros, compare equal. */
  lemma {:induction false} Order(a: Value, b: Value, c: Value)
    requires Comparable(a, b) && Comparable(b, c) && Comparable(a, c)
    ensures Compare(a, b) == 0 - Compare(b, a)
    ensures Compare(a, b) == 0 <==> Normal(a) == Normal(b)
    ensures Compare(a, b) <= 0 && Compare(b, c) <= 0 ==> Compare(a, c) <= 0
  {
    hide CompareBytes;
    if a.Data? && b.Data? { BytesOrder(a.bytes, b.bytes, if c.Data? then c.bytes else []); }
  }

  /** What hash_keys feeds to the hash: a float zero without its sign. */
  function Normal(v: Value): Value { if v.Float? then v.(negative := false) else v }

  // ---- lists of keys ----

  predicate KeysComparable(a: seq<Value>, b: seq<Value>) {
    |a| == |b| && forall i :: 0 <= i < |a| ==> Comparable(a[i], b[i])
  }

  /** The key loop of group_for. */
  predicate SameKeys(a: seq<Value>, b: seq<Value>)
    requires KeysComparable(a, b)
  {
    forall i :: 0 <= i < |a| ==> Compare(a[i], b[i]) == 0
  }

  function NormalKeys(keys: seq<Value>): (r: seq<Value>)
    ensures |r| == |keys| && forall i :: 0 <= i < |r| ==> r[i] == Normal(keys[i])
  {
    seq(|keys|, i requires 0 <= i < |keys| => Normal(keys[i]))
  }

  /** Keys compare equal exactly when the hash sees the same, so equal keys meet in the hash table. */
  lemma {:induction false} SameIffNormal(a: seq<Value>, b: seq<Value>)
    requires KeysComparable(a, b)
    ensures SameKeys(a, b) <==> NormalKeys(a) == NormalKeys(b)
  {
    hide Compare, Comparable, Normal;
    forall i | 0 <= i < |a| ensures Compare(a[i], b[i]) == 0 <==> Normal(a[i]) == Normal(b[i]) {
      assert Comparable(a[i], b[i]);
      Reflexive(b[i]);
      Order(a[i], b[i], b[i]);
    }
    if NormalKeys(a) == NormalKeys(b) {
      forall i | 0 <= i < |a| ensures Compare(a[i], b[i]) == 0 { assert NormalKeys(a)[i] == NormalKeys(b)[i]; }
    }
  }

  lemma {:induction false} Reflexive(v: Value)
    ensures Comparable(v, v)
  {
  }
}
