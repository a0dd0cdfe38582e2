/** Bytes, machine integers and the little-endian forms of src/core/encoding.c. */
module Bytes {

  type Byte = b: int | 0 <= b < 256
  type U16 = x: int | 0 <= x < 0x1_0000
  type U32 = x: int | 0 <= x < 0x1_0000_0000
  type U64 = x: int | 0 <= x < 0x1_0000_0000_0000_0000
  type I64 = x: int | -0x8000_0000_0000_0000 <= x < 0x8000_0000_0000_0000

  const U32_MAX: int := 0xffff_ffff
  const U64_MAX: int := 0xffff_ffff_ffff_ffff
  const I64_MIN: int := -0x8000_0000_0000_0000
  const I64_MAX: int := 0x7fff_ffff_ffff_ffff

  datatype Option<+T> = None | Some(value: T)

  /** 256 to the power w: one past the largest number that w bytes hold. */
  function Span(w: nat): (p: nat)
    ensures p >= 1
  {
    if w == 0 then 1 else 256 * Span(w - 1)
  }

  const BYTE_BITS: nat := 8

  /** Two to the power k. */
  function Power2(k: nat): (p: nat)
    ensures p >= 1
  {
    if k == 0 then 1 else 2 * Power2(k - 1)
  }

  lemma Spans()
    ensures Span(1) == 0x100
    ensures Span(2) == 0x1_0000
    ensures Span(4) == 0x1_0000_0000
    ensures Span(8) == 0x1_0000_0000_0000_0000
  {
    assert Span(2) == 256 * Span(1) && Span(3) == 256 * Span(2);
    assert Span(4) == 256 * Span(3) && Span(5) == 256 * Span(4);
    assert Span(6) == 256 * Span(5) && Span(7) == 256 * Span(6);
    assert Span(8) == 256 * Span(7);
  }

  /** The low w bytes of n, least significant first. */
  function Put(n: nat, w: nat): (s: seq<Byte>)
    ensures |s| == w
    decreases w
  {
    if w == 0 then [] else [n % 256] + Put(n / 256, w - 1)
  }

  /** The number whose little-endian bytes are s. */
  function Get(s: seq<Byte>): (n: nat)
    ensures n < Span(|s|)
  {
    if s == [] then 0 else s[0] + 256 * Get(s[1..])
  }

  /** Byte i has the weight 256 to the power i. */
  lemma {:induction false} LittleEndian(n: nat, w: nat, i: nat)
    requires i < w
    ensures Put(n, w)[i] == n / Span(i) % 256
    decreases w
  {
    if i > 0 {
      LittleEndian(n / 256, w - 1, i - 1);
      DivideTwice(n, Span(i - 1));
    }
  }

  lemma {:induction false} DivideTwice(n: nat, d: nat)
    requires d >= 1
    ensures n / 256 / d == n / (256 * d)
  {
    var q, r := n / 256 / d, n / 256 % d;
    assert n / 256 == q * d + r;
    assert n == q * (256 * d) + (256 * r + n % 256);
    Quotient(n, 256 * d, q, 256 * r + n % 256);
  }

  lemma {:induction false} Quotient(n: nat, d: nat, q: nat, r: nat)
    requires d >= 1 && r < d && n == q * d + r
    ensures n / d == q
  {
    var q', r' := n / d, n % d;
    assert n == q' * d + r';
    if q > q' { AtLeastOnce(q - q', d); }
    if q < q' { AtLeastOnce(q' - q, d); }
  }

  lemma {:induction false} AtLeastOnce(k: int, d: nat)
    requires k >= 1
    ensures k * d >= d
  {
    assert k * d == (k - 1) * d + d;
    assert (k - 1) * d >= 0;
  }

  lemma {:induction false} GetPut(n: nat, w: nat)
    requires n < Span(w)
    ensures Get(Put(n, w)) == n
    decreases w
  {
    if w > 0 {
      GetPut(n / 256, w - 1);
      assert Put(n, w)[1..] == Put(n / 256, w - 1);
    }
  }

  lemma {:induction false} PutGet(s: seq<Byte>)
    ensures Put(Get(s), |s|) == s
  {
    if s != [] {
      PutGet(s[1..]);
      assert Get(s) % 256 == s[0] && Get(s) / 256 == Get(s[1..]);
      assert s == [s[0]] + s[1..];
    }
  }

  /** Little-endian reading is a bijection, so different bytes read differently. */
  lemma GetInjective(s: seq<Byte>, t: seq<Byte>)
    requires |s| == |t| && Get(s) == Get(t)
    ensures s == t
  {
    PutGet(s);
    PutGet(t);
  }

  /** The unsigned image of a signed 64-bit value, as the cast to uint64_t gives it. */
  function Wrap64(x: I64): U64 { if x < 0 then x + 0x1_0000_0000_0000_0000 else x }

  /** wadb_get_i64: the signed value with that unsigned image. */
  function Signed64(u: U64): I64 { if u <= I64_MAX then u else -1 - (U64_MAX - u) }

  /** Signed values are stored modulo 2 to the 64 and read back as they were. */
  lemma {:induction false} Wrapped(x: I64)
    ensures Wrap64(x) == x % 0x1_0000_0000_0000_0000 && Signed64(Wrap64(x)) == x
  {
  }

  function Zeros(n: nat): (s: seq<Byte>)
    ensures |s| == n
    ensures forall i :: 0 <= i < n ==> s[i] == 0
  {
    seq(n, i => 0)
  }

  /** wadb_put_u16/u32/u64: store the low w bytes of n at an offset, leaving the rest of the buffer alone. */
  method PutAt(buf: array<Byte>, at: nat, n: nat, w: nat)
    requires at + w <= buf.Length
    modifies buf
    ensures buf[at..at + w] == Put(n, w)
    ensures forall i :: 0 <= i < buf.Length && !(at <= i < at + w) ==> buf[i] == old(buf[i])
  {
    var rest, i := n, 0;
    while i < w
      invariant 0 <= i <= w && rest >= 0
      invariant Put(n, w) == buf[at..at + i] + Put(rest, w - i)
      invariant forall k :: 0 <= k < buf.Length && !(at <= k < at + i) ==> buf[k] == old(buf[k])
    {
      ghost var before := buf[at..at + i];
      buf[at + i] := rest % 256;
      assert buf[at..at + i + 1] == before + [rest % 256];
      rest, i := rest / 256, i + 1;
    }
  }

  /** memcpy into a buffer at an offset. */
  method CopyAt(buf: array<Byte>, at: nat, src: seq<Byte>)
    requires at + |src| <= buf.Length
    modifies buf
    ensures buf[at..at + |src|] == src
    ensures forall i :: 0 <= i < buf.Length && !(at <= i < at + |src|) ==> buf[i] == old(buf[i])
  {
    forall i | 0 <= i < |src| {
      buf[at + i] := src[i];
    }
  }
}
