/** Text validity of src/core/encoding.c: wadb_utf8 accepts exactly the octet
    strings of the grammar in section 4 of RFC 3629, which are exactly the
    encodings of sequences of Unicode scalar values by section 3. */
module Utf8 {
  import opened Bytes

  predicate Tail(b: Byte) { 0x80 <= b <= 0xbf }

  predicate Tails(s: seq<Byte>) { forall i :: 0 <= i < |s| ==> Tail(s[i]) }

  /** UTF8-char of section 4 of RFC 3629. */
  predicate Utf8Char(s: seq<Byte>) {
    || (|s| == 1 && s[0] <= 0x7f)
    || (|s| == 2 && 0xc2 <= s[0] <= 0xdf && Tails(s[1..]))
    || (|s| == 3 && s[0] == 0xe0 && 0xa0 <= s[1] <= 0xbf && Tail(s[2]))
    || (|s| == 3 && (0xe1 <= s[0] <= 0xec || 0xee <= s[0] <= 0xef) && Tails(s[1..]))
    || (|s| == 3 && s[0] == 0xed && 0x80 <= s[1] <= 0x9f && Tail(s[2]))
    || (|s| == 4 && s[0] == 0xf0 && 0x90 <= s[1] <= 0xbf && Tails(s[2..]))
    || (|s| == 4 && 0xf1 <= s[0] <= 0xf3 && Tails(s[1..]))
    || (|s| == 4 && s[0] == 0xf4 && 0x80 <= s[1] <= 0x8f && Tails(s[2..]))
  }

  /** How many octets the first one announces; zero when it starts no character. */
  function Announced(b: Byte): (n: nat)
    ensures n <= 4
  {
    if b <= 0x7f then 1
    else if 0xc2 <= b <= 0xdf then 2
    else if 0xe0 <= b <= 0xef then 3
    else if 0xf0 <= b <= 0xf4 then 4
    else 0
  }

  /** UTF8-octets of section 4 of RFC 3629: any number of characters. */
  predicate Utf8Octets(s: seq<Byte>) {
    s == [] ||
    var n := Announced(s[0]);
    0 < n <= |s| && Utf8Char(s[..n]) && Utf8Octets(s[n..])
  }

  predicate Scalar(c: int) { 0 <= c <= 0x10ffff && !(0xd800 <= c <= 0xdfff) }

  /** Section 3 of RFC 3629: the octets of one scalar value. */
  function Encode(c: int): seq<Byte>
    requires Scalar(c)
  {
    if c < 0x80 then [c]
    else if c < 0x800 then [0xc0 + c / 64, 0x80 + c % 64]
    else if c < 0x10000 then [0xe0 + c / 4096, 0x80 + c / 64 % 64, 0x80 + c % 64]
    else [0xf0 + c / 262144, 0x80 + c / 4096 % 64, 0x80 + c / 64 % 64, 0x80 + c % 64]
  }

  function EncodeAll(cs: seq<int>): seq<Byte>
    requires forall i :: 0 <= i < |cs| ==> Scalar(cs[i])
  {
    if cs == [] then [] else Encode(cs[0]) + EncodeAll(cs[1..])
  }

  /** The bits of the lead octet that belong to the scalar value. */
  function Payload(b: Byte): nat {
    if b <= 0x7f then b else if b <= 0xdf then b % 32 else if b <= 0xef then b % 16 else b % 8
  }

  /** The six bits that a continuation octet carries. */
  function Six(b: Byte): int { b as int - 0x80 }

  /** The value gathered from a lead payload and continuation octets. */
  function Gather(c: nat, s: seq<Byte>): int
    decreases |s|
  {
    if s == [] then c else Gather(c, s[..|s| - 1]) * 64 + Six(s[|s| - 1])
  }

  function Smallest(n: nat): nat { if n == 2 then 0x80 else if n == 3 then 0x800 else if n == 4 then 0x10000 else 0 }

  lemma Gather1(c: nat, a: Byte) ensures Gather(c, [a]) == c * 64 + Six(a)
  {
    assert [a][..0] == [];
  }

  lemma Gather2(c: nat, a: Byte, b: Byte)
    ensures Gather(c, [a, b]) == (c * 64 + Six(a)) * 64 + Six(b)
  {
    assert [a, b][..1] == [a];
    Gather1(c, a);
  }

  lemma Gather3(c: nat, a: Byte, b: Byte, d: Byte)
    ensures Gather(c, [a, b, d]) == ((c * 64 + Six(a)) * 64 + Six(b)) * 64 + Six(d)
  {
    assert [a, b, d][..2] == [a, b];
    Gather2(c, a, b);
  }

  /** The test in the source, on one character: continuation marks, then a range check of the gathered value. */
  predicate Checked(s: seq<Byte>)
    requires s != []
  {
    && |s| == Announced(s[0])
    && Tails(s[1..])
    && (|s| > 1 ==> var c := Gather(Payload(s[0]), s[1..]); Smallest(|s|) <= c && Scalar(c))
  }

  /** The range check after gathering is the table of octet ranges in the grammar. */
  lemma CheckedIsChar(s: seq<Byte>)
    requires s != [] && |s| == Announced(s[0])
    ensures Checked(s) <==> Utf8Char(s)
  {
    if |s| == 2 {
      Gather1(Payload(s[0]), s[1]);
      assert s[1..] == [s[1]];
    } else if |s| == 3 {
      Gather2(Payload(s[0]), s[1], s[2]);
      assert s[1..] == [s[1], s[2]];
    } else if |s| == 4 {
      Gather3(Payload(s[0]), s[1], s[2], s[3]);
      assert s[1..] == [s[1], s[2], s[3]] && s[2..] == [s[2], s[3]];
    }
  }

  /** The inner loop of wadb_utf8: gather the announced continuation octets. */
  method Continue(p: seq<Byte>, at: nat, count: nat, lead: nat) returns (ok: bool, cp: int)
    requires at + count <= |p|
    ensures ok == Tails(p[at..at + count])
    ensures ok ==> cp == Gather(lead, p[at..at + count])
  {
    var i, more := at, count;
    cp := lead;
    while more > 0
      invariant at <= i && 0 <= more && i + more == at + count
      invariant Tails(p[at..i]) && cp == Gather(lead, p[at..i])
      decreases more
    {
      if !(0x80 <= p[i] <= 0xbf) {
        assert p[at..at + count][i - at] == p[i];
        return false, cp;
      }
      assert p[at..i + 1] == p[at..i] + [p[i]];
      cp, i, more := cp * 64 + p[i] % 64, i + 1, more - 1;
    }
    ok := true;
  }

  /** wadb_utf8. */
  method ValidUtf8(p: seq<Byte>) returns (valid: bool)
    ensures valid == Utf8Octets(p)
  {
    var i := 0;
    while i < |p|
      invariant 0 <= i <= |p| && Utf8Octets(p) == Utf8Octets(p[i..])
    {
      var b := p[i];
      var more, least: int, lead := 0, 0, 0;
      if b < 0x80 {
        Consume(p, i);
        i := i + 1;
        continue;
      }
      if 0xc2 <= b <= 0xdf { more, least, lead := 1, 0x80, b % 32; }
      else if 0xe0 <= b <= 0xef { more, least, lead := 2, 0x800, b % 16; }
      else if 0xf0 <= b <= 0xf4 { more, least, lead := 3, 0x10000, b % 8; }
      else { return false; }
      if more > |p| - i - 1 { return false; }
      var ok, cp := Continue(p, i + 1, more, lead);
      Consume(p, i);
      CheckedIsChar(p[i..i + 1 + more]);
      assert p[i..i + 1 + more][1..] == p[i + 1..i + 1 + more];
      if !ok || cp < least || cp > 0x10ffff || 0xd800 <= cp <= 0xdfff { return false; }
      i := i + 1 + more;
    }
    return true;
  }

  /** A string is valid when its first character and the rest are. */
  lemma Consume(p: seq<Byte>, i: nat)
    requires i < |p| && 0 < Announced(p[i]) <= |p| - i
    ensures Utf8Octets(p[i..]) <==>
            Utf8Char(p[i..i + Announced(p[i])]) && Utf8Octets(p[i + Announced(p[i])..])
  {
    var n := Announced(p[i]);
    assert p[i..][..n] == p[i..i + n] && p[i..][n..] == p[i + n..];
  }

  // ---- the grammar describes exactly the encodings ----

  lemma EncodeIsChar(c: int)
    requires Scalar(c)
    ensures Utf8Char(Encode(c)) && |Encode(c)| == Announced(Encode(c)[0])
  {
  }

  lemma Digits(c: int, h: int, a: int)
    requires h >= 0 && 0 <= a < 64 && c == h * 64 + a
    ensures c / 64 == h && c % 64 == a
  {
  }

  /** The scalar value that a character spells. */
  function Decode(s: seq<Byte>): int
    requires Utf8Char(s)
  {
    if |s| == 1 then s[0]
    else if |s| == 2 then (s[0] as int - 0xc0) * 64 + Six(s[1])
    else if |s| == 3 then ((s[0] as int - 0xe0) * 64 + Six(s[1])) * 64 + Six(s[2])
    else (((s[0] as int - 0xf0) * 64 + Six(s[1])) * 64 + Six(s[2])) * 64 + Six(s[3])
  }

  lemma CharIsEncode(s: seq<Byte>)
    requires Utf8Char(s)
    ensures Scalar(Decode(s)) && Encode(Decode(s)) == s
  {
    var c := Decode(s);
    if |s| == 2 {
      Digits(c, s[0] as int - 0xc0, Six(s[1]));
    } else if |s| == 3 {
      Digits(c / 64, s[0] as int - 0xe0, Six(s[1]));
      Digits(c, c / 64, Six(s[2]));
      assert c / 64 / 64 == c / 4096;
    } else if |s| == 4 {
      Digits(c / 64 / 64, s[0] as int - 0xf0, Six(s[1]));
      Digits(c / 64, c / 64 / 64, Six(s[2]));
      Digits(c, c / 64, Six(s[3]));
      assert c / 64 / 64 == c / 4096 && c / 4096 / 64 == c / 262144;
    }
  }

  lemma {:induction false} EncodingsAreValid(cs: seq<int>)
    requires forall i :: 0 <= i < |cs| ==> Scalar(cs[i])
    ensures Utf8Octets(EncodeAll(cs))
  {
    if cs != [] {
      EncodeIsChar(cs[0]);
      EncodingsAreValid(cs[1..]);
      var s, n := EncodeAll(cs), |Encode(cs[0])|;
      assert s[..n] == Encode(cs[0]) && s[n..] == EncodeAll(cs[1..]);
    }
  }

  lemma {:induction false} ValidIsEncoding(s: seq<Byte>) returns (cs: seq<int>)
    requires Utf8Octets(s)
    ensures forall i :: 0 <= i < |cs| ==> Scalar(cs[i])
    ensures EncodeAll(cs) == s
  {
    if s == [] {
      cs := [];
    } else {
      var n := Announced(s[0]);
      CharIsEncode(s[..n]);
      var rest := ValidIsEncoding(s[n..]);
      cs := [Decode(s[..n])] + rest;
      assert s == s[..n] + s[n..];
    }
  }

  /** Text is valid exactly when it encodes some sequence of scalar values. */
  lemma ValidIffEncoding(s: seq<Byte>)
    ensures Utf8Octets(s) <==>
            exists cs: seq<int> :: (forall i :: 0 <= i < |cs| ==> Scalar(cs[i])) && EncodeAll(cs) == s
  {
    if Utf8Octets(s) {
      var cs := ValidIsEncoding(s);
    }
    if cs: seq<int> :| (forall i :: 0 <= i < |cs| ==> Scalar(cs[i])) && EncodeAll(cs) == s {
      EncodingsAreValid(cs);
    }
  }
}
