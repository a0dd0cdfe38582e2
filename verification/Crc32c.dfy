/** CRC32C of src/core/encoding.c: the table-driven loop computes the bit-serial
    checksum of section 12.1 of RFC 3720, and a stored checksum rejects every
    change confined to four neighbouring bytes. A register is its 32 bits, least
    significant first. */
module Crc32c {
  import opened Bytes

  type Register = r: seq<bool> | |r| == 32 witness seq(32, i => false)

  /** The low k bits of n, and the number that a string of bits spells. */
  function Bits(n: nat, k: nat): (r: seq<bool>)
    ensures |r| == k
    decreases k
  {
    if k == 0 then [] else [n % 2 == 1] + Bits(n / 2, k - 1)
  }

  function Clear(k: nat): (r: seq<bool>)
    ensures |r| == k
    ensures forall i :: 0 <= i < k ==> !r[i]
  {
    seq(k, i => false)
  }

  function Number(x: seq<bool>): nat {
    if x == [] then 0 else (if x[0] then 1 else 0) + 2 * Number(x[1..])
  }

  function Xor(x: Register, y: Register): Register { seq(32, i requires 0 <= i < 32 => x[i] != y[i]) }
  function Not(x: Register): Register { seq(32, i requires 0 <= i < 32 => !x[i]) }
  function Down(x: Register): Register { x[1..] + [false] }

  const REGISTER_BITS: nat := 32
  const POLYNOMIAL_NUMBER: nat := 0x82f6_3b78
  const POLYNOMIAL: Register := Bits(POLYNOMIAL_NUMBER, REGISTER_BITS)
  const ONES: Register := Not(Clear(REGISTER_BITS))

  /** One shift of the reflected register. */
  function Shift(x: Register): Register { if x[0] then Xor(Down(x), POLYNOMIAL) else Down(x) }

  function Shifts(x: Register, k: nat): Register
    decreases k
  {
    if k == 0 then x else Shifts(Shift(x), k - 1)
  }

  /** A byte in the low end of a register. */
  function Low(b: Byte): Register { Bits(b, BYTE_BITS) + Clear(24) }

  /** The register after one more byte: eight shifts of the register with the byte mixed in. */
  function Step(crc: Register, b: Byte): Register { Shifts(Xor(crc, Low(b)), BYTE_BITS) }

  function Run(crc: Register, s: seq<Byte>): Register
    decreases |s|
  {
    if s == [] then crc else Step(Run(crc, s[..|s| - 1]), s[|s| - 1])
  }

  /** The checksum of a message. */
  function Checksum(s: seq<Byte>): nat { Number(Not(Run(ONES, s))) }

  /** A message followed by its little-endian checksum. */
  predicate Sealed(s: seq<Byte>) {
    |s| >= 4 && Get(s[|s| - 4..]) == Checksum(s[..|s| - 4])
  }

  // ---- bits and numbers ----

  lemma {:induction false} NumberBelow(x: seq<bool>)
    ensures Number(x) < Power2(|x|)
  {
    if x != [] {
      NumberBelow(x[1..]);
    }
  }

  lemma Powers()
    ensures Power2(BYTE_BITS) == 256 && Power2(REGISTER_BITS) == 0x1_0000_0000
  {
    assert Power2(4) == 16 && Power2(8) == 256;
    assert Power2(12) == 16 * Power2(8) && Power2(16) == 16 * Power2(12);
    assert Power2(20) == 16 * Power2(16) && Power2(24) == 16 * Power2(20);
    assert Power2(28) == 16 * Power2(24) && Power2(32) == 16 * Power2(28);
  }

  lemma NumberBound(x: Register)
    ensures 0 <= Number(x) < 0x1_0000_0000
  {
    NumberBelow(x);
    Powers();
  }

  lemma ChecksumBound(s: seq<Byte>)
    ensures Checksum(s) <= U32_MAX
  {
    NumberBound(Not(Run(ONES, s)));
  }

  lemma {:induction false} BitsNumber(x: seq<bool>)
    ensures Bits(Number(x), |x|) == x
  {
    if x != [] {
      BitsNumber(x[1..]);
    }
  }

  lemma {:induction false} NumberBits(n: nat, k: nat)
    requires n < Power2(k)
    ensures Number(Bits(n, k)) == n
    decreases k
  {
    if k > 0 {
      NumberBits(n / 2, k - 1);
      assert Bits(n, k)[1..] == Bits(n / 2, k - 1);
    }
  }

  // ---- one shift: linear and injective ----

  /** Four bits at a time. */
  lemma {:induction false} Nibble(q: nat, r: nat, k: nat)
    requires r < 16
    ensures Bits(16 * q + r, k + 4) == [r % 2 == 1, r / 2 % 2 == 1, r / 4 % 2 == 1, r / 8 == 1] + Bits(q, k)
  {
    hide Bits;
    var n := 16 * q + r;
    assert n % 2 == r % 2 && n / 2 == 8 * q + r / 2;
    assert n / 2 % 2 == r / 2 % 2 && n / 2 / 2 == 4 * q + r / 4;
    assert n / 2 / 2 % 2 == r / 4 % 2 && n / 2 / 2 / 2 == 2 * q + r / 8;
    assert n / 2 / 2 / 2 % 2 == r / 8 && n / 2 / 2 / 2 / 2 == q;
    BitsNext(n, k + 4);
    BitsNext(n / 2, k + 3);
    BitsNext(n / 2 / 2, k + 2);
    BitsNext(n / 2 / 2 / 2, k + 1);
  }

  lemma {:induction false} BitsNext(n: nat, k: nat)
    requires k > 0
    ensures Bits(n, k) == [n % 2 == 1] + Bits(n / 2, k - 1)
  {
  }

  lemma {:induction false} LowBits()
    ensures Bits(0x82f6_3b78, 32) == [false, false, false, true, true, true, true, false, true, true, false, true, true,
                                      true, false, false] + Bits(0x82f6, 16)
  {
    hide Bits;
    Nibble(0x82f_63b7, 8, 28);
    Nibble(0x82_f63b, 7, 24);
    Nibble(0x8_2f63, 0xb, 20);
    Nibble(0x82f6, 3, 16);
  }

  lemma {:induction false} HighBits()
    ensures Bits(0x82f6, 16) == [false, true, true, false, true, true, true, true, false, true, false, false, false,
                                 false, false, true]
  {
    hide Bits;
    Nibble(0x82f, 6, 12);
    Nibble(0x82, 0xf, 8);
    Nibble(8, 2, 4);
    Nibble(0, 8, 0);
    assert Bits(0, 0) == [];
  }

  /** The polynomial is that of section 12.1 of RFC 3720, with its highest powers in the lowest bits. */
  lemma {:induction false} Taps()
    ensures forall i :: 0 <= i < 32 ==>
              (POLYNOMIAL[i] <==> 31 - i in {28, 27, 26, 25, 23, 22, 20, 19, 18, 14, 13, 11, 10, 9, 8, 6, 0})
  {
    hide Bits;
    LowBits();
    HighBits();
  }

  /** The register starts with all ones, and is inverted at the end. */
  lemma {:induction false} EmptyChecksum()
    ensures Checksum([]) == 0 && forall i :: 0 <= i < 32 ==> ONES[i]
  {
    NoneSet(Not(ONES));
  }

  lemma {:induction false} NoneSet(x: seq<bool>)
    requires forall i :: 0 <= i < |x| ==> !x[i]
    ensures Number(x) == 0
  {
    if x != [] { NoneSet(x[1..]); }
  }

  lemma ShiftAt(x: Register, i: nat)
    requires i < 32
    ensures Shift(x)[i] == ((i < 31 && x[i + 1]) != (x[0] && POLYNOMIAL[i]))
  {
  }

  lemma ShiftInjective(x: Register, y: Register)
    requires Shift(x) == Shift(y)
    ensures x == y
  {
    Taps();
    ShiftAt(x, 31);
    ShiftAt(y, 31);
    forall i | 0 <= i < 32 ensures x[i] == y[i] {
      if i > 0 {
        ShiftAt(x, i - 1);
        ShiftAt(y, i - 1);
      }
    }
  }

  lemma ShiftXor(x: Register, y: Register)
    ensures Shift(Xor(x, y)) == Xor(Shift(x), Shift(y))
  {
  }

  lemma {:induction false} ShiftsInjective(x: Register, y: Register, k: nat)
    requires Shifts(x, k) == Shifts(y, k)
    ensures x == y
    decreases k
  {
    if k > 0 {
      ShiftsInjective(Shift(x), Shift(y), k - 1);
      ShiftInjective(x, y);
    }
  }

  lemma {:induction false} ShiftsXor(x: Register, y: Register, k: nat)
    ensures Shifts(Xor(x, y), k) == Xor(Shifts(x, k), Shifts(y, k))
    decreases k
  {
    if k > 0 {
      ShiftXor(x, y);
      ShiftsXor(Shift(x), Shift(y), k - 1);
    }
  }

  lemma {:induction false} ShiftsCompose(x: Register, j: nat, k: nat)
    ensures Shifts(Shifts(x, j), k) == Shifts(x, j + k)
    decreases j
  {
    if j > 0 {
      ShiftsCompose(Shift(x), j - 1, k);
    }
  }

  /** A register whose low k bits are clear is just moved down by k shifts. */
  lemma {:induction false} ShiftsClear(x: Register, k: nat)
    requires k <= 32 && forall i :: 0 <= i < k ==> !x[i]
    ensures Shifts(x, k) == x[k..] + Clear(k)
    decreases k
  {
    if k > 0 {
      var y := Shift(x);
      assert y == x[1..] + [false];
      ShiftsClear(y, k - 1);
    }
  }

  // ---- the table-driven form ----

  /** Eight shifts act on the low byte through the table and move the rest down. */
  lemma TableStep(x: Register)
    ensures Shifts(x, BYTE_BITS) == Xor(Shifts(x[..8] + Clear(24), BYTE_BITS), x[8..] + Clear(8))
  {
    var low: Register, high: Register := x[..8] + Clear(24), Clear(8) + x[8..];
    assert Xor(low, high) == x;
    ShiftsXor(low, high, BYTE_BITS);
    ShiftsClear(high, BYTE_BITS);
    assert high[8..] == x[8..];
  }

  lemma {:induction false} ShiftsLast(x: Register, k: nat)
    ensures Shifts(x, k + 1) == Shift(Shifts(x, k))
    decreases k
  {
    if k > 0 {
      ShiftsLast(Shift(x), k - 1);
    }
  }

  predicate IsTable(table: seq<Register>) {
    && |table| == 256
    && forall i :: 0 <= i < 256 ==> table[i] == Shifts(Low(i), BYTE_BITS)
  }

  /** crc_init: every byte value after eight shifts. */
  method CrcInit() returns (table: seq<Register>)
    ensures IsTable(table)
  {
    hide Shift, Low;
    table := [];
    while |table| < 256
      invariant |table| <= 256
      invariant forall i :: 0 <= i < |table| ==> table[i] == Shifts(Low(i), BYTE_BITS)
    {
      var start: Register := Low(|table|);
      var x: Register, j := start, 0;
      while j < 8
        invariant 0 <= j <= 8 && x == Shifts(start, j)
      {
        ShiftsLast(start, j);
        x, j := Shift(x), j + 1;
      }
      table := table + [x];
    }
  }

  /** wadb_crc32c: one table look-up a byte gives the bit-serial checksum. */
  method Crc32c(table: seq<Register>, data: seq<Byte>) returns (crc: nat)
    requires IsTable(table)
    ensures crc == Checksum(data)
  {
    var x: Register, i := ONES, 0;
    while i < |data|
      invariant 0 <= i <= |data| && x == Run(ONES, data[..i])
    {
      RunNext(data, i);
      x := Lookup(table, x, data[i]);
      i := i + 1;
    }
    assert data[..i] == data;
    crc := Number(Not(x));
  }

  /** One turn of the loop: the table entry of the mixed low byte, over the register moved down a byte. */
  function Lookup(table: seq<Register>, x: Register, b: Byte): (y: Register)
    requires IsTable(table)
    ensures y == Step(x, b)
  {
    LowByte(x, b);
    Xor(table[Number(Xor(x, Low(b))[..8])], x[8..] + Clear(8))
  }

  lemma RunNext(s: seq<Byte>, i: nat)
    requires i < |s|
    ensures Run(ONES, s[..i + 1]) == Step(Run(ONES, s[..i]), s[i])
  {
    assert s[..i + 1][..i] == s[..i];
  }

  lemma LowByte(x: Register, b: Byte)
    ensures var mixed := Xor(x, Low(b));
            var index := Number(mixed[..8]);
            index < 256 && Step(x, b) == Xor(Shifts(Low(index), BYTE_BITS), x[8..] + Clear(8))
  {
    var mixed := Xor(x, Low(b));
    NumberBelow(mixed[..8]);
    Powers();
    BitsNumber(mixed[..8]);
    assert mixed[8..] == x[8..];
    TableStep(mixed);
  }

  // ---- detection ----

  lemma {:induction false} RunConcat(c: Register, s: seq<Byte>, t: seq<Byte>)
    ensures Run(c, s + t) == Run(Run(c, s), t)
    decreases |t|
  {
    if t == [] {
      assert s + t == s;
    } else {
      assert (s + t)[..|s + t| - 1] == s + t[..|t| - 1];
      RunConcat(c, s, t[..|t| - 1]);
    }
  }

  lemma {:induction false} RunInjective(c: Register, d: Register, s: seq<Byte>)
    requires Run(c, s) == Run(d, s)
    ensures c == d
    decreases |s|
  {
    if s != [] {
      var x, y, b := Run(c, s[..|s| - 1]), Run(d, s[..|s| - 1]), s[|s| - 1];
      ShiftsInjective(Xor(x, Low(b)), Xor(y, Low(b)), BYTE_BITS);
      XorCancel(x, y, Low(b));
      RunInjective(c, d, s[..|s| - 1]);
    }
  }

  lemma XorCancel(x: Register, y: Register, z: Register)
    requires Xor(x, z) == Xor(y, z)
    ensures x == y
  {
    forall i | 0 <= i < 32 ensures x[i] == y[i] {
      assert Xor(x, z)[i] == Xor(y, z)[i];
    }
  }

  /** The bits of up to four bytes, at the low end of a register. */
  function Flat(s: seq<Byte>): (r: seq<bool>)
    ensures |r| == 8 * |s|
  {
    if s == [] then [] else Flat(s[..|s| - 1]) + Bits(s[|s| - 1], BYTE_BITS)
  }

  function Spread(s: seq<Byte>): Register
    requires |s| <= 4
  {
    Flat(s) + Clear(32 - 8 * |s|)
  }

  /** A byte at position m of a register reaches the low end after m bytes' worth of shifts. */
  function Placed(b: Byte, m: nat): Register
    requires m < 4
  {
    Clear(8 * m) + Bits(b, BYTE_BITS) + Clear(24 - 8 * m)
  }

  lemma PlacedShifts(b: Byte, m: nat)
    requires m < 4
    ensures Shifts(Placed(b, m), 8 * m) == Low(b)
  {
    ShiftsClear(Placed(b, m), 8 * m);
  }

  lemma SpreadPlaced(c: Register, s: seq<Byte>)
    requires 0 < |s| <= 4
    ensures var m := |s| - 1;
            Xor(Xor(c, Spread(s[..m])), Placed(s[m], m)) == Xor(c, Spread(s))
  {
  }

  lemma XorClear(c: Register)
    ensures Xor(c, Spread([])) == c
  {
  }

  lemma StepPlaced(x: Register, b: Byte, m: nat)
    requires m < 4
    ensures Step(Shifts(x, 8 * m), b) == Shifts(Xor(x, Placed(b, m)), 8 * m + 8)
  {
    PlacedShifts(b, m);
    ShiftsXor(x, Placed(b, m), 8 * m);
    ShiftsCompose(Xor(x, Placed(b, m)), 8 * m, BYTE_BITS);
  }

  /** Running over up to four bytes mixes them in at once and then shifts. */
  lemma {:induction false} RunSpread(c: Register, s: seq<Byte>)
    requires |s| <= 4
    ensures Run(c, s) == Shifts(Xor(c, Spread(s)), 8 * |s|)
    decreases |s|
  {
    if s == [] {
      XorClear(c);
    } else {
      var m := |s| - 1;
      var front, b := s[..m], s[m];
      var x := Xor(c, Spread(front));
      calc {
        Run(c, s);
        Step(Run(c, front), b);
        { RunSpread(c, front); }
        Step(Shifts(x, 8 * m), b);
        { StepPlaced(x, b, m); }
        Shifts(Xor(x, Placed(b, m)), 8 * m + 8);
        { SpreadPlaced(c, s); }
        Shifts(Xor(c, Spread(s)), 8 * m + 8);
      }
    }
  }

  lemma TwiceTimes(p: nat, m: nat)
    ensures (2 * p) * m == 2 * (p * m)
  {
  }

  lemma {:induction false} BitsSplit(b: nat, m: nat, j: nat, k: nat, high: nat)
    requires b < Power2(j) && high == Power2(j) * m
    ensures Bits(b + high, j + k) == Bits(b, j) + Bits(m, k)
    decreases j
  {
    if j > 0 {
      TwiceTimes(Power2(j - 1), m);
      HalfSum(b, high / 2);
      BitsSplit(b / 2, m, j - 1, k, high / 2);
    }
  }

  lemma HalfSum(b: nat, h: nat)
    ensures (b + 2 * h) % 2 == b % 2 && (b + 2 * h) / 2 == b / 2 + h
  {
  }

  lemma ByteSplit(b: Byte, m: nat, k: nat)
    ensures Bits(b + 256 * m, 8 + k) == Bits(b, BYTE_BITS) + Bits(m, k)
  {
    Powers();
    BitsSplit(b, m, BYTE_BITS, k, 256 * m);
  }

  lemma {:induction false} FlatFront(s: seq<Byte>)
    requires s != []
    ensures Flat(s) == Bits(s[0], BYTE_BITS) + Flat(s[1..])
  {
    hide Bits, Flat;
    if |s| == 1 {
      FlatOne(s);
    } else {
      var front, b := s[..|s| - 1], Bits(s[|s| - 1], BYTE_BITS);
      FlatFront(front);
      FlatLast(s);
      FlatLast(s[1..]);
      assert s[1..][..|s| - 2] == front[1..];
      Regroup(Bits(s[0], BYTE_BITS), Flat(front[1..]), b);
    }
  }

  lemma {:induction false} FlatOne(s: seq<Byte>)
    requires |s| == 1
    ensures Flat(s) == Bits(s[0], BYTE_BITS) + Flat(s[1..])
  {
    hide Bits;
    assert s[..0] == [] && s[1..] == [];
  }

  lemma {:induction false} FlatLast(s: seq<Byte>)
    requires s != []
    ensures Flat(s) == Flat(s[..|s| - 1]) + Bits(s[|s| - 1], BYTE_BITS)
  {
    hide Bits;
  }

  lemma {:induction false} Regroup(a: seq<bool>, b: seq<bool>, c: seq<bool>)
    ensures (a + b) + c == a + (b + c)
  {
    hide *;
  }

  lemma BitsNone(n: nat)
    ensures Bits(n, 0) == []
  {
  }

  lemma {:induction false} BitsGet(s: seq<Byte>)
    ensures Bits(Get(s), 8 * |s|) == Flat(s)
  {
    hide Bits;
    if s == [] {
      BitsNone(0);
    } else {
      var rest := s[1..];
      BitsGet(rest);
      ByteSplit(s[0], Get(rest), 8 * |rest|);
      FlatFront(s);
    }
  }

  const RESIDUE: Register := Shifts(ONES, REGISTER_BITS)

  lemma XorOnes(c: Register, w: Register)
    ensures Xor(c, w) == ONES <==> w == Not(c)
  {
    if Xor(c, w) == ONES {
      forall i | 0 <= i < 32 ensures w[i] == Not(c)[i] {
        assert Xor(c, w)[i] == ONES[i];
      }
    }
  }

  lemma {:induction false} NumberInjective(x: seq<bool>, y: seq<bool>)
    requires |x| == |y| && Number(x) == Number(y)
    ensures x == y
  {
    BitsNumber(x);
    BitsNumber(y);
  }

  /** Four stored bytes spell the number that their spread bits spell. */
  lemma WordNumber(t: seq<Byte>)
    requires |t| == 4
    ensures Number(Spread(t)) == Get(t)
  {
    BitsGet(t);
    Spans();
    Powers();
    NumberBits(Get(t), REGISTER_BITS);
    assert Spread(t) == Flat(t);
  }

  /** A message carries its own checksum exactly when running over all of it leaves the fixed residue. */
  lemma SealedIffResidue(s: seq<Byte>)
    requires |s| >= 4
    ensures Sealed(s) <==> Run(ONES, s) == RESIDUE
  {
    var body, t := s[..|s| - 4], s[|s| - 4..];
    assert s == body + t;
    ResidueOfParts(body, t);
  }

  lemma ResidueOfParts(body: seq<Byte>, t: seq<Byte>)
    requires |t| == 4
    ensures Get(t) == Checksum(body) <==> Run(ONES, body + t) == RESIDUE
  {
    var c, w := Run(ONES, body), Spread(t);
    RunConcat(ONES, body, t);
    RunSpread(c, t);
    WordNumber(t);
    XorOnes(c, w);
    if Run(ONES, body + t) == RESIDUE {
      ShiftsInjective(Xor(c, w), ONES, REGISTER_BITS);
    } else if Get(t) == Checksum(body) {
      NumberInjective(w, Not(c));
    }
  }

  lemma {:induction false} FlatInjective(s: seq<Byte>, t: seq<Byte>)
    requires |s| == |t| && Flat(s) == Flat(t)
    ensures s == t
    decreases |s|
  {
    BitsGet(s);
    BitsGet(t);
    SpanPower(|s|);
    NumberBits(Get(s), 8 * |s|);
    NumberBits(Get(t), 8 * |t|);
    GetInjective(s, t);
  }

  lemma {:induction false} SpanPower(w: nat)
    ensures Span(w) == Power2(8 * w)
  {
    if w > 0 {
      SpanPower(w - 1);
      var k := 8 * w;
      assert Power2(k) == 2 * Power2(k - 1) && Power2(k - 1) == 2 * Power2(k - 2);
      assert Power2(k - 2) == 2 * Power2(k - 3) && Power2(k - 3) == 2 * Power2(k - 4);
      assert Power2(k - 4) == 2 * Power2(k - 5) && Power2(k - 5) == 2 * Power2(k - 6);
      assert Power2(k - 6) == 2 * Power2(k - 7) && Power2(k - 7) == 2 * Power2(k - 8);
    }
  }

  /** Four bytes leave different registers whenever they differ. */
  lemma WindowInjective(c: Register, p: seq<Byte>, q: seq<Byte>)
    requires |p| == |q| == 4 && Run(c, p) == Run(c, q)
    ensures p == q
  {
    RunSpread(c, p);
    RunSpread(c, q);
    ShiftsInjective(Xor(c, Spread(p)), Xor(c, Spread(q)), REGISTER_BITS);
    XorSymmetric(c, Spread(p));
    XorSymmetric(c, Spread(q));
    XorCancel(Spread(p), Spread(q), c);
    assert Spread(p) == Flat(p) && Spread(q) == Flat(q);
    FlatInjective(p, q);
  }

  lemma XorSymmetric(x: Register, y: Register)
    ensures Xor(x, y) == Xor(y, x)
  {
  }

  /** Two messages that both carry their checksum and differ only inside four
      neighbouring bytes, the checksum's own bytes included, are the same message. */
  lemma BurstDetected(s: seq<Byte>, t: seq<Byte>, i: nat)
    requires |s| == |t| && i + 4 <= |s|
    requires s[..i] == t[..i] && s[i + 4..] == t[i + 4..]
    requires Sealed(s) && Sealed(t)
    ensures s == t
  {
    SealedIffResidue(s);
    SealedIffResidue(t);
    ResidueBurst(s, t, i);
  }

  lemma ResidueBurst(s: seq<Byte>, t: seq<Byte>, i: nat)
    requires |s| == |t| && i + 4 <= |s|
    requires s[..i] == t[..i] && s[i + 4..] == t[i + 4..]
    requires Run(ONES, s) == Run(ONES, t)
    ensures s == t
  {
    Splice(s, i);
    Splice(t, i);
    SplicesDiffer(s[..i], s[i..i + 4], t[i..i + 4], s[i + 4..]);
  }

  lemma Splice(s: seq<Byte>, i: nat)
    requires i + 4 <= |s|
    ensures s == s[..i] + s[i..i + 4] + s[i + 4..]
  {
  }

  lemma SplicesDiffer(front: seq<Byte>, p: seq<Byte>, q: seq<Byte>, back: seq<Byte>)
    requires |p| == |q| == 4
    requires Run(ONES, front + p + back) == Run(ONES, front + q + back)
    ensures p == q
  {
    RunConcat(ONES, front + p, back);
    RunConcat(ONES, front + q, back);
    RunInjective(Run(ONES, front + p), Run(ONES, front + q), back);
    RunConcat(ONES, front, p);
    RunConcat(ONES, front, q);
    WindowInjective(Run(ONES, front), p, q);
  }
}
