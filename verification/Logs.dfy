/** A segment file: its header (src/storage/format.c) and the frames behind it,
    read back by the offset-advancing loop of src/storage/segments.c. */
module Logs {
  import opened Bytes
  import opened Layout
  import opened Crc32c
  import opened Frames

  // ---- frames one after the other ----

  ghost predicate AllValid(fs: seq<Frame>) { forall i :: 0 <= i < |fs| ==> FrameValid(fs[i]) }

  /** The bytes of a log: its encoded frames, one after the other. */
  ghost function LogBytes(fs: seq<Frame>): seq<Byte>
    requires AllValid(fs)
  {
    if fs == [] then [] else EncodeFrame(fs[0]) + LogBytes(fs[1..])
  }

  /** What stands at the front of the unread bytes. */
  datatype Next = Torn | Bad | Whole(frame: Frame, bytes: nat)

  /** One turn of the recovery loop: inspect the header, then decode the whole frame if all of it is there. */
  function NextFrame(s: seq<Byte>): (r: Next)
    ensures r.Whole? ==> 96 <= r.bytes <= |s|
  {
    if |s| < 80 then Torn
    else
      var h := InspectFrame(s[..80]);
      if h.None? then Bad
      else if h.value.frameBytes > |s| then Torn
      else
        var f := DecodeFrame(s[..h.value.frameBytes]);
        if f.None? then Bad else Whole(f.value, h.value.frameBytes)
  }

  datatype Ending = Clean | Cut | Damaged

  datatype Reading = Reading(frames: seq<Frame>, bytes: nat, ending: Ending)

  /** All complete frames from the front, how many bytes they take, and why reading stopped. */
  function ReadLog(s: seq<Byte>): (r: Reading)
    ensures r.bytes <= |s|
  {
    if s == [] then Reading([], 0, Clean)
    else match NextFrame(s)
      case Torn => Reading([], 0, Cut)
      case Bad => Reading([], 0, Damaged)
      case Whole(f, n) => var rest := ReadLog(s[n..]); Reading([f] + rest.frames, n + rest.bytes, rest.ending)
  }

  lemma EncodedPrefix(f: Frame)
    requires FrameValid(f)
    ensures var p, h := EncodeFrame(f), HeaderOf(f);
            |p| == h.frameBytes == TotalBytes(h) >= 96 && SizesValid(h) && p[..80] == HeaderBytes(h)
  {
    hide EncodeFrame, HeaderBytes, WithChecksum, Trailer, ContentValid;
    EncodeLength(f);
    EncodeAssembles(f);
  }

  lemma EncodedHeader(f: Frame)
    requires FrameValid(f)
    ensures var p := EncodeFrame(f);
            && |p| == HeaderOf(f).frameBytes >= 96
            && InspectFrame(p[..80]) == Some(HeaderOf(f))
  {
    hide EncodeFrame, FrameValid, InspectFrame, HeaderBytes, SizesValid, TotalBytes;
    EncodedPrefix(f);
    var p := EncodeFrame(f);
    assert p[..80][..80] == p[..80];
    InspectIff(HeaderOf(f), p[..80]);
  }

  lemma NextWhole(f: Frame, rest: seq<Byte>)
    requires FrameValid(f)
    ensures NextFrame(EncodeFrame(f) + rest) == Whole(f, |EncodeFrame(f)|)
  {
    hide EncodeFrame, FrameValid, DecodeFrame, InspectFrame;
    var p, s := EncodeFrame(f), EncodeFrame(f) + rest;
    EncodedHeader(f);
    assert s[..80] == p[..80] && s[..|p|] == p;
    DecodeEncode(f);
  }

  lemma NextTorn(f: Frame, k: nat)
    requires FrameValid(f) && k < |EncodeFrame(f)|
    ensures NextFrame(EncodeFrame(f)[..k]) == Torn
  {
    hide EncodeFrame, FrameValid, DecodeFrame, InspectFrame;
    var p := EncodeFrame(f);
    if k >= 80 {
      EncodedHeader(f);
      assert p[..k][..80] == p[..80];
    }
  }

  lemma NextSound(s: seq<Byte>)
    requires NextFrame(s).Whole?
    ensures var r := NextFrame(s);
            FrameValid(r.frame) && EncodeFrame(r.frame) == s[..r.bytes]
  {
    EncodeDecode(s[..NextFrame(s).bytes]);
  }

  /** What may follow the complete frames of a log: a strict prefix of one more encoded frame. */
  ghost predicate TornTail(p: seq<Byte>) {
    exists f, k :: IsTorn(f, k, p)
  }

  ghost predicate IsTorn(f: Frame, k: nat, p: seq<Byte>) {
    FrameValid(f) && k < |EncodeFrame(f)| && p == EncodeFrame(f)[..k]
  }

  /** Reading back any log followed by any torn tail yields exactly the complete frames and stops at their end. */
  lemma {:induction false} ReadWritten(fs: seq<Frame>, tail: seq<Byte>)
    requires AllValid(fs) && TornTail(tail)
    ensures ReadLog(LogBytes(fs) + tail) == Reading(fs, |LogBytes(fs)|, if tail == [] then Clean else Cut)
  {
    hide EncodeFrame, DecodeFrame, InspectFrame, FrameValid, NextFrame, ReadLog;
    var f, k :| IsTorn(f, k, tail);
    NextTorn(f, k);
    ReadBack(fs, tail);
    ReadStart(tail);
    assert fs + [] == fs;
  }

  lemma {:induction false} ReadStart(s: seq<Byte>)
    ensures s == [] ==> ReadLog(s) == Reading([], 0, Clean)
    ensures s != [] && NextFrame(s) == Torn ==> ReadLog(s) == Reading([], 0, Cut)
    ensures s != [] && NextFrame(s) == Bad ==> ReadLog(s) == Reading([], 0, Damaged)
  {
    hide NextFrame;
  }

  /** Behind any log, reading goes on as if it began there. */
  lemma {:induction false} ReadBack(fs: seq<Frame>, rest: seq<Byte>)
    requires AllValid(fs)
    ensures var r := ReadLog(rest);
            ReadLog(LogBytes(fs) + rest) == Reading(fs + r.frames, |LogBytes(fs)| + r.bytes, r.ending)
    decreases |fs|
  {
    hide EncodeFrame, DecodeFrame, InspectFrame, FrameValid, NextFrame;
    var r := ReadLog(rest);
    if fs == [] {
      assert LogBytes(fs) + rest == rest && fs + r.frames == r.frames;
    } else {
      var p, behind := EncodeFrame(fs[0]), LogBytes(fs[1..]) + rest;
      assert LogBytes(fs) + rest == p + behind;
      NextWhole(fs[0], behind);
      assert (p + behind)[|p|..] == behind;
      ReadBack(fs[1..], rest);
      EncodeLength(fs[0]);
      assert [fs[0]] + (fs[1..] + r.frames) == fs + r.frames;
    }
  }

  /** Whatever the bytes, the frames that reading yields are the log that the bytes start with. */
  lemma {:induction false} ReadSound(s: seq<Byte>)
    ensures var r := ReadLog(s);
            && AllValid(r.frames) && s[..r.bytes] == LogBytes(r.frames)
            && (r.ending == Clean ==> r.bytes == |s|)
    decreases |s|
  {
    hide EncodeFrame, DecodeFrame, InspectFrame, FrameValid, NextFrame;
    if s != [] && NextFrame(s).Whole? {
      var n := NextFrame(s).bytes;
      NextSound(s);
      ReadSound(s[n..]);
      var r := ReadLog(s[n..]);
      assert s[..n + r.bytes] == s[..n] + s[n..][..r.bytes];
    }
  }

  lemma {:induction false} LogConcat(a: seq<Frame>, b: seq<Frame>)
    requires AllValid(a) && AllValid(b)
    ensures AllValid(a + b) && LogBytes(a + b) == LogBytes(a) + LogBytes(b)
  {
    hide EncodeFrame, DecodeFrame, InspectFrame, FrameValid, NextFrame;
    if a == [] {
      assert a + b == b;
    } else {
      assert (a + b)[1..] == a[1..] + b;
      LogConcat(a[1..], b);
    }
  }

  lemma LogAppend(fs: seq<Frame>, f: Frame)
    requires AllValid(fs) && FrameValid(f)
    ensures AllValid(fs + [f]) && LogBytes(fs + [f]) == LogBytes(fs) + EncodeFrame(f)
  {
    hide EncodeFrame, DecodeFrame, InspectFrame, FrameValid, NextFrame;
    LogConcat(fs, [f]);
    assert LogBytes([f]) == EncodeFrame(f) + LogBytes([]);
  }

  // ---- damage ----

  /** Two strings of one length that differ, but only within four neighbouring bytes. */
  predicate Damages(s: seq<Byte>, q: seq<Byte>, i: nat) {
    |q| == |s| && q != s && i + 4 <= |s| && s[..i] == q[..i] && s[i + 4..] == q[i + 4..]
  }

  lemma {:induction false} HeaderSealed(h: Header)
    requires SizesValid(h)
    ensures var p := HeaderBytes(h); |p| == 80 && Sealed(p[..76]) && p[76..] == Zeros(4)
  {
    hide Checksum, Sealed, Pack;
    var x := Pack(HEADER_WIDTHS, HeaderValues(h));
    PackLength(HEADER_WIDTHS, HeaderValues(h));
    HeaderOffsets();
    var w := WithChecksum(x);
    assert HeaderBytes(h)[..76] == w && w[..72] == x;
    SealedIff(w);
  }

  /** A header is not changed within four neighbouring bytes into another one. */
  lemma {:induction false} HeaderDamage(h: Header, h': Header, i: nat)
    requires SizesValid(h) && SizesValid(h')
    requires var p, q := HeaderBytes(h), HeaderBytes(h');
             i <= |p| == |q| && p[..i] == q[..i] && (i + 4 <= |p| ==> p[i + 4..] == q[i + 4..])
    ensures HeaderBytes(h) == HeaderBytes(h')
  {
    hide HeaderBytes, SizesValid, Sealed, Zeros;
    var p, q := HeaderBytes(h), HeaderBytes(h');
    HeaderSealed(h);
    HeaderSealed(h');
    var j := if i < 72 then i else 72;
    assert p[..76][..j] == p[..i][..j] && q[..76][..j] == q[..i][..j];
    if i < 72 {
      assert p[..76][j + 4..] == p[i + 4..][..72 - i] && q[..76][j + 4..] == q[i + 4..][..72 - i];
    } else {
      assert p[..76][j + 4..] == [] && q[..76][j + 4..] == [];
    }
    BurstDetected(p[..76], q[..76], j);
    assert p == p[..76] + p[76..] && q == q[..76] + q[76..];
  }

  /** A damaged frame is neither acceptable nor taken for an unfinished one, whatever follows it. */
  lemma {:induction false} NextDamaged(f: Frame, q: seq<Byte>, i: nat, rest: seq<Byte>)
    requires FrameValid(f) && Damages(EncodeFrame(f), q, i)
    ensures NextFrame(q + rest) == Bad
  {
    hide EncodeFrame, FrameValid, DecodeFrame, InspectFrame, HeaderBytes, SizesValid, TotalBytes;
    var p, s, h := EncodeFrame(f), q + rest, HeaderOf(f);
    EncodedPrefix(f);
    assert s[..80] == q[..80] && s[..|q|] == q;
    var r := InspectFrame(s[..80]);
    if r.Some? {
      assert s[..80][..80] == s[..80];
      InspectIff(r.value, s[..80]);
      HeaderWindow(p, q, i);
      HeaderDamage(h, r.value, if i < 80 then i else 80);
      InspectIff(h, s[..80]);
      DecodeEncode(f);
      CorruptionRejected(p, q, i);
    }
  }

  lemma {:induction false} HeaderWindow(p: seq<Byte>, q: seq<Byte>, i: nat)
    requires |p| == |q| >= 84 && i + 4 <= |p| && p[..i] == q[..i] && p[i + 4..] == q[i + 4..]
    ensures var j := if i < 80 then i else 80;
            p[..80][..j] == q[..80][..j] && (j + 4 <= 80 ==> p[..80][j + 4..] == q[..80][j + 4..])
  {
    hide *;
    var j := if i < 80 then i else 80;
    assert p[..80][..j] == p[..i][..j] && q[..80][..j] == q[..i][..j];
    if j + 4 <= 80 {
      assert p[..80][j + 4..] == p[i + 4..][..76 - i] && q[..80][j + 4..] == q[i + 4..][..76 - i];
    }
  }

  lemma {:induction false} DamagedStart(f: Frame, q: seq<Byte>, i: nat, rest: seq<Byte>)
    requires FrameValid(f) && Damages(EncodeFrame(f), q, i) && NextFrame(q + rest) == Bad
    ensures ReadLog(q + rest).ending == Damaged
  {
    hide EncodeFrame, FrameValid, NextFrame;
    assert q + rest != [] by { assert |q| >= 4; }
    ReadStart(q + rest);
  }
}
