/** UTF-8 as Go's unicode/utf8 checks it (RFC 3629), and the conversion of Latin-1
    bytes to it. */
module Utf8 {
  import opened Bytes

  predicate Continuation(b: byte) {
    0x80 <= b <= 0xbf
  }

  /** The length of the code point s starts with; 0 when there is none. */
  function RuneLength(s: seq<byte>): (n: nat)
    ensures n <= |s| && n <= 4
  {
    if |s| >= 1 && s[0] < 0x80 then 1
    else if |s| >= 2 && 0xc2 <= s[0] <= 0xdf && Continuation(s[1]) then 2
    else if |s| >= 3 && ThreeBytes(s[0], s[1]) && Continuation(s[2]) then 3
    else if |s| >= 4 && FourBytes(s[0], s[1]) && Continuation(s[2]) && Continuation(s[3]) then 4
    else 0
  }

  /** No overlong forms and no surrogates. */
  predicate ThreeBytes(a: byte, b: byte) {
    || (a == 0xe0 && 0xa0 <= b <= 0xbf)
    || (0xe1 <= a <= 0xef && a != 0xed && Continuation(b))
    || (a == 0xed && 0x80 <= b <= 0x9f)
  }

  /** No overlong forms and nothing past U+10FFFF. */
  predicate FourBytes(a: byte, b: byte) {
    || (a == 0xf0 && 0x90 <= b <= 0xbf)
    || (0xf1 <= a <= 0xf3 && Continuation(b))
    || (a == 0xf4 && 0x80 <= b <= 0x8f)
  }

  /** utf8.Valid */
  predicate ValidUtf8(s: seq<byte>) {
    s == [] || (RuneLength(s) > 0 && ValidUtf8(s[RuneLength(s)..]))
  }

  /** The code point of a well-formed sequence. */
  function RuneAt(s: seq<byte>): (r: nat)
    requires RuneLength(s) > 0
  {
    var n := RuneLength(s);
    if n == 1 then s[0]
    else if n == 2 then Bits(s[0], 0xc0) * 64 + Bits(s[1], 0x80)
    else if n == 3 then (Bits(s[0], 0xe0) * 64 + Bits(s[1], 0x80)) * 64 + Bits(s[2], 0x80)
    else ((Bits(s[0], 0xf0) * 64 + Bits(s[1], 0x80)) * 64 + Bits(s[2], 0x80)) * 64 + Bits(s[3], 0x80)
  }

  /** What a byte carries besides its marker. */
  function Bits(b: byte, marker: nat): nat
    requires marker <= b
  {
    b - marker
  }

  /** The code points of valid text. */
  function Runes(s: seq<byte>): (rs: seq<nat>)
    requires ValidUtf8(s)
  {
    if s == [] then [] else [RuneAt(s)] + Runes(s[RuneLength(s)..])
  }

  // ---- what valid text is ----------------------------------------------------

  /** The numbers that stand for characters: no surrogates, nothing past U+10FFFF. */
  predicate Scalar(r: nat) {
    r < 0xd800 || 0xe000 <= r <= 0x10ffff
  }

  /** A byte that continues a character, with the six lowest bits of n. */
  function Low(n: nat): (b: byte) {
    0x80 + n % 0x40
  }

  /** A character as RFC 3629, section 3, writes it: in as few bytes as will hold it. */
  function EncodeRune(r: nat): (s: seq<byte>)
    requires Scalar(r)
    ensures 1 <= |s| <= 4
  {
    var r1 := r / 0x40;
    var r2 := r1 / 0x40;
    if r < 0x80 then [r]
    else if r < 0x800 then [0xc0 + r1, Low(r)]
    else if r < 0x1_0000 then [0xe0 + r2, Low(r1), Low(r)]
    else [0xf0 + r2 / 0x40, Low(r2), Low(r1), Low(r)]
  }

  lemma SixBits(high: nat, low: nat)
    requires low < 0x40
    ensures (high * 0x40 + low) / 0x40 == high && (high * 0x40 + low) % 0x40 == low
  {
  }

  /** The length of a character is that of its first byte, and the rest are as they must
      be. */
  lemma LengthRead(r: nat, rest: seq<byte>)
    requires Scalar(r)
    ensures RuneLength(EncodeRune(r) + rest) == |EncodeRune(r)|
  {
    var s := EncodeRune(r);
    var t := s + rest;
    assert forall i :: 0 <= i < |s| ==> t[i] == s[i];
  }

  lemma RuneRead(r: nat, rest: seq<byte>)
    requires Scalar(r)
    ensures RuneLength(EncodeRune(r) + rest) == |EncodeRune(r)| && RuneAt(EncodeRune(r) + rest) == r
  {
    LengthRead(r, rest);
    hide RuneLength, Scalar;
    var s := EncodeRune(r);
    assert forall i :: 0 <= i < |s| ==> (s + rest)[i] == s[i];
  }

  lemma RuneWritten(s: seq<byte>)
    requires RuneLength(s) > 0
    ensures Scalar(RuneAt(s)) && s[..RuneLength(s)] == EncodeRune(RuneAt(s))
  {
    var n := RuneLength(s);
    if n == 2 {
      SixBits(s[0] - 0xc0, s[1] - 0x80);
    } else if n == 3 {
      var a: nat, b: nat, c: nat := s[0] - 0xe0, s[1] - 0x80, s[2] - 0x80;
      SixBits(a, b);
      SixBits(a * 0x40 + b, c);
    } else if n == 4 {
      FourWritten(s);
    }
  }

  lemma FourWritten(s: seq<byte>)
    requires RuneLength(s) == 4
    ensures Scalar(RuneAt(s)) && s[..4] == EncodeRune(RuneAt(s))
  {
    var a: nat, b: nat, c: nat, d: nat := s[0] - 0xf0, s[1] - 0x80, s[2] - 0x80, s[3] - 0x80;
    SixBits(a, b);
    SixBits(a * 0x40 + b, c);
    SixBits((a * 0x40 + b) * 0x40 + c, d);
  }

  predicate AllScalar(rs: seq<nat>) {
    forall i :: 0 <= i < |rs| ==> Scalar(rs[i])
  }

  function EncodeRunes(rs: seq<nat>): seq<byte>
    requires AllScalar(rs)
  {
    if rs == [] then [] else EncodeRune(rs[0]) + EncodeRunes(rs[1..])
  }

  /** Text is valid if and only if it writes some characters; it is read as those. */
  lemma {:induction false} WrittenIsValid(rs: seq<nat>)
    requires AllScalar(rs)
    ensures ValidUtf8(EncodeRunes(rs)) && Runes(EncodeRunes(rs)) == rs
  {
    if rs == [] {
    } else {
      hide EncodeRune, RuneLength, RuneAt;
      RuneRead(rs[0], EncodeRunes(rs[1..]));
      WrittenIsValid(rs[1..]);
      var s := EncodeRunes(rs);
      assert s[|EncodeRune(rs[0])|..] == EncodeRunes(rs[1..]);
    }
  }

  lemma RunesStep(s: seq<byte>)
    requires ValidUtf8(s) && s != []
    ensures RuneLength(s) > 0 && ValidUtf8(s[RuneLength(s)..])
    ensures Runes(s) == [RuneAt(s)] + Runes(s[RuneLength(s)..])
  {
  }

  lemma {:induction false} ValidIsWritten(s: seq<byte>)
    requires ValidUtf8(s)
    ensures AllScalar(Runes(s)) && EncodeRunes(Runes(s)) == s
  {
    if s == [] {
    } else {
      hide *;
      RunesStep(s);
      RuneWritten(s);
      ValidIsWritten(s[RuneLength(s)..]);
      PrependRune(RuneAt(s), Runes(s[RuneLength(s)..]));
      assert s == s[..RuneLength(s)] + s[RuneLength(s)..];
    }
  }

  lemma PrependRune(r: nat, rs: seq<nat>)
    requires Scalar(r) && AllScalar(rs)
    ensures AllScalar([r] + rs) && EncodeRunes([r] + rs) == EncodeRune(r) + EncodeRunes(rs)
  {
    hide Scalar, EncodeRune;
    assert ([r] + rs)[1..] == rs;
  }

  /** string(runes) for runes below 0x100: every byte of s taken as a code point. */
  function Latin1(s: seq<byte>): (t: seq<byte>)
    ensures |s| <= |t| <= 2 * |s|
  {
    if s == [] then []
    else (if s[0] < 0x80 then [s[0]] else [0xc0 + s[0] / 64, 0x80 + s[0] % 64]) + Latin1(s[1..])
  }

  /** The conversion is valid text whose code points are the bytes. */
  lemma {:induction false} Latin1Runes(s: seq<byte>)
    ensures ValidUtf8(Latin1(s)) && Runes(Latin1(s)) == s
  {
    if s == [] {
    } else {
      Latin1Runes(s[1..]);
      var t := Latin1(s);
      assert t[RuneLength(t)..] == Latin1(s[1..]);
    }
  }
}
