/**
  Bytes, and the conversion of a Go string to its bytes.

  Strings are sequences of Unicode scalar values here; the bytes of a Go
  string built from such text are its UTF-8 encoding, so `[]byte(s)` is
  `Utf8Encode(s)`.
*/
module Bytes {

  type Byte = x: int | 0 <= x < 256

  /** True when every character of `s` is in the ASCII range. */
  predicate IsAscii(s: string)
  {
    forall i :: 0 <= i < |s| ==> s[i] as int < 0x80
  }

  /** The length of a UTF-8 sequence, as its lead byte announces it. */
  function SequenceLength(lead: Byte): nat
  {
    if lead < 0x80 then 1
    else if lead < 0xE0 then 2
    else if lead < 0xF0 then 3
    else 4
  }

  /** True for a UTF-8 continuation byte, `10xxxxxx`. */
  predicate IsContinuation(b: Byte)
  {
    0x80 <= b < 0xC0
  }

  /** The code point carried by one UTF-8 sequence of 1 to 4 bytes. */
  function RuneValue(b: seq<Byte>): int
    requires 1 <= |b| <= 4
  {
    var b0: int := b[0] as int;
    var b1: int := if |b| > 1 then b[1] as int else 0x80;
    var b2: int := if |b| > 2 then b[2] as int else 0x80;
    var b3: int := if |b| > 3 then b[3] as int else 0x80;
    if |b| == 1 then b0
    else if |b| == 2 then (b0 - 0xC0) * 0x40 + (b1 - 0x80)
    else if |b| == 3 then (b0 - 0xE0) * 0x1000 + (b1 - 0x80) * 0x40 + (b2 - 0x80)
    else (b0 - 0xF0) * 0x4_0000 + (b1 - 0x80) * 0x1000 + (b2 - 0x80) * 0x40 + (b3 - 0x80)
  }

  /** The UTF-8 encoding of one Unicode scalar value. */
  function EncodeRune(c: char): (b: seq<Byte>)
    ensures 1 <= |b| <= 4
    ensures |b| == SequenceLength(b[0])
    ensures RuneValue(b) == c as int
    ensures |b| == 1 <==> c as int < 0x80
    ensures c as int < 0x80 ==> b[0] == c as int
    ensures |b| > 1 ==> 0xC0 <= b[0] && forall i :: 1 <= i < |b| ==> IsContinuation(b[i])
  {
    var cp := c as int;
    SplitCodePoint(cp);
    if cp < 0x80 then [cp]
    else if cp < 0x800 then [0xC0 + cp / 0x40, 0x80 + cp % 0x40]
    else if cp < 0x1_0000 then [0xE0 + cp / 0x1000, 0x80 + cp / 0x40 % 0x40, 0x80 + cp % 0x40]
    else [0xF0 + cp / 0x4_0000, 0x80 + cp / 0x1000 % 0x40, 0x80 + cp / 0x40 % 0x40, 0x80 + cp % 0x40]
  }

  /** A code point as 6-bit groups: the arithmetic behind the continuation bytes. */
  lemma SplitCodePoint(cp: nat)
    ensures cp == cp / 0x40 * 0x40 + cp % 0x40
    ensures cp / 0x40 == cp / 0x1000 * 0x40 + cp / 0x40 % 0x40
    ensures cp / 0x1000 == cp / 0x4_0000 * 0x40 + cp / 0x1000 % 0x40
  {
    assert cp / 0x1000 == cp / 0x40 / 0x40;
    assert cp / 0x4_0000 == cp / 0x1000 / 0x40;
  }

  /** The bytes of a string: the UTF-8 encodings of its characters, in order. */
  function Utf8Encode(s: string): (b: seq<Byte>)
    ensures |b| >= |s|
    ensures IsAscii(s) ==> |b| == |s| && forall i :: 0 <= i < |s| ==> b[i] == s[i] as int
  {
    if s == [] then []
    else EncodeRune(s[0]) + Utf8Encode(s[1..])
  }

  /** Distinct characters have distinct encodings. */
  lemma EncodeRuneInjective(c: char, d: char)
    requires EncodeRune(c) == EncodeRune(d)
    ensures c == d
  {
    assert c as int == RuneValue(EncodeRune(c)) == d as int;
  }

  /**
    Distinct strings have distinct bytes: the lead byte fixes how long the
    first character's encoding is, and that encoding fixes the character.
  */
  lemma {:induction false} Utf8EncodeInjective(s: string, t: string)
    requires Utf8Encode(s) == Utf8Encode(t)
    ensures s == t
  {
    if s != [] && t != [] {
      var b := Utf8Encode(s);
      var es, et := EncodeRune(s[0]), EncodeRune(t[0]);
      assert b == es + Utf8Encode(s[1..]) == et + Utf8Encode(t[1..]);
      assert es[0] == b[0] == et[0];
      assert |es| == |et|;
      assert es == b[..|es|] == et;
      EncodeRuneInjective(s[0], t[0]);
      assert Utf8Encode(s[1..]) == b[|es|..] == Utf8Encode(t[1..]);
      Utf8EncodeInjective(s[1..], t[1..]);
      assert s == [s[0]] + s[1..] && t == [t[0]] + t[1..];
    }
  }
}
