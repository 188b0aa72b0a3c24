/**
  Unpadded base64url: the "URL and Filename safe" alphabet of section 5 of
  RFC 4648, with the trailing `=` padding omitted (Go's
  `base64.RawURLEncoding`).

  Every 3 bytes become 4 symbols of 6 bits each; a final group of 1 byte
  becomes 2 symbols and one of 2 bytes becomes 3, the unused low bits
  being zero.
*/
module Base64Url {
  import opened Wrappers
  import opened Bytes

  /** A 6-bit value: the index of one symbol in the alphabet. */
  type Sextet = x: int | 0 <= x < 64

  /** True for the characters of the URL and filename safe alphabet. */
  predicate IsUrlSafe(c: char)
  {
    ('A' <= c <= 'Z') || ('a' <= c <= 'z') || ('0' <= c <= '9') || c == '-' || c == '_'
  }

  /** The symbol for a 6-bit value: 0-25 'A'-'Z', 26-51 'a'-'z', 52-61 '0'-'9', 62 '-', 63 '_'. */
  function Symbol(v: Sextet): (c: char)
    ensures IsUrlSafe(c) && c != '='
  {
    if v < 26 then ('A' as int + v) as char
    else if v < 52 then ('a' as int + (v - 26)) as char
    else if v < 62 then ('0' as int + (v - 52)) as char
    else if v == 62 then '-'
    else '_'
  }

  /** The 6-bit value of a symbol; `None` for a character outside the alphabet. */
  function SymbolValue(c: char): (r: Option<Sextet>)
    ensures r.Some? <==> IsUrlSafe(c)
    ensures r.Some? ==> Symbol(r.value) == c
  {
    if 'A' <= c <= 'Z' then Some(c as int - 'A' as int)
    else if 'a' <= c <= 'z' then Some(c as int - 'a' as int + 26)
    else if '0' <= c <= '9' then Some(c as int - '0' as int + 52)
    else if c == '-' then Some(62)
    else if c == '_' then Some(63)
    else None
  }

  /** The number of symbols for `n` bytes (Go's `EncodedLen` without padding). */
  function EncodedLen(n: nat): nat
  {
    (n * 8 + 5) / 6
  }

  /** The 6-bit groups of `data`, most significant bits first. */
  function Sextets(data: seq<Byte>): (vs: seq<Sextet>)
    ensures |vs| == EncodedLen(|data|)
    decreases |data|
  {
    if |data| == 0 then []
    else if |data| == 1 then
      [data[0] / 4, data[0] % 4 * 16]
    else if |data| == 2 then
      [data[0] / 4, data[0] % 4 * 16 + data[1] / 16, data[1] % 16 * 4]
    else
      [data[0] / 4, data[0] % 4 * 16 + data[1] / 16, data[1] % 16 * 4 + data[2] / 64, data[2] % 64]
      + Sextets(data[3..])
  }

  /** The symbols for a sequence of 6-bit values. */
  function Symbols(vs: seq<Sextet>): (s: string)
    ensures |s| == |vs|
    ensures forall i :: 0 <= i < |vs| ==> s[i] == Symbol(vs[i])
  {
    if vs == [] then "" else [Symbol(vs[0])] + Symbols(vs[1..])
  }

  /** Unpadded base64url encoding of `data`. */
  function Encode(data: seq<Byte>): (s: string)
    ensures |s| == EncodedLen(|data|)
    ensures forall i :: 0 <= i < |s| ==> IsUrlSafe(s[i]) && s[i] != '='
  {
    Symbols(Sextets(data))
  }

  /** The 6-bit values of the characters of `s`; `None` if one is outside the alphabet. */
  function SymbolValues(s: string): (r: Option<seq<Sextet>>)
    ensures r.Some? <==> forall i :: 0 <= i < |s| ==> IsUrlSafe(s[i])
    ensures r.Some? ==> |r.value| == |s|
  {
    if s == [] then Some([])
    else
      var head := SymbolValue(s[0]);
      var tail := SymbolValues(s[1..]);
      if head.Some? && tail.Some? then Some([head.value] + tail.value) else None
  }

  /** The first byte encoded by the 6-bit values `v0` and `v1`. */
  function Byte0(v0: Sextet, v1: Sextet): Byte { v0 * 4 + v1 / 16 }

  /** The second byte encoded by the 6-bit values `v1` and `v2`. */
  function Byte1(v1: Sextet, v2: Sextet): Byte { v1 % 16 * 16 + v2 / 4 }

  /** The third byte encoded by the 6-bit values `v2` and `v3`. */
  function Byte2(v2: Sextet, v3: Sextet): Byte { v2 % 4 * 64 + v3 }

  /**
    The bytes carried by a sequence of 6-bit values; `None` for a length of
    1 modulo 4, and for a final partial group whose unused low bits are not
    zero (so only the canonical encoding of each byte string is accepted).
  */
  function FromSextets(vs: seq<Sextet>): (r: Option<seq<Byte>>)
    decreases |vs|
  {
    if |vs| == 0 then Some([])
    else if |vs| == 1 then None
    else if |vs| == 2 then
      if vs[1] % 16 == 0 then Some([Byte0(vs[0], vs[1])]) else None
    else if |vs| == 3 then
      if vs[2] % 4 == 0 then Some([Byte0(vs[0], vs[1]), Byte1(vs[1], vs[2])]) else None
    else
      match FromSextets(vs[4..])
      case Some(rest) => Some([Byte0(vs[0], vs[1]), Byte1(vs[1], vs[2]), Byte2(vs[2], vs[3])] + rest)
      case None => None
  }

  /** Unpadded base64url decoding of the canonical form: the inverse of `Encode`. */
  function Decode(s: string): Option<seq<Byte>>
  {
    match SymbolValues(s)
    case Some(vs) => FromSextets(vs)
    case None => None
  }

  lemma {:induction false} SymbolValuesOfSymbols(vs: seq<Sextet>)
    ensures SymbolValues(Symbols(vs)) == Some(vs)
  {
    if vs != [] {
      assert Symbols(vs)[1..] == Symbols(vs[1..]);
      SymbolValuesOfSymbols(vs[1..]);
      assert [vs[0]] + vs[1..] == vs;
    }
  }

  /** The bit arithmetic of one group: the 6-bit values give back the three bytes. */
  lemma QuantumRoundTrip(b0: Byte, b1: Byte, b2: Byte)
    ensures Byte0(b0 / 4, b0 % 4 * 16 + b1 / 16) == b0
    ensures Byte1(b0 % 4 * 16 + b1 / 16, b1 % 16 * 4 + b2 / 64) == b1
    ensures Byte2(b1 % 16 * 4 + b2 / 64, b2 % 64) == b2
  {
    assert (b0 % 4 * 16 + b1 / 16) / 16 == b0 % 4;
    assert (b0 % 4 * 16 + b1 / 16) % 16 == b1 / 16;
    assert (b1 % 16 * 4 + b2 / 64) / 4 == b1 % 16;
    assert (b1 % 16 * 4 + b2 / 64) % 4 == b2 / 64;
  }

  /** Round trip of a final group of one byte. */
  lemma FromSextetsOfOne(b0: Byte)
    ensures FromSextets(Sextets([b0])) == Some([b0])
  {
    var vs: seq<Sextet> := [b0 / 4, b0 % 4 * 16];
    assert Sextets([b0]) == vs;
    QuantumRoundTrip(b0, 0, 0);
    assert Byte0(vs[0], vs[1]) == b0;
  }

  /** Round trip of a final group of two bytes. */
  lemma FromSextetsOfTwo(b0: Byte, b1: Byte)
    ensures FromSextets(Sextets([b0, b1])) == Some([b0, b1])
  {
    var vs: seq<Sextet> := [b0 / 4, b0 % 4 * 16 + b1 / 16, b1 % 16 * 4];
    assert Sextets([b0, b1]) == vs;
    QuantumRoundTrip(b0, b1, 0);
    assert Byte0(vs[0], vs[1]) == b0 && Byte1(vs[1], vs[2]) == b1;
  }

  /** One full group in front of any further groups. */
  lemma FromSextetsOfGroup(b0: Byte, b1: Byte, b2: Byte, rest: seq<Byte>)
    requires FromSextets(Sextets(rest)) == Some(rest)
    ensures FromSextets(Sextets([b0, b1, b2] + rest)) == Some([b0, b1, b2] + rest)
  {
    var data := [b0, b1, b2] + rest;
    assert data[3..] == rest;
    var head: seq<Sextet> := [b0 / 4, b0 % 4 * 16 + b1 / 16, b1 % 16 * 4 + b2 / 64, b2 % 64];
    var vs := Sextets(data);
    assert vs == head + Sextets(rest);
    assert vs[4..] == Sextets(rest);
    QuantumRoundTrip(b0, b1, b2);
  }

  lemma {:induction false} FromSextetsOfSextets(data: seq<Byte>)
    ensures FromSextets(Sextets(data)) == Some(data)
    decreases |data|
  {
    if |data| == 1 {
      FromSextetsOfOne(data[0]);
      assert data == [data[0]];
    } else if |data| == 2 {
      FromSextetsOfTwo(data[0], data[1]);
      assert data == [data[0], data[1]];
    } else if |data| >= 3 {
      FromSextetsOfSextets(data[3..]);
      FromSextetsOfGroup(data[0], data[1], data[2], data[3..]);
      assert [data[0], data[1], data[2]] + data[3..] == data;
    }
  }

  /** Decoding undoes encoding, so the encoding loses nothing. */
  lemma DecodeEncode(data: seq<Byte>)
    ensures Decode(Encode(data)) == Some(data)
  {
    SymbolValuesOfSymbols(Sextets(data));
    FromSextetsOfSextets(data);
  }

  /** Distinct byte strings have distinct encodings. */
  lemma EncodeInjective(a: seq<Byte>, b: seq<Byte>)
    requires Encode(a) == Encode(b)
    ensures a == b
  {
    DecodeEncode(a);
    DecodeEncode(b);
  }

  /**
    The bit layout of one full group: the four 6-bit values, most
    significant first, spell the same 24 bits as the three bytes.
  */
  lemma QuantumBits(b0: Byte, b1: Byte, b2: Byte)
    ensures var vs := Sextets([b0, b1, b2]);
            vs[0] as int * 0x4_0000 + vs[1] as int * 0x1000 + vs[2] as int * 0x40 + vs[3] as int ==
              b0 as int * 0x1_0000 + b1 as int * 0x100 + b2 as int
  {
    var vs := Sextets([b0, b1, b2]);
    assert vs == [b0 / 4, b0 % 4 * 16 + b1 / 16, b1 % 16 * 4 + b2 / 64, b2 % 64];
    assert b0 == b0 / 4 * 4 + b0 % 4;
    assert b1 == b1 / 16 * 16 + b1 % 16;
    assert b2 == b2 / 64 * 64 + b2 % 64;
  }

  /** Reading the symbols of a string back gives the string. */
  lemma {:induction false} SymbolsOfSymbolValues(s: string, vs: seq<Sextet>)
    requires SymbolValues(s) == Some(vs)
    ensures Symbols(vs) == s
  {
    if s != [] {
      SymbolsOfSymbolValues(s[1..], vs[1..]);
      assert [s[0]] + s[1..] == s;
    }
  }

  /** The 6-bit values of one group give back the group from its three bytes. */
  lemma SextetsOfQuantum(v0: Sextet, v1: Sextet, v2: Sextet, v3: Sextet)
    ensures Byte0(v0, v1) / 4 == v0
    ensures Byte0(v0, v1) % 4 * 16 + Byte1(v1, v2) / 16 == v1
    ensures Byte1(v1, v2) % 16 * 4 + Byte2(v2, v3) / 64 == v2
    ensures Byte2(v2, v3) % 64 == v3
  {
    assert Byte0(v0, v1) / 4 == v0 && Byte0(v0, v1) % 4 == v1 / 16;
    assert Byte1(v1, v2) / 16 == v1 % 16 && Byte1(v1, v2) % 16 == v2 / 4;
    assert Byte2(v2, v3) / 64 == v2 % 4 && Byte2(v2, v3) % 64 == v3;
  }

  /** A final group of two 6-bit values with zero low bits is the encoding of its byte. */
  lemma SextetsOfTwoSymbols(v0: Sextet, v1: Sextet)
    requires v1 % 16 == 0
    ensures Sextets([Byte0(v0, v1)]) == [v0, v1]
  {
    SextetsOfQuantum(v0, v1, 0, 0);
  }

  /** A final group of three 6-bit values with zero low bits is the encoding of its two bytes. */
  lemma SextetsOfThreeSymbols(v0: Sextet, v1: Sextet, v2: Sextet)
    requires v2 % 4 == 0
    ensures Sextets([Byte0(v0, v1), Byte1(v1, v2)]) == [v0, v1, v2]
  {
    SextetsOfQuantum(v0, v1, v2, 0);
  }

  /** A full group in front of the encoding of the rest. */
  lemma SextetsOfGroup(vs: seq<Sextet>, rest: seq<Byte>)
    requires |vs| >= 4 && Sextets(rest) == vs[4..]
    ensures Sextets([Byte0(vs[0], vs[1]), Byte1(vs[1], vs[2]), Byte2(vs[2], vs[3])] + rest) == vs
  {
    var data := [Byte0(vs[0], vs[1]), Byte1(vs[1], vs[2]), Byte2(vs[2], vs[3])] + rest;
    assert data[3..] == rest;
    SextetsOfQuantum(vs[0], vs[1], vs[2], vs[3]);
    assert vs == vs[..4] + vs[4..];
  }

  lemma {:induction false} SextetsOfFromSextets(vs: seq<Sextet>, data: seq<Byte>)
    requires FromSextets(vs) == Some(data)
    ensures Sextets(data) == vs
    decreases |vs|
  {
    if |vs| == 2 {
      SextetsOfTwoSymbols(vs[0], vs[1]);
      assert vs == [vs[0], vs[1]];
    } else if |vs| == 3 {
      SextetsOfThreeSymbols(vs[0], vs[1], vs[2]);
      assert vs == [vs[0], vs[1], vs[2]];
    } else if |vs| >= 4 {
      var rest := FromSextets(vs[4..]).value;
      SextetsOfFromSextets(vs[4..], rest);
      SextetsOfGroup(vs, rest);
    }
  }

  /**
    Encoding the result of a successful decoding gives back the string: the
    decoder accepts only canonical encodings, so each byte string has
    exactly one encoding that decodes to it.
  */
  lemma EncodeDecode(s: string, data: seq<Byte>)
    requires Decode(s) == Some(data)
    ensures Encode(data) == s
  {
    var vs := SymbolValues(s).value;
    SymbolsOfSymbolValues(s, vs);
    SextetsOfFromSextets(vs, data);
  }
}
