/** Base 64 as section 4 of RFC 4648 defines it, its URL- and filename-safe
    variant of section 5, and the two decoders the system relies on: the
    browser's `atob` (the WHATWG "forgiving-base64 decode") and CPython's
    non-strict `binascii.a2b_base64`, which `base64.urlsafe_b64decode` calls. */
module Base64 {
  import opened Wrappers

  type Byte = b: int | 0 <= b < 256
  type Sextet = v: int | 0 <= v < 64

  // ---------------------------------------------------------------------------
  // The alphabet (Table 1 of RFC 4648, and Table 2 for the URL-safe variant)
  // ---------------------------------------------------------------------------

  predicate IsStdChar(c: char) {
    ('A' <= c <= 'Z') || ('a' <= c <= 'z') || ('0' <= c <= '9') || c == '+' || c == '/'
  }

  predicate IsUrlChar(c: char) {
    ('A' <= c <= 'Z') || ('a' <= c <= 'z') || ('0' <= c <= '9') || c == '-' || c == '_'
  }

  /** The character that encodes a 6-bit value. */
  function StdChar(v: Sextet): (c: char)
    ensures IsStdChar(c)
  {
    if v < 26 then (65 + v) as char
    else if v < 52 then (97 + v - 26) as char
    else if v < 62 then (48 + v - 52) as char
    else if v == 62 then '+'
    else '/'
  }

  /** The 6-bit value a character of the alphabet encodes. */
  function StdValue(c: char): (v: Sextet)
    requires IsStdChar(c)
    ensures StdChar(v) == c
  {
    if 'A' <= c <= 'Z' then c as int - 65
    else if 'a' <= c <= 'z' then c as int - 97 + 26
    else if '0' <= c <= '9' then c as int - 48 + 52
    else if c == '+' then 62
    else 63
  }

  lemma ValueOfChar(v: Sextet)
    ensures StdValue(StdChar(v)) == v
  {
  }

  /** Section 5: `+` becomes `-` and `/` becomes `_`. */
  function ToUrl(c: char): (d: char)
    ensures IsStdChar(c) ==> IsUrlChar(d)
    ensures d != '+' && d != '/'
    ensures d == '=' <==> c == '='
  {
    if c == '+' then '-' else if c == '/' then '_' else c
  }

  /** The reverse translation: `-` becomes `+` and `_` becomes `/`. */
  function FromUrl(c: char): (d: char)
    ensures IsUrlChar(c) ==> IsStdChar(d)
    ensures d == '=' <==> c == '='
  {
    if c == '-' then '+' else if c == '_' then '/' else c
  }

  lemma FromUrlToUrl(c: char)
    requires IsStdChar(c)
    ensures FromUrl(ToUrl(c)) == c
  {
  }

  function MapToUrl(s: string): (r: string)
    ensures |r| == |s|
    ensures forall i :: 0 <= i < |s| ==> r[i] == ToUrl(s[i])
  {
    seq(|s|, i requires 0 <= i < |s| => ToUrl(s[i]))
  }

  function MapFromUrl(s: string): (r: string)
    ensures |r| == |s|
    ensures forall i :: 0 <= i < |s| ==> r[i] == FromUrl(s[i])
  {
    seq(|s|, i requires 0 <= i < |s| => FromUrl(s[i]))
  }

  predicate AllStd(s: string) {
    forall i :: 0 <= i < |s| ==> IsStdChar(s[i])
  }

  predicate AllUrl(s: string) {
    forall i :: 0 <= i < |s| ==> IsUrlChar(s[i])
  }

  // ---------------------------------------------------------------------------
  // Encoding (section 4)
  // ---------------------------------------------------------------------------

  /** A group of three bytes read as four 6-bit values, high bits first. */
  function Split0(b0: Byte): Sextet { b0 / 4 }
  function Split1(b0: Byte, b1: Byte): Sextet { b0 % 4 * 16 + b1 / 16 }
  function Split2(b1: Byte, b2: Byte): Sextet { b1 % 16 * 4 + b2 / 64 }
  function Split3(b2: Byte): Sextet { b2 % 64 }

  /** Four 6-bit values read back as three bytes. */
  function Join0(v0: Sextet, v1: Sextet): Byte { v0 * 4 + v1 / 16 }
  function Join1(v1: Sextet, v2: Sextet): Byte { v1 % 16 * 16 + v2 / 4 }
  function Join2(v2: Sextet, v3: Sextet): Byte { v2 % 4 * 64 + v3 }

  lemma JoinSplit(b0: Byte, b1: Byte, b2: Byte)
    ensures Join0(Split0(b0), Split1(b0, b1)) == b0
    ensures Join1(Split1(b0, b1), Split2(b1, b2)) == b1
    ensures Join2(Split2(b1, b2), Split3(b2)) == b2
  {
  }

  /** How many data characters encode n bytes: four per full group of three,
      two or three for a final group of one or two. */
  function DataLength(n: nat): (k: nat)
    ensures k % 4 != 1
  {
    4 * (n / 3) + (if n % 3 == 0 then 0 else n % 3 + 1)
  }

  /** The 6-bit values of the encoding: four per full group of three bytes,
      and two or three for a final group of one or two bytes, whose spare low
      bits are zero. */
  function Sextets(b: seq<Byte>): (vs: seq<Sextet>)
    ensures |vs| == DataLength(|b|)
    decreases |b|
  {
    if |b| == 0 then []
    else if |b| == 1 then [Split0(b[0]), Split1(b[0], 0)]
    else if |b| == 2 then [Split0(b[0]), Split1(b[0], b[1]), Split2(b[1], 0)]
    else [Split0(b[0]), Split1(b[0], b[1]), Split2(b[1], b[2]), Split3(b[2])] + Sextets(b[3..])
  }

  function Chars(vs: seq<Sextet>): (s: string)
    ensures |s| == |vs|
    ensures forall i :: 0 <= i < |vs| ==> s[i] == StdChar(vs[i])
    ensures AllStd(s)
  {
    seq(|vs|, i requires 0 <= i < |vs| => StdChar(vs[i]))
  }

  /** The characters that carry data. */
  function Data(b: seq<Byte>): (s: string)
    ensures |s| == DataLength(|b|)
    ensures AllStd(s)
  {
    Chars(Sextets(b))
  }

  /** The `=` characters that complete the final quantum. */
  function Padding(n: nat): (p: string)
    ensures (DataLength(n) + |p|) % 4 == 0 && |p| < 3
    ensures forall i :: 0 <= i < |p| ==> p[i] == '='
  {
    if n % 3 == 1 then "==" else if n % 3 == 2 then "=" else ""
  }

  /** Standard base 64 with padding: Python's `b64encode` and the browser's `btoa`. */
  function Encode(b: seq<Byte>): (s: string)
    ensures |s| % 4 == 0 && |b| <= |s|
    ensures forall i :: 0 <= i < |s| ==> IsStdChar(s[i]) || s[i] == '='
  {
    Data(b) + Padding(|b|)
  }

  /** Python's `urlsafe_b64encode`: the standard encoding, then section 5's translation. */
  function UrlEncode(b: seq<Byte>): (s: string)
    ensures |s| % 4 == 0
    ensures forall i :: 0 <= i < |s| ==> IsUrlChar(s[i]) || s[i] == '='
  {
    MapToUrl(Encode(b))
  }

  // ---------------------------------------------------------------------------
  // Decoding of data characters, shared by both decoders
  // ---------------------------------------------------------------------------

  function Values(s: string): (vs: seq<Sextet>)
    requires AllStd(s)
    ensures |vs| == |s|
    ensures forall i :: 0 <= i < |s| ==> vs[i] == StdValue(s[i])
  {
    seq(|s|, i requires 0 <= i < |s| => StdValue(s[i]))
  }

  lemma ValuesOfChars(vs: seq<Sextet>)
    ensures Values(Chars(vs)) == vs
  {
    forall i | 0 <= i < |vs| ensures Values(Chars(vs))[i] == vs[i] {
      ValueOfChar(vs[i]);
    }
  }

  /** Four values give three bytes; a final two or three give one or two bytes,
      and the spare low bits of the last value are discarded. */
  function DecodeValues(vs: seq<Sextet>): (b: seq<Byte>)
    requires |vs| % 4 != 1
    decreases |vs|
  {
    if |vs| == 0 then []
    else if |vs| == 2 then [Join0(vs[0], vs[1])]
    else if |vs| == 3 then [Join0(vs[0], vs[1]), Join1(vs[1], vs[2])]
    else [Join0(vs[0], vs[1]), Join1(vs[1], vs[2]), Join2(vs[2], vs[3])] + DecodeValues(vs[4..])
  }

  lemma DecodeValuesCons(v0: Sextet, v1: Sextet, v2: Sextet, v3: Sextet, rest: seq<Sextet>)
    requires |rest| % 4 != 1
    ensures DecodeValues([v0, v1, v2, v3] + rest)
         == [Join0(v0, v1), Join1(v1, v2), Join2(v2, v3)] + DecodeValues(rest)
  {
    var vs := [v0, v1, v2, v3] + rest;
    assert vs[4..] == rest;
  }

  lemma SextetsCons(b: seq<Byte>)
    requires |b| >= 3
    ensures Sextets(b) == [Split0(b[0]), Split1(b[0], b[1]), Split2(b[1], b[2]), Split3(b[2])]
                          + Sextets(b[3..])
  {
  }

  /** Decoding the values of an encoding gives back the bytes. */
  lemma {:induction false} DecodeSextets(b: seq<Byte>)
    ensures DecodeValues(Sextets(b)) == b
    decreases |b|
  {
    if |b| == 1 {
      DecodeShort1(b[0]);
      assert b == [b[0]];
    } else if |b| == 2 {
      DecodeShort2(b[0], b[1]);
      assert b == [b[0], b[1]];
    } else if |b| >= 3 {
      var v0, v1, v2, v3 := Split0(b[0]), Split1(b[0], b[1]), Split2(b[1], b[2]), Split3(b[2]);
      var tail := Sextets(b[3..]);
      DecodeSextets(b[3..]);
      SextetsCons(b);
      DecodeValuesCons(v0, v1, v2, v3, tail);
      assert [Join0(v0, v1), Join1(v1, v2), Join2(v2, v3)] == [b[0], b[1], b[2]] by {
        JoinSplit(b[0], b[1], b[2]);
      }
      assert [b[0], b[1], b[2]] + b[3..] == b;
    }
  }

  lemma DecodeShort1(b0: Byte)
    ensures DecodeValues(Sextets([b0])) == [b0]
  {
    assert Sextets([b0]) == [Split0(b0), Split1(b0, 0)];
    assert DecodeValues([Split0(b0), Split1(b0, 0)]) == [Join0(Split0(b0), Split1(b0, 0))];
    assert Join0(Split0(b0), Split1(b0, 0)) == b0 by {
      JoinSplit(b0, 0, 0);
    }
  }

  lemma DecodeShort2(b0: Byte, b1: Byte)
    ensures DecodeValues(Sextets([b0, b1])) == [b0, b1]
  {
    var v0, v1, v2 := Split0(b0), Split1(b0, b1), Split2(b1, 0);
    assert Sextets([b0, b1]) == [v0, v1, v2];
    assert DecodeValues([v0, v1, v2]) == [Join0(v0, v1), Join1(v1, v2)];
    assert Join0(v0, v1) == b0 && Join1(v1, v2) == b1 by {
      JoinSplit(b0, b1, 0);
    }
  }

  lemma DecodeData(b: seq<Byte>)
    ensures DecodeValues(Values(Data(b))) == b
  {
    ValuesOfChars(Sextets(b));
    DecodeSextets(b);
  }

  // ---------------------------------------------------------------------------
  // The browser: btoa and atob over "binary strings" (one char per byte)
  // ---------------------------------------------------------------------------

  /** The binary string whose char codes are the bytes. */
  function Binary(b: seq<Byte>): (s: string)
    ensures |s| == |b|
    ensures forall i :: 0 <= i < |b| ==> s[i] as int == b[i]
  {
    seq(|b|, i requires 0 <= i < |b| => b[i] as char)
  }

  predicate IsBinary(s: string) {
    forall i :: 0 <= i < |s| ==> s[i] as int < 256
  }

  /** The bytes whose values are the char codes of a binary string. */
  function Codes(s: string): (b: seq<Byte>)
    requires IsBinary(s)
    ensures |b| == |s|
    ensures forall i :: 0 <= i < |s| ==> b[i] == s[i] as int
  {
    seq(|s|, i requires 0 <= i < |s| => s[i] as int)
  }

  /** `btoa`: fails (InvalidCharacterError) on a char code above 255. */
  function Btoa(s: string): (r: Option<string>)
    ensures r.Some? <==> IsBinary(s)
    ensures r.Some? ==> r.value == Encode(Codes(s))
  {
    if IsBinary(s) then Some(Encode(Codes(s))) else None
  }

  predicate IsAsciiWhitespace(c: char) {
    c == ' ' || c == '\t' || c == '\n' || c == '\r' || c as int == 12
  }

  function RemoveWhitespace(s: string): (r: string)
    ensures forall i :: 0 <= i < |r| ==> !IsAsciiWhitespace(r[i])
    ensures |r| <= |s|
  {
    if s == [] then []
    else if IsAsciiWhitespace(s[0]) then RemoveWhitespace(s[1..])
    else [s[0]] + RemoveWhitespace(s[1..])
  }

  /** Step 2 of forgiving-base64 decode: when the length is a multiple of four,
      one or two final `=` are dropped. */
  function DropFinalPadding(s: string): (r: string)
    ensures r == s || (|s| % 4 == 0 && |s| - 2 <= |r| < |s| && s == r + s[|r|..])
  {
    if |s| % 4 == 0 && |s| >= 2 && s[|s| - 2] == '=' && s[|s| - 1] == '=' then s[..|s| - 2]
    else if |s| % 4 == 0 && |s| >= 1 && s[|s| - 1] == '=' then s[..|s| - 1]
    else s
  }

  /** `atob`, the forgiving-base64 decode: whitespace is ignored, padding is
      optional, a length of one more than a multiple of four or a character
      outside the alphabet is a failure (InvalidCharacterError). */
  function Atob(s: string): (r: Option<string>)
    ensures r.Some? ==> IsBinary(r.value)
  {
    var d := DropFinalPadding(RemoveWhitespace(s));
    if |d| % 4 == 1 || !AllStd(d) then None
    else Some(Binary(DecodeValues(Values(d))))
  }

  lemma {:induction false} NoWhitespaceInEncoding(s: string)
    requires forall i :: 0 <= i < |s| ==> IsStdChar(s[i]) || s[i] == '='
    ensures RemoveWhitespace(s) == s
  {
    if s != [] {
      NoWhitespaceInEncoding(s[1..]);
      assert s == [s[0]] + s[1..];
    }
  }

  /** `atob(btoa(x)) == x` for every binary string, read at the level of bytes. */
  lemma AtobEncode(b: seq<Byte>)
    ensures Atob(Encode(b)) == Some(Binary(b))
  {
    var e := Encode(b);
    NoWhitespaceInEncoding(e);
    var data := Data(b);
    assert e == data + Padding(|b|);
    if |data| > 0 {
      assert data[|data| - 1] != '=';
    }
    assert DropFinalPadding(e) == data;
    DecodeData(b);
  }

  // ---------------------------------------------------------------------------
  // CPython: urlsafe_b64decode, i.e. a2b_base64 in non-strict mode after the
  // translation of `-` and `_`
  // ---------------------------------------------------------------------------

  /** The decoder's state between characters: how many data characters of the
      current quantum were read, and the bits of the last one not yet emitted. */
  predicate QuadState(quad: nat, left: int) {
    && quad < 4
    && (quad == 0 ==> left == 0)
    && (quad == 1 ==> 0 <= left < 64)
    && (quad == 2 ==> 0 <= left < 16)
    && (quad == 3 ==> 0 <= left < 4)
  }

  /** How many quarter-bytes a decoder in the middle of a quantum may still emit
      beyond three per remaining character. */
  function Slack(quad: nat): int {
    if quad == 0 then 0 else 4 - quad
  }

  /** One pass over the input: characters outside the alphabet are skipped; a
      `=` once two or three data characters of a quantum are read counts as
      padding, and enough padding to complete the quantum ends the input; at the
      end of the input a partial quantum is an error ("Incorrect padding", or
      one data character too many). */
  function A2b(s: string, quad: nat, left: int, pads: nat, out: seq<Byte>): (r: Option<seq<Byte>>)
    requires QuadState(quad, left)
    ensures r.Some? ==> |out| <= |r.value|
    ensures r.Some? ==> 4 * |r.value| <= 4 * |out| + 3 * |s| + Slack(quad)
    decreases |s|
  {
    if s == [] then (if quad == 0 then Some(out) else None)
    else if s[0] == '=' then
      if quad >= 2 && quad + pads + 1 >= 4 then Some(out)
      else A2b(s[1..], quad, left, if quad >= 2 then pads + 1 else pads, out)
    else if !IsStdChar(s[0]) then A2b(s[1..], quad, left, pads, out)
    else
      var v := StdValue(s[0]);
      if quad == 0 then A2b(s[1..], 1, v, 0, out)
      else if quad == 1 then A2b(s[1..], 2, v % 16, 0, out + [left * 4 + v / 16])
      else if quad == 2 then A2b(s[1..], 3, v % 4, 0, out + [left * 16 + v / 4])
      else A2b(s[1..], 0, 0, 0, out + [left * 64 + v])
  }

  predicate IsAscii(s: string) {
    forall i :: 0 <= i < |s| ==> s[i] as int < 128
  }

  /** `base64.urlsafe_b64decode` on a `str`: a non-ASCII character is an error
      (ValueError), any other input goes to the non-strict decoder. */
  function PyUrlsafeDecode(s: string): (r: Option<seq<Byte>>)
    ensures !IsAscii(s) ==> r == None
  {
    if !IsAscii(s) then None else A2b(MapFromUrl(s), 0, 0, 0, [])
  }

  /** One data character advances the decoder by one position of the quantum. */
  lemma A2bChar(v: Sextet, rest: string, quad: nat, left: int, pads: nat, out: seq<Byte>)
    requires QuadState(quad, left)
    ensures quad == 0 ==> A2b([StdChar(v)] + rest, quad, left, pads, out) == A2b(rest, 1, v, 0, out)
    ensures quad == 1 ==> A2b([StdChar(v)] + rest, quad, left, pads, out)
                          == A2b(rest, 2, v % 16, 0, out + [left * 4 + v / 16])
    ensures quad == 2 ==> A2b([StdChar(v)] + rest, quad, left, pads, out)
                          == A2b(rest, 3, v % 4, 0, out + [left * 16 + v / 4])
    ensures quad == 3 ==> A2b([StdChar(v)] + rest, quad, left, pads, out)
                          == A2b(rest, 0, 0, 0, out + [left * 64 + v])
  {
    ValueOfChar(v);
    assert ([StdChar(v)] + rest)[1..] == rest;
  }

  /** A `=` after two or three data characters of a quantum. */
  lemma A2bPad(rest: string, quad: nat, left: int, pads: nat, out: seq<Byte>)
    requires QuadState(quad, left)
    ensures quad >= 2 && quad + pads + 1 >= 4 ==> A2b(['='] + rest, quad, left, pads, out) == Some(out)
    ensures quad >= 2 && quad + pads + 1 < 4 ==>
              A2b(['='] + rest, quad, left, pads, out) == A2b(rest, quad, left, pads + 1, out)
    ensures quad < 2 ==> A2b(['='] + rest, quad, left, pads, out) == A2b(rest, quad, left, pads, out)
  {
    assert (['='] + rest)[1..] == rest;
  }

  /** The first two data characters of a quantum emit its first byte. */
  lemma A2bFirstPair(v0: Sextet, v1: Sextet, rest: string, out: seq<Byte>)
    ensures A2b([StdChar(v0), StdChar(v1)] + rest, 0, 0, 0, out)
         == A2b(rest, 2, v1 % 16, 0, out + [Join0(v0, v1)])
  {
    var r1 := [StdChar(v1)] + rest;
    assert [StdChar(v0), StdChar(v1)] + rest == [StdChar(v0)] + r1;
    A2bChar(v0, r1, 0, 0, 0, out);
    A2bChar(v1, rest, 1, v0, 0, out);
  }

  /** The last two data characters of a quantum emit its other two bytes. */
  lemma A2bSecondPair(v1: Sextet, v2: Sextet, v3: Sextet, rest: string, out: seq<Byte>)
    ensures A2b([StdChar(v2), StdChar(v3)] + rest, 2, v1 % 16, 0, out)
         == A2b(rest, 0, 0, 0, out + [Join1(v1, v2), Join2(v2, v3)])
  {
    var r3 := [StdChar(v3)] + rest;
    var o2 := out + [Join1(v1, v2)];
    assert [StdChar(v2), StdChar(v3)] + rest == [StdChar(v2)] + r3;
    A2bChar(v2, r3, 2, v1 % 16, 0, out);
    A2bChar(v3, rest, 3, v2 % 4, 0, o2);
    assert o2 + [Join2(v2, v3)] == out + [Join1(v1, v2), Join2(v2, v3)];
  }

  /** A full quantum of four data characters emits its three bytes. */
  lemma A2bQuad(v0: Sextet, v1: Sextet, v2: Sextet, v3: Sextet, rest: string, out: seq<Byte>)
    ensures A2b([StdChar(v0), StdChar(v1), StdChar(v2), StdChar(v3)] + rest, 0, 0, 0, out)
         == A2b(rest, 0, 0, 0, out + [Join0(v0, v1), Join1(v1, v2), Join2(v2, v3)])
  {
    var r2 := [StdChar(v2), StdChar(v3)] + rest;
    var o1 := out + [Join0(v0, v1)];
    assert [StdChar(v0), StdChar(v1), StdChar(v2), StdChar(v3)] + rest == [StdChar(v0), StdChar(v1)] + r2;
    A2bFirstPair(v0, v1, r2, out);
    A2bSecondPair(v1, v2, v3, rest, o1);
    assert o1 + [Join1(v1, v2), Join2(v2, v3)] == out + [Join0(v0, v1), Join1(v1, v2), Join2(v2, v3)];
  }

  lemma DataOne(b0: Byte)
    ensures Data([b0]) == [StdChar(Split0(b0)), StdChar(Split1(b0, 0))]
  {
    assert Sextets([b0]) == [Split0(b0), Split1(b0, 0)];
  }

  lemma DataTwo(b0: Byte, b1: Byte)
    ensures Data([b0, b1]) == [StdChar(Split0(b0)), StdChar(Split1(b0, b1)), StdChar(Split2(b1, 0))]
  {
    assert Sextets([b0, b1]) == [Split0(b0), Split1(b0, b1), Split2(b1, 0)];
  }

  /** Two data characters and two `=` end the input with one byte. */
  lemma A2bTwoChars(v0: Sextet, v1: Sextet, out: seq<Byte>)
    ensures A2b([StdChar(v0), StdChar(v1), '=', '='], 0, 0, 0, out) == Some(out + [Join0(v0, v1)])
  {
    var r2 := ['=', '='];
    var r1 := [StdChar(v1)] + r2;
    var o1 := out + [Join0(v0, v1)];
    assert [StdChar(v0), StdChar(v1), '=', '='] == [StdChar(v0)] + r1;
    assert r2 == ['='] + ['='] && ['='] == ['='] + [];
    calc {
      A2b([StdChar(v0)] + r1, 0, 0, 0, out);
      { A2bChar(v0, r1, 0, 0, 0, out); }
      A2b(r1, 1, v0, 0, out);
      { A2bChar(v1, r2, 1, v0, 0, out); }
      A2b(r2, 2, v1 % 16, 0, o1);
      { A2bPad(['='], 2, v1 % 16, 0, o1); }
      A2b(['='], 2, v1 % 16, 1, o1);
      { A2bPad([], 2, v1 % 16, 1, o1); }
      Some(o1);
    }
  }

  /** Three data characters and a `=` end the input with two bytes. */
  lemma A2bThreeChars(v0: Sextet, v1: Sextet, v2: Sextet, rest: string, out: seq<Byte>)
    ensures A2b([StdChar(v0), StdChar(v1), StdChar(v2), '='] + rest, 0, 0, 0, out)
         == Some(out + [Join0(v0, v1), Join1(v1, v2)])
  {
    var r3 := ['='] + rest;
    var r2 := [StdChar(v2)] + r3;
    var r1 := [StdChar(v1)] + r2;
    var o1 := out + [Join0(v0, v1)];
    var o2 := o1 + [Join1(v1, v2)];
    assert [StdChar(v0), StdChar(v1), StdChar(v2), '='] + rest == [StdChar(v0)] + r1;
    calc {
      A2b([StdChar(v0)] + r1, 0, 0, 0, out);
      { A2bChar(v0, r1, 0, 0, 0, out); }
      A2b(r1, 1, v0, 0, out);
      { A2bChar(v1, r2, 1, v0, 0, out); }
      A2b(r2, 2, v1 % 16, 0, o1);
      { A2bChar(v2, r3, 2, v1 % 16, 0, o1); }
      A2b(r3, 3, v2 % 4, 0, o2);
      { A2bPad(rest, 3, v2 % 4, 0, o2); }
      Some(o2);
    }
    assert o2 == out + [Join0(v0, v1), Join1(v1, v2)];
  }

  lemma A2bTail1(b0: Byte, out: seq<Byte>)
    ensures A2b(Data([b0]) + "==", 0, 0, 0, out) == Some(out + [b0])
  {
    var v0, v1 := Split0(b0), Split1(b0, 0);
    DataOne(b0);
    assert Data([b0]) + "==" == [StdChar(v0), StdChar(v1), '=', '='];
    A2bTwoChars(v0, v1, out);
    assert Join0(v0, v1) == b0 by {
      JoinSplit(b0, 0, 0);
    }
  }

  lemma A2bTail2(b0: Byte, b1: Byte, out: seq<Byte>)
    ensures A2b(Data([b0, b1]) + "==", 0, 0, 0, out) == Some(out + [b0, b1])
  {
    var v0, v1, v2 := Split0(b0), Split1(b0, b1), Split2(b1, 0);
    DataTwo(b0, b1);
    assert Data([b0, b1]) + "==" == [StdChar(v0), StdChar(v1), StdChar(v2), '='] + "=";
    A2bThreeChars(v0, v1, v2, "=", out);
    assert Join0(v0, v1) == b0 && Join1(v1, v2) == b1 by {
      JoinSplit(b0, b1, 0);
    }
  }

  lemma A2bEmpty(out: seq<Byte>)
    ensures A2b(Data([]) + "==", 0, 0, 0, out) == Some(out)
  {
    assert Data([]) + "==" == ['='] + "=";
    A2bPad("=", 0, 0, 0, out);
    A2bPad([], 0, 0, 0, out);
  }

  /** The first three bytes of a longer byte string come out of its first quantum. */
  lemma A2bFirstQuad(b: seq<Byte>, out: seq<Byte>)
    requires |b| >= 3
    ensures A2b(Data(b) + "==", 0, 0, 0, out) == A2b(Data(b[3..]) + "==", 0, 0, 0, out + b[..3])
  {
    var v0, v1, v2, v3 := Split0(b[0]), Split1(b[0], b[1]), Split2(b[1], b[2]), Split3(b[2]);
    var rest := Data(b[3..]) + "==";
    SextetsCons(b);
    assert Data(b) + "==" == [StdChar(v0), StdChar(v1), StdChar(v2), StdChar(v3)] + rest;
    A2bQuad(v0, v1, v2, v3, rest, out);
    assert [Join0(v0, v1), Join1(v1, v2), Join2(v2, v3)] == b[..3] by {
      JoinSplit(b[0], b[1], b[2]);
    }
  }

  /** The data characters of fewer than three bytes, followed by two `=`. */
  lemma A2bShort(b: seq<Byte>, out: seq<Byte>)
    requires |b| < 3
    ensures A2b(Data(b) + "==", 0, 0, 0, out) == Some(out + b)
  {
    if |b| == 0 {
      A2bEmpty(out);
      assert b == [] && out + b == out;
    } else if |b| == 1 {
      A2bTail1(b[0], out);
      assert b == [b[0]];
    } else {
      A2bTail2(b[0], b[1], out);
      assert b == [b[0], b[1]];
    }
  }

  /** The data characters of a byte string, followed by two `=`, decode to
      that byte string (whatever was already decoded is kept in front). */
  lemma {:induction false} A2bData(b: seq<Byte>, out: seq<Byte>)
    ensures A2b(Data(b) + "==", 0, 0, 0, out) == Some(out + b)
    decreases |b|
  {
    if |b| < 3 {
      A2bShort(b, out);
    } else {
      A2bFirstQuad(b, out);
      A2bData(b[3..], out + b[..3]);
      assert out + b[..3] + b[3..] == out + b;
    }
  }

  /** `rstrip('=')`. */
  function StripTrailingPad(s: string): (r: string)
    ensures |r| <= |s| && r == s[..|r|]
    ensures r == [] || r[|r| - 1] != '='
    ensures forall i :: |r| <= i < |s| ==> s[i] == '='
  {
    if s == [] || s[|s| - 1] != '=' then s else StripTrailingPad(s[..|s| - 1])
  }

  /** `.replace(/=/g, '')`: every `=`, wherever it is, removed. */
  function RemoveAllPad(s: string): (r: string)
    ensures forall i :: 0 <= i < |r| ==> r[i] != '='
    ensures |r| <= |s|
  {
    if s == [] then []
    else if s[0] == '=' then RemoveAllPad(s[1..])
    else [s[0]] + RemoveAllPad(s[1..])
  }

  /** Unpadded URL-safe base 64 of some bytes is the translated data part. */
  lemma UnpaddedUrl(b: seq<Byte>)
    ensures StripTrailingPad(UrlEncode(b)) == MapToUrl(Data(b))
    ensures RemoveAllPad(UrlEncode(b)) == MapToUrl(Data(b))
  {
    var d := MapToUrl(Data(b));
    var p := Padding(|b|);
    assert UrlEncode(b) == d + p;
    StripPadSuffix(d, p);
    RemoveAllPadAppend(d, p);
  }

  lemma {:induction false} StripPadSuffix(d: string, p: string)
    requires forall i :: 0 <= i < |d| ==> d[i] != '='
    requires forall i :: 0 <= i < |p| ==> p[i] == '='
    ensures StripTrailingPad(d + p) == d
    decreases |p|
  {
    if p != [] {
      assert (d + p)[..|d + p| - 1] == d + p[..|p| - 1];
      StripPadSuffix(d, p[..|p| - 1]);
    } else {
      assert d + p == d;
    }
  }

  lemma {:induction false} RemoveAllPadAppend(d: string, p: string)
    requires forall i :: 0 <= i < |d| ==> d[i] != '='
    requires forall i :: 0 <= i < |p| ==> p[i] == '='
    ensures RemoveAllPad(d + p) == d
    decreases |d| + |p|
  {
    if d != [] {
      assert (d + p)[1..] == d[1..] + p;
      RemoveAllPadAppend(d[1..], p);
      assert d == [d[0]] + d[1..];
    } else if p != [] {
      assert (d + p)[1..] == d + p[1..];
      RemoveAllPadAppend(d, p[1..]);
    } else {
      assert d + p == [];
    }
  }

  lemma {:induction false} UrlRoundTrip(s: string)
    requires AllStd(s)
    ensures MapFromUrl(MapToUrl(s)) == s
  {
    forall i | 0 <= i < |s| ensures MapFromUrl(MapToUrl(s))[i] == s[i] {
      FromUrlToUrl(s[i]);
    }
  }

  lemma UrlDataIsAscii(d: string)
    requires AllStd(d)
    ensures IsAscii(MapToUrl(d) + "==")
  {
    var s := MapToUrl(d) + "==";
    forall i | 0 <= i < |s| ensures s[i] as int < 128 {
      if i < |d| {
        assert IsStdChar(d[i]);
        assert s[i] == ToUrl(d[i]);
      }
    }
  }

  lemma UrlDataBack(d: string)
    requires AllStd(d)
    ensures MapFromUrl(MapToUrl(d) + "==") == d + "=="
  {
    var s := MapToUrl(d) + "==";
    UrlRoundTrip(d);
    forall i | 0 <= i < |s| ensures MapFromUrl(s)[i] == (d + "==")[i] {
      if i < |d| {
        assert MapFromUrl(s)[i] == FromUrl(ToUrl(d[i]));
        assert MapFromUrl(MapToUrl(d))[i] == FromUrl(ToUrl(d[i]));
      }
    }
  }

  /** Every unpadded URL-safe encoding, re-padded with two `=`, decodes in Python
      to the bytes it encodes. */
  lemma PyDecodeUnpadded(b: seq<Byte>)
    ensures PyUrlsafeDecode(StripTrailingPad(UrlEncode(b)) + "==") == Some(b)
  {
    UnpaddedUrl(b);
    var d := Data(b);
    UrlDataIsAscii(d);
    UrlDataBack(d);
    A2bData(b, []);
    assert [] + b == b;
  }
}
