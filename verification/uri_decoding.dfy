/**
 * Decoding of the object key carried by an object-created notification:
 * every `+` is first turned into a space, then the result goes through
 * ECMAScript's `decodeURIComponent` (the Decode operation with an empty
 * preserve set), which replaces each `%XX` escape, or run of escapes
 * forming one UTF-8 encoded code point, by that code point and throws a
 * URIError on a malformed escape or an invalid UTF-8 sequence.
 *
 * Strings are sequences of Unicode scalar values, so a decoded code point
 * above U+FFFF is one character here (two UTF-16 code units in the source).
 *
 * The partner of the decoder is `FormEncode`, the form-style encoding the
 * notification uses (space as `+`, unreserved characters of section 2.3 of
 * RFC 3986 and `/` literal, every other character as the percent-escaped
 * octets of its UTF-8 encoding, per section 2.1 of RFC 3986), with the
 * round trip `DecodeKey(FormEncode(k)) == Some(k)` for every key `k`.
 */
module UriDecoding {
  import opened Wrappers

  // ---------------------------------------------------------------------
  // Hexadecimal escapes
  // ---------------------------------------------------------------------

  /** The value of a hexadecimal digit (either case), or -1. */
  function HexValue(c: char): (v: int)
    ensures -1 <= v < 16
  {
    if '0' <= c <= '9' then c as int - '0' as int
    else if 'a' <= c <= 'f' then c as int - 'a' as int + 10
    else if 'A' <= c <= 'F' then c as int - 'A' as int + 10
    else -1
  }

  /** Upper-case hexadecimal digit, as encoders emit it. */
  function HexDigit(v: nat): (c: char)
    requires v < 16
    ensures HexValue(c) == v
    ensures c != '%' && c != '+'
  {
    if v < 10 then ('0' as int + v) as char else ('A' as int + v - 10) as char
  }

  /** The octet of a `%XY` escape at the start of `s`, or -1 if there is none. */
  function EscapedOctet(s: string): (b: int)
    ensures -1 <= b < 256
  {
    if |s| >= 3 && s[0] == '%' && HexValue(s[1]) >= 0 && HexValue(s[2]) >= 0
    then 16 * HexValue(s[1]) + HexValue(s[2])
    else -1
  }

  /** The octet of the `j`-th three-character group of `s`. */
  function Octet(s: string, j: nat): int
    requires 3 * j + 3 <= |s|
  {
    EscapedOctet(s[3 * j..])
  }

  // ---------------------------------------------------------------------
  // UTF-8
  // ---------------------------------------------------------------------

  /**
   * The number of octets a lead octet announces: 1 below 0x80; 0 (an
   * error) for a continuation octet 10xxxxxx or for more than four
   * leading one-bits.
   */
  function SequenceLength(b: int): nat
  {
    if b < 0x80 then 1
    else if b < 0xC0 then 0
    else if b < 0xE0 then 2
    else if b < 0xF0 then 3
    else if b < 0xF8 then 4
    else 0
  }

  predicate Continuation(b: int)
  {
    0x80 <= b < 0xC0
  }

  /**
   * The code point of the `n` escaped octets at the start of `s`, or None
   * when they are not a valid UTF-8 encoding of one code point (a bad
   * continuation octet, an overlong form, a surrogate, or beyond U+10FFFF).
   */
  function Utf8Value(s: string, n: nat): (r: Option<int>)
    requires 2 <= n <= 4 && 3 * n <= |s|
    ensures r.Some? ==> (0 <= r.value < 0xD800 || 0xE000 <= r.value < 0x11_0000)
  {
    var b0 := Octet(s, 0);
    if !(Continuation(Octet(s, 1))
         && (n >= 3 ==> Continuation(Octet(s, 2)))
         && (n == 4 ==> Continuation(Octet(s, 3))))
    then None
    else
      var v :=
        if n == 2 then (b0 - 0xC0) * 64 + (Octet(s, 1) - 0x80)
        else if n == 3 then (b0 - 0xE0) * 4096 + (Octet(s, 1) - 0x80) * 64 + (Octet(s, 2) - 0x80)
        else (b0 - 0xF0) * 262144 + (Octet(s, 1) - 0x80) * 4096 + (Octet(s, 2) - 0x80) * 64 + (Octet(s, 3) - 0x80);
      var least := if n == 2 then 0x80 else if n == 3 then 0x800 else 0x1_0000;
      if v < least || (0xD800 <= v < 0xE000) || v > 0x10_FFFF then None else Some(v)
  }

  function Prepend(c: char, r: Option<string>): Option<string>
  {
    match r
    case None => None
    case Some(t) => Some([c] + t)
  }

  /**
   * `decodeURIComponent(s)`; None stands for the thrown URIError. Decoding
   * never lengthens the text: an escape of n octets becomes one character.
   */
  function DecodeUriComponent(s: string): (r: Option<string>)
    ensures r.Some? ==> |r.value| <= |s|
    decreases |s|
  {
    if s == [] then Some([])
    else if s[0] != '%' then Prepend(s[0], DecodeUriComponent(s[1..]))
    else
      var b := EscapedOctet(s);
      if b < 0 then None
      else if b < 0x80 then Prepend(b as char, DecodeUriComponent(s[3..]))
      else
        var n := SequenceLength(b);
        if n == 0 || |s| < 3 * n then None
        else
          match Utf8Value(s, n)
          case None => None
          case Some(v) => Prepend(v as char, DecodeUriComponent(s[3 * n..]))
  }

  /** `key.replace(/\+/g, " ")`. */
  function PlusToSpace(s: string): (r: string)
    ensures |r| == |s| && '+' !in r
    decreases |s|
  {
    if s == [] then [] else [if s[0] == '+' then ' ' else s[0]] + PlusToSpace(s[1..])
  }

  /** The watcher's key decoding: `decodeURIComponent(key.replace(/\+/g, " "))`. */
  function DecodeKey(raw: string): (r: Option<string>)
    ensures r.Some? ==> |r.value| <= |raw|
  {
    DecodeUriComponent(PlusToSpace(raw))
  }

  // ---------------------------------------------------------------------
  // Properties of the decoder
  // ---------------------------------------------------------------------

  /**
   * A raw key without escapes decodes to itself with every `+` read as a
   * space: a literal `+` never survives decoding.
   */
  lemma {:induction false} DecodeKeyWithoutEscapes(raw: string)
    requires '%' !in raw
    ensures DecodeKey(raw) == Some(PlusToSpace(raw))
    ensures DecodeKey(raw).Some? && '+' !in DecodeKey(raw).value
  {
    PlusToSpaceKeepsPercent(raw);
    NoEscapes(PlusToSpace(raw));
  }

  lemma {:induction false} PlusToSpaceKeepsPercent(raw: string)
    requires '%' !in raw
    ensures '%' !in PlusToSpace(raw)
    decreases |raw|
  {
    if raw != [] {
      assert '%' !in raw[1..];
      PlusToSpaceKeepsPercent(raw[1..]);
    }
  }

  lemma {:induction false} NoEscapes(s: string)
    requires '%' !in s
    ensures DecodeUriComponent(s) == Some(s)
    decreases |s|
  {
    if s != [] {
      assert '%' !in s[1..];
      NoEscapes(s[1..]);
      assert [s[0]] + s[1..] == s;
    }
  }

  lemma DecodeLiteral(c: char, t: string)
    requires c != '%'
    ensures DecodeUriComponent([c] + t) == Prepend(c, DecodeUriComponent(t))
  {
    assert ([c] + t)[1..] == t;
  }

  lemma DecodeEscapedPlus(t: string)
    ensures DecodeUriComponent("%2B" + t) == Prepend('+', DecodeUriComponent(t))
  {
    var s := "%2B" + t;
    assert s[0] == '%' && s[1] == '2' && s[2] == 'B';
    assert EscapedOctet(s) == 43;
    assert s[3..] == t;
  }

  /** `+` becomes a space, but an escaped plus `%2B` decodes to `+`. */
  lemma PlusVersusEscapedPlus()
    ensures DecodeKey("+") == Some(" ")
    ensures DecodeKey("%2B") == Some("+")
    ensures DecodeKey("a+b%2Bc") == Some("a b+c")
  {
    assert PlusToSpace("+") == " ";
    DecodeLiteral(' ', "");
    assert DecodeUriComponent("") == Some("");
    assert [' '] + "" == " " && ['+'] + "" == "+";
    assert PlusToSpace("%2B") == "%2B";
    DecodeEscapedPlus("");
    assert "%2B" + "" == "%2B";
    assert PlusToSpace("a+b%2Bc") == "a b%2Bc";
    DecodeMixedExample();
  }

  lemma DecodeMixedExample()
    ensures DecodeUriComponent("a b%2Bc") == Some("a b+c")
  {
    DecodeLiteral('c', "");
    assert "c" == ['c'] + "";
    assert DecodeUriComponent("c") == Some("c");
    DecodeEscapedPlus("c");
    assert "%2Bc" == "%2B" + "c" && "+c" == ['+'] + "c";
    assert DecodeUriComponent("%2Bc") == Some("+c");
    DecodeLiteral('b', "%2Bc");
    assert "b%2Bc" == ['b'] + "%2Bc" && "b+c" == ['b'] + "+c";
    assert DecodeUriComponent("b%2Bc") == Some("b+c");
    DecodeLiteral(' ', "b%2Bc");
    assert " b%2Bc" == [' '] + "b%2Bc" && " b+c" == [' '] + "b+c";
    assert DecodeUriComponent(" b%2Bc") == Some(" b+c");
    DecodeLiteral('a', " b%2Bc");
    assert "a b%2Bc" == ['a'] + " b%2Bc" && "a b+c" == ['a'] + " b+c";
  }

  /**
   * A `%` that is not followed by two hexadecimal digits makes decoding
   * throw, whatever follows the two characters after it.
   */
  lemma MalformedEscapeThrows(a: string, b: string)
    requires '%' !in a
    requires |b| < 2 || HexValue(b[0]) < 0 || HexValue(b[1]) < 0
    ensures DecodeUriComponent(a + "%" + b) == None
    decreases |a|
  {
    var s := a + "%" + b;
    if a == [] {
      assert s[0] == '%' && s[1..] == b;
      assert EscapedOctet(s) == -1;
    } else {
      assert s[0] == a[0] && s[1..] == a[1..] + "%" + b;
      assert '%' !in a[1..];
      MalformedEscapeThrows(a[1..], b);
    }
  }

  // ---------------------------------------------------------------------
  // The encoder and the round trip
  // ---------------------------------------------------------------------

  /** Unreserved characters of section 2.3 of RFC 3986. */
  predicate Unreserved(c: char)
  {
    ('A' <= c <= 'Z') || ('a' <= c <= 'z') || ('0' <= c <= '9')
    || c == '-' || c == '.' || c == '_' || c == '~'
  }

  /** The UTF-8 octets of a code point. */
  function Utf8Octets(c: char): (bs: seq<int>)
    ensures 1 <= |bs| <= 4
    ensures forall i :: 0 <= i < |bs| ==> 0 <= bs[i] < 256
  {
    var v := c as int;
    if v < 0x80 then [v]
    else if v < 0x800 then [0xC0 + v / 64, 0x80 + v % 64]
    else if v < 0x1_0000 then [0xE0 + v / 4096, 0x80 + (v / 64) % 64, 0x80 + v % 64]
    else [0xF0 + v / 262144, 0x80 + (v / 4096) % 64, 0x80 + (v / 64) % 64, 0x80 + v % 64]
  }

  function Escape(b: int): string
    requires 0 <= b < 256
  {
    ['%', HexDigit(b / 16), HexDigit(b % 16)]
  }

  function EscapeAll(bs: seq<int>): (s: string)
    requires forall i :: 0 <= i < |bs| ==> 0 <= bs[i] < 256
    ensures |s| == 3 * |bs|
    ensures '+' !in s
  {
    if bs == [] then [] else Escape(bs[0]) + EscapeAll(bs[1..])
  }

  /** How the notification writes one character of a key. */
  function EncodeChar(c: char): string
  {
    if Unreserved(c) || c == '/' then [c]
    else if c == ' ' then "+"
    else EscapeAll(Utf8Octets(c))
  }

  function FormEncode(k: string): string
    decreases |k|
  {
    if k == [] then [] else EncodeChar(k[0]) + FormEncode(k[1..])
  }

  lemma {:induction false} PlusToSpaceAppend(a: string, b: string)
    ensures PlusToSpace(a + b) == PlusToSpace(a) + PlusToSpace(b)
    decreases |a|
  {
    if a != [] {
      var f := if a[0] == '+' then ' ' else a[0];
      assert (a + b)[0] == a[0] && (a + b)[1..] == a[1..] + b;
      PlusToSpaceAppend(a[1..], b);
      calc {
        PlusToSpace(a + b);
        [f] + PlusToSpace(a[1..] + b);
        [f] + (PlusToSpace(a[1..]) + PlusToSpace(b));
        ([f] + PlusToSpace(a[1..])) + PlusToSpace(b);
        PlusToSpace(a) + PlusToSpace(b);
      }
    } else {
      assert a + b == b;
    }
  }

  lemma {:induction false} PlusToSpaceNoPlus(s: string)
    requires '+' !in s
    ensures PlusToSpace(s) == s
    decreases |s|
  {
    if s != [] {
      assert '+' !in s[1..];
      PlusToSpaceNoPlus(s[1..]);
      assert [s[0]] + s[1..] == s;
    }
  }

  lemma EscapedOctetOfEscape(b: int, t: string)
    requires 0 <= b < 256
    ensures EscapedOctet(Escape(b) + t) == b
  {
    var s := Escape(b) + t;
    assert s[0] == '%' && s[1] == HexDigit(b / 16) && s[2] == HexDigit(b % 16);
  }

  /** The `j`-th group of an escaped octet string holds the `j`-th octet. */
  lemma {:induction false} OctetOfEscapeAll(bs: seq<int>, t: string, j: nat)
    requires forall i :: 0 <= i < |bs| ==> 0 <= bs[i] < 256
    requires j < |bs|
    ensures 3 * j + 3 <= |EscapeAll(bs) + t|
    ensures Octet(EscapeAll(bs) + t, j) == bs[j]
    decreases j
  {
    var s := EscapeAll(bs) + t;
    assert s == Escape(bs[0]) + (EscapeAll(bs[1..]) + t);
    if j == 0 {
      EscapedOctetOfEscape(bs[0], EscapeAll(bs[1..]) + t);
    } else {
      OctetOfEscapeAll(bs[1..], t, j - 1);
      assert s[3 * j..] == (EscapeAll(bs[1..]) + t)[3 * (j - 1)..];
    }
  }

  lemma TwoOctets(v: int)
    requires 0x80 <= v < 0x800
    ensures v == (v / 64) * 64 + v % 64
    ensures 0xC2 <= 0xC0 + v / 64 < 0xE0
  {
  }

  lemma ThreeOctets(v: int)
    requires 0x800 <= v < 0x1_0000
    ensures v == (v / 4096) * 4096 + ((v / 64) % 64) * 64 + v % 64
    ensures 0xE0 <= 0xE0 + v / 4096 < 0xF0
  {
    var q := v / 64;
    assert v == q * 64 + v % 64;
    assert q == (q / 64) * 64 + q % 64;
    assert q / 64 == v / 4096;
  }

  lemma FourOctets(v: int)
    requires 0x1_0000 <= v < 0x11_0000
    ensures v == (v / 262144) * 262144 + ((v / 4096) % 64) * 4096 + ((v / 64) % 64) * 64 + v % 64
    ensures 0xF0 <= 0xF0 + v / 262144 < 0xF8
  {
    var q := v / 64;
    var p := q / 64;
    assert v == q * 64 + v % 64;
    assert q == p * 64 + q % 64;
    assert p == (p / 64) * 64 + p % 64;
    assert p == v / 4096;
    assert p / 64 == v / 262144;
  }

  /** Decoding the escapes of one code point's octets yields that code point. */
  lemma DecodeEscapedChar(c: char, t: string)
    requires c as int >= 0x80
    ensures DecodeUriComponent(EscapeAll(Utf8Octets(c)) + t) == Prepend(c, DecodeUriComponent(t))
  {
    var v := c as int;
    var bs := Utf8Octets(c);
    var n := |bs|;
    var s := EscapeAll(bs) + t;
    forall j | 0 <= j < n
      ensures 3 * j + 3 <= |s| && Octet(s, j) == bs[j]
    {
      OctetOfEscapeAll(bs, t, j);
    }
    assert s[0] == '%';
    assert EscapedOctet(s) == Octet(s, 0) == bs[0];
    assert s[3 * n..] == t;
    if v < 0x800 {
      ValueOfTwo(s, v);
    } else if v < 0x1_0000 {
      ValueOfThree(s, v);
    } else {
      ValueOfFour(s, v);
    }
  }

  lemma ValueOfTwo(s: string, v: int)
    requires 0x80 <= v < 0x800 && 6 <= |s|
    requires Octet(s, 0) == 0xC0 + v / 64 && Octet(s, 1) == 0x80 + v % 64
    ensures SequenceLength(Octet(s, 0)) == 2 && Utf8Value(s, 2) == Some(v)
  {
    TwoOctets(v);
  }

  lemma ValueOfThree(s: string, v: int)
    requires 0x800 <= v < 0x1_0000 && !(0xD800 <= v < 0xE000) && 9 <= |s|
    requires Octet(s, 0) == 0xE0 + v / 4096 && Octet(s, 1) == 0x80 + (v / 64) % 64 && Octet(s, 2) == 0x80 + v % 64
    ensures SequenceLength(Octet(s, 0)) == 3 && Utf8Value(s, 3) == Some(v)
  {
    ThreeOctets(v);
  }

  lemma ValueOfFour(s: string, v: int)
    requires 0x1_0000 <= v < 0x11_0000 && 12 <= |s|
    requires Octet(s, 0) == 0xF0 + v / 262144 && Octet(s, 1) == 0x80 + (v / 4096) % 64
    requires Octet(s, 2) == 0x80 + (v / 64) % 64 && Octet(s, 3) == 0x80 + v % 64
    ensures SequenceLength(Octet(s, 0)) == 4 && Utf8Value(s, 4) == Some(v)
  {
    FourOctets(v);
  }

  /** Decoding what `EncodeChar` writes (with `+` read as space) yields the character. */
  lemma DecodeEncodedChar(c: char, t: string)
    ensures DecodeUriComponent(PlusToSpace(EncodeChar(c)) + t) == Prepend(c, DecodeUriComponent(t))
  {
    if Unreserved(c) || c == '/' {
      assert PlusToSpace([c]) == [c];
      assert ([c] + t)[1..] == t;
    } else if c == ' ' {
      assert PlusToSpace("+") == " ";
      assert (" " + t)[1..] == t;
    } else if c as int < 0x80 {
      var e := EncodeChar(c);
      assert e == Escape(c as int);
      PlusToSpaceNoPlus(e);
      EscapedOctetOfEscape(c as int, t);
      assert (e + t)[3..] == t;
      assert (c as int) as char == c;
    } else {
      PlusToSpaceNoPlus(EncodeChar(c));
      DecodeEscapedChar(c, t);
    }
  }

  /** Round trip: the watcher's decoding undoes the notification's encoding. */
  lemma {:induction false} DecodeKeyOfFormEncode(k: string)
    ensures DecodeKey(FormEncode(k)) == Some(k)
    decreases |k|
  {
    if k == [] {
    } else {
      var e := EncodeChar(k[0]);
      PlusToSpaceAppend(e, FormEncode(k[1..]));
      DecodeEncodedChar(k[0], PlusToSpace(FormEncode(k[1..])));
      DecodeKeyOfFormEncode(k[1..]);
      assert [k[0]] + k[1..] == k;
    }
  }
}
