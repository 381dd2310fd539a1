// The bytes of a code point as section 3 of RFC 3629 gives them, and what the
// path codec makes of text written that way.
module Rfc3629 {
  import opened Utf8
  import opened Wrappers
  import opened PathCodec

  // A code point that can be written: none above U+10FFFF, no surrogate.
  type Code = c: int | 0 <= c <= 0x10FFFF && !(0xD800 <= c <= 0xDFFF) witness 0

  // Six bits in a byte that follows another.
  function Tail(c: nat): byte {
    0x80 + c % 0x40
  }

  function Utf8Of(c: Code): Bytes {
    if c < 0x80 then [c]
    else if c < 0x800 then [0xC0 + c / 0x40, Tail(c)]
    else if c < 0x10000 then [0xE0 + c / 0x1000, Tail(c / 0x40), Tail(c)]
    else [0xF0 + c / 0x40000, Tail(c / 0x1000), Tail(c / 0x40), Tail(c)]
  }

  function TextOf(cs: seq<Code>): Bytes {
    if cs == [] then [] else Utf8Of(cs[0]) + TextOf(cs[1..])
  }

  // ---- decoding ----

  lemma SixBits(c: nat)
    ensures c == c / 0x40 * 0x40 + c % 0x40
    ensures c / 0x1000 == c / 0x40 / 0x40 && c / 0x40000 == c / 0x1000 / 0x40
  {
  }

  lemma HeadOf(c: Code)
    ensures 0x80 <= c < 0x800 ==> 2 <= c / 0x40 < 0x20
    ensures 0x800 <= c < 0x10000 ==> c / 0x1000 < 0x10 && IsHead3(0xE0 + c / 0x1000, Tail(c / 0x40))
    ensures 0x10000 <= c ==> c / 0x40000 <= 4 && IsHead4(0xF0 + c / 0x40000, Tail(c / 0x1000))
  {
    SixBits(c);
    SixBits(c / 0x40);
    SixBits(c / 0x1000);
  }

  // Every code point is read back, with the length of its bytes.
  lemma DecodesBack(c: Code, rest: Bytes)
    ensures SequenceLength(Utf8Of(c) + rest) == |Utf8Of(c)| > 0
    ensures DecodeRune(Utf8Of(c) + rest) == (c, |Utf8Of(c)|)
  {
    HeadOf(c);
    SixBits(c);
    SixBits(c / 0x40);
    SixBits(c / 0x1000);
  }

  lemma JoinBits(h: nat, t: nat)
    requires t < 0x40
    ensures (h * 0x40 + t) / 0x40 == h && (h * 0x40 + t) % 0x40 == t
  {
  }

  // What the bytes of a three-byte or four-byte sequence stand for.
  lemma ThreeBytes(h: nat, x: nat, y: nat) returns (c: nat)
    requires x < 0x40 && y < 0x40
    ensures c == h * 0x1000 + x * 0x40 + y
    ensures c / 0x1000 == h && c / 0x40 % 0x40 == x && c % 0x40 == y
  {
    c := (h * 0x40 + x) * 0x40 + y;
    JoinBits(h * 0x40 + x, y);
    JoinBits(h, x);
    SixBits(c);
  }

  lemma FourBytes(h: nat, x: nat, y: nat, z: nat) returns (c: nat)
    requires x < 0x40 && y < 0x40 && z < 0x40
    ensures c == h * 0x40000 + x * 0x1000 + y * 0x40 + z
    ensures c / 0x40000 == h && c / 0x1000 % 0x40 == x && c / 0x40 % 0x40 == y && c % 0x40 == z
  {
    var u := ThreeBytes(h, x, y);
    c := u * 0x40 + z;
    JoinBits(u, z);
    SixBits(c);
  }

  lemma OneOrTwoDecode(s: Bytes) returns (c: Code)
    requires 1 <= SequenceLength(s) <= 2
    ensures DecodeRune(s) == (c, |Utf8Of(c)|) && Utf8Of(c) <= s
  {
    c := Scalar(s, SequenceLength(s));
    if SequenceLength(s) == 2 {
      JoinBits(s[0] as int - 0xC0, s[1] as int - 0x80);
    }
  }

  lemma ThreeDecode(s: Bytes) returns (c: Code)
    requires SequenceLength(s) == 3
    ensures DecodeRune(s) == (c, |Utf8Of(c)|) && Utf8Of(c) <= s
  {
    c := ThreeBytes(s[0] as int - 0xE0, s[1] as int - 0x80, s[2] as int - 0x80);
    assert [s[0], s[1], s[2]] <= s;
  }

  lemma FourDecode(s: Bytes) returns (c: Code)
    requires SequenceLength(s) == 4
    ensures DecodeRune(s) == (c, |Utf8Of(c)|) && Utf8Of(c) <= s
  {
    c := FourBytes(s[0] as int - 0xF0, s[1] as int - 0x80, s[2] as int - 0x80, s[3] as int - 0x80);
    assert [s[0], s[1], s[2], s[3]] <= s;
  }

  // And a well-formed sequence is that of a code point.
  lemma OnlyCodesDecode(s: Bytes) returns (c: Code)
    requires SequenceLength(s) > 0
    ensures DecodeRune(s) == (c, |Utf8Of(c)|) && Utf8Of(c) <= s
  {
    hide SequenceLength, DecodeRune, Utf8Of;
    if SequenceLength(s) <= 2 {
      c := OneOrTwoDecode(s);
    } else if SequenceLength(s) == 3 {
      c := ThreeDecode(s);
    } else {
      c := FourDecode(s);
    }
  }

  // No code point's bytes start s: its first byte is a stray one.
  ghost predicate IsStray(s: Bytes) {
    s != [] && forall c: Code :: !(Utf8Of(c) <= s)
  }

  lemma StrayIff(s: Bytes)
    ensures IsStray(s) <==> s != [] && SequenceLength(s) == 0
    ensures IsStray(s) ==> DecodeRune(s) == (0xFFFD, 1)
  {
    hide Utf8Of;
    if SequenceLength(s) > 0 {
      var c := OnlyCodesDecode(s);
    }
    if c: Code :| Utf8Of(c) <= s {
      DecodesBack(c, s[|Utf8Of(c)|..]);
      assert s == Utf8Of(c) + s[|Utf8Of(c)|..];
    }
  }

  // ---- valid text ----

  lemma {:induction false} TextIsValid(cs: seq<Code>)
    ensures IsValid(TextOf(cs))
  {
    if cs != [] {
      hide Utf8Of, SequenceLength;
      DecodesBack(cs[0], TextOf(cs[1..]));
      TextIsValid(cs[1..]);
      assert TextOf(cs)[|Utf8Of(cs[0])|..] == TextOf(cs[1..]);
    }
  }

  lemma {:induction false} ValidIsText(s: Bytes) returns (cs: seq<Code>)
    requires IsValid(s)
    ensures s == TextOf(cs)
  {
    if s == [] {
      cs := [];
    } else {
      var c := OnlyCodesDecode(s);
      var rest := ValidIsText(s[|Utf8Of(c)|..]);
      cs := [c] + rest;
      assert cs[1..] == rest && s == Utf8Of(c) + s[|Utf8Of(c)|..];
    }
  }

  // utf8.ValidString accepts exactly what is written code point by code point.
  lemma ValidIff(s: Bytes)
    ensures IsValid(s) <==> exists cs :: s == TextOf(cs)
  {
    if IsValid(s) {
      var cs := ValidIsText(s);
    }
    if cs: seq<Code> :| s == TextOf(cs) {
      TextIsValid(cs);
    }
  }

  // ---- the stored form of a path ----

  const QUOTE_CODE: Code := 0x201B

  lemma QuoteBytes()
    ensures Utf8Of(QUOTE_CODE) == QUOTE
  {
  }

  // A code point is stored as it is, the quote rune twice.
  lemma CodeIsStored(c: Code, rest: Bytes)
    ensures Encoded(Utf8Of(c) + rest) == (if c == QUOTE_CODE then QUOTE + QUOTE else Utf8Of(c)) + Encoded(rest)
  {
    hide Utf8Of, DecodeRune, Encoded;
    var s := Utf8Of(c) + rest;
    DecodesBack(c, rest);
    EncodedStep(s);
    LongerThanOne(c);
    assert s[|Utf8Of(c)|..] == rest && s[..|Utf8Of(c)|] == Utf8Of(c);
  }

  lemma LongerThanOne(c: Code)
    ensures c == RUNE_ERROR ==> |Utf8Of(c)| == 3
  {
  }

  // A stray byte is stored as the quote rune and its two upper-case digits.
  lemma StrayIsStored(s: Bytes)
    requires IsStray(s)
    ensures Encoded(s) == QUOTE + [UPPER_DIGITS[s[0] / 16], UPPER_DIGITS[s[0] % 16]] + Encoded(s[1..])
  {
    hide DecodeRune, Encoded, IsStray;
    StrayIff(s);
    EncodedStep(s);
    assert HexUpper(s[0] / 16) == UPPER_DIGITS[s[0] / 16] && HexUpper(s[0] % 16) == UPPER_DIGITS[s[0] % 16];
  }

  lemma {:induction false} QuoteInText(cs: seq<Code>)
    ensures Contains(TextOf(cs), QUOTE) <==> QUOTE_CODE in cs
  {
    if cs == [] {
      assert forall i :: !OccursAt([], QUOTE, i);
    } else {
      hide Utf8Of, DecodeRune, Contains;
      var s := TextOf(cs);
      DecodesBack(cs[0], TextOf(cs[1..]));
      QuoteOnBoundary(s);
      assert s[|Utf8Of(cs[0])|..] == TextOf(cs[1..]);
      QuoteInText(cs[1..]);
      assert QUOTE_CODE in cs <==> cs[0] == QUOTE_CODE || QUOTE_CODE in cs[1..];
    }
  }

  // So a path is stored verbatim exactly if it is text without the quote rune.
  lemma VerbatimIff(s: Bytes)
    ensures Encoded(s) == s <==> exists cs :: s == TextOf(cs) && QUOTE_CODE !in cs
  {
    hide *;
    UnchangedIffPlain(s);
    ValidIff(s);
    if IsValid(s) && !Contains(s, QUOTE) {
      var cs: seq<Code> :| s == TextOf(cs);
      QuoteInText(cs);
    }
    if cs: seq<Code> :| s == TextOf(cs) && QUOTE_CODE !in cs {
      QuoteInText(cs);
    }
  }

  // ---- reading it back ----

  // A code point other than the quote rune, and a stray byte, stand for
  // themselves.
  lemma PlainIsRead(c: Code, rest: Bytes)
    requires c != QUOTE_CODE
    ensures Decoded(Utf8Of(c) + rest) == Utf8Of(c) + Decoded(rest)
  {
    hide Utf8Of, Decoded;
    DecodesBack(c, []);
    assert Utf8Of(c) + [] == Utf8Of(c);
    DecodePlain(Utf8Of(c), rest);
  }

  lemma StrayIsRead(s: Bytes)
    requires IsStray(s)
    ensures Decoded(s) == [s[0]] + Decoded(s[1..])
  {
    hide IsStray;
    StrayIff(s);
    DecodedStep(s);
  }

  // The two cases of a hexadecimal digit.
  function DigitsOf(n: nat): Bytes
    requires n < 16
  {
    [UPPER_DIGITS[n], LOWER_DIGITS[n]]
  }

  predicate IsHexDigit(c: byte) {
    exists n :: 0 <= n < 16 && c in DigitsOf(n)
  }

  lemma HexTable(c: byte, n: nat)
    requires n < 16
    ensures HexValue(c) == Some(n) <==> c in DigitsOf(n)
  {
  }

  lemma HexDigitIff(c: byte)
    ensures HexValue(c).Some? <==> IsHexDigit(c)
  {
    hide DigitsOf;
    if HexValue(c).Some? {
      HexTable(c, HexValue(c).value);
    }
    if n :| 0 <= n < 16 && c in DigitsOf(n) {
      HexTable(c, n);
    }
  }

  // A quote rune before two hexadecimal digits of either case stands for their
  // byte.
  lemma EscapeIsRead(v: byte, hi: byte, lo: byte, rest: Bytes)
    requires hi in DigitsOf(v / 16) && lo in DigitsOf(v % 16)
    ensures Decoded(QUOTE + [hi, lo] + rest) == [v] + Decoded(rest)
  {
    hide DecodeRune, DigitsOf;
    HexTable(hi, v / 16);
    HexTable(lo, v % 16);
    var tail := [hi, lo] + rest;
    assert QUOTE + [hi, lo] + rest == QUOTE + tail;
    QuoteDecodes(tail);
    assert (QUOTE + tail)[3..] == tail && (QUOTE + tail)[5..] == rest;
    assert ParseHexByte(tail) == Some(v);
  }

  // Before another quote rune it stands for one, and before anything else for
  // itself.
  lemma QuoteIsRead(rest: Bytes)
    ensures Decoded(QUOTE + QUOTE + rest) == QUOTE + Decoded(rest)
    ensures !(QUOTE <= rest) && (|rest| < 2 || !IsHexDigit(rest[0]) || !IsHexDigit(rest[1])) ==>
      Decoded(QUOTE + rest) == QUOTE + Decoded(rest)
  {
    hide DecodeRune, IsHexDigit;
    DecodeDoubledQuote(rest);
    QuoteDecodes(rest);
    assert (QUOTE + rest)[3..] == rest;
    if |rest| >= 2 {
      HexDigitIff(rest[0]);
      HexDigitIff(rest[1]);
    }
  }
}
