// pathcodec.go: file system paths are arbitrary bytes, JSON strings are not.
module PathCodec {
  import opened Utf8
  import opened Wrappers

  const QUOTE_RUNE := 0x201B
  const QUOTE: Bytes := [0xE2, 0x80, 0x9B]

  // The digits of hexadecimal text, in either case.
  const UPPER_DIGITS: Bytes :=
    [0x30, 0x31, 0x32, 0x33, 0x34, 0x35, 0x36, 0x37, 0x38, 0x39, 0x41, 0x42, 0x43, 0x44, 0x45, 0x46]
  const LOWER_DIGITS: Bytes :=
    [0x30, 0x31, 0x32, 0x33, 0x34, 0x35, 0x36, 0x37, 0x38, 0x39, 0x61, 0x62, 0x63, 0x64, 0x65, 0x66]

  function HexUpper(n: nat): (c: byte)
    requires n < 16
  {
    if n < 10 then 0x30 + n else 0x41 + n - 10
  }

  function HexValue(c: byte): Option<byte> {
    if 0x30 <= c <= 0x39 then Some(c - 0x30)
    else if 0x41 <= c <= 0x46 then Some(c - 0x41 + 10)
    else if 0x61 <= c <= 0x66 then Some(c - 0x61 + 10)
    else None
  }

  // strconv.ParseUint(s[:2], 16, 8)
  function ParseHexByte(s: Bytes): Option<byte>
    requires |s| >= 2
  {
    var hi, lo := HexValue(s[0]), HexValue(s[1]);
    if hi.Some? && lo.Some? && hi.value * 16 + lo.value < 256 then Some(hi.value * 16 + lo.value) else None
  }

  // The escape of one undecodable byte: the quote rune and two hex digits.
  function Escape(b: byte): Bytes {
    QUOTE + [HexUpper(b / 16), HexUpper(b % 16)]
  }

  predicate NeedsEncoding(s: Bytes) {
    !IsValid(s) || Contains(s, QUOTE)
  }

  // The stored form of the rune, or the stray byte, that starts s.
  function EncodedUnit(s: Bytes): Bytes
    requires s != []
  {
    var (r, size) := DecodeRune(s);
    if r == RUNE_ERROR && size == 1 then Escape(s[0])
    else if r == QUOTE_RUNE then QUOTE + QUOTE
    else s[..size]
  }

  // What the rewriting loop of encodePath produces from s.
  function Encoded(s: Bytes): Bytes {
    if s == [] then [] else EncodedUnit(s) + Encoded(s[DecodeRune(s).1..])
  }

  lemma EncodedStep(s: Bytes)
    requires s != []
    ensures Encoded(s) == EncodedUnit(s) + Encoded(s[DecodeRune(s).1..])
  {
  }

  // The unit that starts s, decoded, and the number of bytes it takes up.
  function DecodedUnit(s: Bytes): (u: (Bytes, nat))
    requires s != []
    ensures 0 < u.1 <= |s|
  {
    var (r, size) := DecodeRune(s);
    if r != QUOTE_RUNE then (s[..size], size)
    else
      var rest := s[size..];
      if QUOTE <= rest then (QUOTE, size + |QUOTE|)
      else if |rest| >= 2 && ParseHexByte(rest).Some? then ([ParseHexByte(rest).value], size + 2)
      else (QUOTE, size)
  }

  // What the rewriting loop of decodePath produces from s.
  function Decoded(s: Bytes): Bytes {
    if s == [] then [] else DecodedUnit(s).0 + Decoded(s[DecodedUnit(s).1..])
  }

  // ---- the quote rune among other bytes ----

  lemma QuoteDecodes(rest: Bytes)
    ensures DecodeRune(QUOTE + rest) == (QUOTE_RUNE, 3)
  {
  }

  lemma OnlyQuoteDecodesToQuote(s: Bytes)
    requires DecodeRune(s).0 == QUOTE_RUNE
    ensures QUOTE <= s && DecodeRune(s).1 == 3
  {
  }

  // Self-synchronisation: the first byte of the quote rune is never a tail
  // byte, so a byte-wise occurrence always sits on a rune boundary.
  lemma QuoteIsAligned(s: Bytes, i: nat)
    requires s != [] && OccursAt(s, QUOTE, i)
    ensures if i == 0 then DecodeRune(s) == (QUOTE_RUNE, 3)
            else DecodeRune(s).1 <= i && OccursAt(s[DecodeRune(s).1..], QUOTE, i - DecodeRune(s).1)
  {
  }

  lemma QuoteOnBoundary(s: Bytes)
    requires s != []
    ensures Contains(s, QUOTE) <==> DecodeRune(s).0 == QUOTE_RUNE || Contains(s[DecodeRune(s).1..], QUOTE)
  {
    var size := DecodeRune(s).1;
    if Contains(s, QUOTE) {
      var i :| 0 <= i <= |s| && OccursAt(s, QUOTE, i);
      QuoteIsAligned(s, i);
    }
    if DecodeRune(s).0 == QUOTE_RUNE {
      OnlyQuoteDecodesToQuote(s);
      assert OccursAt(s, QUOTE, 0);
    }
    if Contains(s[size..], QUOTE) {
      var i :| 0 <= i <= |s[size..]| && OccursAt(s[size..], QUOTE, i);
      var j := size + i;
      assert s[j..j + 3] == s[size..][i..i + 3];
      assert OccursAt(s, QUOTE, j);
    }
  }

  // ---- encoder form ----

  lemma {:induction false} EncodedIsValid(s: Bytes)
    ensures IsValid(Encoded(s))
  {
    if s != [] {
      var (r, size) := DecodeRune(s);
      EncodedIsValid(s[size..]);
      if r == RUNE_ERROR && size == 1 {
        EscapeIsValid(s[0]);
        ValidConcat(Escape(s[0]), Encoded(s[1..]));
      } else if r == QUOTE_RUNE {
        assert IsValid(QUOTE);
        ValidConcat(QUOTE, QUOTE);
        ValidConcat(QUOTE + QUOTE, Encoded(s[size..]));
      } else {
        DecodeTakesPrefix(s);
        ValidConcat(s[..size], Encoded(s[size..]));
      }
    }
  }

  lemma EscapeIsValid(b: byte)
    ensures IsValid(Escape(b))
  {
    var e := Escape(b);
    QuoteDecodes(e[3..]);
    assert e == QUOTE + e[3..];
    assert IsValid(e[4..]) by { assert |e[4..]| == 1 && e[4..][1..] == []; }
    assert e[3..][1..] == e[4..];
  }

  // Rewriting never shortens, and lengthens exactly the paths that need it.
  lemma {:induction false} EncodedLength(s: Bytes)
    ensures |Encoded(s)| >= |s|
    ensures |Encoded(s)| == |s| <==> !NeedsEncoding(s)
    ensures !NeedsEncoding(s) ==> Encoded(s) == s
  {
    if s == [] {
    } else {
      var (r, size) := DecodeRune(s);
      EncodedLength(s[size..]);
      QuoteOnBoundary(s);
      assert s == s[..size] + s[size..];
    }
  }

  // encodePath is the identity exactly on valid, marker-free names.
  lemma UnchangedIffPlain(s: Bytes)
    ensures Encoded(s) == s <==> IsValid(s) && !Contains(s, QUOTE)
  {
    EncodedLength(s);
  }

  lemma {:induction false} DecodedUnquoted(s: Bytes)
    requires !Contains(s, QUOTE)
    ensures Decoded(s) == s
  {
    hide *;
    DecodedStep(s);
    if s != [] {
      QuoteOnBoundary(s);
      var size := DecodeRune(s).1;
      DecodedUnquoted(s[size..]);
      assert s == s[..size] + s[size..];
    }
  }

  lemma DecodedStep(s: Bytes)
    ensures s == [] ==> Decoded(s) == []
    ensures s != [] && DecodeRune(s).0 != QUOTE_RUNE ==>
      Decoded(s) == s[..DecodeRune(s).1] + Decoded(s[DecodeRune(s).1..])
  {
    hide DecodeRune;
  }

  lemma UnitEndsAtSlash(a: Bytes, b: Bytes)
    requires a != []
    ensures EncodedUnit(a + [SLASH] + b) == EncodedUnit(a) && DecodeRune(a + [SLASH] + b) == DecodeRune(a)
  {
    AsciiEndsSequence(a, SLASH, b);
    var size := DecodeRune(a).1;
    assert (a + [SLASH] + b)[..size] == a[..size];
  }

  lemma ComponentwiseTurn(a: Bytes, b: Bytes)
    requires a != []
    requires var rest := a[DecodeRune(a).1..];
      Encoded(rest + [SLASH] + b) == Encoded(rest) + [SLASH] + Encoded(b)
    ensures Encoded(a + [SLASH] + b) == Encoded(a) + [SLASH] + Encoded(b)
  {
    var s := a + [SLASH] + b;
    hide *;
    EncodedStep(s);
    EncodedStep(a);
    UnitEndsAtSlash(a, b);
    assert s[DecodeRune(a).1..] == a[DecodeRune(a).1..] + [SLASH] + b;
  }

  // Encoding works name by name: a path is encoded component-wise.
  lemma {:induction false} EncodedComponentwise(a: Bytes, b: Bytes)
    ensures Encoded(a + [SLASH] + b) == Encoded(a) + [SLASH] + Encoded(b)
  {
    if a == [] {
      var s := [SLASH] + b;
      assert a + [SLASH] + b == s;
      assert DecodeRune(s) == (SLASH as int, 1);
      assert s[1..] == b && s[..1] == [SLASH];
    } else {
      EncodedComponentwise(a[DecodeRune(a).1..], b);
      ComponentwiseTurn(a, b);
    }
  }

  // ---- round trip ----

  lemma DecodeEscape(b: byte, rest: Bytes)
    ensures Decoded(Escape(b) + rest) == [b] + Decoded(rest)
  {
    var s := Escape(b) + rest;
    var tail := [HexUpper(b / 16), HexUpper(b % 16)] + rest;
    assert s == QUOTE + tail;
    QuoteDecodes(tail);
    assert s[3..] == tail && tail[2..] == rest;
    assert !(QUOTE <= tail) by { assert tail[0] == HexUpper(b / 16); }
    assert HexValue(tail[0]) == Some(b / 16) && HexValue(tail[1]) == Some(b % 16);
    assert ParseHexByte(tail) == Some(b);
  }

  lemma DecodeDoubledQuote(rest: Bytes)
    ensures Decoded(QUOTE + QUOTE + rest) == QUOTE + Decoded(rest)
  {
  }

  lemma DecodePlain(u: Bytes, rest: Bytes)
    requires 0 < |u| == SequenceLength(u) && DecodeRune(u).0 != QUOTE_RUNE
    ensures Decoded(u + rest) == u + Decoded(rest)
  {
    DecodeIsLocal(u, rest);
    assert (u + rest)[..|u|] == u && (u + rest)[|u|..] == rest;
  }

  lemma DecodeUnit(s: Bytes, rest: Bytes)
    requires s != []
    ensures Decoded(EncodedUnit(s) + rest) == s[..DecodeRune(s).1] + Decoded(rest)
  {
    var (r, size) := DecodeRune(s);
    if r == RUNE_ERROR && size == 1 {
      DecodeEscape(s[0], rest);
    } else if r == QUOTE_RUNE {
      OnlyQuoteDecodesToQuote(s);
      DecodeDoubledQuote(rest);
    } else {
      DecodeTakesPrefix(s);
      DecodePlain(s[..size], rest);
    }
  }

  lemma RoundTripTurn(s: Bytes)
    requires s != []
    requires Decoded(Encoded(s[DecodeRune(s).1..])) == s[DecodeRune(s).1..]
    ensures Decoded(Encoded(s)) == s
  {
    hide *;
    EncodedStep(s);
    var size := DecodeRune(s).1;
    DecodeUnit(s, Encoded(s[size..]));
    assert s == s[..size] + s[size..];
  }

  lemma {:induction false} PathRoundTrip(s: Bytes)
    ensures Decoded(Encoded(s)) == s
  {
    if s != [] {
      PathRoundTrip(s[DecodeRune(s).1..]);
      RoundTripTurn(s);
    }
  }

  lemma EncodedInjective(a: Bytes, b: Bytes)
    requires Encoded(a) == Encoded(b)
    ensures a == b
  {
    PathRoundTrip(a);
    PathRoundTrip(b);
  }

  // ---- the two functions as written: early return, then a loop ----

  ghost predicate EncodedSoFar(s: Bytes, i: nat, r: Bytes) {
    i <= |s| && Encoded(s) == r + Encoded(s[i..])
  }

  method EncodePath(s: Bytes) returns (r: Bytes)
    ensures r == Encoded(s)
  {
    hide *;
    EncodedLength(s);
    if !NeedsEncoding(s) {
      return s;
    }
    r := [];
    var i := 0;
    EncodedEnds(s, r);
    while i < |s|
      invariant 0 <= i <= |s|
      invariant EncodedSoFar(s, i, r)
    {
      var (c, size) := DecodeRune(s[i..]);
      EncodedUnitAt(s, i);
      EncodeTurn(s, i, r);
      if c == RUNE_ERROR && size == 1 {
        r := r + Escape(s[i]);
        i := i + 1;
      } else if c == QUOTE_RUNE {
        r := r + (QUOTE + QUOTE);
        i := i + size;
      } else {
        r := r + s[i..i + size];
        i := i + size;
      }
    }
    EncodedEnds(s, r);
  }

  lemma EncodedEnds(s: Bytes, r: Bytes)
    ensures EncodedSoFar(s, 0, [])
    ensures EncodedSoFar(s, |s|, r) ==> Encoded(s) == r
  {
  }

  ghost predicate DecodedSoFar(s: Bytes, i: nat, r: Bytes) {
    i <= |s| && Decoded(s) == r + Decoded(s[i..])
  }

  method DecodePath(s: Bytes) returns (r: Bytes)
    ensures r == Decoded(s)
  {
    hide *;
    if !Contains(s, QUOTE) {
      DecodedUnquoted(s);
      return s;
    }
    r := [];
    var i := 0;
    DecodedEnds(s, r);
    while i < |s|
      invariant 0 <= i <= |s|
      invariant DecodedSoFar(s, i, r)
    {
      var (c, size) := DecodeRune(s[i..]);
      var rest := s[i + size..];
      DecodedUnitAt(s, i);
      DecodeTurn(s, i, r);
      if c != QUOTE_RUNE {
        r := r + s[i..i + size];
        i := i + size;
        continue;
      }
      if QUOTE <= rest {
        r := r + QUOTE;
        i := i + size * 2;
        continue;
      }
      if |rest| >= 2 {
        var v := ParseHexByte(rest);
        if v.Some? {
          r := r + [v.value];
          i := i + size + 2;
          continue;
        }
      }
      r := r + QUOTE;
      i := i + size;
    }
    DecodedEnds(s, r);
  }

  lemma DecodedEnds(s: Bytes, r: Bytes)
    ensures DecodedSoFar(s, 0, [])
    ensures DecodedSoFar(s, |s|, r) ==> Decoded(s) == r
  {
  }

  lemma EncodedUnitAt(s: Bytes, i: nat)
    requires i < |s|
    ensures var (c, size) := DecodeRune(s[i..]);
      EncodedUnit(s[i..]) ==
        if c == RUNE_ERROR && size == 1 then Escape(s[i])
        else if c == QUOTE_RUNE then QUOTE + QUOTE
        else s[i..i + size]
  {
  }

  // One turn of encodePath's loop.
  lemma EncodeTurn(s: Bytes, i: nat, r: Bytes)
    requires i < |s| && EncodedSoFar(s, i, r)
    ensures EncodedSoFar(s, i + DecodeRune(s[i..]).1, r + EncodedUnit(s[i..]))
  {
  }

  lemma DecodedUnitAt(s: Bytes, i: nat)
    requires i < |s|
    ensures var (c, size) := DecodeRune(s[i..]);
      var rest := s[i + size..];
      DecodedUnit(s[i..]) ==
        if c != QUOTE_RUNE then (s[i..i + size], size)
        else if QUOTE <= rest then (QUOTE, size * 2)
        else if |rest| >= 2 && ParseHexByte(rest).Some? then ([ParseHexByte(rest).value], size + 2)
        else (QUOTE, size)
  {
    var (c, size) := DecodeRune(s[i..]);
    assert s[i..][size..] == s[i + size..];
    assert s[i..][..size] == s[i..i + size];
    if c == QUOTE_RUNE {
      OnlyQuoteDecodesToQuote(s[i..]);
    }
  }

  // One turn of decodePath's loop.
  lemma DecodeTurn(s: Bytes, i: nat, r: Bytes)
    requires i < |s| && DecodedSoFar(s, i, r)
    ensures var (u, taken) := DecodedUnit(s[i..]);
      DecodedSoFar(s, i + taken, r + u)
  {
    var (u, taken) := DecodedUnit(s[i..]);
    assert Decoded(s[i..]) == u + Decoded(s[i..][taken..]);
    assert s[i..][taken..] == s[i + taken..];
    ConcatAssociative(r, u, Decoded(s[i + taken..]));
  }
}
