// UTF-8 at byte level (RFC 3629, sections 3 and 4), as Go's unicode/utf8 and
// strings packages see it: a string is an arbitrary sequence of bytes.
module Utf8 {
  type byte = b: int | 0 <= b < 256
  type Bytes = seq<byte>

  const RUNE_ERROR := 0xFFFD
  const SLASH: byte := 0x2F

  predicate IsTail(b: byte) {
    0x80 <= b <= 0xBF
  }

  // First two bytes of UTF8-3: no overlong forms, no surrogates.
  predicate IsHead3(a: byte, b: byte) {
    || (a == 0xE0 && 0xA0 <= b <= 0xBF)
    || (0xE1 <= a <= 0xEC && IsTail(b))
    || (a == 0xED && 0x80 <= b <= 0x9F)
    || (0xEE <= a <= 0xEF && IsTail(b))
  }

  // First two bytes of UTF8-4: no overlong forms, nothing above U+10FFFF.
  predicate IsHead4(a: byte, b: byte) {
    || (a == 0xF0 && 0x90 <= b <= 0xBF)
    || (0xF1 <= a <= 0xF3 && IsTail(b))
    || (a == 0xF4 && 0x80 <= b <= 0x8F)
  }

  // Length of the well-formed sequence that starts s, or 0 if none does.
  function SequenceLength(s: Bytes): (n: nat)
    ensures n <= |s| && n <= 4
  {
    if |s| >= 1 && s[0] < 0x80 then 1
    else if |s| >= 2 && 0xC2 <= s[0] <= 0xDF && IsTail(s[1]) then 2
    else if |s| >= 3 && IsHead3(s[0], s[1]) && IsTail(s[2]) then 3
    else if |s| >= 4 && IsHead4(s[0], s[1]) && IsTail(s[2]) && IsTail(s[3]) then 4
    else 0
  }

  function Scalar(s: Bytes, n: nat): (r: int)
    requires n == SequenceLength(s) && n > 0
    ensures 0 <= r <= 0x10FFFF
  {
    var at := (i: int) requires 0 <= i < |s| => s[i] as int;
    if n == 1 then at(0)
    else if n == 2 then (at(0) - 0xC0) * 0x40 + (at(1) - 0x80)
    else if n == 3 then (at(0) - 0xE0) * 0x1000 + (at(1) - 0x80) * 0x40 + (at(2) - 0x80)
    else (at(0) - 0xF0) * 0x40000 + (at(1) - 0x80) * 0x1000 + (at(2) - 0x80) * 0x40 + (at(3) - 0x80)
  }

  // utf8.DecodeRuneInString: an ill-formed start yields (RuneError, 1). A
  // genuine U+FFFD yields the same rune with size 3.
  function DecodeRune(s: Bytes): (d: (int, nat))
    ensures d.1 <= |s|
    ensures s != [] ==> d.1 > 0
  {
    var n := SequenceLength(s);
    if n > 0 then (Scalar(s, n), n) else (RUNE_ERROR, if s == [] then 0 else 1)
  }

  // utf8.ValidString
  predicate IsValid(s: Bytes) {
    s == [] || (SequenceLength(s) > 0 && IsValid(s[SequenceLength(s)..]))
  }

  type Text = s: Bytes | IsValid(s) witness []

  predicate OccursAt(s: Bytes, sub: Bytes, i: int) {
    0 <= i <= |s| - |sub| && s[i..i + |sub|] == sub
  }

  // strings.Contains: a byte-wise substring search, blind to rune boundaries.
  predicate Contains(s: Bytes, sub: Bytes) {
    exists i | 0 <= i <= |s| :: OccursAt(s, sub, i)
  }

  // What follows a well-formed sequence does not change how it decodes.
  lemma DecodeIsLocal(u: Bytes, rest: Bytes)
    requires 0 < |u| == SequenceLength(u)
    ensures SequenceLength(u + rest) == |u|
    ensures DecodeRune(u + rest) == DecodeRune(u)
  {
  }

  lemma DecodeTakesPrefix(s: Bytes)
    requires SequenceLength(s) > 0
    ensures SequenceLength(s[..SequenceLength(s)]) == SequenceLength(s)
    ensures DecodeRune(s[..SequenceLength(s)]) == DecodeRune(s)
  {
  }

  // An ASCII byte ends whatever precedes it, well-formed or truncated.
  lemma AsciiEndsSequence(a: Bytes, c: byte, b: Bytes)
    requires a != [] && c < 0x80
    ensures DecodeRune(a + [c] + b) == DecodeRune(a)
    ensures SequenceLength(a + [c] + b) == SequenceLength(a)
  {
  }

  lemma {:induction false} ValidConcat(a: Bytes, b: Bytes)
    requires IsValid(a) && IsValid(b)
    ensures IsValid(a + b)
  {
    if a == [] {
      assert a + b == b;
    } else {
      var n := SequenceLength(a);
      DecodeTakesPrefix(a);
      DecodeIsLocal(a[..n], a[n..] + b);
      assert a[..n] + (a[n..] + b) == a + b;
      assert (a + b)[n..] == a[n..] + b;
      ValidConcat(a[n..], b);
    }
  }
}
