// chunk.go and types.go: the two independently written text forms of a chunk
// key, the object name (chunkPath) and the JSON map key (MarshalText).
module ChunkKeys {
  import opened Utf8
  import opened Wrappers
  import opened PathCodec

  const TWO_63: int := 0x8000_0000_0000_0000
  const DASH: byte := 0x2D
  const PLUS: byte := 0x2B

  type int64 = x: int | -0x8000_0000_0000_0000 <= x < 0x8000_0000_0000_0000

  // HashType: a fixed block of 20 bytes.
  type Hash = h: Bytes | |h| == 20 witness [0, 0, 0, 0, 0, 0, 0, 0, 0, 0, 0, 0, 0, 0, 0, 0, 0, 0, 0, 0]
  const ZERO_HASH: Hash := [0, 0, 0, 0, 0, 0, 0, 0, 0, 0, 0, 0, 0, 0, 0, 0, 0, 0, 0, 0]

  datatype ChunkKey = ChunkKey(size: int64, hash: Hash)

  // A key of something that exists: sizes of files are never negative.
  type Key = k: ChunkKey | k.size >= 0 witness ChunkKey(0, ZERO_HASH)

  // ---- numbers ----

  predicate IsDigit(c: byte) {
    0x30 <= c <= 0x39
  }

  predicate AllDigits(s: Bytes) {
    forall i :: 0 <= i < |s| ==> IsDigit(s[i])
  }

  function FormatNat(n: nat): (s: Bytes)
    ensures s != [] && AllDigits(s)
  {
    if n < 10 then [0x30 + n] else FormatNat(n / 10) + [0x30 + n % 10]
  }

  // strconv.FormatInt(n, 10)
  function FormatInt(n: int): Bytes {
    if n < 0 then [DASH] + FormatNat(-n) else FormatNat(n)
  }

  function NatValue(s: Bytes): nat
    requires AllDigits(s)
  {
    if s == [] then 0 else NatValue(s[..|s| - 1]) * 10 + (s[|s| - 1] - 0x30)
  }

  // strconv.ParseInt(s, 10, 64), None for a syntax or a range error.
  function ParseInt(s: Bytes): Option<int64> {
    var signed := s != [] && (s[0] == PLUS || s[0] == DASH);
    var digits := if signed then s[1..] else s;
    if digits == [] || !AllDigits(digits) then None
    else
      var v: int := NatValue(digits);
      if signed && s[0] == DASH then (if v <= TWO_63 then Some(-v) else None)
      else if v < TWO_63 then Some(v) else None
  }

  function Wrap64(x: int): int64 {
    (x + TWO_63) % (2 * TWO_63) - TWO_63
  }

  // The accumulator of parseInt64FromBytes after s: no digit check, no
  // overflow check, int64 wrap-around.
  function Int64Value(s: Bytes): int64 {
    if s == [] then 0
    else Wrap64(Int64Value(s[..|s| - 1]) * 10 + (s[|s| - 1] as int - 0x30) % 256)
  }

  // What the accumulator would hold without a bound.
  function Unbounded(s: Bytes): int {
    if s == [] then 0 else Unbounded(s[..|s| - 1]) * 10 + (s[|s| - 1] as int - 0x30) % 256
  }

  lemma WrapsBy(x: int) returns (m: int)
    ensures Wrap64(x) == x + m * (2 * TWO_63)
  {
    m := -((x + TWO_63) / (2 * TWO_63));
  }

  // It wraps: the result differs from that by a multiple of 2^64.
  lemma {:induction false} WrapsAround(s: Bytes) returns (m: int)
    ensures Int64Value(s) == Unbounded(s) + m * 0x1_0000_0000_0000_0000
  {
    m := 0;
    if s != [] {
      var init := s[..|s| - 1];
      var k := WrapsAround(init);
      var j := WrapsBy(Int64Value(init) * 10 + (s[|s| - 1] as int - 0x30) % 256);
      m := 10 * k + j;
    }
  }

  method ParseInt64FromBytes(b: Bytes) returns (r: int64)
    ensures r == Int64Value(b)
  {
    r := 0;
    for i := 0 to |b|
      invariant r == Int64Value(b[..i])
    {
      assert b[..i + 1][..i] == b[..i];
      r := Wrap64(r * 10 + (b[i] as int - 0x30) % 256);
    }
    assert b[..|b|] == b;
  }

  lemma {:induction false} FormatParsesBack(n: nat)
    ensures NatValue(FormatNat(n)) == n
  {
    if n >= 10 {
      FormatParsesBack(n / 10);
      var s := FormatNat(n);
      assert s[..|s| - 1] == FormatNat(n / 10);
    }
  }

  lemma WrapIsIdentity(x: int)
    requires -TWO_63 <= x < TWO_63
    ensures Wrap64(x) == x
  {
  }

  lemma {:induction false} NoWrap(s: Bytes)
    requires AllDigits(s) && NatValue(s) < TWO_63
    ensures Int64Value(s) == NatValue(s)
  {
    if s != [] {
      NoWrap(s[..|s| - 1]);
      WrapIsIdentity(NatValue(s));
    }
  }

  lemma {:induction false} PrefixIsSmaller(s: Bytes, i: nat)
    requires AllDigits(s) && i <= |s|
    ensures NatValue(s[..i]) <= NatValue(s)
  {
    if i == |s| {
      assert s[..i] == s;
    } else {
      var init := s[..|s| - 1];
      PrefixIsSmaller(init, i);
      assert s[..i] == init[..i];
    }
  }

  function Pow10(n: nat): nat {
    if n == 0 then 1 else 10 * Pow10(n - 1)
  }

  // What decimal text stands for, by the places of its digits.
  function PlaceValue(s: Bytes): nat
    requires AllDigits(s)
  {
    if s == [] then 0 else (s[0] - 0x30) * Pow10(|s| - 1) + PlaceValue(s[1..])
  }

  lemma {:induction false} PlaceOfLast(s: Bytes)
    requires AllDigits(s) && s != []
    ensures PlaceValue(s) == PlaceValue(s[..|s| - 1]) * 10 + (s[|s| - 1] - 0x30)
  {
    if |s| == 1 {
      assert s[1..] == [] && s[..0] == [] && Pow10(0) == 1;
    } else {
      var init, rest := s[..|s| - 1], s[1..];
      PlaceOfLast(rest);
      assert rest[..|rest| - 1] == init[1..] && rest[|rest| - 1] == s[|s| - 1] && init[0] == s[0];
      TenTimes(s[0] - 0x30, |s| - 2);
      PlaceStep(s);
      PlaceStep(init);
    }
  }

  lemma PlaceStep(s: Bytes)
    requires AllDigits(s) && s != []
    ensures PlaceValue(s) == (s[0] - 0x30) * Pow10(|s| - 1) + PlaceValue(s[1..])
  {
  }

  lemma TenTimes(d: nat, n: nat)
    ensures d * Pow10(n + 1) == d * Pow10(n) * 10
  {
    assert Pow10(n + 1) == 10 * Pow10(n);
  }

  lemma {:induction false} ByPlaces(s: Bytes)
    requires AllDigits(s)
    ensures NatValue(s) == PlaceValue(s)
  {
    if s != [] {
      ByPlaces(s[..|s| - 1]);
      PlaceOfLast(s);
    }
  }

  // A printed size is its decimal text, without leading zeros.
  lemma {:induction false} PrintedInDecimal(n: nat)
    ensures PlaceValue(FormatNat(n)) == n && (|FormatNat(n)| > 1 ==> FormatNat(n)[0] != 0x30)
  {
    hide PlaceValue;
    FormatParsesBack(n);
    ByPlaces(FormatNat(n));
    if n >= 10 {
      PrintedInDecimal(n / 10);
    }
  }

  // The unchecked parser never leaves int64 range on a printed size: at no
  // point of its loop does the accumulator differ from the exact value.
  lemma NeverWraps(n: int64, i: nat)
    requires n >= 0 && i <= |FormatNat(n)|
    ensures Int64Value(FormatNat(n)[..i]) == NatValue(FormatNat(n)[..i])
  {
    FormatParsesBack(n);
    PrefixIsSmaller(FormatNat(n), i);
    NoWrap(FormatNat(n)[..i]);
  }

  // ---- hexadecimal ----

  function HexLower(n: nat): (c: byte)
    requires n < 16
  {
    if n < 10 then 0x30 + n else 0x61 + n - 10
  }

  // hex.EncodeToString
  function HexEncode(h: Bytes): (s: Bytes)
    ensures |s| == 2 * |h|
    ensures DASH !in s
  {
    if h == [] then [] else [HexLower(h[0] / 16), HexLower(h[0] % 16)] + HexEncode(h[1..])
  }

  lemma LowerDigit(n: nat)
    requires n < 16
    ensures HexLower(n) == LOWER_DIGITS[n] && HexValue(HexLower(n)) == Some(n)
  {
  }

  // Two lower-case digits for every byte, the high one first.
  lemma {:induction false} HexDigitsAt(h: Bytes, i: nat)
    requires i < |h|
    ensures HexEncode(h)[2 * i] == LOWER_DIGITS[h[i] / 16] && HexEncode(h)[2 * i + 1] == LOWER_DIGITS[h[i] % 16]
  {
    hide HexLower;
    if i == 0 {
      LowerDigit(h[0] / 16);
      LowerDigit(h[0] % 16);
    } else {
      HexDigitsAt(h[1..], i - 1);
      assert HexEncode(h)[2..] == HexEncode(h[1..]);
    }
  }

  // hex.Decode: the bytes decoded before the first error, and whether there
  // was none.
  function HexDecode(s: Bytes): (d: (Bytes, bool))
    ensures 2 * |d.0| <= |s|
  {
    if |s| < 2 then ([], s == [])
    else
      var hi, lo := HexValue(s[0]), HexValue(s[1]);
      if hi.None? || lo.None? || hi.value * 16 + lo.value > 255 then ([], false)
      else
        var rest := HexDecode(s[2..]);
        ([hi.value * 16 + lo.value] + rest.0, rest.1)
  }

  lemma {:induction false} HexRoundTrip(h: Bytes)
    ensures HexDecode(HexEncode(h)) == (h, true)
  {
    hide HexLower, HexValue;
    if h != [] {
      HexRoundTrip(h[1..]);
      var s := HexEncode(h);
      assert s[2..] == HexEncode(h[1..]);
      LowerDigit(h[0] / 16);
      LowerDigit(h[0] % 16);
      assert h == [h[0]] + h[1..];
    }
  }

  // copy(dst[:], src) into a zeroed hash
  function CopyToHash(b: Bytes): Hash {
    seq(20, i requires 0 <= i < 20 => if i < |b| then b[i] else 0)
  }

  // ---- splitting ----

  // strings.Split / bytes.Split with a one-byte separator
  function Split(s: Bytes, sep: byte): (parts: seq<Bytes>)
    ensures parts != []
    ensures forall p :: p in parts ==> sep !in p
  {
    if s == [] then [[]]
    else
      var rest := Split(s[1..], sep);
      if s[0] == sep then [[]] + rest else [[s[0]] + rest[0]] + rest[1..]
  }

  lemma {:induction false} SplitPlain(a: Bytes, sep: byte)
    requires sep !in a
    ensures Split(a, sep) == [a]
  {
    if a != [] {
      SplitPlain(a[1..], sep);
      assert a == [a[0]] + a[1..];
    }
  }

  lemma {:induction false} SplitTwo(a: Bytes, sep: byte, b: Bytes)
    requires sep !in a && sep !in b
    ensures Split(a + [sep] + b, sep) == [a, b]
  {
    var s := a + [sep] + b;
    if a == [] {
      assert s[1..] == b;
      SplitPlain(b, sep);
    } else {
      assert s[1..] == a[1..] + [sep] + b;
      SplitTwo(a[1..], sep, b);
      assert a == [a[0]] + a[1..];
    }
  }

  // ---- the two printers ----

  function ChunkPath(k: ChunkKey): Bytes {
    FormatInt(k.size) + [DASH] + HexEncode(k.hash)
  }

  function HashText(h: Hash): Bytes {
    if h == ZERO_HASH then [] else HexEncode(h)
  }

  function MarshalKey(k: ChunkKey): Bytes {
    FormatInt(k.size) + [DASH] + HashText(k.hash)
  }

  // Size and digits around a dash; only in the index, no digits for a hash of
  // nothing but zeros.
  lemma KeyText(k: Key)
    ensures ChunkPath(k) == FormatNat(k.size) + [0x2D] + HexEncode(k.hash)
    ensures MarshalKey(k) ==
      if forall i :: 0 <= i < 20 ==> k.hash[i] == 0 then FormatNat(k.size) + [0x2D] else ChunkPath(k)
  {
    assert (forall i :: 0 <= i < 20 ==> k.hash[i] == 0) <==> k.hash == ZERO_HASH;
  }

  // ---- the two parsers ----

  // parseChunkKeyFromString: every error is absorbed.
  function ParseKey(s: Bytes): ChunkKey {
    var c := Split(s, DASH);
    if |c| != 2 then ChunkKey(0, ZERO_HASH)
    else
      var size := ParseInt(c[0]);
      ChunkKey(if size.Some? then size.value else 0, CopyToHash(HexDecode(c[1]).0))
  }

  // Every int64 is read back from its text.
  lemma IntRoundTrip(n: int64)
    ensures ParseInt(FormatInt(n)) == Some(n)
  {
    var m := if n < 0 then 0 - n else n;
    FormatParsesBack(m);
    assert IsDigit(FormatNat(m)[0]);
    if n < 0 {
      assert FormatInt(n)[1..] == FormatNat(m);
    }
  }

  // An object name that is no key's reads as a size or a hash of zero.
  lemma MalformedIsZero(s: Bytes)
    ensures |Split(s, DASH)| != 2 ==> ParseKey(s) == ChunkKey(0, ZERO_HASH)
    ensures |Split(s, DASH)| == 2 && ParseInt(Split(s, DASH)[0]).None? ==> ParseKey(s).size == 0
    ensures |Split(s, DASH)| == 2 && HexDecode(Split(s, DASH)[1]).0 == [] ==> ParseKey(s).hash == ZERO_HASH
  {
  }

  // HashType.UnmarshalText into a zeroed hash. Text longer than 40 digits
  // makes the original panic and is outside this function.
  function UnmarshalHash(text: Bytes): Result<Hash, ()>
    requires |text| <= 40
  {
    if text == [] then Ok(ZERO_HASH)
    else
      var d := HexDecode(text);
      if d.1 then Ok(CopyToHash(d.0)) else Err(())
  }

  // ChunkKey.UnmarshalText
  function UnmarshalKey(text: Bytes): Result<ChunkKey, ()>
    requires |Split(text, DASH)| == 2 ==> |Split(text, DASH)[1]| <= 40
  {
    var c := Split(text, DASH);
    if |c| != 2 then Ok(ChunkKey(0, ZERO_HASH))
    else
      match UnmarshalHash(c[1])
      case Ok(h) => Ok(ChunkKey(Int64Value(c[0]), h))
      case Err(e) => Err(e)
  }

  // ---- agreement ----

  lemma HashTextRoundTrip(h: Hash)
    ensures DASH !in HashText(h) && |HashText(h)| <= 40
    ensures UnmarshalHash(HashText(h)) == Ok(h)
    ensures UnmarshalHash(HexEncode(h)) == Ok(h)
    ensures CopyToHash(HexDecode(HashText(h)).0) == h
    ensures CopyToHash(HexDecode(HexEncode(h)).0) == h
  {
    HexRoundTrip(h);
    assert CopyToHash(h) == h;
    assert CopyToHash([]) == ZERO_HASH;
  }

  lemma SizeRoundTrip(n: int64)
    requires n >= 0
    ensures DASH !in FormatInt(n)
    ensures ParseInt(FormatInt(n)) == Some(n)
    ensures Int64Value(FormatInt(n)) == n
  {
    FormatParsesBack(n);
    NoWrap(FormatNat(n));
    assert IsDigit(FormatNat(n)[0]);
  }

  // Either printer, read by either parser, gives the key back.
  lemma KeyCodecsAgree(k: Key)
    ensures ParseKey(ChunkPath(k)) == k && ParseKey(MarshalKey(k)) == k
    ensures forall text :: text == ChunkPath(k) || text == MarshalKey(k) ==>
      && |Split(text, DASH)| == 2 && |Split(text, DASH)[1]| <= 40
      && UnmarshalKey(text) == Ok(k)
  {
    SizeRoundTrip(k.size);
    HashTextRoundTrip(k.hash);
    SplitTwo(FormatInt(k.size), DASH, HexEncode(k.hash));
    SplitTwo(FormatInt(k.size), DASH, HashText(k.hash));
  }

  lemma ChunkPathInjective(a: Key, b: Key)
    requires ChunkPath(a) == ChunkPath(b)
    ensures a == b
  {
    KeyCodecsAgree(a);
    KeyCodecsAgree(b);
  }

  // Where the precondition bites: a negative size prints a second dash, and
  // both parsers fall back to the zero key.
  lemma NegativeSizeIsLost(k: ChunkKey)
    requires k.size < 0
    ensures ParseKey(ChunkPath(k)) == ChunkKey(0, ZERO_HASH)
  {
    var magnitude: int := -(k.size as int);
    var n, h := FormatNat(magnitude), HexEncode(k.hash);
    var s := ChunkPath(k);
    assert s == [DASH] + (n + [DASH] + h);
    assert s[1..] == n + [DASH] + h;
    SplitTwo(n, DASH, h);
  }
}
