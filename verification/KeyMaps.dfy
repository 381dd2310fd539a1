// pathcodec.go, the map-key half: encodeKeys and decodeKeys, which take path
// keyed maps to and from maps a JSON encoder accepts.
module KeyMaps {
  import opened Utf8
  import opened PathCodec

  function EncodedText(s: Bytes): (t: Text)
    ensures t == Encoded(s)
  {
    EncodedIsValid(s);
    Encoded(s)
  }

  // Every key rewritten; injectivity is what makes this a map at all.
  function EncodedKeys<V>(m: map<Bytes, V>): (r: map<Text, V>)
    ensures forall k :: k in m ==> EncodedText(k) in r && r[EncodedText(k)] == m[k]
    ensures forall t :: t in r ==> Decoded(t) in m && EncodedText(Decoded(t)) == t
  {
    hide Encoded, Decoded, IsValid;
    assert forall k {:trigger EncodedText(k)} :: Decoded(EncodedText(k)) == k by {
      forall k: Bytes ensures Decoded(EncodedText(k)) == k { PathRoundTrip(k); }
    }
    map k | k in m :: EncodedText(k) := m[k]
  }

  // raw decoded key by key, in some order: where two keys decode alike, one of
  // them wins.
  ghost predicate IsDecoding<V>(raw: map<Bytes, V>, out: map<Bytes, V>) {
    && (forall k :: k in raw ==> Decoded(k) in out)
    && (forall p :: p in out ==> exists k :: k in raw && Decoded(k) == p && out[p] == raw[k])
  }

  // Decoding inverts encoding on whole maps, in any iteration order.
  lemma KeysRoundTrip<V>(m: map<Bytes, V>, out: map<Bytes, V>)
    requires IsDecoding(EncodedKeys(m), out)
    ensures out == m
  {
    hide Encoded, Decoded, IsValid, EncodedText, EncodedKeys;
    forall p | p in m ensures p in out {
      PathRoundTrip(p);
      assert EncodedText(p) in EncodedKeys(m);
    }
    forall p | p in out ensures p in m && out[p] == m[p] {
      var k :| k in EncodedKeys(m) && Decoded(k) == p && out[p] == EncodedKeys(m)[k];
      assert EncodedText(p) == k;
    }
  }

  lemma {:induction false} EncodedKeysSize<V>(m: map<Bytes, V>)
    ensures |EncodedKeys(m)| == |m|
  {
    hide Encoded, Decoded, IsValid, EncodedText, EncodedKeys;
    if m == map[] {
      assert EncodedKeys(m).Keys == {};
    } else {
      var k :| k in m;
      var rest := m - {k};
      EncodedKeysSize(rest);
      PathRoundTrip(k);
      assert EncodedKeys(m).Keys == EncodedKeys(rest).Keys + {EncodedText(k)};
    }
  }

  method EncodeKeys<V>(m: map<Bytes, V>) returns (out: map<Bytes, V>)
    ensures out == EncodedKeys(m)
  {
    hide *;
    var needs := false;
    var todo := m.Keys;
    while todo != {}
      invariant todo <= m.Keys
      invariant !needs ==> forall k :: k in m.Keys - todo ==> !NeedsEncoding(k)
      decreases todo
    {
      var k :| k in todo;
      todo := todo - {k};
      if NeedsEncoding(k) {
        needs := true;
        break;
      }
    }
    if !needs {
      PlainKeysUnchanged(m);
      return m;
    }
    out := map[];
    todo := m.Keys;
    while todo != {}
      invariant todo <= m.Keys
      invariant forall k :: k in m.Keys - todo ==> EncodedText(k) in out && out[EncodedText(k)] == m[k]
      invariant forall t :: t in out ==> Decoded(t) in m.Keys - todo && Encoded(Decoded(t)) == t
      decreases todo
    {
      var k :| k in todo;
      PathRoundTrip(k);
      todo := todo - {k};
      var e := EncodePath(k);
      out := out[e := m[k]];
    }
  }

  lemma PlainKeysUnchanged<V>(m: map<Bytes, V>)
    requires forall k :: k in m ==> !NeedsEncoding(k)
    ensures m == EncodedKeys(m)
  {
    hide Encoded, NeedsEncoding;
    forall k | k in m ensures EncodedText(k) == k {
      EncodedLength(k);
    }
  }

  method DecodeKeys<V>(raw: map<Bytes, V>) returns (out: map<Bytes, V>)
    ensures IsDecoding(raw, out)
  {
    hide Decoded, Contains;
    var needs := false;
    var todo := raw.Keys;
    while todo != {}
      invariant todo <= raw.Keys
      invariant !needs ==> forall k :: k in raw.Keys - todo ==> !Contains(k, QUOTE)
      decreases todo
    {
      var k :| k in todo;
      todo := todo - {k};
      if Contains(k, QUOTE) {
        needs := true;
        break;
      }
    }
    if !needs {
      forall k | k in raw ensures Decoded(k) == k {
        DecodedUnquoted(k);
      }
      return raw;
    }
    out := map[];
    todo := raw.Keys;
    while todo != {}
      invariant todo <= raw.Keys
      invariant forall k :: k in raw.Keys - todo ==> Decoded(k) in out
      invariant forall p :: p in out ==> exists k :: k in raw && Decoded(k) == p && out[p] == raw[k]
      decreases todo
    {
      var k :| k in todo;
      todo := todo - {k};
      var d := DecodePath(k);
      out := out[d := raw[k]];
    }
  }
}
