/**
 The BEP 3 encoding of a value, as the encoder library writes it: integers
 as `i<decimal>e`, byte strings as `<length>:<bytes>`, lists as `l…e` and
 dicts as `d…e` with their pairs in the order given. Decoding an encoding
 gives the value back and leaves whatever followed it untouched.
 */
module BencodeEncoding {

  import opened Base
  import opened Bytes
  import opened Decimal
  import opened Bencode

  function EncodeBytes(b: Text): (r: Text)
  {
    NatText(|b|) + [COLON] + b
  }

  function Encode(o: Object): (r: Text)
    decreases o
  {
    match o
    case Number(n) => [CHAR_I] + IntText(n) + [CHAR_E]
    case BBytes(b) => EncodeBytes(b)
    case List(items) => [CHAR_L] + EncodeItems(items) + [CHAR_E]
    case Dict(pairs) => [CHAR_D] + EncodePairs(pairs) + [CHAR_E]
  }

  function EncodeItems(items: seq<Object>): Text
    decreases items
  {
    if items == [] then [] else Encode(items[0]) + EncodeItems(items[1..])
  }

  function EncodePairs(pairs: seq<(Text, Object)>): Text
    decreases pairs
  {
    if pairs == [] then []
    else
      var p := pairs[0];
      assert p.1 < p;
      EncodeBytes(p.0) + Encode(p.1) + EncodePairs(pairs[1..])
  }

  /** An encoding never starts with the end marker, so it cannot close a container. */
  lemma EncodeStartsValue(o: Object)
    ensures |Encode(o)| > 0 && Encode(o)[0] != CHAR_E
  {
    match o
    case BBytes(b) =>
      assert Encode(o)[0] == NatText(|b|)[0];
    case _ =>
  }

  lemma ReadLengthOfDigits(n: nat, rest: Text)
    requires n < U32_LIMIT
    ensures ReadLength(NatText(n)[0], NatText(n)[1..] + [COLON] + rest) == Ok((n, rest))
  {
    var d := NatText(n);
    var tail := d[1..];
    assert COLON !in tail by {
      forall i | 0 <= i < |tail| ensures tail[i] != COLON {
        assert IsDigit(d[i + 1]);
      }
    }
    IndexOfAfter(tail, COLON, rest);
    var s := tail + [COLON] + rest;
    assert s[..|tail|] == tail;
    assert [d[0]] + tail == d;
    assert IsAscii(d) by {
      forall i | 0 <= i < |d| ensures d[i] < 128 {
        assert IsDigit(d[i]);
      }
    }
    AsciiIsValidUtf8(d);
    NatTextParsesAsU32(n);
    assert s[|tail| + 1..] == rest;
  }

  /** A length prefix reads as a `Length` token and leaves the body. */
  lemma LengthPrefixToken(n: nat, rest: Text)
    requires n < U32_LIMIT
    ensures NextToken(NatText(n) + [COLON] + rest) == Ok(Some((Length(n), rest)))
  {
    var d := NatText(n);
    var s := d + [COLON] + rest;
    assert s[0] == d[0] && IsDigit(d[0]);
    assert s[1..] == d[1..] + [COLON] + rest;
    ReadLengthOfDigits(n, rest);
  }

  /** How `ReadObject` composes a token with the value it starts. */
  lemma ReadObjectStep(s: Text, t: Token, r: Text, v: Object, r': Text)
    requires NextToken(s) == Ok(Some((t, r)))
    requires ReadValue(t, r) == Ok((v, r'))
    ensures ReadObject(s) == Ok((Some(v), r'))
  {
  }

  /** How `ReadItems` composes one element with the elements after it. */
  lemma ReadItemsStep(s: Text, t: Token, r: Text, v: Object, r': Text, vs: seq<Object>, r'': Text)
    requires NextToken(s) == Ok(Some((t, r))) && t != End
    requires ReadValue(t, r) == Ok((v, r'))
    requires ReadItems(r') == Ok((vs, r''))
    ensures ReadItems(s) == Ok(([v] + vs, r''))
  {
  }

  /** How `ReadPairs` composes one pair with the pairs after it. */
  lemma ReadPairsStep(s: Text, t: Token, r: Text, p: (Text, Object), r': Text,
                      ps: seq<(Text, Object)>, r'': Text)
    requires NextToken(s) == Ok(Some((t, r))) && t != End
    requires ReadDictPair(t, r) == Ok((p, r'))
    requires ReadPairs(r') == Ok((ps, r''))
    ensures ReadPairs(s) == Ok(([p] + ps, r''))
  {
  }

  /** One encoded dict pair reads back, given that its value does. */
  lemma DictPairStep(key: Text, ev: Text, v: Object, tail: Text)
    requires |key| < U32_LIMIT
    requires ReadObject(ev + tail) == Ok((Some(v), tail))
    ensures NextToken(NatText(|key|) + [COLON] + (key + (ev + tail)))
      == Ok(Some((Length(|key|), key + (ev + tail))))
    ensures ReadDictPair(Length(|key|), key + (ev + tail)) == Ok(((key, v), tail))
  {
    var afterKey := ev + tail;
    LengthPrefixToken(|key|, key + afterKey);
    assert (key + afterKey)[..|key|] == key && (key + afterKey)[|key|..] == afterKey;
    assert ReadStr(|key|, key + afterKey) == Ok((key, afterKey));
  }

  lemma IntBodyRoundTrip(n: int, rest: Text)
    requires InI64(n)
    ensures ReadInt(IntText(n) + [CHAR_E] + rest) == Ok((n, rest))
  {
    var text := IntText(n);
    assert CHAR_E !in text by {
      forall i | 0 <= i < |text| ensures text[i] != CHAR_E {
        assert IsDigit(text[i]) || text[i] == MINUS;
      }
    }
    IndexOfAfter(text, CHAR_E, rest);
    assert (text + [CHAR_E] + rest)[..|text|] == text;
    assert (text + [CHAR_E] + rest)[|text| + 1..] == rest;
    assert IsAscii(text) by {
      forall i | 0 <= i < |text| ensures text[i] < 128 {
        assert IsDigit(text[i]) || text[i] == MINUS;
      }
    }
    AsciiIsValidUtf8(text);
    IntTextParsesAsI64(n);
  }

  lemma NumberRoundTrip(n: int, rest: Text)
    requires InI64(n)
    ensures ReadObject([CHAR_I] + (IntText(n) + [CHAR_E] + rest)) == Ok((Some(Number(n)), rest))
  {
    var body := IntText(n) + [CHAR_E] + rest;
    var s := [CHAR_I] + body;
    assert s[1..] == body;
    IntBodyRoundTrip(n, rest);
    ReadObjectStep(s, IntStart, body, Number(n), rest);
  }

  lemma BytesRoundTrip(b: Text, rest: Text)
    requires |b| < U32_LIMIT
    ensures ReadObject(NatText(|b|) + [COLON] + (b + rest)) == Ok((Some(BBytes(b)), rest))
  {
    LengthPrefixToken(|b|, b + rest);
    assert (b + rest)[..|b|] == b && (b + rest)[|b|..] == rest;
    ReadObjectStep(NatText(|b|) + [COLON] + (b + rest), Length(|b|), b + rest, BBytes(b), rest);
  }

  lemma ContainerStep(c: byte, t: Token, body: Text, v: Object, rest: Text)
    requires (c == CHAR_L && t == ListStart) || (c == CHAR_D && t == DictStart)
    requires ReadValue(t, body) == Ok((v, rest))
    ensures ReadObject([c] + body) == Ok((Some(v), rest))
  {
    assert ([c] + body)[1..] == body;
    ReadObjectStep([c] + body, t, body, v, rest);
  }

  /**
   Decoding the encoding of a well-formed value followed by any bytes gives
   the value back and leaves exactly those bytes.
   */
  lemma {:induction false} RoundTrip(o: Object, rest: Text)
    requires WellFormed(o)
    ensures ReadObject(Encode(o) + rest) == Ok((Some(o), rest))
    decreases o
  {
    match o
    case Number(n) =>
      assert Encode(o) + rest == [CHAR_I] + (IntText(n) + [CHAR_E] + rest);
      NumberRoundTrip(n, rest);
    case BBytes(b) =>
      assert Encode(o) + rest == NatText(|b|) + [COLON] + (b + rest);
      BytesRoundTrip(b, rest);
    case List(items) =>
      var body := EncodeItems(items) + [CHAR_E] + rest;
      assert Encode(o) + rest == [CHAR_L] + body;
      ItemsRoundTrip(items, rest);
      ContainerStep(CHAR_L, ListStart, body, o, rest);
    case Dict(pairs) =>
      var body := EncodePairs(pairs) + [CHAR_E] + rest;
      assert Encode(o) + rest == [CHAR_D] + body;
      PairsRoundTrip(pairs, rest);
      ContainerStep(CHAR_D, DictStart, body, o, rest);
  }

  lemma {:induction false} ItemsRoundTrip(items: seq<Object>, rest: Text)
    requires forall i :: 0 <= i < |items| ==> WellFormed(items[i])
    ensures ReadItems(EncodeItems(items) + [CHAR_E] + rest) == Ok((items, rest))
    decreases items
  {
    if items == [] {
      var s := EncodeItems(items) + [CHAR_E] + rest;
      assert s == [CHAR_E] + rest;
      assert s[1..] == rest;
    } else {
      var tail := EncodeItems(items[1..]) + [CHAR_E] + rest;
      assert ReadItems(Encode(items[0]) + tail) == Ok(([items[0]] + items[1..], rest)) by {
        RoundTrip(items[0], tail);
        ItemsRoundTrip(items[1..], rest);
        ItemsCons(items[0], items[1..], tail, rest);
      }
      EncodeItemsFront(items, rest);
      assert items == [items[0]] + items[1..];
    }
  }

  lemma EncodeItemsFront(items: seq<Object>, rest: Text)
    requires items != []
    ensures EncodeItems(items) + [CHAR_E] + rest
      == Encode(items[0]) + (EncodeItems(items[1..]) + [CHAR_E] + rest)
  {
    var a, b := Encode(items[0]), EncodeItems(items[1..]);
    assert EncodeItems(items) == a + b;
    assert a + b + [CHAR_E] + rest == a + (b + [CHAR_E] + rest);
  }

  /** An element that reads back, in front of elements that do. */
  lemma ItemsCons(x: Object, xs: seq<Object>, tail: Text, rest: Text)
    requires ReadObject(Encode(x) + tail) == Ok((Some(x), tail))
    requires ReadItems(tail) == Ok((xs, rest))
    ensures ReadItems(Encode(x) + tail) == Ok(([x] + xs, rest))
  {
    var s := Encode(x) + tail;
    var next := NextToken(s);
    assert next.Ok? && next.value.Some?;
    ReadItemsStep(s, next.value.value.0, next.value.value.1, x, tail, xs, rest);
  }

  lemma PairsCons(key: Text, ev: Text, v: Object, more: Text, ps: seq<(Text, Object)>, rest: Text)
    requires |key| < U32_LIMIT
    requires ReadObject(ev + more) == Ok((Some(v), more))
    requires ReadPairs(more) == Ok((ps, rest))
    ensures ReadPairs(NatText(|key|) + [COLON] + (key + (ev + more))) == Ok(([(key, v)] + ps, rest))
  {
    DictPairStep(key, ev, v, more);
    ReadPairsStep(NatText(|key|) + [COLON] + (key + (ev + more)), Length(|key|),
                  key + (ev + more), (key, v), more, ps, rest);
  }

  lemma RegroupPair(digits: Text, key: Text, ev: Text, others: Text, rest: Text)
    ensures digits + [COLON] + key + ev + others + [CHAR_E] + rest
      == digits + [COLON] + (key + (ev + (others + [CHAR_E] + rest)))
  {
  }

  lemma {:induction false} PairsRoundTrip(pairs: seq<(Text, Object)>, rest: Text)
    requires forall i :: 0 <= i < |pairs| ==> PairWellFormed(pairs[i])
    ensures ReadPairs(EncodePairs(pairs) + [CHAR_E] + rest) == Ok((pairs, rest))
    decreases pairs
  {
    if pairs == [] {
      var s := EncodePairs(pairs) + [CHAR_E] + rest;
      assert s == [CHAR_E] + rest;
      assert s[1..] == rest;
    } else {
      var p := pairs[0];
      assert p.1 < p;
      assert PairWellFormed(p);
      var more := EncodePairs(pairs[1..]) + [CHAR_E] + rest;
      assert ReadPairs(NatText(|p.0|) + [COLON] + (p.0 + (Encode(p.1) + more)))
          == Ok(([(p.0, p.1)] + pairs[1..], rest)) by {
        RoundTrip(p.1, more);
        PairsRoundTrip(pairs[1..], rest);
        PairsCons(p.0, Encode(p.1), p.1, more, pairs[1..], rest);
      }
      EncodePairsFront(pairs, rest);
      assert pairs == [(p.0, p.1)] + pairs[1..];
    }
  }

  lemma EncodePairsFront(pairs: seq<(Text, Object)>, rest: Text)
    requires pairs != []
    ensures EncodePairs(pairs) + [CHAR_E] + rest
      == NatText(|pairs[0].0|) + [COLON] + (pairs[0].0 + (Encode(pairs[0].1)
         + (EncodePairs(pairs[1..]) + [CHAR_E] + rest)))
  {
    var p := pairs[0];
    var others := EncodePairs(pairs[1..]);
    assert EncodePairs(pairs) == NatText(|p.0|) + [COLON] + p.0 + Encode(p.1) + others;
    RegroupPair(NatText(|p.0|), p.0, Encode(p.1), others, rest);
  }
}
