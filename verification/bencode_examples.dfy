/**
 What the decoder does on small concrete inputs: the shapes its tests in
 `src/bencode.rs` exercise, and each way a malformed input is rejected.
 */
module BencodeExamples {

  import opened Base
  import opened Bytes
  import opened Decimal
  import opened Bencode
  import opened BencodeStreaming
  import opened BencodeEncoding

  lemma NegativeInt()
    ensures ReadObject([105, 45, 52, 50, 101]) == Ok((Some(Number(-42)), []))
  {
    var s: Text := [105, 45, 52, 50, 101];
    assert s[1..] == [45, 52, 50, 101];
    assert IndexOf([45, 52, 50, 101], CHAR_E) == Some(3);
    var t: Text := [45, 52, 50, 101];
    var d: Text := [52, 50];
    assert t[..3] == [45, 52, 50];
    assert [45, 52, 50][1..] == d;
    assert d[..1] == [52];
    assert DigitsValue(d) == 42;
    assert ValidUtf8(t[..3]);
    assert ParseI64(t[..3]) == Some(-42);
    assert t[4..] == [];
    assert ReadInt(t) == Ok((-42, []));
    assert NextToken(s) == Ok(Some((IntStart, t)));
  }

  lemma UnterminatedInt()
    ensures ReadObject([105, 45, 52, 50]) == Err(UnexpectedEOF)
  {
    var s: Text := [105, 45, 52, 50];
    assert s[1..] == [45, 52, 50];
  }

  lemma EmptyList()
    ensures ReadObject([108, 101]) == Ok((Some(List([])), []))
  {
    var s: Text := [108, 101];
    assert s[1..] == [101];
  }

  lemma ListOfEmptyDicts()
    ensures ReadObject([108, 100, 101, 100, 101, 101])
      == Ok((Some(List([Dict([]), Dict([])])), []))
  {
    var s: Text := [108, 100, 101, 100, 101, 101];
    assert s[1..] == [100, 101, 100, 101, 101];
    assert [100, 101, 100, 101, 101][1..] == [101, 100, 101, 101];
    assert [101, 100, 101, 101][1..] == [100, 101, 101];
    assert ReadPairs([101, 100, 101, 101]) == Ok(([], [100, 101, 101]));
    assert [100, 101, 101][1..] == [101, 101];
    assert [101, 101][1..] == [101];
    assert ReadPairs([101, 101]) == Ok(([], [101]));
    assert [101][1..] == [];
    assert ReadItems([101]) == Ok(([], []));
    assert NextToken([100, 101, 101]) == Ok(Some((DictStart, [101, 101])));
    assert ReadValue(DictStart, [101, 101]) == Ok((Dict([]), [101]));
    assert [Dict([])] + [] == [Dict([])];
    assert ReadItems([100, 101, 101]) == Ok(([Dict([])], []));
    assert [Dict([])] + [Dict([])] == [Dict([]), Dict([])];
    assert NextToken([100, 101, 100, 101, 101]) == Ok(Some((DictStart, [101, 100, 101, 101])));
    assert ReadValue(DictStart, [101, 100, 101, 101]) == Ok((Dict([]), [100, 101, 101]));
    assert ReadItems([100, 101, 100, 101, 101]) == Ok(([Dict([]), Dict([])], []));
  }

  lemma LoneEnd()
    ensures ReadObject([101]) == Err(ExpectedObjectStart(End))
  {
    var s: Text := [101];
    assert s[1..] == [];
    assert NextToken(s) == Ok(Some((End, [])));
  }

  /** Any byte that starts no token is rejected as itself, whatever follows it. */
  lemma BadStart(c: byte, rest: Text)
    requires !IsDigit(c) && c != CHAR_L && c != CHAR_I && c != CHAR_D && c != CHAR_E
    ensures ReadObject([c] + rest) == Err(UnexpectedToken(c))
  {
    assert ([c] + rest)[0] == c;
  }

  lemma OpenList()
    ensures ReadObject([108]) == Err(UnexpectedEOF)
  {
    var s: Text := [108];
    assert s[1..] == [];
  }

  lemma IntDictKey()
    ensures ReadObject([100, 105, 49, 101, 105, 50, 101, 101]) == Err(ExpectedDictKey(IntStart))
  {
    var s: Text := [100, 105, 49, 101, 105, 50, 101, 101];
    var t: Text := [105, 49, 101, 105, 50, 101, 101];
    assert s[1..] == t;
    assert t[1..] == [49, 101, 105, 50, 101, 101];
    assert NextToken(t) == Ok(Some((IntStart, t[1..])));
  }

  /** The length prefix `1`. */
  lemma LengthOne()
    ensures LengthValue([49] + []) == Ok(1)
  {
    var text: Text := [49];
    assert [49] + [] == text;
    assert text[..0] == [] && text[1..] == [];
    assert ValidUtf8(text);
    assert ParseU32(text) == Some(1);
  }

  /** `1:` in front of anything is a length-one key or string prefix. */
  lemma OneLength(rest: Text)
    ensures NextToken([49, 58] + rest) == Ok(Some((Length(1), rest)))
  {
    var s: Text := [49, 58] + rest;
    assert s[1..] == [] + [COLON] + rest;
    ReadLengthAt(49, [], rest);
    LengthOne();
  }

  /** A one-digit integer `i<d>e` in front of anything. */
  lemma OneDigitInt(d: byte, rest: Text)
    requires IsDigit(d)
    ensures ReadObject([105, d, 101] + rest) == Ok((Some(Number(d - ZERO)), rest))
  {
    var s: Text := [105, d, 101] + rest;
    var t: Text := [d, 101] + rest;
    assert s[1..] == t;
    assert IndexOf(t, CHAR_E) == Some(1);
    assert t[..1] == [d];
    assert [d][..0] == [] && [d][1..] == [];
    assert ValidUtf8([d]);
    assert DigitsValue([d]) == d - ZERO;
    assert ParseI64([d]) == Some(d - ZERO);
    assert t[2..] == rest;
    assert ReadInt(t) == Ok((d - ZERO, rest));
  }

  /** The pair `1:ai<d>e` in front of anything, its `1:` already read. */
  lemma KeyAPair(d: byte, rest: Text)
    requires IsDigit(d)
    ensures ReadDictPair(Length(1), [97, 105, d, 101] + rest)
      == Ok((([97], Number(d - ZERO)), rest))
  {
    var s: Text := [97, 105, d, 101] + rest;
    assert s[..1] == [97] && s[1..] == [105, d, 101] + rest;
    OneDigitInt(d, rest);
  }

  lemma KeyAPairs(d: byte, s: Text, more: Text, ps: seq<(Text, Object)>, r: Text)
    requires IsDigit(d)
    requires s == [49, 58] + ([97, 105, d, 101] + more)
    requires ReadPairs(more) == Ok((ps, r))
    ensures ReadPairs(s) == Ok(([([97], Number(d - ZERO))] + ps, r))
  {
    var tail: Text := [97, 105, d, 101] + more;
    var p: (Text, Object) := ([97], Number(d - ZERO));
    assert NextToken(s) == Ok(Some((Length(1), tail))) by {
      OneLength(tail);
    }
    assert ReadDictPair(Length(1), tail) == Ok((p, more)) by {
      KeyAPair(d, more);
    }
    ReadPairsStep(s, Length(1), tail, p, more, ps, r);
  }

  lemma EmptyPairs(rest: Text)
    ensures ReadPairs([101] + rest) == Ok(([], rest))
  {
    assert ([101] + rest)[1..] == rest;
  }

  lemma LastKeyAPair(s4: Text, rest: Text)
    requires s4 == [49, 58] + ([97, 105, 50, 101] + ([101] + rest))
    ensures ReadPairs(s4) == Ok(([([97], Number(2))], rest))
  {
    var s6: Text := [101] + rest;
    EmptyPairs(rest);
    var b: (Text, Object) := ([97], Number(50 - ZERO));
    assert b == ([97], Number(2));
    assert [b] + [] == [b];
    KeyAPairs(50, s4, s6, [], rest);
  }

  lemma TwoKeyAPairs(s1: Text, s4: Text, rest: Text)
    requires s1 == [49, 58] + ([97, 105, 49, 101] + s4)
    requires ReadPairs(s4) == Ok(([([97], Number(2))], rest))
    ensures ReadPairs(s1) == Ok(([([97], Number(1)), ([97], Number(2))], rest))
  {
    var a: (Text, Object) := ([97], Number(1));
    var b: (Text, Object) := ([97], Number(2));
    assert a == ([97], Number(49 - ZERO));
    assert [a] + [b] == [a, b];
    KeyAPairs(49, s1, s4, [b], rest);
  }

  /** A `d` followed by the pairs of a dict is that dict. */
  lemma DictOfPairs(s: Text, s1: Text, ps: seq<(Text, Object)>, rest: Text)
    requires s == [CHAR_D] + s1
    requires ReadPairs(s1) == Ok((ps, rest))
    ensures ReadObject(s) == Ok((Some(Dict(ps)), rest))
  {
    assert s[1..] == s1;
  }

  lemma DuplicateKeysSplit(s: Text, s1: Text, s4: Text, rest: Text)
    requires s == [100, 49, 58, 97, 105, 49, 101, 49, 58, 97, 105, 50, 101, 101] + rest
    requires s4 == [49, 58] + ([97, 105, 50, 101] + ([101] + rest))
    requires s1 == [49, 58] + ([97, 105, 49, 101] + s4)
    ensures s == [CHAR_D] + s1
  {
  }

  /**
   A repeated key is kept, both pairs in wire order: `d1:ai1e1:ai2ee`,
   whatever follows it.
   */
  lemma DuplicateKeysKept(s: Text, rest: Text)
    requires s == [100, 49, 58, 97, 105, 49, 101, 49, 58, 97, 105, 50, 101, 101] + rest
    ensures ReadObject(s) == Ok((Some(Dict([([97], Number(1)), ([97], Number(2))])), rest))
  {
    var s4: Text := [49, 58] + ([97, 105, 50, 101] + ([101] + rest));
    var s1: Text := [49, 58] + ([97, 105, 49, 101] + s4);
    LastKeyAPair(s4, rest);
    TwoKeyAPairs(s1, s4, rest);
    DuplicateKeysSplit(s, s1, s4, rest);
    DictOfPairs(s, s1, [([97], Number(1)), ([97], Number(2))], rest);
  }

  /** A key with nothing but the dict's `e` after it: `d1:ae`. */
  lemma MissingDictValue()
    ensures ReadObject([100, 49, 58, 97, 101]) == Err(ExpectedObjectStart(End))
  {
    var s: Text := [100, 49, 58, 97, 101];
    assert s[1..] == [49, 58] + [97, 101];
    OneLength([97, 101]);
    var v: Text := [97, 101];
    assert v[..1] == [97] && v[1..] == [101];
    assert [101][1..] == [];
    assert ReadObject([101]) == Err(ExpectedObjectStart(End));
  }

  /** A length longer than what remains: `5:abc`. */
  lemma ShortString()
    ensures ReadObject([53, 58, 97, 98, 99]) == Err(IOError(UnexpectedEof))
  {
    var s: Text := [53, 58, 97, 98, 99];
    var t: Text := [58, 97, 98, 99];
    assert s[1..] == t;
    assert IndexOf(t, COLON) == Some(0);
    assert t[..0] == [];
    var text: Text := [53];
    assert text[..0] == [] && text[1..] == [];
    assert [s[0]] + t[..0] == text;
    assert ValidUtf8(text);
    assert ParseU32(text) == Some(5);
    assert ReadLength(53, t) == Ok((5, [97, 98, 99]));
    assert t[1..] == [97, 98, 99];
    assert NextToken(s) == Ok(Some((Length(5), [97, 98, 99])));
  }

  /** Digits that never reach a `:` are malformed, not end of input: `12`. */
  lemma LengthWithoutColon()
    ensures ReadObject([49, 50]) == Err(MalformedInput(LengthUnterminated(50)))
  {
    var s: Text := [49, 50];
    assert s[1..] == [50];
  }

  /** A length prefix that is not a number: `1x:`. */
  lemma LengthNotANumber()
    ensures ReadObject([49, 120, 58]) == Err(BadLengthStr)
  {
    var s: Text := [49, 120, 58];
    var t: Text := [120, 58];
    assert s[1..] == t;
    assert IndexOf(t, COLON) == Some(1);
    assert t[..1] == [120];
    var text: Text := [49, 120];
    assert [49] + [120] == text;
    assert text[1..] == [120] && [120][1..] == [];
    assert ValidUtf8(text);
    assert ParseU32(text) == None;
  }
}
