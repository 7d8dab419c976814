/**
 Facts about the decoder as a reader of an unbounded stream: it never looks
 past the end of the value it returns, so bytes that arrive later cannot
 change a decoded value.
 */
module BencodeStreaming {

  import opened Base
  import opened Bytes
  import opened Decimal
  import opened Bencode

  /** A length prefix is decided by the digits before its `:` alone. */
  lemma ReadLengthAt(first: byte, x: Text, y: Text)
    requires COLON !in x
    ensures ReadLength(first, x + [COLON] + y)
      == (var n := LengthValue([first] + x); if n.Err? then Err(n.error) else Ok((n.value, y)))
  {
    IndexOfAfter(x, COLON, y);
    assert (x + [COLON] + y)[..|x|] == x;
    assert (x + [COLON] + y)[|x| + 1..] == y;
  }

  lemma ReadLengthExtend(first: byte, s: Text, t: Text)
    requires ReadLength(first, s).Ok?
    ensures ReadLength(first, s + t) == Ok((ReadLength(first, s).value.0, ReadLength(first, s).value.1 + t))
  {
    var i := IndexOf(s, COLON).value;
    var x, y := s[..i], s[i + 1..];
    assert s == x + [COLON] + y;
    assert s + t == x + [COLON] + (y + t);
    ReadLengthAt(first, x, y);
    ReadLengthAt(first, x, y + t);
  }

  lemma NextTokenExtend(s: Text, t: Text)
    requires NextToken(s).Ok? && NextToken(s).value.Some?
    ensures NextToken(s + t)
      == Ok(Some((NextToken(s).value.value.0, NextToken(s).value.value.1 + t)))
  {
    var c := s[0];
    assert (s + t)[0] == c;
    assert (s + t)[1..] == s[1..] + t;
    if IsDigit(c) {
      ReadLengthExtend(c, s[1..], t);
    }
  }

  /** An integer is decided by the text before its `e` alone. */
  lemma ReadIntAt(x: Text, y: Text)
    requires CHAR_E !in x
    ensures ReadInt(x + [CHAR_E] + y)
      == (var n := IntValue(x); if n.Err? then Err(n.error) else Ok((n.value, y)))
  {
    IndexOfAfter(x, CHAR_E, y);
    assert (x + [CHAR_E] + y)[..|x|] == x;
    assert (x + [CHAR_E] + y)[|x| + 1..] == y;
  }

  lemma ReadIntExtend(s: Text, t: Text)
    requires ReadInt(s).Ok?
    ensures ReadInt(s + t) == Ok((ReadInt(s).value.0, ReadInt(s).value.1 + t))
  {
    var i := IndexOf(s, CHAR_E).value;
    var x, y := s[..i], s[i + 1..];
    assert s == x + [CHAR_E] + y;
    assert s + t == x + [CHAR_E] + (y + t);
    ReadIntAt(x, y);
    ReadIntAt(x, y + t);
  }

  lemma ReadStrExtend(n: nat, s: Text, t: Text)
    requires ReadStr(n, s).Ok?
    ensures ReadStr(n, s + t) == Ok((ReadStr(n, s).value.0, ReadStr(n, s).value.1 + t))
  {
    assert (s + t)[..n] == s[..n];
    assert (s + t)[n..] == s[n..] + t;
  }

  /**
   Streaming: once `read_object` has returned a value from the bytes seen so
   far, any bytes that follow leave that value unchanged and are simply
   left over after it.
   */
  lemma {:induction false} ObjectExtend(s: Text, t: Text)
    requires ReadObject(s).Ok? && ReadObject(s).value.0.Some?
    ensures ReadObject(s + t) == Ok((ReadObject(s).value.0, ReadObject(s).value.1 + t))
    decreases |s|, 2
  {
    NextTokenExtend(s, t);
    var (tok, rest) := NextToken(s).value.value;
    ValueExtend(tok, rest, t);
  }

  lemma {:induction false} ValueExtend(tok: Token, s: Text, t: Text)
    requires tok.Length? ==> tok.len < U32_LIMIT
    requires ReadValue(tok, s).Ok?
    ensures ReadValue(tok, s + t) == Ok((ReadValue(tok, s).value.0, ReadValue(tok, s).value.1 + t))
    decreases |s|, 1
  {
    match tok
    case ListStart => ItemsExtend(s, t);
    case DictStart => PairsExtend(s, t);
    case IntStart => ReadIntExtend(s, t);
    case Length(n) => ReadStrExtend(n, s, t);
  }

  lemma {:induction false} ItemsExtend(s: Text, t: Text)
    requires ReadItems(s).Ok?
    ensures ReadItems(s + t) == Ok((ReadItems(s).value.0, ReadItems(s).value.1 + t))
    decreases |s|, 0
  {
    NextTokenExtend(s, t);
    var (tok, rest) := NextToken(s).value.value;
    if tok != End {
      ValueExtend(tok, rest, t);
      ItemsExtend(ReadValue(tok, rest).value.1, t);
    }
  }

  lemma {:induction false} PairsExtend(s: Text, t: Text)
    requires ReadPairs(s).Ok?
    ensures ReadPairs(s + t) == Ok((ReadPairs(s).value.0, ReadPairs(s).value.1 + t))
    decreases |s|, 0
  {
    NextTokenExtend(s, t);
    var (tok, rest) := NextToken(s).value.value;
    if tok != End {
      DictPairExtend(tok, rest, t);
      PairsExtend(ReadDictPair(tok, rest).value.1, t);
    }
  }

  lemma {:induction false} DictPairExtend(tok: Token, s: Text, t: Text)
    requires tok.Length? ==> tok.len < U32_LIMIT
    requires ReadDictPair(tok, s).Ok?
    ensures ReadDictPair(tok, s + t)
      == Ok((ReadDictPair(tok, s).value.0, ReadDictPair(tok, s).value.1 + t))
    decreases |s|, 3
  {
    ReadStrExtend(tok.len, s, t);
    ObjectExtend(ReadStr(tok.len, s).value.1, t);
  }
}
