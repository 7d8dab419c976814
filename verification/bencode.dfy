/**
 The streaming bencode decoder (`src/bencode.rs`). The Rust decoder pulls
 bytes from a reader of unknown length and keeps a one-token lookahead
 stack; here the reader is the byte sequence still to come, every reading
 step returns what it consumed the input down to, and the lookahead token
 is passed along explicitly, so no token survives a returned value.
 */
module Bencode {

  import opened Base
  import opened Bytes
  import opened Decimal

  const CHAR_D: byte := 100
  const CHAR_E: byte := 101
  const CHAR_I: byte := 105
  const CHAR_L: byte := 108

  /** A decoded value. Dict pairs stay in wire order, repeated keys included. */
  datatype Object =
    | List(items: seq<Object>)
    | Dict(pairs: seq<(Text, Object)>)
    | BBytes(bytes: Text)
    | Number(n: int)

  /** One lexical element; `Length` has already consumed the digits and the `:`. */
  datatype Token = ListStart | DictStart | IntStart | Length(len: nat) | End

  /** The only kind of I/O error a finite byte sequence can raise: `read_exact` running dry. */
  datatype IoErrorKind = UnexpectedEof

  /** Why a literal was rejected; the source distinguishes these only in its message text. */
  datatype Malformed =
    | LengthUnterminated(last: byte)
    | LengthNotUtf8
    | IntNotUtf8
    | IntNotI64

  datatype Error =
    | UnexpectedEOF
    | UnexpectedToken(c: byte)
    | ExpectedDictKey(token: Token)
    | ExpectedObjectStart(token: Token)
    | BadLengthStr
    | MalformedInput(reason: Malformed)
    | IOError(kind: IoErrorKind)

  /** What a value can hold once decoded: `i64` numbers and `u32`-sized byte strings. */
  predicate WellFormed(o: Object)
    decreases o
  {
    match o
    case Number(n) => InI64(n)
    case BBytes(b) => |b| < U32_LIMIT
    case List(items) => forall i :: 0 <= i < |items| ==> WellFormed(items[i])
    case Dict(pairs) => forall i :: 0 <= i < |pairs| ==> PairWellFormed(pairs[i])
  }

  predicate PairWellFormed(p: (Text, Object))
    decreases p
  {
    |p.0| < U32_LIMIT && WellFormed(p.1)
  }

  /** `rest` is what is left of `s` after reading from its front. */
  predicate IsSuffix(rest: Text, s: Text) {
    |rest| <= |s| && rest == s[|s| - |rest|..]
  }

  lemma ConsPairsWellFormed(p: (Text, Object), ps: seq<(Text, Object)>)
    requires PairWellFormed(p)
    requires forall i :: 0 <= i < |ps| ==> PairWellFormed(ps[i])
    ensures forall i :: 0 <= i < |[p] + ps| ==> PairWellFormed(([p] + ps)[i])
  {
  }

  lemma SuffixTransitive(a: Text, b: Text, c: Text)
    requires IsSuffix(a, b) && IsSuffix(b, c)
    ensures IsSuffix(a, c)
  {
    assert c[|c| - |b|..][|b| - |a|..] == c[|c| - |a|..];
  }

  /**
   `read_length`: the digits after `first` up to the first `:`, parsed as a
   `u32`. Running out before a `:` is malformed input (the source pops the
   last byte read and finds it is not `:`), not end of input.
   */
  function ReadLength(first: byte, s: Text): (r: Result<(nat, Text), Error>)
    ensures r.Ok? ==> r.value.0 < U32_LIMIT && IsSuffix(r.value.1, s) && |r.value.1| < |s|
    ensures COLON !in s ==> r.Err? && r.error.MalformedInput?
  {
    match IndexOf(s, COLON)
    case None =>
      Err(MalformedInput(LengthUnterminated(if s == [] then first else s[|s| - 1])))
    case Some(i) =>
      var n := LengthValue([first] + s[..i]);
      if n.Err? then Err(n.error) else Ok((n.value, s[i + 1..]))
  }

  /** The digits of a length prefix, which must be UTF-8 text of a `u32`. */
  function LengthValue(text: Text): (r: Result<nat, Error>)
    ensures r.Ok? ==> r.value < U32_LIMIT
  {
    if !ValidUtf8(text) then Err(MalformedInput(LengthNotUtf8))
    else match ParseU32(text)
      case None => Err(BadLengthStr)
      case Some(n) => Ok(n)
  }

  /** `read_str`: exactly `n` bytes, or the error `read_exact` gives when fewer remain. */
  function ReadStr(n: nat, s: Text): (r: Result<(Text, Text), Error>)
    ensures r.Ok? <==> n <= |s|
    ensures r.Ok? ==> |r.value.0| == n && r.value.0 + r.value.1 == s
    ensures r.Err? ==> r.error == IOError(UnexpectedEof)
  {
    if |s| < n then Err(IOError(UnexpectedEof)) else Ok((s[..n], s[n..]))
  }

  /**
   `read_int`: the bytes up to the first `e`, parsed as an `i64`. A missing
   `e` is end of input; text that is not an `i64` is malformed input.
   */
  function ReadInt(s: Text): (r: Result<(int, Text), Error>)
    ensures r.Ok? ==> InI64(r.value.0) && IsSuffix(r.value.1, s) && |r.value.1| < |s|
    ensures CHAR_E !in s <==> r == Err(UnexpectedEOF)
    ensures r.Err? && r.error != UnexpectedEOF ==> r.error.MalformedInput?
  {
    match IndexOf(s, CHAR_E)
    case None => Err(UnexpectedEOF)
    case Some(i) =>
      var n := IntValue(s[..i]);
      if n.Err? then Err(n.error) else Ok((n.value, s[i + 1..]))
  }

  /** The text of an integer, which must be UTF-8 text of an `i64`. */
  function IntValue(text: Text): (r: Result<int, Error>)
    ensures r.Ok? ==> InI64(r.value)
    ensures r.Err? ==> r.error.MalformedInput?
  {
    if !ValidUtf8(text) then Err(MalformedInput(IntNotUtf8))
    else match ParseI64(text)
      case None => Err(MalformedInput(IntNotI64))
      case Some(v) => Ok(v)
  }

  /**
   `decode_token`: classifies the next byte. `None` only at the very end of
   the input; a digit starts a length prefix; anything outside `l i d e 0-9`
   is an unexpected token.
   */
  function NextToken(s: Text): (r: Result<Option<(Token, Text)>, Error>)
    ensures r == Ok(None) <==> s == []
    ensures r.Ok? && r.value.Some? ==> IsSuffix(r.value.value.1, s) && |r.value.value.1| < |s|
    ensures r.Ok? && r.value.Some? && r.value.value.0.Length? ==> r.value.value.0.len < U32_LIMIT
  {
    if s == [] then Ok(None)
    else
      var c := s[0];
      if c == CHAR_L then Ok(Some((ListStart, s[1..])))
      else if c == CHAR_I then Ok(Some((IntStart, s[1..])))
      else if c == CHAR_D then Ok(Some((DictStart, s[1..])))
      else if c == CHAR_E then Ok(Some((End, s[1..])))
      else if IsDigit(c) then
        match ReadLength(c, s[1..])
        case Err(e) => Err(e)
        case Ok((n, rest)) => Ok(Some((Length(n), rest)))
      else Err(UnexpectedToken(c))
  }

  /**
   `read_object`: one whole value, or `None` when the input is already
   exhausted at this value boundary (the one non-error way to stop).
   */
  function ReadObject(s: Text): (r: Result<(Option<Object>, Text), Error>)
    ensures r.Ok? ==> IsSuffix(r.value.1, s)
    ensures r.Ok? && r.value.0.None? <==> s == []
    ensures r.Ok? && r.value.0.Some? ==> |r.value.1| < |s| && WellFormed(r.value.0.value)
    decreases |s|, 2
  {
    var next := NextToken(s);
    if next.Err? then Err(next.error)
    else if next.value.None? then Ok((None, s))
    else
      var (t, rest) := next.value.value;
      var v := ReadValue(t, rest);
      if v.Err? then Err(v.error) else Ok((Some(v.value.0), v.value.1))
  }

  /** The value that starts with the already-popped token `t`. */
  function ReadValue(t: Token, s: Text): (r: Result<(Object, Text), Error>)
    requires t.Length? ==> t.len < U32_LIMIT
    ensures r.Ok? ==> IsSuffix(r.value.1, s) && WellFormed(r.value.0)
    ensures t == End ==> r == Err(ExpectedObjectStart(End))
    decreases |s|, 1
  {
    match t
    case ListStart =>
      var items := ReadItems(s);
      if items.Err? then Err(items.error) else Ok((List(items.value.0), items.value.1))
    case DictStart =>
      var pairs := ReadPairs(s);
      if pairs.Err? then Err(pairs.error) else Ok((Dict(pairs.value.0), pairs.value.1))
    case IntStart =>
      var n := ReadInt(s);
      if n.Err? then Err(n.error) else Ok((Number(n.value.0), n.value.1))
    case Length(n) =>
      var bytes := ReadStr(n, s);
      if bytes.Err? then Err(bytes.error) else Ok((BBytes(bytes.value.0), bytes.value.1))
    case End => Err(ExpectedObjectStart(End))
  }

  /** The elements of a list up to and including its `e`, in source order. */
  function ReadItems(s: Text): (r: Result<(seq<Object>, Text), Error>)
    ensures r.Ok? ==> IsSuffix(r.value.1, s) && |r.value.1| < |s|
    ensures r.Ok? ==> forall i :: 0 <= i < |r.value.0| ==> WellFormed(r.value.0[i])
    ensures s == [] ==> r == Err(UnexpectedEOF)
    decreases |s|, 0
  {
    var next := NextToken(s);
    if next.Err? then Err(next.error)
    else if next.value.None? then Err(UnexpectedEOF)
    else
      var (t, rest) := next.value.value;
      if t == End then Ok(([], rest))
      else
        var v := ReadValue(t, rest);
        if v.Err? then Err(v.error)
        else
          var more := ReadItems(v.value.1);
          if more.Err? then Err(more.error)
          else
            SuffixTransitive(v.value.1, rest, s);
            SuffixTransitive(more.value.1, v.value.1, s);
            Ok(([v.value.0] + more.value.0, more.value.1))
  }

  /** The pairs of a dict up to and including its `e`, in wire order. */
  function ReadPairs(s: Text): (r: Result<(seq<(Text, Object)>, Text), Error>)
    ensures r.Ok? ==> IsSuffix(r.value.1, s) && |r.value.1| < |s|
    ensures r.Ok? ==> forall i :: 0 <= i < |r.value.0| ==> PairWellFormed(r.value.0[i])
    ensures s == [] ==> r == Err(UnexpectedEOF)
    decreases |s|, 0
  {
    var next := NextToken(s);
    if next.Err? then Err(next.error)
    else if next.value.None? then Err(UnexpectedEOF)
    else
      var (t, rest) := next.value.value;
      if t == End then Ok(([], rest))
      else
        var p := ReadDictPair(t, rest);
        if p.Err? then Err(p.error)
        else
          var more := ReadPairs(p.value.1);
          if more.Err? then Err(more.error)
          else
            SuffixTransitive(p.value.1, rest, s);
            SuffixTransitive(more.value.1, p.value.1, s);
            ConsPairsWellFormed(p.value.0, more.value.0);
            Ok(([p.value.0] + more.value.0, more.value.1))
  }

  /**
   `read_dict_pair`: the popped token must open a byte-string key; the value
   after it must be present and must not be an `e`.
   */
  function ReadDictPair(t: Token, s: Text): (r: Result<((Text, Object), Text), Error>)
    requires t.Length? ==> t.len < U32_LIMIT
    ensures r.Ok? ==> IsSuffix(r.value.1, s) && |r.value.1| < |s|
    ensures r.Ok? ==> PairWellFormed(r.value.0)
    ensures !t.Length? ==> r == Err(ExpectedDictKey(t))
    decreases |s|, 3
  {
    if !t.Length? then Err(ExpectedDictKey(t))
    else
      var key := ReadStr(t.len, s);
      if key.Err? then Err(key.error)
      else
        var v := ReadObject(key.value.1);
        if v.Err? then Err(v.error)
        else if v.value.0.None? then Err(UnexpectedEOF)
        else Ok(((key.value.0, v.value.0.value), v.value.1))
  }
}
