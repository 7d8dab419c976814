/**
 Byte strings. A Rust `String` is modelled as its UTF-8 bytes (`Text`), so
 that ordering, splitting and joining behave exactly as they do on `str`:
 byte-wise ordering of UTF-8 is code-point ordering, and splitting on an
 ASCII separator never cuts a multi-byte character.
 */
module Bytes {

  import opened Base

  type byte = x: int | 0 <= x < 256

  /** The UTF-8 bytes of a Rust `String`. */
  type Text = seq<byte>

  const COLON: byte := 58
  const COMMA: byte := 44
  const EQUALS: byte := 61
  const NEWLINE: byte := 10

  predicate IsAscii(s: seq<byte>) {
    forall i :: 0 <= i < |s| ==> s[i] < 128
  }

  predicate IsContinuation(b: byte) {
    0x80 <= b <= 0xBF
  }

  /**
   Well-formed UTF-8 as Unicode Table 3-7 defines it (no overlong forms, no
   surrogates, nothing above U+10FFFF): the check `String::from_utf8` makes.
   */
  predicate ValidUtf8(s: seq<byte>)
    decreases |s|
  {
    if s == [] then true
    else if s[0] < 0x80 then ValidUtf8(s[1..])
    else if 0xC2 <= s[0] <= 0xDF then
      |s| >= 2 && IsContinuation(s[1]) && ValidUtf8(s[2..])
    else if s[0] == 0xE0 then
      |s| >= 3 && 0xA0 <= s[1] <= 0xBF && IsContinuation(s[2]) && ValidUtf8(s[3..])
    else if 0xE1 <= s[0] <= 0xEC || 0xEE <= s[0] <= 0xEF then
      |s| >= 3 && IsContinuation(s[1]) && IsContinuation(s[2]) && ValidUtf8(s[3..])
    else if s[0] == 0xED then
      |s| >= 3 && 0x80 <= s[1] <= 0x9F && IsContinuation(s[2]) && ValidUtf8(s[3..])
    else if s[0] == 0xF0 then
      |s| >= 4 && 0x90 <= s[1] <= 0xBF && IsContinuation(s[2]) && IsContinuation(s[3])
      && ValidUtf8(s[4..])
    else if 0xF1 <= s[0] <= 0xF3 then
      |s| >= 4 && IsContinuation(s[1]) && IsContinuation(s[2]) && IsContinuation(s[3])
      && ValidUtf8(s[4..])
    else if s[0] == 0xF4 then
      |s| >= 4 && 0x80 <= s[1] <= 0x8F && IsContinuation(s[2]) && IsContinuation(s[3])
      && ValidUtf8(s[4..])
    else false
  }

  /** Every ASCII byte string is valid UTF-8. */
  lemma {:induction false} AsciiIsValidUtf8(s: seq<byte>)
    requires IsAscii(s)
    ensures ValidUtf8(s)
    decreases |s|
  {
    if s != [] {
      assert IsAscii(s[1..]) by {
        forall i | 0 <= i < |s[1..]| ensures s[1..][i] < 128 {
          assert s[1..][i] == s[i + 1];
        }
      }
      AsciiIsValidUtf8(s[1..]);
    }
  }

  /** Position of the first `c` in `s`, as `str::find` with a one-byte pattern. */
  function IndexOf(s: seq<byte>, c: byte): (r: Option<nat>)
    ensures r.Some? ==> r.value < |s| && s[r.value] == c && c !in s[..r.value]
    ensures r.None? <==> c !in s
  {
    if s == [] then None
    else if s[0] == c then Some(0)
    else match IndexOf(s[1..], c)
      case None => None
      case Some(i) =>
        assert s[..i + 1] == [s[0]] + s[1..][..i];
        Some(i + 1)
  }

  /** The first `c` after a run without `c` is found where the run ends. */
  lemma {:induction false} IndexOfAfter(x: seq<byte>, c: byte, y: seq<byte>)
    requires c !in x
    ensures IndexOf(x + [c] + y, c) == Some(|x|)
    decreases |x|
  {
    if x != [] {
      assert (x + [c] + y)[1..] == x[1..] + [c] + y;
      IndexOfAfter(x[1..], c, y);
    }
  }

  /** Bytes appended after a found `c` do not move it. */
  lemma {:induction false} IndexOfExtend(s: seq<byte>, c: byte, t: seq<byte>)
    requires IndexOf(s, c).Some?
    ensures IndexOf(s + t, c) == IndexOf(s, c)
    decreases |s|
  {
    if s[0] != c {
      assert (s + t)[1..] == s[1..] + t;
      IndexOfExtend(s[1..], c, t);
    }
  }

  /** `parts.join(sep)`. */
  function Join(parts: seq<Text>, sep: Text): Text
  {
    if |parts| == 0 then []
    else if |parts| == 1 then parts[0]
    else parts[0] + sep + Join(parts[1..], sep)
  }

  /**
   `s.split(c)` for a one-byte pattern: the pieces between occurrences of
   `c`, always at least one (the empty string splits into one empty piece).
   */
  function Split(s: Text, c: byte): (r: seq<Text>)
    ensures |r| >= 1
    ensures forall k :: 0 <= k < |r| ==> c !in r[k]
    decreases |s|
  {
    match IndexOf(s, c)
    case None => [s]
    case Some(i) => [s[..i]] + Split(s[i + 1..], c)
  }

  /** Splitting and re-joining on the same separator gives back the input. */
  lemma {:induction false} JoinSplit(s: Text, c: byte)
    ensures Join(Split(s, c), [c]) == s
    decreases |s|
  {
    match IndexOf(s, c)
    case None =>
    case Some(i) =>
      JoinSplit(s[i + 1..], c);
      var rest := Split(s[i + 1..], c);
      assert Split(s, c) == [s[..i]] + rest;
      assert Split(s, c)[1..] == rest;
      assert s == s[..i] + [c] + s[i + 1..];
  }

  /**
   Joining pieces that do not contain the separator and splitting again
   gives back the pieces, provided there is at least one piece.
   */
  lemma {:induction false} SplitJoin(parts: seq<Text>, c: byte)
    requires |parts| >= 1
    requires forall k :: 0 <= k < |parts| ==> c !in parts[k]
    ensures Split(Join(parts, [c]), c) == parts
    decreases |parts|
  {
    if |parts| > 1 {
      var tail := Join(parts[1..], [c]);
      var s := parts[0] + [c] + tail;
      assert Join(parts, [c]) == s;
      IndexOfAfter(parts[0], c, tail);
      assert s[..|parts[0]|] == parts[0];
      assert s[|parts[0]| + 1..] == tail;
      SplitJoin(parts[1..], c);
      assert parts == [parts[0]] + parts[1..];
    } else {
      assert IndexOf(parts[0], c).None?;
    }
  }

  /** Number of occurrences of `c` in `s`. */
  function Count(s: seq<byte>, c: byte): nat
  {
    if s == [] then 0 else (if s[0] == c then 1 else 0) + Count(s[1..], c)
  }

  lemma {:induction false} CountAppend(a: seq<byte>, b: seq<byte>, c: byte)
    ensures Count(a + b, c) == Count(a, c) + Count(b, c)
    decreases |a|
  {
    if a == [] {
      assert a + b == b;
    } else {
      assert (a + b)[1..] == a[1..] + b;
      CountAppend(a[1..], b, c);
    }
  }

  lemma {:induction false} CountAbsent(s: seq<byte>, c: byte)
    requires c !in s
    ensures Count(s, c) == 0
    decreases |s|
  {
    if s != [] {
      CountAbsent(s[1..], c);
    }
  }

  /** `split` yields one more piece than there are separators. */
  lemma {:induction false} SplitCount(s: Text, c: byte)
    ensures |Split(s, c)| == Count(s, c) + 1
    decreases |s|
  {
    match IndexOf(s, c)
    case None =>
      CountAbsent(s, c);
    case Some(i) =>
      SplitCount(s[i + 1..], c);
      assert s == s[..i] + [c] + s[i + 1..];
      CountAppend(s[..i] + [c], s[i + 1..], c);
      CountAppend(s[..i], [c], c);
      CountAbsent(s[..i], c);
  }
}
