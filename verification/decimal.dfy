/**
 Decimal integer text as Rust's `str::parse` reads it and as the BEP 3
 encoding writes it. Parsing accepts one optional sign (`+` for `u32`, `+`
 or `-` for `i64`), at least one digit, leading zeros, and rejects any
 value outside the target type's range.
 */
module Decimal {

  import opened Base
  import opened Bytes

  const ZERO: byte := 48
  const PLUS: byte := 43
  const MINUS: byte := 45

  /** 2^32: the first length a `u32` cannot hold. */
  const U32_LIMIT: int := 0x1_0000_0000
  const I64_MIN: int := -0x8000_0000_0000_0000
  const I64_MAX: int := 0x7FFF_FFFF_FFFF_FFFF

  predicate IsDigit(b: byte) {
    48 <= b <= 57
  }

  predicate AllDigits(s: seq<byte>) {
    forall i :: 0 <= i < |s| ==> IsDigit(s[i])
  }

  predicate InI64(n: int) {
    I64_MIN <= n <= I64_MAX
  }

  /** The value of a run of ASCII digits, most significant first. */
  function DigitsValue(s: seq<byte>): nat
    requires AllDigits(s)
  {
    if s == [] then 0 else DigitsValue(s[..|s| - 1]) * 10 + (s[|s| - 1] - ZERO)
  }

  /** `s.parse::<u32>()`. */
  function ParseU32(s: Text): (r: Option<nat>)
    ensures r.Some? ==> r.value < U32_LIMIT
  {
    var digits := if |s| > 0 && s[0] == PLUS then s[1..] else s;
    if |digits| == 0 || !AllDigits(digits) then None
    else if DigitsValue(digits) >= U32_LIMIT then None
    else Some(DigitsValue(digits))
  }

  /** `s.parse::<i64>()`. */
  function ParseI64(s: Text): (r: Option<int>)
    ensures r.Some? ==> InI64(r.value)
  {
    if |s| == 0 then None
    else
      var digits := if s[0] == PLUS || s[0] == MINUS then s[1..] else s;
      if |digits| == 0 || !AllDigits(digits) then None
      else
        var v: int := if s[0] == MINUS then -(DigitsValue(digits) as int) else DigitsValue(digits);
        if InI64(v) then Some(v) else None
  }

  /** Shortest decimal digits of `n` (no sign, no leading zero). */
  function NatText(n: nat): (r: Text)
    ensures |r| >= 1 && AllDigits(r)
  {
    if n < 10 then [ZERO + n] else NatText(n / 10) + [ZERO + n % 10]
  }

  /** Decimal text of `n` with a `-` for negatives, as BEP 3 writes integers. */
  function IntText(n: int): (r: Text)
    ensures forall i :: 0 <= i < |r| ==> IsDigit(r[i]) || r[i] == MINUS
  {
    if n < 0 then [MINUS] + NatText(-n) else NatText(n)
  }

  lemma {:induction false} NatTextValue(n: nat)
    ensures DigitsValue(NatText(n)) == n
  {
    if n >= 10 {
      var t := NatText(n / 10) + [ZERO + n % 10];
      assert t[..|t| - 1] == NatText(n / 10);
      NatTextValue(n / 10);
    }
  }

  /** Reading back the decimal text of any `u32` gives the number. */
  lemma NatTextParsesAsU32(n: nat)
    requires n < U32_LIMIT
    ensures ParseU32(NatText(n)) == Some(n)
  {
    NatTextValue(n);
  }

  /** Reading back the decimal text of any `i64` gives the number. */
  lemma IntTextParsesAsI64(n: int)
    requires InI64(n)
    ensures ParseI64(IntText(n)) == Some(n)
  {
    if n < 0 {
      NatTextValue(-n);
      assert IntText(n)[1..] == NatText(-n);
    } else {
      NatTextValue(n);
    }
  }

  /** Leading zeros are accepted. */
  lemma LeadingZerosAccepted()
    ensures ParseU32([48, 48, 55]) == Some(7) // "007"
    ensures ParseI64([45, 48, 52, 50]) == Some(-42) // "-042"
  {
    var s: Text := [48, 48, 55];
    var zero: Text := [48];
    var zeros: Text := [48, 48];
    assert zero[..0] == [] && zeros[..1] == zero && s[..2] == zeros;
    assert DigitsValue(zero) == 0;
    assert DigitsValue(zeros) == 0;
    assert DigitsValue(s) == 7;
    var t: Text := [45, 48, 52, 50];
    var digits: Text := [48, 52, 50];
    assert t[1..] == digits;
    var four: Text := [48, 52];
    assert zero[..0] == [] && four[..1] == zero && digits[..2] == four;
    assert DigitsValue(four) == 4;
    assert DigitsValue(digits) == 42;
  }

  /** One `+` sign is allowed; a sign alone is not a number. */
  lemma SignHandling()
    ensures ParseU32([43, 55]) == Some(7) // "+7"
    ensures ParseI64([43, 55]) == Some(7) // "+7"
    ensures ParseI64([45]) == None // "-"
    ensures ParseU32([45, 55]) == None // "-7"
  {
    var s: Text := [43, 55];
    assert s[1..] == [55];
    var seven: Text := [55];
    assert seven[..0] == [];
    assert DigitsValue(seven) == 7;
    var minus: Text := [45, 55];
    assert !IsDigit(minus[0]);
  }
}
