/**
 * Path-parameter parsing: `parseId` reads the `id` segment with Kotlin's
 * `String.toIntOrNull()` in base 10, which accepts an optional `+` or `-`
 * followed by at least one decimal digit, and yields null when the text is
 * not of that form or its value lies outside the 32-bit `Int` range.
 */
module Params {
  import opened Wrappers

  const IntMin: int := -0x8000_0000
  const IntMax: int := 0x7fff_ffff

  predicate IsDigit(c: char) { '0' <= c <= '9' }

  predicate AllDigits(s: string) {
    forall i :: 0 <= i < |s| ==> IsDigit(s[i])
  }

  /** The value of a string of decimal digits, most significant first. */
  function DigitsValue(s: string): nat
    requires AllDigits(s)
  {
    if |s| == 0 then 0
    else DigitsValue(s[..|s| - 1]) * 10 + (s[|s| - 1] as int - '0' as int)
  }

  /** The text after an optional leading sign, and whether the sign was `-`. */
  function SplitSign(s: string): (string, bool)
    requires |s| > 0
  {
    if s[0] == '-' then (s[1..], true)
    else if s[0] == '+' then (s[1..], false)
    else (s, false)
  }

  /** `String.toIntOrNull()` in base 10. */
  function ToIntOrNull(s: string): (r: Option<int>)
    ensures r.Some? ==> IntMin <= r.value <= IntMax
    ensures r.Some? ==> |s| > 0 && |SplitSign(s).0| > 0 && AllDigits(SplitSign(s).0)
    ensures |s| == 0 || s == "-" || s == "+" ==> r.None?
    ensures |s| > 0 && !IsDigit(s[0]) && s[0] != '-' && s[0] != '+' ==> r.None?
  {
    if |s| == 0 then None
    else
      var (digits, negative) := SplitSign(s);
      if |digits| == 0 || !AllDigits(digits) then None
      else
        var magnitude: int := DigitsValue(digits);
        var v := if negative then -magnitude else magnitude;
        if IntMin <= v <= IntMax then Some(v) else None
  }

  /** `parseId()`: a missing parameter and an unparseable one both give null. */
  function ParseId(param: Option<string>): (r: Option<int>)
    ensures param.None? ==> r.None?
    ensures r.Some? ==> IntMin <= r.value <= IntMax
  {
    match param
    case None => None
    case Some(s) => ToIntOrNull(s)
  }

  /** The decimal digits of `n`, most significant first, as `Int.toString()` writes them. */
  function Digits(n: nat): (s: string)
    ensures |s| > 0 && AllDigits(s)
  {
    if n < 10 then ['0' + n as char]
    else Digits(n / 10) + ['0' + (n % 10) as char]
  }

  /** `Int.toString()`. */
  function Show(n: int): string {
    if n < 0 then "-" + Digits(-n) else Digits(n)
  }

  lemma {:induction false} DigitsRoundTrip(n: nat)
    ensures DigitsValue(Digits(n)) == n
  {
    if n >= 10 {
      var s := Digits(n);
      assert s[..|s| - 1] == Digits(n / 10);
      DigitsRoundTrip(n / 10);
    }
  }

  /**
   * The decimal rendering of `n` parses back exactly when `n` fits in an
   * `Int`, and then to `n` itself: a well-formed id outside the 32-bit range
   * is null, like a malformed one.
   */
  lemma ShowParseRoundTrip(n: int)
    ensures ToIntOrNull(Show(n)) == (if IntMin <= n <= IntMax then Some(n) else None)
    ensures ParseId(Some(Show(n))) == ToIntOrNull(Show(n))
  {
    if n < 0 {
      assert SplitSign(Show(n)).0 == Digits(-n);
      DigitsRoundTrip(-n);
    } else {
      var s := Digits(n);
      assert IsDigit(s[0]);
      DigitsRoundTrip(n);
    }
  }
}
