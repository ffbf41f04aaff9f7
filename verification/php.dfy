/** The handful of PHP string semantics the application code relies on:
    truthiness, `strtolower`, `str_contains`, `trim`-blankness and the
    conversion between integers and their decimal text. */
module Php {
  import opened Optional

  /** A PHP string is falsy exactly when it is "" or "0". */
  predicate Truthy(s: string) {
    s != "" && s != "0"
  }

  /** Truthiness by length: every string of two or more characters is
      truthy, even "00" or " "; a one-character string is truthy unless it
      is the digit zero. */
  lemma TruthyByLength(s: string)
    ensures |s| >= 2 ==> Truthy(s)
    ensures |s| == 1 ==> (Truthy(s) <==> s[0] != '0')
    ensures |s| == 0 ==> !Truthy(s)
  {
    if |s| == 1 && s[0] != '0' {
      assert s != "0";
    }
  }

  /** Truthiness of a possibly-null string: null is falsy. */
  predicate TruthyOpt(o: Option<string>) {
    o.Some? && Truthy(o.value)
  }

  /** `strtolower` on one character: ASCII-only, as in PHP 8.2 and later. */
  function LowerChar(c: char): char {
    if 'A' <= c <= 'Z' then (c as int + 32) as char else c
  }

  /** `strtolower`. */
  function Lower(s: string): (r: string)
    ensures |r| == |s|
    ensures forall i :: 0 <= i < |r| ==> !('A' <= r[i] <= 'Z')
    ensures forall i :: 0 <= i < |r| ==>
      if 'A' <= s[i] <= 'Z' then r[i] as int == s[i] as int + 32 else r[i] == s[i]
  {
    if s == [] then [] else [LowerChar(s[0])] + Lower(s[1..])
  }

  /** `strtolower` is idempotent: lowering twice equals lowering once. */
  lemma {:induction false} LowerIdempotent(s: string)
    ensures Lower(Lower(s)) == Lower(s)
  {
    if s != [] {
      LowerIdempotent(s[1..]);
      assert Lower(s)[1..] == Lower(s[1..]);
    }
  }

  predicate StartsWith(h: string, n: string) {
    |n| <= |h| && h[..|n|] == n
  }

  /** `str_contains($h, $n)`: a left-to-right scan for `n` inside `h`. */
  function Contains(h: string, n: string): (b: bool)
    ensures StartsWith(h, n) ==> b
    ensures b ==> |n| <= |h|
    decreases |h|
  {
    StartsWith(h, n) || (|h| > 0 && Contains(h[1..], n))
  }

  /** A reference definition of `str_contains`: `n` occurs as a contiguous slice of `h`. */
  ghost predicate Occurs(n: string, h: string) {
    exists i, j :: 0 <= i <= j <= |h| && h[i..j] == n
  }

  /** A match the scan finds is an occurrence. */
  lemma {:induction false} ContainsOccurs(h: string, n: string)
    requires Contains(h, n)
    ensures Occurs(n, h)
    decreases |h|
  {
    if StartsWith(h, n) {
      assert h[0..|n|] == n;
    } else {
      ContainsOccurs(h[1..], n);
      var i, j :| 0 <= i <= j <= |h[1..]| && h[1..][i..j] == n;
      assert h[i + 1..j + 1] == h[1..][i..j];
    }
  }

  /** The scan finds the occurrence at `h[i..j]`. */
  lemma {:induction false} OccurrenceContained(h: string, n: string, i: nat, j: nat)
    requires i <= j <= |h| && h[i..j] == n
    ensures Contains(h, n)
    decreases i
  {
    if i == 0 {
      assert h[..|n|] == n;
    } else {
      assert h[1..][i - 1..j - 1] == n;
      OccurrenceContained(h[1..], n, i - 1, j - 1);
    }
  }

  /** The scanning `Contains` decides exactly `Occurs`. */
  lemma ContainsIffOccurs(h: string, n: string)
    ensures Contains(h, n) <==> Occurs(n, h)
  {
    if Contains(h, n) {
      ContainsOccurs(h, n);
    }
    if Occurs(n, h) {
      var i, j :| 0 <= i <= j <= |h| && h[i..j] == n;
      OccurrenceContained(h, n, i, j);
    }
  }

  /** The characters `trim` removes by default. */
  predicate TrimChar(c: char) {
    c == ' ' || c == '\t' || c == '\n' || c == '\r' || c == '\0' || c == '\U{B}'
  }

  /** `trim($s) === ''`. */
  predicate Blank(s: string) {
    forall i :: 0 <= i < |s| ==> TrimChar(s[i])
  }

  function DigitChar(d: int): char
    requires 0 <= d < 10
  {
    "0123456789"[d]
  }

  predicate IsDigit(c: char) {
    '0' <= c <= '9'
  }

  function DigitValue(c: char): int
    requires IsDigit(c)
  {
    c as int - '0' as int
  }

  /** Decimal text of a natural number, without leading zeros. */
  function NatToString(n: nat): (s: string)
    ensures |s| > 0
    ensures forall i :: 0 <= i < |s| ==> IsDigit(s[i])
    ensures s[0] == '0' ==> n == 0
  {
    if n < 10 then [DigitChar(n)] else NatToString(n / 10) + [DigitChar(n % 10)]
  }

  /** PHP's `(string)` cast of an integer. */
  function IntToString(n: int): string {
    if n < 0 then "-" + NatToString(-n) else NatToString(n)
  }

  /** The value of a non-empty run of decimal digits. */
  function DigitsValue(s: string): nat
    requires |s| > 0 && forall i :: 0 <= i < |s| ==> IsDigit(s[i])
  {
    if |s| == 1 then DigitValue(s[0])
    else DigitsValue(s[..|s| - 1]) * 10 + DigitValue(s[|s| - 1])
  }

  /** Digits without a superfluous leading zero. */
  predicate CanonicalDigits(s: string) {
    && |s| > 0
    && (forall i :: 0 <= i < |s| ==> IsDigit(s[i]))
    && (s[0] == '0' ==> |s| == 1)
  }

  /** The integers accepted by `filter_var($v, FILTER_VALIDATE_INT)` on a
      string with no surrounding whitespace: an optional sign followed by
      canonical digits. */
  function ParseInt(s: string): (r: Option<int>)
    ensures r.Some? ==> |s| > 0
  {
    if |s| > 0 && s[0] == '-' && CanonicalDigits(s[1..]) then Some(-(DigitsValue(s[1..]) as int))
    else if |s| > 0 && s[0] == '+' && CanonicalDigits(s[1..]) then Some(DigitsValue(s[1..]))
    else if CanonicalDigits(s) then Some(DigitsValue(s))
    else None
  }

  lemma {:induction false} DigitsOfNat(n: nat)
    ensures CanonicalDigits(NatToString(n))
    ensures DigitsValue(NatToString(n)) == n
  {
    var s := NatToString(n);
    if n >= 10 {
      DigitsOfNat(n / 10);
      assert s[..|s| - 1] == NatToString(n / 10);
    }
  }

  /** Reading back the decimal text of an integer yields that integer. */
  lemma IntToStringRoundTrip(n: int)
    ensures ParseInt(IntToString(n)) == Some(n)
  {
    if n < 0 {
      DigitsOfNat(-n);
      ParseNegative(NatToString(-n));
    } else {
      DigitsOfNat(n);
      ParseDigits(NatToString(n));
    }
  }

  lemma ParseNegative(t: string)
    requires CanonicalDigits(t)
    ensures ParseInt("-" + t) == Some(-(DigitsValue(t) as int))
  {
    assert ("-" + t)[0] == '-' && ("-" + t)[1..] == t;
  }

  lemma ParseDigits(t: string)
    requires CanonicalDigits(t)
    ensures ParseInt(t) == Some(DigitsValue(t))
  {
    assert IsDigit(t[0]);
  }
}
