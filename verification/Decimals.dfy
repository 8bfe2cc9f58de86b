/** `strconv.FormatUint` and `strconv.ParseUint`, base 10, 64 bits. */
module Decimals {
  import opened Common

  function Digit(d: nat): char
    requires d < 10
  {
    '0' + d as char
  }

  predicate IsDigit(c: char) { '0' <= c <= '9' }

  function DigitValue(c: char): (d: nat)
    requires IsDigit(c)
    ensures d < 10
  {
    c as int - '0' as int
  }

  function Format(n: nat): (s: string)
    ensures |s| > 0 && forall i :: 0 <= i < |s| ==> IsDigit(s[i])
  {
    if n < 10 then [Digit(n)] else Format(n / 10) + [Digit(n % 10)]
  }

  /** What `big.Int.SetString` accepts in base 10: an optional sign and at least one digit. */
  predicate IsInteger(s: string) {
    AreDigits(if s != "" && (s[0] == '-' || s[0] == '+') then s[1..] else s)
  }

  predicate AreDigits(s: string) { s != "" && forall i :: 0 <= i < |s| ==> IsDigit(s[i]) }

  /** A range error is reported at the digit that overflows, before the rest is looked at. */
  datatype Parse = Parsed(value: nat) | SyntaxError | RangeError

  function ParseDigits(s: string, acc: nat): Parse
    decreases |s|
  {
    if s == "" then Parsed(acc)
    else if !IsDigit(s[0]) then SyntaxError
    else if acc * 10 + DigitValue(s[0]) >= TWO_TO_64 then RangeError
    else ParseDigits(s[1..], acc * 10 + DigitValue(s[0]))
  }

  function ParseUint(s: string): (p: Parse) {
    if s == "" then SyntaxError else ParseDigits(s, 0)
  }

  lemma {:induction false} ParsedBound(s: string, acc: nat)
    requires acc < TWO_TO_64
    ensures ParseDigits(s, acc).Parsed? ==> ParseDigits(s, acc).value < TWO_TO_64
    decreases |s|
  {
    if s != "" && IsDigit(s[0]) && acc * 10 + DigitValue(s[0]) < TWO_TO_64 {
      ParsedBound(s[1..], acc * 10 + DigitValue(s[0]));
    }
  }

  lemma {:induction false} ParseSnoc(s: string, c: char, acc: nat)
    requires IsDigit(c) && ParseDigits(s, acc).Parsed?
    requires ParseDigits(s, acc).value * 10 + DigitValue(c) < TWO_TO_64
    ensures ParseDigits(s + [c], acc) == Parsed(ParseDigits(s, acc).value * 10 + DigitValue(c))
    decreases |s|
  {
    if s == "" {
      assert (s + [c])[1..] == "";
    } else {
      assert (s + [c])[1..] == s[1..] + [c];
      ParseSnoc(s[1..], c, acc * 10 + DigitValue(s[0]));
    }
  }

  /** Every 64-bit number is read back from its own digits. */
  lemma {:induction false} ParseInvertsFormat(n: nat)
    requires n < TWO_TO_64
    ensures ParseUint(Format(n)) == Parsed(n)
  {
    if n < 10 {
      var s := Format(n);
      assert s[1..] == "" && DigitValue(s[0]) == n;
      assert ParseDigits(s, 0) == ParseDigits("", n);
    } else {
      ParseInvertsFormat(n / 10);
      ParseSnoc(Format(n / 10), Digit(n % 10), 0);
    }
  }

  /** Different numbers are written differently. */
  lemma {:induction false} FormatInjective(m: nat, n: nat)
    requires Format(m) == Format(n)
    ensures m == n
  {
    if m >= 10 && n >= 10 {
      assert Format(m)[..|Format(m)| - 1] == Format(m / 10);
      assert Format(n)[..|Format(n)| - 1] == Format(n / 10);
      FormatInjective(m / 10, n / 10);
    }
  }
}
