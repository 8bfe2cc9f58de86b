/** Hexadecimal text. */
module Hex {
  import opened Common

  predicate IsHexDigit(c: char) { '0' <= c <= '9' || 'a' <= c <= 'f' || 'A' <= c <= 'F' }

  predicate AllHex(s: string) { forall i :: 0 <= i < |s| ==> IsHexDigit(s[i]) }

  function HexValue(c: char): (n: nat)
    requires IsHexDigit(c)
    ensures n < 16
  {
    if c <= '9' then c as int - '0' as int
    else if c <= 'F' then c as int - 'A' as int + 10
    else c as int - 'a' as int + 10
  }

  function HexDigit(n: nat): char
    requires n < 16
  {
    if n < 10 then '0' + n as char else 'a' + (n - 10) as char
  }

  function HexDigits(bs: Bytes): (s: string)
    ensures |s| == 2 * |bs|
  {
    if bs == [] then "" else [HexDigit(bs[0] as int / 16), HexDigit(bs[0] as int % 16)] + HexDigits(bs[1..])
  }

  function ReadHex(s: string): (bs: Bytes)
    requires AllHex(s) && |s| % 2 == 0
    ensures |bs| == |s| / 2
  {
    if s == "" then [] else [HexValue(s[0]) * 16 + HexValue(s[1])] + ReadHex(s[2..])
  }

  lemma DigitIsRead(d: nat)
    requires d < 16
    ensures IsHexDigit(HexDigit(d)) && HexValue(HexDigit(d)) == d && HexDigit(d) !in {'-', '+', 'x'}
  {
  }

  lemma DigitsOfPair(high: nat, low: nat, bs: Bytes)
    requires high < 16 && low < 16
    ensures HexDigits([high * 16 + low] + bs) == [HexDigit(high), HexDigit(low)] + HexDigits(bs)
  {
    var b: Byte := high * 16 + low;
    assert b as int / 16 == high && b as int % 16 == low;
    assert ([b] + bs)[1..] == bs;
    hide HexDigit;
  }

  lemma AllHexPair(high: char, low: char, t: string)
    requires IsHexDigit(high) && IsHexDigit(low) && AllHex(t)
    ensures AllHex([high, low] + t)
  {
    hide IsHexDigit;
  }

  lemma ReadNext(s: string, t: string)
    requires AllHex(s) && |s| >= 2 && |s| % 2 == 0 && s[2..] == t
    ensures AllHex(t) && ReadHex(s) == [HexValue(s[0]) * 16 + HexValue(s[1])] + ReadHex(t)
  {
    hide HexValue, IsHexDigit;
  }

  lemma {:induction false} ReadHexInvertsHexDigits(bs: Bytes)
    ensures AllHex(HexDigits(bs)) && ReadHex(HexDigits(bs)) == bs
  {
    hide HexValue, HexDigit, IsHexDigit, AllHex, ReadHex;
    if bs != [] {
      var later := HexDigits(bs[1..]);
      ReadHexInvertsHexDigits(bs[1..]);
      DigitIsRead(bs[0] as int / 16);
      DigitIsRead(bs[0] as int % 16);
      AllHexPair(HexDigit(bs[0] as int / 16), HexDigit(bs[0] as int % 16), later);
      assert HexDigits(bs)[2..] == later;
      ReadNext(HexDigits(bs), later);
    } else {
      NoDigits();
    }
  }

  /** The same digits, perhaps in another case. */
  predicate SameDigits(s: string, t: string) {
    AllHex(s) && AllHex(t) && |s| == |t| && forall i :: 0 <= i < |s| ==> HexValue(s[i]) == HexValue(t[i])
  }

  lemma {:induction false} ReadHexIgnoresCase(s: string, t: string)
    requires SameDigits(s, t) && |s| % 2 == 0
    ensures ReadHex(s) == ReadHex(t)
    decreases |s|
  {
    hide HexValue, IsHexDigit;
    if s != "" {
      ReadHexIgnoresCase(s[2..], t[2..]);
    }
  }

  lemma HexDigitsInjective(a: Bytes, b: Bytes)
    requires HexDigits(a) == HexDigits(b)
    ensures a == b
  {
    ReadHexInvertsHexDigits(a);
    ReadHexInvertsHexDigits(b);
  }

  /** The same first two digits and the same digits after them. */
  lemma SameDigitsCons(s: string, high: char, low: char, t: string)
    requires |s| >= 2 && SameDigits(s[2..], t) && IsHexDigit(high) && IsHexDigit(low)
    requires IsHexDigit(s[0]) && IsHexDigit(s[1]) && HexValue(s[0]) == HexValue(high) && HexValue(s[1]) == HexValue(low)
    ensures SameDigits(s, [high, low] + t)
  {
    hide HexValue, IsHexDigit;
    assert forall i :: 2 <= i < |s| ==> s[i] == s[2..][i - 2];
  }

  /** Digits that read as these bytes are their digits, perhaps in another case. */
  lemma {:induction false} DigitsOfRead(s: string)
    requires AllHex(s) && |s| % 2 == 0
    ensures SameDigits(s, HexDigits(ReadHex(s)))
    decreases |s|
  {
    hide HexValue, HexDigit, IsHexDigit, HexDigits, SameDigits;
    if s != "" {
      DigitsOfRead(s[2..]);
      var high, low := HexValue(s[0]), HexValue(s[1]);
      DigitsOfPair(high, low, ReadHex(s[2..]));
      DigitIsRead(high);
      DigitIsRead(low);
      SameDigitsCons(s, HexDigit(high), HexDigit(low), HexDigits(ReadHex(s[2..])));
    } else {
      NoDigits();
    }
  }

  lemma NoDigits()
    ensures SameDigits("", HexDigits([])) && ReadHex("") == []
  {
  }
}
