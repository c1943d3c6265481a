/** Review identifiers on their way through the page: a server number is
    written into the `data-id` attribute of a history entry with a template
    literal, read back as a string and turned into a number with `parseInt`
    before it is compared with the id of the review on display. */
module Ids {
  import opened Wrappers

  predicate IsDigit(c: char) {
    '0' <= c <= '9'
  }

  predicate AllDigits(s: string) {
    forall i :: 0 <= i < |s| ==> IsDigit(s[i])
  }

  function DigitValue(c: char): nat
    requires IsDigit(c)
  {
    c as int - '0' as int
  }

  function DigitChar(d: nat): (c: char)
    requires d < 10
    ensures IsDigit(c) && DigitValue(c) == d
  {
    ('0' as int + d) as char
  }

  /** The canonical decimal numeral of n: digits only, never empty, and a
      leading zero only for zero itself. */
  function NatToDecimal(n: nat): (s: string)
    ensures |s| > 0 && AllDigits(s)
    ensures s[0] == '0' <==> n == 0
    ensures s[0] == '0' ==> |s| == 1
  {
    if n < 10 then [DigitChar(n)] else NatToDecimal(n / 10) + [DigitChar(n % 10)]
  }

  /** `${n}` for an integer-valued JavaScript number n (magnitudes below 10^21). */
  function IntToString(n: int): string {
    if n < 0 then "-" + NatToDecimal(-n) else NatToDecimal(n)
  }

  /** The value of a string of decimal digits, most significant first. */
  function DigitsValue(ds: string): nat
    requires AllDigits(ds)
  {
    if ds == [] then 0 else 10 * DigitsValue(ds[..|ds| - 1]) + DigitValue(ds[|ds| - 1])
  }

  /** The longest prefix of s made of decimal digits: where parseInt stops. */
  function LeadingDigits(s: string): (ds: string)
    ensures ds <= s && AllDigits(ds)
    ensures |ds| < |s| ==> !IsDigit(s[|ds|])
  {
    if s == [] || !IsDigit(s[0]) then [] else [s[0]] + LeadingDigits(s[1..])
  }

  /** `parseInt(s)` with the default radix: an optional sign, then as many
      decimal digits as there are; no digit at all gives NaN, here None. */
  function ParseInt(s: string): Option<int> {
    var negative := |s| > 0 && s[0] == '-';
    var unsigned := if |s| > 0 && (s[0] == '-' || s[0] == '+') then s[1..] else s;
    var ds := LeadingDigits(unsigned);
    var magnitude: int := DigitsValue(ds);
    if ds == [] then None else Some(if negative then -magnitude else magnitude)
  }

  /** `shown === parseInt(itemId)`: strict equality of numbers, where null
      equals no number and NaN equals nothing, not even null. */
  predicate SameReview(shown: Option<int>, itemId: string) {
    match ParseInt(itemId)
    case None => false
    case Some(k) => shown == Some(k)
  }

  lemma {:induction false} DecimalValue(n: nat)
    ensures DigitsValue(NatToDecimal(n)) == n
  {
    if n >= 10 {
      var p := NatToDecimal(n / 10);
      var s := NatToDecimal(n);
      assert s == p + [DigitChar(n % 10)];
      assert s[..|s| - 1] == p;
      DecimalValue(n / 10);
    }
  }

  /** On a string of digits only, parseInt reads the whole string. */
  lemma LeadingDigitsOfDigits(s: string)
    requires AllDigits(s)
    ensures LeadingDigits(s) == s
  {
    assert |LeadingDigits(s)| == |s|;
  }

  lemma ParseDecimal(m: nat)
    ensures ParseInt(NatToDecimal(m)) == Some(m)
  {
    var d := NatToDecimal(m);
    assert IsDigit(d[0]);
    LeadingDigitsOfDigits(d);
    DecimalValue(m);
  }

  lemma ParseNegativeDecimal(m: nat)
    ensures ParseInt("-" + NatToDecimal(m)) == Some(-(m as int))
  {
    var d := NatToDecimal(m);
    var s := "-" + d;
    assert s[0] == '-' && s[1..] == d;
    LeadingDigitsOfDigits(d);
    DecimalValue(m);
  }

  /** parseInt reads back exactly the number the template literal wrote. */
  lemma RoundTrip(n: int)
    ensures ParseInt(IntToString(n)) == Some(n)
  {
    if n < 0 {
      ParseNegativeDecimal(-n);
    } else {
      ParseDecimal(n);
    }
  }

  /** Two different ids never share a `data-id` string. */
  lemma IntToStringInjective(a: int, b: int)
    ensures IntToString(a) == IntToString(b) <==> a == b
  {
    RoundTrip(a);
    RoundTrip(b);
  }

  /** Deletion by an entry's `data-id` matches the review on display exactly
      when that review has the entry's id. */
  lemma SameReviewByDataId(shown: Option<int>, id: int)
    ensures SameReview(shown, IntToString(id)) <==> shown == Some(id)
  {
    RoundTrip(id);
  }

  /** A page with no tracked review never matches a deletion: null equals
      no number, and NaN equals nothing. */
  lemma SameReviewNeedsTrackedId(itemId: string)
    ensures !SameReview(None, itemId)
  {
  }
}
