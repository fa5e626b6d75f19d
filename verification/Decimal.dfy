/** Decimal numerals. */
module Decimal {
  predicate IsDigit(c: char) {
    '0' <= c <= '9'
  }

  predicate AllDigits(s: string) {
    forall i :: 0 <= i < |s| ==> IsDigit(s[i])
  }

  function DigitValue(c: char): (d: nat)
    requires IsDigit(c)
    ensures d <= 9 && '0' as int + d == c as int
  {
    (c as int - '0' as int) as nat
  }

  function DigitChar(d: nat): (c: char)
    requires d <= 9
    ensures IsDigit(c) && DigitValue(c) == d
  {
    '0' + d as char
  }

  /** What a string of digits denotes, reading from the left. */
  function Number(s: string): nat
    requires AllDigits(s)
  {
    if s == [] then 0 else Number(s[..|s| - 1]) * 10 + DigitValue(s[|s| - 1])
  }

  /** The numeral of n, without leading zeros. */
  function Digits(n: nat): (s: string)
    ensures s != [] && AllDigits(s) && Number(s) == n
  {
    var last := [DigitChar(n % 10)];
    if n < 10 then
      assert last[..0] == [];
      last
    else
      var s := Digits(n / 10) + last;
      assert s[..|s| - 1] == Digits(n / 10);
      s
  }

  function Pow10(k: nat): nat {
    if k == 0 then 1 else 10 * Pow10(k - 1)
  }

  /** A number below 10^k has at most k digits. */
  lemma {:induction false} DigitCount(n: nat, k: nat)
    requires 0 < k && n < Pow10(k)
    ensures |Digits(n)| <= k
  {
    assert Pow10(1) == 10 * Pow10(0);
    if n >= 10 {
      DigitCount(n / 10, k - 1);
    }
  }

  /** The leading digits of s. */
  function DigitPrefix(s: string): (r: string)
    ensures AllDigits(r)
  {
    if s == "" || !IsDigit(s[0]) then "" else [s[0]] + DigitPrefix(s[1..])
  }

  lemma {:induction false} PrefixIsNoLarger(s: string, k: nat)
    requires AllDigits(s) && k <= |s|
    ensures Number(s[..k]) <= Number(s)
  {
    if k < |s| {
      assert s[..|s| - 1][..k] == s[..k];
      PrefixIsNoLarger(s[..|s| - 1], k);
    } else {
      assert s[..k] == s;
    }
  }

  lemma {:induction false} DigitPrefixCovers(s: string, k: nat)
    requires k <= |s| && AllDigits(s[..k])
    ensures k <= |DigitPrefix(s)| && DigitPrefix(s)[..k] == s[..k]
  {
    if k > 0 {
      assert s[0] == s[..k][0];
      assert s[1..][..k - 1] == s[..k][1..];
      DigitPrefixCovers(s[1..], k - 1);
    }
  }

  /** Digits read so far never exceed the number all leading digits denote. */
  lemma PartialNumber(s: string, k: nat)
    requires k <= |s| && AllDigits(s[..k])
    ensures Number(s[..k]) <= Number(DigitPrefix(s))
  {
    DigitPrefixCovers(s, k);
    PrefixIsNoLarger(DigitPrefix(s), k);
  }

  /** v is the number the first k characters of s denote. */
  predicate IsNumber(s: string, k: int, v: int) {
    0 <= k <= |s| && AllDigits(s[..k]) && v == Number(s[..k])
  }

  /** Horner's step, which stays within what all the leading digits denote. */
  lemma OneMoreDigit(s: string, k: int, v: int)
    requires IsNumber(s, k, v) && k < |s| && IsDigit(s[k])
    ensures IsNumber(s, k + 1, v * 10 + DigitValue(s[k])) && v * 10 + DigitValue(s[k]) <= Number(DigitPrefix(s))
  {
    hide Number, DigitPrefix, DigitValue, IsDigit, AllDigits;
    assert s[..k + 1] == s[..k] + [s[k]];
    Horner(s[..k], s[k]);
    PartialNumber(s, k + 1);
  }

  lemma Horner(s: string, c: char)
    requires AllDigits(s) && IsDigit(c)
    ensures AllDigits(s + [c]) && Number(s + [c]) == Number(s) * 10 + DigitValue(c)
  {
    assert (s + [c])[..|s|] == s;
  }

  /** Every digit counts for its power of ten. */
  lemma {:induction false} PlaceValue(s: string)
    requires AllDigits(s)
    ensures s == "" ==> Number(s) == 0
    ensures s != "" ==> Number(s) == DigitValue(s[0]) * Pow10(|s| - 1) + Number(s[1..])
  {
    if |s| > 1 {
      var last := |s| - 1;
      PlaceValue(s[..last]);
      assert s[1..][..last - 1] == s[..last][1..];
      assert 10 * (DigitValue(s[0]) * Pow10(last - 1)) == DigitValue(s[0]) * Pow10(last);
    }
  }
}
