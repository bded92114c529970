/** Decimal text: numbers of fixed width, as in dates, and of natural width, as in ids. */
module Decimal {
  predicate IsDigit(c: char) {
    '0' <= c <= '9'
  }

  function DigitChar(n: nat): (c: char)
    requires n < 10
    ensures IsDigit(c) && c as int - '0' as int == n
  {
    ('0' as int + n) as char
  }

  /** The low `width` decimal digits of `n`, with leading zeros. */
  function Padded(n: nat, width: nat): (s: string)
    ensures |s| == width && forall i :: 0 <= i < width ==> IsDigit(s[i])
  {
    if width == 0 then "" else Padded(n / 10, width - 1) + [DigitChar(n % 10)]
  }

  /** The number a digit string denotes; characters that are not digits count as zero. */
  function ParseInt(s: string): nat {
    if s == "" then 0
    else
      var c := s[|s| - 1];
      10 * ParseInt(s[..|s| - 1]) + (if IsDigit(c) then c as int - '0' as int else 0)
  }

  function Pow10(k: nat): nat {
    if k == 0 then 1 else 10 * Pow10(k - 1)
  }

  lemma {:induction false} PaddedRoundTrip(n: nat, width: nat)
    requires n < Pow10(width)
    ensures ParseInt(Padded(n, width)) == n
  {
    if width > 0 {
      PaddedRoundTrip(n / 10, width - 1);
      var s := Padded(n, width);
      assert s[..|s| - 1] == Padded(n / 10, width - 1);
    }
  }

  /** How JavaScript prints a non-negative integer. */
  function ToText(n: nat): (s: string)
    ensures |s| > 0
  {
    if n < 10 then [DigitChar(n)] else ToText(n / 10) + [DigitChar(n % 10)]
  }

  lemma {:induction false} ToTextRoundTrip(n: nat)
    ensures ParseInt(ToText(n)) == n
  {
    var s := ToText(n);
    if n >= 10 {
      ToTextRoundTrip(n / 10);
      assert s[..|s| - 1] == ToText(n / 10);
    } else {
      assert s[..|s| - 1] == "";
    }
  }

  /** Different ids print differently. */
  lemma ToTextInjective(m: nat, n: nat)
    ensures ToText(m) == ToText(n) <==> m == n
  {
    ToTextRoundTrip(m);
    ToTextRoundTrip(n);
  }
}
