/** Decimal formatting of unsigned integers, as Go's `fmt.Sprintf("%d", n)` does it. */
module Decimal {

  predicate IsDigit(c: char) {
    '0' <= c <= '9'
  }

  /** The character for one decimal digit. */
  function Digit(d: nat): (c: char)
    requires d < 10
    ensures IsDigit(c)
  {
    ('0' as int + d) as char
  }

  /** The decimal numeral for `n`: no sign, no leading zeros, "0" for zero. */
  function Format(n: nat): (s: string)
    ensures |s| > 0
    ensures forall k :: 0 <= k < |s| ==> IsDigit(s[k])
    ensures |s| == 1 <==> n < 10
    ensures s[0] == '0' ==> n == 0
  {
    if n < 10 then [Digit(n)] else Format(n / 10) + [Digit(n % 10)]
  }

  /** Distinct numbers have distinct numerals. */
  lemma {:induction false} FormatInjective(a: nat, b: nat)
    requires Format(a) == Format(b)
    ensures a == b
  {
    if a >= 10 && b >= 10 {
      var sa, sb := Format(a), Format(b);
      assert sa[|sa| - 1] == Digit(a % 10) && sb[|sb| - 1] == Digit(b % 10);
      assert sa[..|sa| - 1] == Format(a / 10);
      assert sb[..|sb| - 1] == Format(b / 10);
      FormatInjective(a / 10, b / 10);
    } else if a < 10 && b < 10 {
      assert Format(a)[0] == Digit(a) && Format(b)[0] == Digit(b);
    }
  }

}
