/**
 * Calendar dates as day numbers (the value of LocalDate.toEpochDay), so that
 * "d minus n days" is d - n and "d1 is after d2" is d1 > d2.
 */
module Dates {

  type Date = int

  function Digit(n: nat): char
    requires n < 10
  {
    (48 + n) as char
  }

  /** Decimal digits of n, most significant first. */
  function NatText(n: nat): (s: string)
    ensures |s| >= 1 && (|s| == 1 <==> n < 10)
    ensures forall i :: 0 <= i < |s| ==> '0' <= s[i] <= '9'
  {
    if n < 10 then [Digit(n)] else NatText(n / 10) + [Digit(n % 10)]
  }

  /**
   * The text a date is rendered as (LocalDate.toString). The model writes the
   * signed day number in decimal; all that the service relies on is that two
   * dates have the same text only when they are the same date.
   */
  function DateText(d: Date): (s: string)
    ensures |s| >= 1 && (s[0] == '-' <==> d < 0)
  {
    if d < 0 then "-" + NatText(-d) else NatText(d)
  }

  lemma {:induction false} NatTextInjective(a: nat, b: nat)
    requires NatText(a) == NatText(b)
    ensures a == b
  {
    if a >= 10 && b >= 10 {
      var sa, sb := NatText(a), NatText(b);
      assert sa[..|sa| - 1] == NatText(a / 10);
      assert sb[..|sb| - 1] == NatText(b / 10);
      NatTextInjective(a / 10, b / 10);
      assert Digit(a % 10) == sa[|sa| - 1] == sb[|sb| - 1] == Digit(b % 10);
    } else if a < 10 && b < 10 {
      assert NatText(a)[0] == Digit(a) && NatText(b)[0] == Digit(b);
    }
  }

  lemma DateTextInjective(a: Date, b: Date)
    requires DateText(a) == DateText(b)
    ensures a == b
  {
    if a < 0 && b < 0 {
      assert DateText(a)[1..] == NatText(-a);
      assert DateText(b)[1..] == NatText(-b);
      NatTextInjective(-a, -b);
    } else if a >= 0 && b >= 0 {
      NatTextInjective(a, b);
    }
  }
}
