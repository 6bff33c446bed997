/**
  The per-word counter: a non-negative count that starts at 0, only ever
  goes up by one, and prints itself as a plain decimal integer.
*/
module Counter {

  predicate IsDigit(c: char) {
    '0' <= c <= '9'
  }

  predicate AllDigits(s: string) {
    forall i :: 0 <= i < |s| ==> IsDigit(s[i])
  }

  function DigitChar(d: nat): (c: char)
    requires d < 10
    ensures IsDigit(c)
  {
    ('0' as int + d) as char
  }

  function DigitValue(c: char): (d: nat)
    requires IsDigit(c)
    ensures d < 10 && DigitChar(d) == c
  {
    c as int - '0' as int
  }

  /**
    The decimal form of `n`, as `$"{n}"` renders an integer: at least one
    digit, only digits, and no leading zero unless the number is zero.
  */
  function Decimal(n: nat): (s: string)
    ensures |s| >= 1 && AllDigits(s)
    ensures s[0] == '0' ==> n == 0 && s == "0"
  {
    if n < 10 then [DigitChar(n)] else Decimal(n / 10) + [DigitChar(n % 10)]
  }

  /** The value of a string of decimal digits. */
  function ParseDecimal(s: string): nat
    requires AllDigits(s)
  {
    if s == [] then 0 else 10 * ParseDecimal(s[..|s| - 1]) + DigitValue(s[|s| - 1])
  }

  /** Reading back the decimal form of a count gives the count. */
  lemma {:induction false} DecimalRoundTrip(n: nat)
    ensures ParseDecimal(Decimal(n)) == n
  {
    var s := Decimal(n);
    if n >= 10 {
      DecimalRoundTrip(n / 10);
      assert s[..|s| - 1] == Decimal(n / 10);
    } else {
      assert s[..0] == [];
    }
  }

  /** Two counts render alike exactly when they are equal. */
  lemma DecimalInjective(m: nat, n: nat)
    ensures Decimal(m) == Decimal(n) <==> m == n
  {
    if Decimal(m) == Decimal(n) {
      DecimalRoundTrip(m);
      DecimalRoundTrip(n);
    }
  }

  /** `Count`: the counter object each dictionary entry refers to. */
  class Count {
    var count: nat

    /** A fresh counter holds 0 and renders as "0". */
    constructor ()
      ensures count == 0 && ToString() == "0"
    {
      count := 0;
    }

    /** Adds exactly one; nothing else changes, so the count never decreases. */
    method Increment()
      modifies this
      ensures count == old(count) + 1
    {
      count := count + 1;
    }

    /** The current count as a plain decimal integer, with no other text. */
    function ToString(): (s: string)
      reads this
      ensures |s| >= 1 && AllDigits(s) && ParseDecimal(s) == count
      ensures s[0] == '0' ==> count == 0 && s == "0"
    {
      DecimalRoundTrip(count);
      Decimal(count)
    }
  }

  /** A counter incremented `n` times from fresh renders as the decimal form of `n`. */
  method RenderAfterIncrements(n: nat) returns (s: string)
    ensures AllDigits(s) && ParseDecimal(s) == n
    ensures s == Decimal(n)
  {
    var c := new Count();
    var i := 0;
    while i < n
      invariant 0 <= i <= n && c.count == i
    {
      c.Increment();
      i := i + 1;
    }
    s := c.ToString();
  }
}
