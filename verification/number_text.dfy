/** Decimal text of a natural number, as JavaScript renders a non-negative
    integer when it is concatenated to a string (`'choice' + 3`,
    `username + 2`). */
module NumberText {

  function DigitChar(d: nat): (c: char)
    requires d < 10
    ensures '0' <= c <= '9'
  {
    "0123456789"[d]
  }

  function DigitValue(c: char): nat
  {
    if '0' <= c <= '9' then (c as int - '0' as int) as nat else 0
  }

  /** The shortest decimal spelling of `n`: no sign, no leading zero. */
  function Decimal(n: nat): (s: string)
    ensures 1 <= |s|
    ensures n < 10 <==> |s| == 1
    ensures forall k :: 0 <= k < |s| ==> '0' <= s[k] <= '9'
    ensures s[0] == '0' <==> n == 0
  {
    if n < 10 then [DigitChar(n)] else Decimal(n / 10) + [DigitChar(n % 10)]
  }

  /** Reads back a string of decimal digits (the inverse of `Decimal`). */
  function ParseDecimal(s: string): nat
    decreases |s|
  {
    if |s| == 0 then 0
    else 10 * ParseDecimal(s[..|s| - 1]) + DigitValue(s[|s| - 1])
  }

  function Pow10(m: nat): (p: nat)
    ensures 1 <= p
  {
    if m == 0 then 1 else 10 * Pow10(m - 1)
  }

  lemma DigitRoundTrip(d: nat)
    requires d < 10
    ensures DigitValue(DigitChar(d)) == d
  {
  }

  /** Parsing the decimal text of `n` gives `n` back. */
  lemma {:induction false} ParseDecimalRoundTrip(n: nat)
    ensures ParseDecimal(Decimal(n)) == n
    decreases n
  {
    if n < 10 {
      DigitRoundTrip(n);
      assert Decimal(n)[..0] == [];
    } else {
      var s := Decimal(n);
      assert s[..|s| - 1] == Decimal(n / 10);
      ParseDecimalRoundTrip(n / 10);
      DigitRoundTrip(n % 10);
    }
  }

  /** Different numbers have different decimal texts. */
  lemma DecimalInjective(a: nat, b: nat)
    ensures Decimal(a) == Decimal(b) <==> a == b
  {
    if Decimal(a) == Decimal(b) {
      ParseDecimalRoundTrip(a);
      ParseDecimalRoundTrip(b);
    }
  }

  /** A number at least 10^m needs more than m digits. */
  lemma {:induction false} DecimalLengthBound(n: nat, m: nat)
    requires Pow10(m) <= n
    ensures m < |Decimal(n)|
    decreases m
  {
    if m > 0 {
      assert Pow10(m - 1) <= n / 10;
      DecimalLengthBound(n / 10, m - 1);
    }
  }
}
