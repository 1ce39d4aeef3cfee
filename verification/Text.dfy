/** Decimal printing. */
module Text {

  predicate IsDigit(c: char) {
    '0' <= c <= '9'
  }

  function DigitValue(c: char): nat
    requires IsDigit(c)
  {
    c as int - '0' as int
  }

  /** The number printed in base ten, without leading zeros. */
  function Decimal(n: nat): (s: string)
    ensures s != [] && forall i | 0 <= i < |s| :: IsDigit(s[i])
    ensures |s| > 1 ==> s[0] != '0'
  {
    var digit := ('0' as int + n % 10) as char;
    if n < 10 then [digit] else Decimal(n / 10) + [digit]
  }

  /** The number that the leading digits of `s` denote, continuing from the digits read so far. */
  function LeadingNumber(s: string, read: nat): nat {
    if s == [] || !IsDigit(s[0]) then read else LeadingNumber(s[1..], 10 * read + DigitValue(s[0]))
  }

  lemma {:induction false} LeadingNumberSplit(a: string, b: string, read: nat)
    requires forall i | 0 <= i < |a| :: IsDigit(a[i])
    ensures LeadingNumber(a + b, read) == LeadingNumber(b, LeadingNumber(a, read))
  {
    if a == [] {
      assert a + b == b;
    } else {
      assert (a + b)[1..] == a[1..] + b;
      LeadingNumberSplit(a[1..], b, 10 * read + DigitValue(a[0]));
    }
  }

  lemma {:induction false} DecimalReadsBack(n: nat)
    ensures LeadingNumber(Decimal(n), 0) == n
  {
    var digit := ('0' as int + n % 10) as char;
    assert DigitValue(digit) == n % 10;
    if n >= 10 {
      DecimalReadsBack(n / 10);
      LeadingNumberSplit(Decimal(n / 10), [digit], 0);
      assert [digit][1..] == [];
    } else {
      assert [digit][1..] == [];
    }
  }

  /** A decimal number followed by a separator can be read back, whatever comes after. */
  lemma NumberedPrefixReadsBack(n: nat, separator: char, x: string)
    requires !IsDigit(separator)
    ensures LeadingNumber(Decimal(n) + [separator] + x, 0) == n
  {
    assert Decimal(n) + [separator] + x == Decimal(n) + ([separator] + x);
    LeadingNumberSplit(Decimal(n), [separator] + x, 0);
    DecimalReadsBack(n);
  }
}
