/**
 * The date field symbols used by the formatter ("yyyy", "yy", "LLL", "LLLL",
 * "d"), as defined by Unicode Technical Standard #35, Part 4 (Dates),
 * section 8, and rendered by date-fns for the English locale.
 *
 * Every renderer is paired with a decoder (ValueOf) and a round-trip lemma, so
 * that what a token prints can be read back.
 */
module Tokens {

  /** The decimal digit character of a number below ten. */
  function DigitChar(n: nat): (c: char)
    requires n < 10
    ensures '0' <= c <= '9'
    ensures c as int - '0' as int == n
  {
    ('0' as int + n) as char
  }

  predicate IsDigit(c: char) {
    '0' <= c <= '9'
  }

  function DigitValue(c: char): (n: nat)
    requires IsDigit(c)
    ensures n < 10
  {
    c as int - '0' as int
  }

  predicate AllDigits(s: string) {
    forall i :: 0 <= i < |s| ==> IsDigit(s[i])
  }

  /** The number a string of decimal digits denotes (most significant digit first). */
  function ValueOf(s: string): nat
    requires AllDigits(s)
  {
    if s == [] then 0 else ValueOf(s[..|s| - 1]) * 10 + DigitValue(s[|s| - 1])
  }

  /** Unpadded decimal rendering of a natural number: the "d" field and the quarter number. */
  function Decimal(n: nat): (s: string)
    ensures |s| >= 1 && AllDigits(s)
    ensures n >= 1 ==> s[0] != '0'
    decreases n
  {
    if n < 10 then [DigitChar(n)] else Decimal(n / 10) + [DigitChar(n % 10)]
  }

  lemma {:induction false} DecimalRoundTrip(n: nat)
    ensures ValueOf(Decimal(n)) == n
    decreases n
  {
    if n >= 10 {
      var s := Decimal(n);
      assert s[..|s| - 1] == Decimal(n / 10);
      DecimalRoundTrip(n / 10);
    }
  }

  function Pow10(k: nat): (p: nat)
    ensures p >= 1
  {
    if k == 0 then 1 else 10 * Pow10(k - 1)
  }

  /** A number below 10^k has at most k digits. */
  lemma {:induction false} DecimalLength(n: nat, k: nat)
    requires 1 <= k && n < Pow10(k)
    ensures |Decimal(n)| <= k
    decreases k
  {
    if n >= 10 {
      assert k >= 2;
      DecimalLength(n / 10, k - 1);
    }
  }

  lemma DecimalFits(n: nat, width: nat)
    ensures n < Pow10(width) && width >= 1 ==> |Decimal(n)| <= width
  {
    if n < Pow10(width) && width >= 1 {
      DecimalLength(n, width);
    }
  }

  /** Two different numbers never print the same. */
  lemma DecimalInjective(m: nat, n: nat)
    requires Decimal(m) == Decimal(n)
    ensures m == n
  {
    DecimalRoundTrip(m);
    DecimalRoundTrip(n);
  }

  function Zeros(k: nat): (s: string)
    ensures |s| == k
    ensures forall i :: 0 <= i < k ==> s[i] == '0'
  {
    if k == 0 then [] else ['0'] + Zeros(k - 1)
  }

  /** Zeros added in front of a digit string do not change its value. */
  lemma {:induction false} LeadingZerosValue(k: nat, s: string)
    requires AllDigits(s)
    ensures AllDigits(Zeros(k) + s)
    ensures ValueOf(Zeros(k) + s) == ValueOf(s)
    decreases |s|
  {
    if s == [] {
      assert Zeros(k) + s == Zeros(k);
      ZerosValue(k);
    } else {
      var t := Zeros(k) + s;
      assert t[..|t| - 1] == Zeros(k) + s[..|s| - 1];
      LeadingZerosValue(k, s[..|s| - 1]);
    }
  }

  lemma {:induction false} ZerosValue(k: nat)
    ensures AllDigits(Zeros(k)) && ValueOf(Zeros(k)) == 0
    decreases k
  {
    if k > 0 {
      var z := Zeros(k);
      assert z[..k - 1] == Zeros(k - 1);
      ZerosValue(k - 1);
    }
  }

  /**
   * Left-pads the decimal rendering of n with zeros up to the given width,
   * as date-fns does for the numeric fields; a wider number is not cut.
   */
  function Padded(n: nat, width: nat): (s: string)
    ensures AllDigits(s) && ValueOf(s) == n
    ensures |s| >= width
    ensures n < Pow10(width) && width >= 1 ==> |s| == width
    ensures |s| > width ==> s == Decimal(n)
  {
    var digits := Decimal(n);
    DecimalRoundTrip(n);
    LeadingZerosValue(if |digits| < width then width - |digits| else 0, digits);
    DecimalFits(n, width);
    if |digits| < width then Zeros(width - |digits|) + digits else digits
  }

  /** Removing one leading zero from a two-digit rendering gives the unpadded rendering. */
  lemma {:induction false} PaddedTwoUnpads(n: nat)
    requires n < 100
    ensures |Padded(n, 2)| == 2
    ensures n < 10 ==> Padded(n, 2) == ['0'] + Decimal(n)
    ensures n >= 10 ==> Padded(n, 2) == Decimal(n) && Decimal(n)[0] != '0'
  {
    if n < 10 {
      assert Zeros(1) == ['0'];
    } else {
      DecimalLength(n, 2);
    }
  }

  /** The year as date-fns numbers it: years before year 1 count back in the other era (0 is 1 BC). */
  function EraYear(year: int): (n: nat)
    ensures n >= 1
    ensures year >= 1 ==> n == year
  {
    if year > 0 then year else 1 - year
  }

  /** "yyyy": the era year, zero-padded to four digits. */
  function FullYear(year: int): (s: string)
    ensures AllDigits(s) && ValueOf(s) == EraYear(year)
    ensures |s| >= 4
    ensures EraYear(year) < 10000 ==> |s| == 4
    ensures |s| > 4 ==> s[0] != '0'
  {
    Padded(EraYear(year), 4)
  }

  /** "yy": the last two digits of the era year. */
  function ShortYear(year: int): (s: string)
    ensures |s| == 2 && AllDigits(s)
    ensures ValueOf(s) == EraYear(year) % 100
  {
    Padded(EraYear(year) % 100, 2)
  }

  /** "LLL": the abbreviated stand-alone month name. */
  function ShortMonthName(month: int): (s: string)
    requires 1 <= month <= 12
    ensures |s| == 3
  {
    ["Jan", "Feb", "Mar", "Apr", "May", "Jun", "Jul", "Aug", "Sep", "Oct", "Nov", "Dec"][month - 1]
  }

  /** "LLLL": the full stand-alone month name; its first three letters are the abbreviation. */
  function LongMonthName(month: int): (s: string)
    requires 1 <= month <= 12
    ensures |s| >= 3 && s[..3] == ShortMonthName(month)
  {
    ["January", "February", "March", "April", "May", "June", "July",
     "August", "September", "October", "November", "December"][month - 1]
  }

  /** Reads an abbreviated month name back; 0 for any other text. */
  function ShortMonthNumber(s: string): (m: int)
    ensures 0 <= m <= 12
  {
    if s == "Jan" then 1 else if s == "Feb" then 2 else if s == "Mar" then 3
    else if s == "Apr" then 4 else if s == "May" then 5 else if s == "Jun" then 6
    else if s == "Jul" then 7 else if s == "Aug" then 8 else if s == "Sep" then 9
    else if s == "Oct" then 10 else if s == "Nov" then 11 else if s == "Dec" then 12
    else 0
  }

  /** ShortMonthNumber undoes ShortMonthName. */
  lemma ShortMonthRoundTrip(month: int)
    requires 1 <= month <= 12
    ensures ShortMonthNumber(ShortMonthName(month)) == month
  {
  }

  /** Month names identify their month. */
  lemma MonthNamesDistinct(m: int, n: int)
    requires 1 <= m <= 12 && 1 <= n <= 12
    ensures ShortMonthName(m) == ShortMonthName(n) <==> m == n
    ensures LongMonthName(m) == LongMonthName(n) <==> m == n
  {
    ShortMonthRoundTrip(m);
    ShortMonthRoundTrip(n);
    if LongMonthName(m) == LongMonthName(n) {
      assert ShortMonthName(m) == LongMonthName(m)[..3];
    }
  }
}
