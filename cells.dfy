/**
 * Table cells and timestamps as the report sees them: what a pandas column holds
 * (text, integers, timestamps or the missing marker), Python's `str()` of such a
 * value, and the zero-padded decimal fields `strftime` writes.
 */
module Cells {

  /** A calendar date and wall-clock time, to the second, without time zone. */
  datatype DateTime = DateTime(year: int, month: int, day: int, hour: int, minute: int, second: int)

  predicate IsLeapYear(y: int)
  {
    y % 4 == 0 && (y % 100 != 0 || y % 400 == 0)
  }

  function DaysInMonth(y: int, m: int): int
  {
    if m == 2 then (if IsLeapYear(y) then 29 else 28)
    else if m == 4 || m == 6 || m == 9 || m == 11 then 30
    else 31
  }

  /** A real date and time inside the years a pandas Timestamp can hold (1677 to 2262). */
  predicate ValidDateTime(d: DateTime)
  {
    1677 <= d.year <= 2262 && 1 <= d.month <= 12 && 1 <= d.day <= DaysInMonth(d.year, d.month)
    && 0 <= d.hour < 24 && 0 <= d.minute < 60 && 0 <= d.second < 60
  }

  type Timestamp = d: DateTime | ValidDateTime(d) witness DateTime(1970, 1, 1, 0, 0, 0)

  /** One value of a column: pandas' missing marker (NaN / NaT / None), text, an integer or a timestamp. */
  datatype Cell = Null | Text(s: string) | Int(i: int) | Time(t: Timestamp)

  function Pow10(k: nat): (p: nat)
    ensures p >= 1
  {
    if k == 0 then 1 else 10 * Pow10(k - 1)
  }

  function DigitChar(d: nat): (c: char)
    requires d < 10
    ensures '0' <= c <= '9' && c as int - '0' as int == d
  {
    ('0' as int + d) as char
  }

  predicate AllDigits(s: string)
  {
    forall i :: 0 <= i < |s| ==> '0' <= s[i] <= '9'
  }

  /** The number a string of decimal digits denotes. */
  function DecimalValue(s: string): nat
    requires AllDigits(s)
  {
    if s == [] then 0
    else DecimalValue(s[..|s| - 1]) * 10 + (s[|s| - 1] as int - '0' as int)
  }

  /** The last `width` decimal digits of `n`, with leading zeros: `%02d`, `%04d`. */
  function Digits(n: nat, width: nat): (r: string)
    ensures |r| == width && AllDigits(r)
  {
    if width == 0 then [] else Digits(n / 10, width - 1) + [DigitChar(n % 10)]
  }

  /** Zero padding to a width that holds `n` loses nothing: the digits read back as `n`. */
  lemma {:induction false} DigitsRoundTrip(n: nat, width: nat)
    requires n < Pow10(width)
    ensures DecimalValue(Digits(n, width)) == n
  {
    if width > 0 {
      var d := Digits(n / 10, width - 1);
      DigitsRoundTrip(n / 10, width - 1);
      assert (d + [DigitChar(n % 10)])[..|d|] == d;
    }
  }

  /** `str(n)` for a natural number: decimal, no leading zeros. */
  function NatText(n: nat): (r: string)
    ensures r != [] && AllDigits(r)
  {
    if n < 10 then [DigitChar(n)] else NatText(n / 10) + [DigitChar(n % 10)]
  }

  /** `str(n)` for an integer. */
  function IntText(i: int): (r: string)
    ensures r != []
  {
    if i < 0 then "-" + NatText(-i) else NatText(i)
  }

  /** `str(t)` for a pandas Timestamp without fractional seconds: `YYYY-MM-DD HH:MM:SS`. */
  function TimestampText(t: Timestamp): (r: string)
    ensures |r| == 19
  {
    Digits(t.year, 4) + "-" + Digits(t.month, 2) + "-" + Digits(t.day, 2) + " "
    + Digits(t.hour, 2) + ":" + Digits(t.minute, 2) + ":" + Digits(t.second, 2)
  }

  /** Python's `str(x)` of a present cell (the missing marker prints as `nan`). */
  function Str(c: Cell): string
  {
    match c
    case Null => "nan"
    case Text(s) => s
    case Int(i) => IntText(i)
    case Time(t) => TimestampText(t)
  }
}
