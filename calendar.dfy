/**
 * Calendar dates as the bot stores them (a SQL DATE column, a Python `date`)
 * and the zero-padded "MM-DD" key on which the daily scan compares them.
 */
module Calendar {

  datatype Date = Date(year: int, month: int, day: int)

  predicate IsLeapYear(y: int) {
    y % 4 == 0 && (y % 100 != 0 || y % 400 == 0)
  }

  function DaysInMonth(y: int, m: int): int
    requires 1 <= m <= 12
  {
    if m == 2 then (if IsLeapYear(y) then 29 else 28)
    else if m == 4 || m == 6 || m == 9 || m == 11 then 30
    else 31
  }

  /** A date Python's `date` type can hold (years 1 to 9999, Gregorian calendar). */
  predicate ValidDate(d: Date) {
    1 <= d.year <= 9999 && 1 <= d.month <= 12 && 1 <= d.day <= DaysInMonth(d.year, d.month)
  }

  /** Birthday occurrence: same month and day, whatever the year. */
  predicate SameMonthDay(a: Date, b: Date) {
    a.month == b.month && a.day == b.day
  }

  function DigitChar(k: int): char
    requires 0 <= k < 10
  {
    (48 + k) as char
  }

  /** A two-digit, zero-padded decimal, as `%m`, `%d`, `MM` and `DD` print it. */
  function Pad2(n: int): (s: string)
    requires 0 <= n < 100
    ensures |s| == 2
  {
    [DigitChar(n / 10), DigitChar(n % 10)]
  }

  /**
   * The "MM-DD" text of a date: what `strftime("%m-%d")` gives for today and
   * what `to_char(birthday, 'MM-DD')` gives for a stored birthday.
   */
  function MonthDayKey(d: Date): (s: string)
    requires ValidDate(d)
    ensures |s| == 5 && s[2] == '-'
  {
    Pad2(d.month) + "-" + Pad2(d.day)
  }

  lemma Pad2Injective(x: int, y: int)
    requires 0 <= x < 100 && 0 <= y < 100
    ensures Pad2(x) == Pad2(y) <==> x == y
  {
    if Pad2(x) == Pad2(y) {
      assert Pad2(x)[0] == Pad2(y)[0] && Pad2(x)[1] == Pad2(y)[1];
      assert x / 10 == y / 10 && x % 10 == y % 10;
    }
  }

  /**
   * Comparing the "MM-DD" texts is comparing month and day: the scan's
   * string equality selects exactly the birthdays that fall on today,
   * independent of the year.
   */
  lemma MonthDayKeyMatches(a: Date, b: Date)
    requires ValidDate(a) && ValidDate(b)
    ensures MonthDayKey(a) == MonthDayKey(b) <==> SameMonthDay(a, b)
  {
    var ka, kb := MonthDayKey(a), MonthDayKey(b);
    if ka == kb {
      assert ka[..2] == Pad2(a.month) && kb[..2] == Pad2(b.month);
      assert ka[3..] == Pad2(a.day) && kb[3..] == Pad2(b.day);
      Pad2Injective(a.month, b.month);
      Pad2Injective(a.day, b.day);
    }
  }
}
