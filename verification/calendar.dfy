/**
 * The UTC calendar fields of a timestamp, as the `%Y/%m/%d/%H` format of the
 * date library prints them: the proleptic Gregorian year, month, day of month
 * and hour of a count of milliseconds since 1970-01-01T00:00:00Z.
 *
 * Days are counted from 1970-01-01 (day 0). `YearAndDay` walks year by year
 * from 1970; `YearStart` is the day number of 1 January of a year, and the two
 * are shown to be inverse to each other.
 */
module Calendar {
  import opened Text

  const MillisPerDay := 86_400_000
  const MillisPerHour := 3_600_000

  predicate IsLeap(y: int) {
    y % 4 == 0 && (y % 100 != 0 || y % 400 == 0)
  }

  function DaysInYear(y: int): (n: int)
    ensures n == 365 || n == 366
  {
    if IsLeap(y) then 366 else 365
  }

  /** Day number of 1 January of year y. */
  function YearStart(y: int): int
    decreases if y >= 1970 then y - 1970 else 1970 - y
  {
    if y == 1970 then 0
    else if y > 1970 then YearStart(y - 1) + DaysInYear(y - 1)
    else YearStart(y + 1) - DaysInYear(y)
  }

  lemma YearStartStep(y: int)
    ensures YearStart(y + 1) == YearStart(y) + DaysInYear(y)
  {
  }

  /**
   * Year and zero-based day of year of the day `d` days after 1 January of
   * year `y`.
   */
  function YearAndDay(d: int, y: int): (r: (int, int))
    ensures 0 <= r.1 < DaysInYear(r.0)
    decreases if d >= 0 then d else 366 - d
  {
    if 0 <= d < DaysInYear(y) then (y, d)
    else if d >= 0 then YearAndDay(d - DaysInYear(y), y + 1)
    else YearAndDay(d + DaysInYear(y - 1), y - 1)
  }

  /** Walking from any year reaches the year and day the day number says. */
  lemma {:induction false} YearAndDayOfStart(y0: int, y: int, doy: int)
    requires 0 <= doy < DaysInYear(y)
    ensures YearAndDay(YearStart(y) - YearStart(y0) + doy, y0) == (y, doy)
    decreases if y >= y0 then y - y0 else y0 - y
  {
    if y > y0 {
      YearStartStep(y0);
      StartsIncrease(y0 + 1, y);
      YearAndDayOfStart(y0 + 1, y, doy);
    } else if y < y0 {
      YearStartStep(y0 - 1);
      StartsIncrease(y + 1, y0);
      YearStartStep(y);
      YearAndDayOfStart(y0 - 1, y, doy);
    }
  }

  /** Later years start later. */
  lemma {:induction false} StartsIncrease(a: int, b: int)
    requires a <= b
    ensures YearStart(a) <= YearStart(b)
    decreases b - a
  {
    if a < b {
      StartsIncrease(a, b - 1);
      YearStartStep(b - 1);
    }
  }

  /** Conversely, the year and day found for a day number give it back. */
  lemma {:induction false} StartOfYearAndDay(d: int, y0: int)
    ensures YearStart(YearAndDay(d, y0).0) - YearStart(y0) + YearAndDay(d, y0).1 == d
    decreases if d >= 0 then d else 366 - d
  {
    if !(0 <= d < DaysInYear(y0)) {
      if d >= 0 {
        StartOfYearAndDay(d - DaysInYear(y0), y0 + 1);
        YearStartStep(y0);
      } else {
        StartOfYearAndDay(d + DaysInYear(y0 - 1), y0 - 1);
        YearStartStep(y0 - 1);
      }
    }
  }

  /** Days of the months before month m (1-based) in year y; m = 13 gives the whole year. */
  function DaysBeforeMonth(y: int, m: int): (n: int)
    requires 1 <= m <= 13
  {
    [0, 31, 59, 90, 120, 151, 181, 212, 243, 273, 304, 334, 365][m - 1]
      + (if IsLeap(y) && m >= 3 then 1 else 0)
  }

  function DaysInMonth(y: int, m: int): (n: int)
    requires 1 <= m <= 12
    ensures 28 <= n <= 31
  {
    DaysBeforeMonth(y, m + 1) - DaysBeforeMonth(y, m)
  }

  /** The month, searched downwards from m, that contains zero-based day `doy`. */
  function MonthFrom(y: int, doy: int, m: int): (r: int)
    requires 1 <= m <= 12 && 0 <= doy < DaysBeforeMonth(y, m + 1)
    ensures 1 <= r <= m
    ensures DaysBeforeMonth(y, r) <= doy < DaysBeforeMonth(y, r + 1)
  {
    if DaysBeforeMonth(y, m) <= doy then m else MonthFrom(y, doy, m - 1)
  }

  /** A UTC date and hour. */
  datatype Civil = Civil(year: int, month: int, day: int, hour: int)

  predicate ValidCivil(c: Civil) {
    1 <= c.month <= 12 && 1 <= c.day <= DaysInMonth(c.year, c.month) && 0 <= c.hour < 24
  }

  /** The UTC date and hour of a timestamp in milliseconds; times before 1970 count back. */
  function CivilOf(millis: int): (c: Civil)
    ensures ValidCivil(c)
  {
    var (y, doy) := YearAndDay(millis / MillisPerDay, 1970);
    var m := MonthFrom(y, doy, 12);
    Civil(y, m, doy - DaysBeforeMonth(y, m) + 1, millis % MillisPerDay / MillisPerHour)
  }

  /** Day number of a date. */
  function DayNumber(y: int, m: int, d: int): int
    requires 1 <= m <= 12
  {
    YearStart(y) + DaysBeforeMonth(y, m) + d - 1
  }

  /**
   * The date and hour found for a timestamp are its own: the timestamp lies in
   * that hour of that day.
   */
  lemma CivilOfLocates(millis: int)
    ensures var c := CivilOf(millis);
            var day := DayNumber(c.year, c.month, c.day);
            day * MillisPerDay + c.hour * MillisPerHour <= millis < day * MillisPerDay + (c.hour + 1) * MillisPerHour
  {
    StartOfYearAndDay(millis / MillisPerDay, 1970);
  }

  /** Every valid date and hour is the one found for the start of that hour. */
  lemma CivilOfDayNumber(c: Civil)
    requires ValidCivil(c)
    ensures CivilOf(DayNumber(c.year, c.month, c.day) * MillisPerDay + c.hour * MillisPerHour) == c
  {
    var doy := DaysBeforeMonth(c.year, c.month) + c.day - 1;
    var millis := DayNumber(c.year, c.month, c.day) * MillisPerDay + c.hour * MillisPerHour;
    assert millis / MillisPerDay == YearStart(c.year) + doy;
    assert millis % MillisPerDay == c.hour * MillisPerHour;
    YearAndDayOfStart(1970, c.year, doy);
    MonthUnique(c.year, doy, c.month, MonthFrom(c.year, doy, 12));
  }

  lemma MonthUnique(y: int, doy: int, m1: int, m2: int)
    requires 1 <= m1 <= 12 && 1 <= m2 <= 12
    requires DaysBeforeMonth(y, m1) <= doy < DaysBeforeMonth(y, m1 + 1)
    requires DaysBeforeMonth(y, m2) <= doy < DaysBeforeMonth(y, m2 + 1)
    ensures m1 == m2
  {
    if m1 < m2 {
      MonthsIncrease(y, m1 + 1, m2);
    } else if m2 < m1 {
      MonthsIncrease(y, m2 + 1, m1);
    }
  }

  lemma MonthsIncrease(y: int, a: int, b: int)
    requires 1 <= a <= b <= 13
    ensures DaysBeforeMonth(y, a) <= DaysBeforeMonth(y, b)
  {
  }

  // ---------------------------------------------------------------------------
  // The `%Y/%m/%d/%H` rendering
  // ---------------------------------------------------------------------------

  /**
   * `%Y`: years 0 to 9999 as four digits; any other year with an explicit sign
   * and at least four digits.
   */
  function YearText(y: int): (s: string)
    ensures |s| >= 4
    ensures 0 <= y <= 9999 ==> |s| == 4 && AllDigits(s) && ParseNat(s) == y
  {
    if 0 <= y <= 9999 then
      NatWidth(y, 4);
      ZeroPad(y, 4)
    else if y < 0 then "-" + ZeroPad(-y, 4)
    else "+" + ZeroPad(y, 4)
  }

  /** A number below 10^w has at most w digits. */
  lemma {:induction false} NatWidth(n: nat, w: nat)
    requires 1 <= w
    requires n < Pow10(w)
    ensures |NatToString(n)| <= w
    decreases w
  {
    if n >= 10 {
      NatWidth(n / 10, w - 1);
    }
  }

  function Pow10(w: nat): (p: nat)
    ensures p >= 1
  {
    if w == 0 then 1 else 10 * Pow10(w - 1)
  }

  /** `CaptureEvent::get_path_subdir` and `ImageEvent::get_path_subdir`: `YYYY/MM/DD/HH` of the timestamp. */
  function PathSubdir(millis: int): string {
    SubdirText(CivilOf(millis))
  }

  /** `YYYY/MM/DD/HH` of a date and hour. */
  function SubdirText(c: Civil): string
    requires ValidCivil(c)
  {
    YearText(c.year) + "/" + ZeroPad(c.month, 2) + "/" + ZeroPad(c.day, 2) + "/" + ZeroPad(c.hour, 2)
  }

  /**
   * Whatever the year, the sub-directory ends with `/MM/DD/HH`, the last
   * field reading back as the timestamp's hour.
   */
  lemma PathSubdirShape(millis: int)
    ensures TailShaped(PathSubdir(millis), CivilOf(millis).hour)
  {
    SubdirOfCivil(CivilOf(millis));
  }

  /** `s` ends with `/MM/DD/HH`, whose last field reads back as `hour`. */
  predicate TailShaped(s: string, hour: int) {
    && |s| >= 13 && s[|s| - 9] == '/' && s[|s| - 6] == '/' && s[|s| - 3] == '/'
    && AllDigits(s[|s| - 2..]) && ParseNat(s[|s| - 2..]) == hour
  }

  /** The shape of the sub-directory written for a valid date and hour. */
  lemma SubdirOfCivil(c: Civil)
    requires ValidCivil(c)
    ensures TailShaped(SubdirText(c), c.hour)
  {
    NatWidth(c.month, 2);
    NatWidth(c.day, 2);
    NatWidth(c.hour, 2);
    TailFields(YearText(c.year), ZeroPad(c.month, 2), ZeroPad(c.day, 2), ZeroPad(c.hour, 2));
  }

  /** Where the last three fields of `y/m/d/h` sit, for two-character m, d and h and y of four or more. */
  lemma TailFields(y: string, m: string, d: string, h: string)
    requires |y| >= 4 && |m| == 2 && |d| == 2 && |h| == 2
    ensures var s := y + "/" + m + "/" + d + "/" + h;
            |s| >= 13 && s[|s| - 9] == '/' && s[|s| - 6] == '/' && s[|s| - 3] == '/' && s[|s| - 2..] == h
  {
    var s := y + "/" + m + "/" + d + "/" + h;
    assert s == (y + "/" + m + "/" + d + "/") + h;
  }

  /**
   * For years 0 to 9999 the sub-directory has the fixed shape `YYYY/MM/DD/HH`,
   * and its four fields read back as the timestamp's year, month, day and hour.
   */
  lemma PathSubdirFields(millis: int)
    requires 0 <= CivilOf(millis).year <= 9999
    ensures var s := PathSubdir(millis);
            var c := CivilOf(millis);
            |s| == 13 && s[4] == '/' && s[7] == '/' && s[10] == '/'
            && AllDigits(s[0..4]) && ParseNat(s[0..4]) == c.year
            && AllDigits(s[5..7]) && ParseNat(s[5..7]) == c.month
            && AllDigits(s[8..10]) && ParseNat(s[8..10]) == c.day
            && AllDigits(s[11..13]) && ParseNat(s[11..13]) == c.hour
  {
    var c := CivilOf(millis);
    NatWidth(c.month, 2);
    NatWidth(c.day, 2);
    NatWidth(c.hour, 2);
    JoinFields(YearText(c.year), ZeroPad(c.month, 2), ZeroPad(c.day, 2), ZeroPad(c.hour, 2));
  }

  /** Where the four fields of `y/m/d/h` sit, for a four-character y and two-character m, d and h. */
  lemma JoinFields(y: string, m: string, d: string, h: string)
    requires |y| == 4 && |m| == 2 && |d| == 2 && |h| == 2
    ensures var s := y + "/" + m + "/" + d + "/" + h;
            |s| == 13 && s[4] == '/' && s[7] == '/' && s[10] == '/'
            && s[0..4] == y && s[5..7] == m && s[8..10] == d && s[11..13] == h
  {
  }

  /** Timestamps in the same UTC hour share a sub-directory. */
  lemma SameHourSameSubdir(a: int, b: int)
    requires a / MillisPerHour == b / MillisPerHour
    ensures PathSubdir(a) == PathSubdir(b)
  {
    SameHourSameCivil(a, b);
  }

  /** Timestamps in the same UTC hour have the same date and hour. */
  lemma SameHourSameCivil(a: int, b: int)
    requires a / MillisPerHour == b / MillisPerHour
    ensures CivilOf(a) == CivilOf(b)
  {
    HourSplit(a);
    HourSplit(b);
  }

  /** The day and hour of day of a timestamp, read off its count of whole hours. */
  lemma HourSplit(a: int)
    ensures a / MillisPerDay == a / MillisPerHour / 24
    ensures a % MillisPerDay / MillisPerHour == a / MillisPerHour % 24
  {
    var q, r := a / MillisPerHour, a % MillisPerHour;
    var days, hour := q / 24, q % 24;
    assert a == days * MillisPerDay + (hour * MillisPerHour + r);
    assert 0 <= hour * MillisPerHour + r < MillisPerDay;
  }
}
