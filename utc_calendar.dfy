/**
 * `datetime.fromtimestamp(ts, tz=timezone.utc)` followed by `strftime` with
 * "%Y-%m-%d" or "%Y-%m-%d %H:%M:%S": a whole number of seconds since
 * 1970-01-01T00:00:00Z in the proleptic Gregorian calendar, for the years
 * 1 to 9999 that `datetime` can represent.
 */
module UtcCalendar {
  import PyText

  /** 0001-01-01 00:00:00 UTC, the earliest instant `datetime` represents. */
  const MinTimestamp: int := -62135596800
  /** 9999-12-31 23:59:59 UTC, the latest whole second `datetime` represents. */
  const MaxTimestamp: int := 253402300799

  const SecondsPerDay: int := 86400

  predicate InRange(ts: int) {
    MinTimestamp <= ts <= MaxTimestamp
  }

  datatype CivilDate = CivilDate(year: int, month: int, day: int)

  /** Leap years of the proleptic Gregorian calendar. */
  predicate IsLeap(y: int) {
    y % 4 == 0 && (y % 100 != 0 || y % 400 == 0)
  }

  function DaysInYear(y: int): int {
    if IsLeap(y) then 366 else 365
  }

  function DaysInMonth(m: int, leap: bool): int {
    if m == 2 then (if leap then 29 else 28)
    else if m == 4 || m == 6 || m == 9 || m == 11 then 30
    else 31
  }

  /**
   * The year, and the day within it (0 for January 1), that lie `d` days
   * after January 1 of year `y`: whole years are stepped over one at a time.
   */
  function YearDay(y: int, d: int): (r: (int, int))
    ensures 0 <= r.1 < DaysInYear(r.0)
    decreases if d < 0 then 366 - d else d
  {
    if d < 0 then YearDay(y - 1, d + DaysInYear(y - 1))
    else if d >= DaysInYear(y) then YearDay(y + 1, d - DaysInYear(y))
    else (y, d)
  }

  /** The month and the day of the month of day `d` (0-based) of a year, counting from month `m`. */
  function MonthDay(m: int, d: int, leap: bool): (r: (int, int))
    requires 1 <= m <= 12 && 0 <= d
    ensures 1 <= r.0 <= 12 && 1 <= r.1
    decreases 12 - m
  {
    if m == 12 || d < DaysInMonth(m, leap) then (m, d + 1)
    else MonthDay(m + 1, d - DaysInMonth(m, leap), leap)
  }

  /** The civil date `days` days after 1970-01-01. */
  function CivilFromDays(days: int): CivilDate {
    var (year, dayOfYear) := YearDay(1970, days);
    var (month, day) := MonthDay(1, dayOfYear, IsLeap(year));
    CivilDate(year, month, day)
  }

  /** `n` in decimal, left-padded with zeros to `width` digits (the `%Y`, `%m`, ... fields). */
  function ZeroPad(n: nat, width: nat): (s: string)
    ensures |s| >= width
    ensures 1 <= width && n < PyText.Pow10(width) ==> |s| == width
    ensures PyText.IsDecimal(s)
  {
    var t := PyText.NatToString(n);
    PyText.NatToStringLength(n, width);
    if |t| >= width then t else seq(width - |t|, _ => '0') + t
  }

  /** A field that is never negative for an instant in range; the sign is kept for any other value. */
  function Field(n: int, width: nat): (s: string)
    ensures s != []
    ensures s[0] == '-' || PyText.IsDigit(s[0])
  {
    if n < 0 then "-" + ZeroPad(-n, width) else ZeroPad(n, width)
  }

  /** `strftime("%Y-%m-%d")` of the instant `ts`. */
  function DateText(ts: int): (s: string)
    ensures s != [] && s[0] != 'U' && s[0] != 'u'
  {
    var d := CivilFromDays(ts / SecondsPerDay);
    Field(d.year, 4) + "-" + Field(d.month, 2) + "-" + Field(d.day, 2)
  }

  /** `strftime("%H:%M:%S")` of the instant `ts`. */
  function TimeText(ts: int): (s: string)
    ensures |s| == 8
  {
    var secs := ts % SecondsPerDay;
    assert PyText.Pow10(2) == 100;
    ZeroPad(secs / 3600, 2) + ":" + ZeroPad(secs / 60 % 60, 2) + ":" + ZeroPad(secs % 60, 2)
  }

  /** The epoch is 1970-01-01 at midnight. */
  lemma EpochDate()
    ensures CivilFromDays(0) == CivilDate(1970, 1, 1)
  {
    assert !IsLeap(1970);
    assert YearDay(1970, 0) == (1970, 0);
    assert MonthDay(1, 0, false) == (1, 1);
  }

  lemma EpochText()
    ensures DateText(0) == "1970-01-01"
    ensures TimeText(0) == "00:00:00"
    ensures DateText(0) + " " + TimeText(0) == "1970-01-01 00:00:00"
  {
    EpochDate();
    EpochFields();
    EpochDateText(0);
    EpochTimeText(0);
  }

  lemma EpochDateText(ts: int)
    requires ts == 0 && CivilFromDays(0) == CivilDate(1970, 1, 1)
    requires ZeroPad(1970, 4) == "1970" && ZeroPad(1, 2) == "01"
    ensures DateText(ts) == "1970-01-01"
  {
    assert ts / SecondsPerDay == 0;
  }

  lemma EpochTimeText(ts: int)
    requires ts == 0 && ZeroPad(0, 2) == "00"
    ensures TimeText(ts) == "00:00:00"
  {
    assert ts % SecondsPerDay == 0;
  }

  lemma EpochFields()
    ensures ZeroPad(1970, 4) == "1970"
    ensures ZeroPad(1, 2) == "01"
    ensures ZeroPad(0, 2) == "00"
  {
    assert PyText.NatToString(1970) == "1970";
  }
}
