/**
 * Calendar days and the ECMAScript `Date` values the scraper builds from them.
 * Months count from 0, as they do in `Date`.
 */
module Calendar {

  /** A day of the proleptic Gregorian calendar; month 0 is January. */
  datatype CivilDate = CivilDate(year: int, month: int, day: int)

  predicate IsLeapYear(y: int) {
    y % 4 == 0 && (y % 100 != 0 || y % 400 == 0)
  }

  function DaysInMonth(y: int, m: int): (n: int)
    requires 0 <= m < 12
    ensures 28 <= n <= 31
    ensures n == 29 <==> m == 1 && IsLeapYear(y)
  {
    if m == 1 then (if IsLeapYear(y) then 29 else 28)
    else if m == 3 || m == 5 || m == 8 || m == 10 then 30
    else 31
  }

  predicate IsValid(d: CivilDate) {
    0 <= d.month < 12 && 1 <= d.day <= DaysInMonth(d.year, d.month)
  }

  /** a is an earlier calendar day than b. */
  predicate Before(a: CivilDate, b: CivilDate)
    ensures Before(a, b) ==> a != b
  {
    || a.year < b.year
    || (a.year == b.year && (a.month < b.month || (a.month == b.month && a.day < b.day)))
  }

  /** The day after a valid day. */
  function NextDay(c: CivilDate): (r: CivilDate)
    requires IsValid(c)
    ensures IsValid(r) && Before(c, r)
  {
    if c.day < DaysInMonth(c.year, c.month) then CivilDate(c.year, c.month, c.day + 1)
    else if c.month == 11 then CivilDate(c.year + 1, 0, 1)
    else CivilDate(c.year, c.month + 1, 1)
  }

  /**
   * Day d counted from the day before the first of month m of year y, where d
   * may leave the month in either direction: whole months are stepped over
   * until the count falls inside one.
   */
  function Carry(y: int, m: int, d: int): (r: CivilDate)
    requires 0 <= m < 12
    ensures IsValid(r)
    decreases if d < 1 then 1 - d else 0, if d < 1 then 0 else d
  {
    if d < 1 then
      var py := if m == 0 then y - 1 else y;
      var pm := if m == 0 then 11 else m - 1;
      Carry(py, pm, d + DaysInMonth(py, pm))
    else if d > DaysInMonth(y, m) then
      var ny := if m == 11 then y + 1 else y;
      var nm := if m == 11 then 0 else m + 1;
      Carry(ny, nm, d - DaysInMonth(y, m))
    else CivilDate(y, m, d)
  }

  /**
   * ECMAScript MakeDay(year, month, date) as a calendar day: the month is
   * first folded into the year (month 12 is January of the next year, month
   * -1 December of the previous one), then date counts days from the day
   * before the first of that month, overflowing into neighbouring months.
   */
  function MakeDay(y: int, m: int, d: int): (r: CivilDate)
    ensures IsValid(r)
  {
    Carry(y + m / 12, m % 12, d)
  }

  /** On a real calendar day, MakeDay changes nothing. */
  lemma MakeDayOfValid(c: CivilDate)
    requires IsValid(c)
    ensures MakeDay(c.year, c.month, c.day) == c
  {
  }

  /** One more day of offset gives the next calendar day. */
  lemma {:induction false} CarryNext(y: int, m: int, d: int)
    requires 0 <= m < 12
    ensures Carry(y, m, d + 1) == NextDay(Carry(y, m, d))
    decreases if d < 1 then 1 - d else 0, if d < 1 then 0 else d
  {
    if d < 1 {
      var py := if m == 0 then y - 1 else y;
      var pm := if m == 0 then 11 else m - 1;
      if d < 0 {
        CarryNext(py, pm, d + DaysInMonth(py, pm));
      }
    } else if d > DaysInMonth(y, m) {
      var ny := if m == 11 then y + 1 else y;
      var nm := if m == 11 then 0 else m + 1;
      CarryNext(ny, nm, d - DaysInMonth(y, m));
    }
  }

  /** MakeDay counts days: raising the date argument by one moves to the next calendar day. */
  lemma MakeDayNext(y: int, m: int, d: int)
    ensures MakeDay(y, m, d + 1) == NextDay(MakeDay(y, m, d))
  {
    CarryNext(y + m / 12, m % 12, d);
  }

  /** A day number of at most 31 in a real month never leaves that month's year. */
  lemma MakeDayKeepsYear(y: int, m: int, d: int)
    requires 0 <= m < 12 && 1 <= d <= 31
    ensures MakeDay(y, m, d).year == y
  {
    if d > DaysInMonth(y, m) {
      assert m != 11;
      assert Carry(y, m + 1, d - DaysInMonth(y, m)) == CivilDate(y, m + 1, d - DaysInMonth(y, m));
    }
  }

  /** A Date value, in the forms the scraper produces. */
  datatype JsDate =
    | InvalidDate                          // time value NaN: `isNaN(d.getTime())`
    | Instant(millis: int)                 // an instant known only by its time value
    | UtcMidnight(utcDay: CivilDate)       // 00:00 UTC of a calendar day
    | LocalMidnight(localDay: CivilDate)   // 00:00 local time of a calendar day

  predicate IsValidDate(v: JsDate) {
    !v.InvalidDate?
  }

  /** The first and last days whose midnight lies within the +-8.64e15 ms a time value may reach. */
  const FirstDay := CivilDate(-271821, 3, 20)
  const LastDay := CivilDate(275760, 8, 13)

  predicate InTimeRange(c: CivilDate)
    ensures InTimeRange(c) ==> FirstDay.year <= c.year <= LastDay.year
  {
    !Before(c, FirstDay) && !Before(LastDay, c)
  }

  /** The year `new Date(y, m, d)` and `Date.UTC(y, m, d)` use: 0 to 99 stand for 1900 to 1999. */
  function FullYear(y: int): (r: int)
    ensures 0 <= y <= 99 ==> r == 1900 + y
    ensures (y < 0 || y > 99) ==> r == y
  {
    if 0 <= y <= 99 then 1900 + y else y
  }

  /** `new Date(Date.UTC(y, m, d))`. */
  function DateUtc(y: int, m: int, d: int): (r: JsDate)
    ensures r.InvalidDate? || (r.UtcMidnight? && IsValid(r.utcDay) && InTimeRange(r.utcDay))
  {
    var c := MakeDay(FullYear(y), m, d);
    if InTimeRange(c) then UtcMidnight(c) else InvalidDate
  }

  /** `new Date(y, m, d)`: local midnight. */
  function LocalDate(y: int, m: int, d: int): (r: JsDate)
    ensures r.InvalidDate? || (r.LocalMidnight? && IsValid(r.localDay) && InTimeRange(r.localDay))
  {
    var c := MakeDay(FullYear(y), m, d);
    if InTimeRange(c) then LocalMidnight(c) else InvalidDate
  }

  /** `date.setFullYear(y)` on the local midnight of c: month and day of month are kept, the year is taken as given. */
  function SetFullYear(c: CivilDate, y: int): (r: JsDate)
    ensures r.InvalidDate? || (r.LocalMidnight? && IsValid(r.localDay) && InTimeRange(r.localDay))
  {
    var moved := MakeDay(y, c.month, c.day);
    if InTimeRange(moved) then LocalMidnight(moved) else InvalidDate
  }

  /** A real day of a year from 100 on, within the time range, is built as itself. */
  lemma LocalDateOfValid(c: CivilDate)
    requires c.year >= 100 && IsValid(c) && InTimeRange(c)
    ensures LocalDate(c.year, c.month, c.day) == LocalMidnight(c)
  {
    MakeDayOfValid(c);
  }

  /** Moving a day other than 29 February back one year keeps its month and day. */
  lemma SetFullYearBackOne(c: CivilDate)
    requires IsValid(c) && !(c.month == 1 && c.day == 29)
    requires InTimeRange(c.(year := c.year - 1))
    ensures SetFullYear(c, c.year - 1) == LocalMidnight(c.(year := c.year - 1))
  {
    var earlier := c.(year := c.year - 1);
    assert IsValid(earlier);
    MakeDayOfValid(earlier);
  }
}
