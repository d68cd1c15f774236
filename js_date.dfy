/** JavaScript `Date` values as the date converters see them: a calendar date
    in the proleptic Gregorian calendar, read through `getFullYear`,
    `getMonth` (zero-based) and `getDate`, and built by `new Date(y, m, d)`. */
module JsDate {
  import opened JsNumber

  datatype DateFields = DateFields(year: int, month0: int, day: int)

  /** The whole years inside the range a `Date` can hold (about 8.64e15 ms
      either side of 1970). */
  const MinYear: int := -271820
  const MaxYear: int := 275759

  predicate IsLeapYear(y: int) {
    y % 4 == 0 && (y % 100 != 0 || y % 400 == 0)
  }

  function DaysInMonth(y: int, month0: int): (n: nat)
    requires 0 <= month0 < 12
    ensures 28 <= n <= 31
  {
    if month0 == 1 then (if IsLeapYear(y) then 29 else 28)
    else if month0 == 3 || month0 == 5 || month0 == 8 || month0 == 10 then 30
    else 31
  }

  /** Fields that name a real day, so that the `Date` built from them
      reports them back unchanged. */
  predicate InCalendar(f: DateFields) {
    InYearRange(f.year) && 0 <= f.month0 < 12 && 1 <= f.day <= DaysInMonth(f.year, f.month0)
  }

  /** A valid `Date`, as its getters report it. */
  type Date = f: DateFields | InCalendar(f) witness DateFields(1970, 0, 1)

  lemma DateRanges(d: Date)
    ensures 0 <= d.month0 < 12 && 1 <= d.day <= 31 && MinYear <= d.year <= MaxYear
  {
  }

  /** What `new Date(y, m, d)` produces: a date holding the fields it was
      given, or an Invalid Date when an argument is NaN or infinite or the
      year lies outside the range a `Date` can hold. Fields that are not
      `InCalendar` (a month 12, a day 0) would make JavaScript carry the
      excess into the next unit; that carrying is not modelled, so only
      `InCalendar` fields are read back through the getters. */
  datatype JsDate = Built(fields: DateFields) | InvalidDate

  /** A valid `Date` whose getters report exactly `fields`. */
  predicate IsCalendarDate(j: JsDate) {
    j.Built? && InCalendar(j.fields)
  }

  /** ToIntegerOrInfinity on a finite number: truncation toward zero. */
  function Truncate(x: real): (r: int)
    ensures 0.0 <= x ==> r as real <= x < r as real + 1.0
    ensures x < 0.0 ==> r as real - 1.0 < x <= r as real
  {
    if x >= 0.0 then x.Floor else -((-x).Floor)
  }

  /** MakeFullYear: `new Date` reads the years 0 to 99 as 1900 to 1999. */
  function FullYear(y: int): (r: int)
    ensures 0 <= y <= 99 ==> r == 1900 + y
    ensures !(0 <= y <= 99) ==> r == y
  {
    if 0 <= y <= 99 then 1900 + y else y
  }

  /** Whether `new Date` can hold a date in year `y` (the TimeClip limit of
      8.64e15 ms either side of 1970, at whole-year precision). */
  predicate InYearRange(y: int) {
    MinYear <= y <= MaxYear
  }

  /** `new Date(year, month0, day)`. */
  function NewDate(year: Number, month0: Number, day: Number): (r: JsDate)
    ensures r.InvalidDate?
        <==> !year.Finite? || !month0.Finite? || !day.Finite? || !InYearRange(FullYear(Truncate(year.value)))
    ensures r.Built? ==> r.fields.year == FullYear(Truncate(year.value))
    ensures r.Built? ==> r.fields.month0 == Truncate(month0.value) && r.fields.day == Truncate(day.value)
  {
    if !year.Finite? || !month0.Finite? || !day.Finite? then InvalidDate
    else
      var y := FullYear(Truncate(year.value));
      if !InYearRange(y) then InvalidDate
      else Built(DateFields(y, Truncate(month0.value), Truncate(day.value)))
  }

  lemma TruncateWhole(i: int)
    ensures Truncate(i as real) == i
  {
  }

  /** On whole numbers `new Date` keeps the fields as they are, apart from
      the two-digit years, and gives an Invalid Date for a year it cannot
      hold. */
  lemma NewDateOfWholeNumbers(y: int, m: int, d: int)
    ensures InYearRange(FullYear(y))
        ==> NewDate(Finite(y as real), Finite(m as real), Finite(d as real)) == Built(DateFields(FullYear(y), m, d))
    ensures !InYearRange(FullYear(y)) ==> NewDate(Finite(y as real), Finite(m as real), Finite(d as real)) == InvalidDate
  {
    TruncateWhole(y);
    TruncateWhole(m);
    TruncateWhole(d);
  }
}
