/** The parts of a JavaScript Date that the date helpers touch. A Date holds a time
    value, a whole number of milliseconds from 1970-01-01T00:00:00Z, or NaN for an
    Invalid Date. The constructors apply TimeClip (ECMA-262 section 21.4.1.31), and
    the local-time getters go through Day, YearFromTime, MonthFromTime and
    DateFromTime. The local time zone offset is taken to be 0, so local time is UTC. */
module JsDates {
  import opened Calendar
  import opened Strings

  const MsPerDay := 86400000

  /** The TimeClip bound, 8.64e15 milliseconds: exactly 10^8 days either side of the epoch. */
  const MaxTimeValue := 8640000000000000

  datatype JsDate = Time(ms: int) | InvalidDate

  /** The Number values the getters produce here: an integer, or NaN. */
  datatype Num = Int(value: int) | NaN

  /** new Date(t) for an integral t: TimeClip keeps t within the range and gives NaN beyond it. */
  function NewDate(t: int): (date: JsDate)
    ensures date.Time? <==> -MaxTimeValue <= t <= MaxTimeValue
    ensures date.Time? ==> date.ms == t
  {
    if -MaxTimeValue <= t <= MaxTimeValue then Time(t) else InvalidDate
  }

  /** ECMA-262 Day(t): the day number that contains time value t. */
  function Day(t: int): int
  {
    t / MsPerDay
  }

  /** ECMA-262 LocalTime(t) with a local time zone offset of 0. */
  function LocalTime(t: int): int
  {
    t
  }

  /** The local calendar date of time value t. */
  function LocalCivil(t: int): CivilDate
  {
    CivilFromDays(Day(LocalTime(t)))
  }

  /** new Date(year, monthIndex, day) at local midnight; a year from 0 to 99 means 1900 + year.
      Only month indexes 0 to 11 are modelled: ECMA-262 MakeDay also accepts others and
      carries them into the year, which no call here needs. */
  function NewDateFromParts(year: int, monthIndex: int, day: int): JsDate
    requires 0 <= monthIndex < 12
  {
    var y := if 0 <= year <= 99 then 1900 + year else year;
    NewDate(DaysFromCivil(CivilDate(y, monthIndex, day)) * MsPerDay)
  }

  function GetFullYear(date: JsDate): Num
  {
    match date
    case Time(t) => Int(LocalCivil(t).year)
    case InvalidDate => NaN
  }

  /** getMonth: the 0-based month. */
  function GetMonth(date: JsDate): Num
  {
    match date
    case Time(t) => Int(LocalCivil(t).month)
    case InvalidDate => NaN
  }

  /** getDate: the 1-based day of the month. */
  function GetDate(date: JsDate): Num
  {
    match date
    case Time(t) => Int(LocalCivil(t).day)
    case InvalidDate => NaN
  }

  /** x + k for an integer k; NaN stays NaN. */
  function AddNum(x: Num, k: int): Num
  {
    match x
    case Int(v) => Int(v + k)
    case NaN => NaN
  }

  /** String(x). */
  function NumberToString(x: Num): string
  {
    match x
    case Int(v) => IntToString(v)
    case NaN => "NaN"
  }

  /** A whole number of days, as a time value, is midnight of that day. */
  lemma DayOfMidnight(days: int)
    ensures Day(days * MsPerDay) == days
  {
  }
}
