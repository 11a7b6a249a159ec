/**
 * What the tracker uses of JavaScript's `Date`, kept abstract. The host (the JavaScript
 * engine with its time zone) is a parameter: how it parses a string, which local
 * calendar fields it reports for a time value, where a local day starts, and how it
 * prints `toISOString`. Only the ranges of the local fields and the shape of the ISO
 * text are fixed, by the types.
 */
module JsDate {
  import opened Text

  type Month0 = m: int | 0 <= m <= 11          // getMonth(): January is 0
  type DayOfMonth = d: int | 1 <= d <= 31 witness 1   // getDate()
  type Hour = h: int | 0 <= h <= 23             // getHours()
  type Sixty = m: int | 0 <= m <= 59            // getMinutes(), getSeconds()

  /** The local calendar fields of a time value; the tracker never reads milliseconds. */
  datatype Local = Local(year: int, month: Month0, day: DayOfMonth, hour: Hour, minute: Sixty, second: Sixty)

  /** A `Date` object: its time value is NaN (`Invalid`) or whole milliseconds since the epoch. */
  datatype Date = Invalid | At(time: int)

  /** The text after the year in `toISOString` output: `-MM-DDTHH:mm:ss.sssZ`. */
  predicate IsoTail(t: string) {
    && |t| == 20
    && t[0] == '-' && IsDigit(t[1]) && IsDigit(t[2]) && t[3] == '-' && IsDigit(t[4]) && IsDigit(t[5])
    && t[6] == 'T' && IsDigit(t[7]) && IsDigit(t[8]) && t[9] == ':' && IsDigit(t[10]) && IsDigit(t[11])
    && t[12] == ':' && IsDigit(t[13]) && IsDigit(t[14]) && t[15] == '.'
    && IsDigit(t[16]) && IsDigit(t[17]) && IsDigit(t[18]) && t[19] == 'Z'
  }

  /** `YYYY-MM-DDTHH:mm:ss.sssZ`, or the six-digit signed year form `±YYYYYY-…Z`. */
  predicate IsIsoShape(s: string) {
    || (|s| == 24 && IsDigit(s[0]) && IsDigit(s[1]) && IsDigit(s[2]) && IsDigit(s[3]) && IsoTail(s[4..]))
    || (|s| == 27 && (s[0] == '+' || s[0] == '-') && IsDigit(s[1]) && IsDigit(s[2]) && IsDigit(s[3])
        && IsDigit(s[4]) && IsDigit(s[5]) && IsDigit(s[6]) && IsoTail(s[7..]))
  }

  type IsoString = s: string | IsIsoShape(s) witness EpochIso()

  /** `new Date(0).toISOString()`. */
  function EpochIso(): (s: string)
    ensures IsIsoShape(s)
  {
    var tail := "-01-01T00:00:00.000Z";
    assert IsoTail(tail);
    var s := "1970" + tail;
    assert s[4..] == tail;
    s
  }

  /** The JavaScript engine and its time zone, as far as the tracker relies on them. */
  datatype Host = Host(
    parse: string -> Date,                              // new Date(s)
    local: int -> Local,                                // getFullYear() … getSeconds() of a time value
    startOfDay: (int, Month0, DayOfMonth) -> int,       // local midnight of a full-year date
    iso: int -> IsoString)                              // toISOString() of a valid time value

  /** Calendar order of the local dates (time of day ignored). */
  predicate DayBefore(a: Local, b: Local) {
    a.year < b.year || (a.year == b.year && (a.month < b.month || (a.month == b.month && a.day < b.day)))
  }

  predicate SameDay(a: Local, b: Local) {
    a.year == b.year && a.month == b.month && a.day == b.day
  }

  /**
   * `new Date(y, m, d)` reads a year from 0 to 99 as 1900 to 1999; every other year is
   * taken as it is. The constructor's midnight is `startOfDay(DateCtorYear(y), m, d)`.
   */
  function DateCtorYear(y: int): int {
    if 0 <= y <= 99 then 1900 + y else y
  }

  /**
   * Local midnights of full-year dates come in calendar order, as in every real time
   * zone for real calendar dates. The host's local fields are always a real date, so a
   * day the month lacks (which `new Date` would roll into the next month) never reaches
   * `startOfDay`. The two-digit-year rule of `DateCtorYear` is outside this premise.
   */
  ghost predicate StartOfDayIncreasing(h: Host) {
    forall a: Local, b: Local :: DayBefore(a, b) ==>
      h.startOfDay(a.year, a.month, a.day) < h.startOfDay(b.year, b.month, b.day)
  }

  /** The bare local date-time form `^\d{4}-\d{2}-\d{2}T\d{2}:\d{2}$` (an `<input type="datetime-local">` value). */
  predicate IsBareLocal(s: string) {
    && |s| == 16
    && AllDigits(s[..4]) && s[4] == '-' && AllDigits(s[5..7]) && s[7] == '-' && AllDigits(s[8..10])
    && s[10] == 'T' && AllDigits(s[11..13]) && s[13] == ':' && AllDigits(s[14..16])
  }

  /** ISO text never has the bare local form: it is longer and ends in `Z`. */
  lemma IsoIsNotBareLocal(s: IsoString)
    ensures !IsBareLocal(s)
  {
  }
}
