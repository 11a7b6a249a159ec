/**
 * The date helpers of the tracker (`src/lib/utils/date.ts`) over an abstract host.
 * The current time (`new Date()`, `Date.now()`) is a parameter `now`: a time value in
 * milliseconds. Grouping by month and by day lives in `DateGrouping`.
 */
module DateUtils {
  import opened Wrappers
  import opened Text
  import opened JsDate
  import opened TodoModel

  /** `parseISO`: an invalid date for a missing or empty string, otherwise what the host parses. */
  function ParseISO(h: Host, v: Option<string>): Date {
    if v.None? || v.value == "" then Invalid else h.parse(v.value)
  }

  /** `isValidDate`: the time value is not NaN. */
  predicate IsValidDate(d: Date) {
    d.At?
  }

  // ---------------------------------------------------------------- keys and clock text

  /** `k` spells the local date `l` as the year numeral, a dash, two-digit month, a dash, two-digit day. */
  predicate SpellsDate(k: string, l: Local) {
    var y := IntToString(l.year);
    && |k| == |y| + 6 && k[..|y|] == y && k[|y|] == '-' && k[|y| + 3] == '-'
    && AllDigits(k[|y| + 1..|y| + 3]) && DigitsValue(k[|y| + 1..|y| + 3]) == l.month + 1
    && AllDigits(k[|y| + 4..]) && DigitsValue(k[|y| + 4..]) == l.day
  }

  /** `k` spells the local month of `l` as the year numeral, a dash and the two-digit month. */
  predicate SpellsMonth(k: string, l: Local) {
    var y := IntToString(l.year);
    && |k| == |y| + 3 && k[..|y|] == y && k[|y|] == '-'
    && AllDigits(k[|y| + 1..]) && DigitsValue(k[|y| + 1..]) == l.month + 1
  }

  /** `c` is `HH:mm` for the local time of `l`. */
  predicate SpellsClock(c: string, l: Local) {
    && |c| == 5 && c[2] == ':'
    && AllDigits(c[..2]) && DigitsValue(c[..2]) == l.hour
    && AllDigits(c[3..]) && DigitsValue(c[3..]) == l.minute
  }

  /** The `YYYY-MM` key `groupByMonth` files a date under. */
  function MonthKey(l: Local): string {
    IntToString(l.year) + "-" + Pad2(l.month + 1)
  }

  /** The `YYYY-MM-DD` text of a local date (`formatISODate` of a valid date). */
  function DateKey(l: Local): string {
    IntToString(l.year) + "-" + Pad2(l.month + 1) + "-" + Pad2(l.day)
  }

  /** The `HH:mm` text of a local time. */
  function ClockText(l: Local): string {
    Pad2(l.hour) + ":" + Pad2(l.minute)
  }

  /** The month key is the year numeral, a dash and the two-digit month. */
  lemma MonthKeySpells(l: Local)
    ensures SpellsMonth(MonthKey(l), l)
  {
    Pad2Digits(l.month + 1);
  }

  /** The date text is the year numeral, a dash, the two-digit month, a dash and the two-digit day. */
  lemma DateKeySpells(l: Local)
    ensures SpellsDate(DateKey(l), l)
  {
    Pad2Digits(l.month + 1);
    Pad2Digits(l.day);
    DatePartsSpell(IntToString(l.year), Pad2(l.month + 1), Pad2(l.day), l);
  }

  lemma DatePartsSpell(y: string, m: string, d: string, l: Local)
    requires y == IntToString(l.year)
    requires |m| == 2 && AllDigits(m) && DigitsValue(m) == l.month + 1
    requires |d| == 2 && AllDigits(d) && DigitsValue(d) == l.day
    ensures SpellsDate(y + "-" + m + "-" + d, l)
  {
    var k := y + "-" + m + "-" + d;
    assert k[..|y|] == y;
    assert k[|y| + 1..|y| + 3] == m;
    assert k[|y| + 4..] == d;
  }

  /** The clock text is the two-digit hour, a colon and the two-digit minute. */
  lemma ClockTextSpells(l: Local)
    ensures SpellsClock(ClockText(l), l)
  {
    Pad2Digits(l.hour);
    Pad2Digits(l.minute);
    assert ClockText(l) == Pad2(l.hour) + ":" + Pad2(l.minute);
    ClockPartsSpell(Pad2(l.hour), Pad2(l.minute), l);
  }

  lemma ClockPartsSpell(hh: string, mm: string, l: Local)
    requires |hh| == 2 && AllDigits(hh) && DigitsValue(hh) == l.hour
    requires |mm| == 2 && AllDigits(mm) && DigitsValue(mm) == l.minute
    ensures SpellsClock(hh + ":" + mm, l)
  {
    var c := hh + ":" + mm;
    assert c[..2] == hh;
    assert c[3..] == mm;
  }

  // ---------------------------------------------------------------- formatting

  /** `formatISODate`: every field of an invalid date prints as `NaN`. */
  function FormatISODate(h: Host, d: Date): string {
    match d
    case Invalid => "NaN-NaN-NaN"
    case At(t) => DateKey(h.local(t))
  }

  /** `formatISODate` spells a valid date's local day, and prints `NaN` fields for an invalid one. */
  lemma FormatISODateSpells(h: Host, d: Date)
    ensures d.Invalid? ==> FormatISODate(h, d) == "NaN-NaN-NaN"
    ensures d.At? ==> SpellsDate(FormatISODate(h, d), h.local(d.time))
  {
    if d.At? {
      DateKeySpells(h.local(d.time));
    }
  }

  /**
   * `String(Number(m))` for the month field of a key: `NaN` when the field is missing,
   * `0` for a blank field, and the canonical numeral of a run of decimal digits. Runs
   * of more than 15 digits, which JavaScript rounds to a double, are printed exactly.
   */
  function NumberText(m: Option<string>): string {
    match m
    case None => "NaN"
    case Some(s) =>
      var t := Trim(s);
      if t == "" then "0"
      else if AllDigits(t) then NatToString(DigitsValue(t))
      else "NaN"
  }

  /** The month suffix 月. */
  const MonthSuffix: string := "月"

  /**
   * The suffix as the file spells it: the three UTF-8 bytes of 月 read back as
   * Windows-1252 characters.
   */
  const MonthSuffixAsWritten: string := "\U{00E6}\U{0153}\U{02C6}"

  /** `Number(m)` for the second dash-separated field `m`. */
  function MonthNumberText(ym: string): string {
    var fields := Split(ym, '-');
    NumberText(if |fields| >= 2 then Some(fields[1]) else None)
  }

  /** `formatJPYearMonth` as written: the month number followed by the mis-encoded suffix. */
  function FormatJPYearMonthAsWritten(ym: string): string {
    MonthNumberText(ym) + MonthSuffixAsWritten
  }

  /** `formatJPYearMonth` as intended: the month number followed by 月. */
  function FormatJPYearMonth(ym: string): string {
    MonthNumberText(ym) + MonthSuffix
  }

  /** `formatTime`: `HH:mm` in local time, or nothing for text that does not parse. */
  function FormatTime(h: Host, isoLike: string): (r: Option<string>)
    ensures r.Some? <==> IsValidDate(ParseISO(h, Some(isoLike)))
    ensures r.Some? ==> SpellsClock(r.value, h.local(ParseISO(h, Some(isoLike)).time))
  {
    match ParseISO(h, Some(isoLike))
    case Invalid => None
    case At(t) =>
      ClockTextSpells(h.local(t));
      Some(ClockText(h.local(t)))
  }

  /** `r` is the unpadded month, a slash, and the unpadded day of `l`. */
  predicate SpellsMonthDay(r: string, l: Local) {
    var f := Split(r, '/');
    && |f| == 2
    && f[0] != [] && AllDigits(f[0]) && DigitsValue(f[0]) == l.month + 1 && (|f[0]| > 1 ==> f[0][0] != '0')
    && f[1] != [] && AllDigits(f[1]) && DigitsValue(f[1]) == l.day && (|f[1]| > 1 ==> f[1][0] != '0')
  }

  /** `formatDateJP`: `M/D` in local time, or nothing for text that does not parse. */
  function FormatDateJP(h: Host, iso: string): (r: Option<string>)
    ensures r.Some? <==> IsValidDate(ParseISO(h, Some(iso)))
    ensures r.Some? ==> SpellsMonthDay(r.value, h.local(ParseISO(h, Some(iso)).time))
  {
    match ParseISO(h, Some(iso))
    case Invalid => None
    case At(t) =>
      var l := h.local(t);
      var m, d := NatToString(l.month + 1), NatToString(l.day);
      NoSeparatorInDigits(m, '/');
      NoSeparatorInDigits(d, '/');
      SplitAfter(m, '/', d);
      SplitNone(d, '/');
      Some(IntToString(l.month + 1) + "/" + IntToString(l.day))
  }

  lemma NoSeparatorInDigits(s: string, c: char)
    requires AllDigits(s) && !IsDigit(c)
    ensures c !in s
  {
  }

  // ---------------------------------------------------------------- comparisons

  /** `isSameYMD`: same local year, month and day; the NaN fields of an invalid date equal nothing. */
  predicate IsSameYMD(h: Host, a: Date, b: Date) {
    a.At? && b.At? && SameDay(h.local(a.time), h.local(b.time))
  }

  /** `isTodayISO`: the text parses to a time on the local day of `now`. */
  predicate IsTodayISO(h: Host, iso: string, now: int) {
    var d := ParseISO(h, Some(iso));
    IsValidDate(d) && IsSameYMD(h, d, At(now))
  }

  /** `isPastISO`: the text parses to a time strictly before `now`. */
  predicate IsPastISO(h: Host, iso: string, now: int) {
    var d := ParseISO(h, Some(iso));
    IsValidDate(d) && d.time < now
  }

  // ---------------------------------------------------------------- local <-> ISO

  /** `localDatetimeToISO`: the host's reading of the text, printed as ISO; nothing for empty or unparsable text. */
  function LocalDatetimeToISO(h: Host, local: string): Option<IsoString> {
    if local == "" then None
    else match h.parse(local)
      case Invalid => None
      case At(t) => Some(h.iso(t))
  }

  /** `isoToLocalDatetime`: the local `YYYY-MM-DDTHH:mm` of the text; empty for empty or unparsable text. */
  function IsoToLocalDatetime(h: Host, iso: string): string {
    if iso == "" then ""
    else match h.parse(iso)
      case Invalid => ""
      case At(t) => DateKey(h.local(t)) + "T" + ClockText(h.local(t))
  }

  /** The fields of bare local text `s` are those of `l`. */
  predicate ReadsAs(l: Local, s: string)
    requires IsBareLocal(s)
  {
    && l.year == DigitsValue(s[..4]) && l.month + 1 == DigitsValue(s[5..7]) && l.day == DigitsValue(s[8..10])
    && l.hour == DigitsValue(s[11..13]) && l.minute == DigitsValue(s[14..16])
  }

  // ---------------------------------------------------------------- migration

  /** A reminder still stored in the legacy bare local form. */
  predicate IsLegacy(t: Todo) {
    t.remindAt.Some? && IsBareLocal(t.remindAt.value)
  }

  /** One element of `migrateTodosToISO`: a legacy reminder the host can read becomes ISO text. */
  function MigrateTodo(h: Host, t: Todo): (u: Todo)
    ensures u == t.(remindAt := u.remindAt)
    ensures u.remindAt == t.remindAt || (IsLegacy(t) && u.remindAt.Some? && IsIsoShape(u.remindAt.value))
    ensures IsLegacy(t) && h.parse(t.remindAt.value).At? ==> u.remindAt.Some? && IsIsoShape(u.remindAt.value)
    ensures !IsLegacy(t) ==> u == t
    ensures IsLegacy(t) ==> u.remindAt == match h.parse(t.remindAt.value)
      case At(ms) => Some(h.iso(ms))
      case Invalid => t.remindAt
  {
    if t.remindAt.Some? && t.remindAt.value != "" && IsBareLocal(t.remindAt.value) then
      match LocalDatetimeToISO(h, t.remindAt.value)
      case Some(iso) => t.(remindAt := Some(iso))
      case None => t
    else t
  }

  /** `migrateTodosToISO`; a value that is not an array (`None`) is returned unchanged. */
  function MigrateTodosToISO(h: Host, list: Option<seq<Todo>>): (r: Option<seq<Todo>>)
    ensures list.None? ==> r.None?
    ensures list.Some? ==> r.Some? && |r.value| == |list.value|
    ensures list.Some? ==> forall i :: 0 <= i < |list.value| ==>
      && r.value[i] == list.value[i].(remindAt := r.value[i].remindAt)
      && (r.value[i].remindAt == list.value[i].remindAt
          || (IsLegacy(list.value[i]) && r.value[i].remindAt.Some? && IsIsoShape(r.value[i].remindAt.value)))
    ensures list.Some? ==> forall i :: 0 <= i < |list.value| ==> r.value[i] == MigrateTodo(h, list.value[i])
  {
    match list
    case None => None
    case Some(s) => Some(seq(|s|, i requires 0 <= i < |s| => MigrateTodo(h, s[i])))
  }

  // ---------------------------------------------------------------- lemmas

  /** Missing, empty and unparsable text: every helper takes its "invalid" branch. */
  lemma InvalidText(h: Host, s: string, now: int)
    requires !IsValidDate(ParseISO(h, Some(s)))
    ensures ParseISO(h, None) == Invalid && ParseISO(h, Some("")) == Invalid
    ensures FormatTime(h, s) == None && FormatDateJP(h, s) == None
    ensures !IsTodayISO(h, s, now) && !IsPastISO(h, s, now)
    ensures LocalDatetimeToISO(h, s) == None && IsoToLocalDatetime(h, s) == ""
    ensures forall d :: !IsSameYMD(h, ParseISO(h, Some(s)), d) && !IsSameYMD(h, d, ParseISO(h, Some(s)))
  {
  }

  /** Two local dates have the same `YYYY-MM-DD` text exactly when they are the same day. */
  lemma DateKeyInjective(a: Local, b: Local)
    ensures DateKey(a) == DateKey(b) <==> SameDay(a, b)
  {
    if DateKey(a) == DateKey(b) {
      DateKeySpells(a);
      DateKeySpells(b);
      var k := DateKey(a);
      var ya, yb := IntToString(a.year), IntToString(b.year);
      assert |ya| == |yb|;
      assert ya == k[..|ya|] == yb;
      IntToStringInjective(a.year, b.year);
    }
  }

  /** Two local dates have the same `YYYY-MM` key exactly when they fall in the same month. */
  lemma MonthKeyInjective(a: Local, b: Local)
    ensures MonthKey(a) == MonthKey(b) <==> a.year == b.year && a.month == b.month
  {
    if MonthKey(a) == MonthKey(b) {
      MonthKeySpells(a);
      MonthKeySpells(b);
      var k := MonthKey(a);
      var ya, yb := IntToString(a.year), IntToString(b.year);
      assert |ya| == |yb|;
      assert ya == k[..|ya|] == yb;
      IntToStringInjective(a.year, b.year);
    }
  }

  /** The month key is the date key without its day: a date's key extends its month's key. */
  lemma MonthKeyIsDatePrefix(l: Local)
    ensures |DateKey(l)| == |MonthKey(l)| + 3
    ensures MonthKey(l) == DateKey(l)[..|DateKey(l)| - 3]
  {
    Pad2Digits(l.month + 1);
    Pad2Digits(l.day);
  }

  /** `isSameYMD` of two valid dates agrees with comparing their `formatISODate` texts. */
  lemma SameYMDIffSameDateText(h: Host, a: Date, b: Date)
    requires a.At? && b.At?
    ensures IsSameYMD(h, a, b) <==> FormatISODate(h, a) == FormatISODate(h, b)
  {
    DateKeyInjective(h.local(a.time), h.local(b.time));
  }

  /** `isTodayISO` holds exactly when the text parses and its date text is today's. */
  lemma TodayIffSameDateText(h: Host, iso: string, now: int)
    ensures IsTodayISO(h, iso, now) <==>
      IsValidDate(ParseISO(h, Some(iso))) && FormatISODate(h, ParseISO(h, Some(iso))) == FormatISODate(h, At(now))
  {
    if IsValidDate(ParseISO(h, Some(iso))) {
      SameYMDIffSameDateText(h, ParseISO(h, Some(iso)), At(now));
    }
  }

  /** Once overdue, always overdue: `isPastISO` stays true as the clock advances. */
  lemma PastStaysPast(h: Host, iso: string, now: int, later: int)
    requires IsPastISO(h, iso, now) && now <= later
    ensures IsPastISO(h, iso, later)
  {
  }

  /** Calendar order of local months. */
  predicate MonthBefore(a: Local, b: Local) {
    a.year < b.year || (a.year == b.year && a.month < b.month)
  }

  /** A dash-separated key: an equal-length leading number decides, then the rest. */
  lemma FieldThenRest(p: string, q: string, p': string, q': string)
    requires |p| == |p'| && AllDigits(p) && AllDigits(p')
    ensures StrLess(p + "-" + q, p' + "-" + q') <==>
      DigitsValue(p) < DigitsValue(p') || (DigitsValue(p) == DigitsValue(p') && StrLess(q, q'))
  {
    assert p + "-" + q == p + ("-" + q);
    assert p' + "-" + q' == p' + ("-" + q');
    StrLessConcat(p, "-" + q, p', "-" + q');
    StrLessConcat("-", q, "-", q');
    StrLessIrreflexive("-");
    DigitsOrder(p, p');
  }

  /** For four-digit years, ordinal order of month keys is calendar order of months. */
  lemma MonthKeyOrder(a: Local, b: Local)
    requires 1000 <= a.year <= 9999 && 1000 <= b.year <= 9999
    ensures StrLess(MonthKey(a), MonthKey(b)) <==> MonthBefore(a, b)
  {
    FourDigitYear(a.year);
    FourDigitYear(b.year);
    Pad2Digits(a.month + 1);
    Pad2Digits(b.month + 1);
    MonthPartsOrder(IntToString(a.year), Pad2(a.month + 1), IntToString(b.year), Pad2(b.month + 1), a, b);
  }

  lemma MonthPartsOrder(ya: string, ma: string, yb: string, mb: string, a: Local, b: Local)
    requires |ya| == |yb| && AllDigits(ya) && AllDigits(yb) && DigitsValue(ya) == a.year && DigitsValue(yb) == b.year
    requires |ma| == |mb| && AllDigits(ma) && AllDigits(mb)
    requires DigitsValue(ma) == a.month + 1 && DigitsValue(mb) == b.month + 1
    ensures StrLess(ya + "-" + ma, yb + "-" + mb) <==> MonthBefore(a, b)
  {
    FieldThenRest(ya, ma, yb, mb);
    DigitsOrder(ma, mb);
  }

  /** For four-digit years, ordinal order of date keys is calendar order of days. */
  lemma DateKeyOrder(a: Local, b: Local)
    requires 1000 <= a.year <= 9999 && 1000 <= b.year <= 9999
    ensures StrLess(DateKey(a), DateKey(b)) <==> DayBefore(a, b)
  {
    MonthKeyFacts(a, b);
    DayTextOrder(a, b);
    assert DateKey(a) == MonthKey(a) + "-" + Pad2(a.day);
    assert DateKey(b) == MonthKey(b) + "-" + Pad2(b.day);
    PrefixThenRest(MonthKey(a), Pad2(a.day), MonthKey(b), Pad2(b.day));
  }

  /** For four-digit years, month keys have one length, are equal for the same month and ordered by month. */
  lemma MonthKeyFacts(a: Local, b: Local)
    requires 1000 <= a.year <= 9999 && 1000 <= b.year <= 9999
    ensures |MonthKey(a)| == |MonthKey(b)|
    ensures MonthKey(a) == MonthKey(b) <==> a.year == b.year && a.month == b.month
    ensures StrLess(MonthKey(a), MonthKey(b)) <==> MonthBefore(a, b)
  {
    MonthKeyLength(a);
    MonthKeyLength(b);
    MonthKeyOrder(a, b);
    MonthKeyOrder(b, a);
    StrLessTotal(MonthKey(a), MonthKey(b));
    StrLessIrreflexive(MonthKey(a));
  }

  lemma MonthKeyLength(l: Local)
    requires 1000 <= l.year <= 9999
    ensures |MonthKey(l)| == 7
  {
    FourDigitYear(l.year);
    Pad2Digits(l.month + 1);
  }

  /** Two-digit day texts compare as the days do. */
  lemma DayTextOrder(a: Local, b: Local)
    ensures StrLess(Pad2(a.day), Pad2(b.day)) <==> a.day < b.day
  {
    Pad2Digits(a.day);
    Pad2Digits(b.day);
    DigitsOrder(Pad2(a.day), Pad2(b.day));
  }

  /** Keys that start with equal-length prefixes compare by the prefix, then by what follows the dash. */
  lemma PrefixThenRest(p: string, q: string, p': string, q': string)
    requires |p| == |p'|
    ensures StrLess(p + "-" + q, p' + "-" + q') <==> StrLess(p, p') || (p == p' && StrLess(q, q'))
  {
    assert p + "-" + q == p + ("-" + q);
    assert p' + "-" + q' == p' + ("-" + q');
    StrLessConcat(p, "-" + q, p', "-" + q');
    StrLessConcat("-", q, "-", q');
    StrLessIrreflexive("-");
  }

  /** The month heading of a key built by `groupByMonth` shows the month without padding. */
  lemma JPYearMonthOfMonthKey(l: Local)
    requires l.year >= 0
    ensures MonthNumberText(MonthKey(l)) == NatToString(l.month + 1)
    ensures FormatJPYearMonth(MonthKey(l)) == NatToString(l.month + 1) + MonthSuffix
  {
    Pad2Digits(l.month + 1);
    MonthNumberOfParts(IntToString(l.year), Pad2(l.month + 1));
  }

  lemma MonthNumberOfParts(y: string, m: string)
    requires AllDigits(y) && m != [] && AllDigits(m)
    ensures MonthNumberText(y + "-" + m) == NatToString(DigitsValue(m))
  {
    NoSeparatorInDigits(y, '-');
    NoSeparatorInDigits(m, '-');
    SplitAfter(y, '-', m);
    SplitNone(m, '-');
    assert y + "-" + m == y + ['-'] + m;
    assert Split(y + "-" + m, '-') == [y, m];
    TrimOfDigits(m);
  }

  /** As written, no month label ends in 月: for every input it differs from the intended label. */
  lemma JPYearMonthMisencoded(ym: string)
    ensures FormatJPYearMonthAsWritten(ym) != FormatJPYearMonth(ym)
    ensures |FormatJPYearMonthAsWritten(ym)| == |FormatJPYearMonth(ym)| + 2
  {
    var a, b := FormatJPYearMonthAsWritten(ym), FormatJPYearMonth(ym);
    assert a[|a| - 1] != b[|b| - 1];
  }

  /** The month key of May 2024 is "2024-05", labelled as written 5 followed by three stray characters. */
  lemma MayLabelAsWritten(l: Local)
    requires l.year == 2024 && l.month == 4
    ensures MonthKey(l) == "2024-05"
    ensures FormatJPYearMonthAsWritten(MonthKey(l)) == "5" + MonthSuffixAsWritten
  {
    MayMonthKey(l);
    JPYearMonthOfMonthKey(l);
    assert NatToString(5) == "5";
  }

  lemma MayMonthKey(l: Local)
    requires l.year == 2024 && l.month == 4
    ensures MonthKey(l) == "2024-05"
  {
    Year2024Text();
    Pad2Of5();
    assert MonthKey(l) == "2024" + "-" + "05";
  }

  lemma Year2024Text()
    ensures IntToString(2024) == "2024"
  {
    assert NatToString(2) == "2";
    assert NatToString(20) == "20";
    assert NatToString(202) == "202";
    assert NatToString(2024) == NatToString(202) + [DigitChar(4)];
  }

  lemma Pad2Of5()
    ensures Pad2(5) == "05"
  {
    assert IntToString(5) == "5";
  }

  /** Digits carry no surrounding whitespace. */
  lemma TrimOfDigits(s: string)
    requires s != [] && AllDigits(s)
    ensures Trim(s) == s
  {
    assert !IsJsWhitespace(s[0]) && !IsJsWhitespace(s[|s| - 1]);
  }

  /** For a four-digit year, `isoToLocalDatetime` yields exactly the bare local form, spelling the local fields. */
  lemma LocalDatetimeForm(h: Host, iso: string)
    requires iso != "" && h.parse(iso).At?
    requires 1000 <= h.local(h.parse(iso).time).year <= 9999
    ensures IsBareLocal(IsoToLocalDatetime(h, iso))
    ensures ReadsAs(h.local(h.parse(iso).time), IsoToLocalDatetime(h, iso))
  {
    var l := h.local(h.parse(iso).time);
    FourDigitYear(l.year);
    DateKeySpells(l);
    ClockTextSpells(l);
    LocalDatetimeParts(DateKey(l), ClockText(l), l);
  }

  lemma LocalDatetimeParts(k: string, c: string, l: Local)
    requires |IntToString(l.year)| == 4 && l.year >= 0
    requires SpellsDate(k, l) && SpellsClock(c, l)
    ensures IsBareLocal(k + "T" + c) && ReadsAs(l, k + "T" + c)
  {
    var r := k + "T" + c;
    assert |k| == 10;
    assert r[..4] == k[..4] && r[5..7] == k[5..7] && r[8..10] == k[8..];
    assert r[11..13] == c[..2] && r[14..16] == c[3..];
    assert r[4] == '-' && r[7] == '-' && r[10] == 'T' && r[13] == ':';
  }

  /**
   * Bare local text written by the form survives the round trip through stored ISO text,
   * provided the host reads it as that local time and reads its own ISO output back.
   */
  lemma LocalRoundTrip(h: Host, s: string, t: int)
    requires IsBareLocal(s) && s[0] != '0'
    requires h.parse(s) == At(t) && ReadsAs(h.local(t), s)
    requires h.parse(h.iso(t)) == At(t)
    ensures LocalDatetimeToISO(h, s) == Some(h.iso(t))
    ensures IsoToLocalDatetime(h, h.iso(t)) == s
  {
    var l := h.local(t);
    var y, mo, d, hh, mi := s[..4], s[5..7], s[8..10], s[11..13], s[14..16];
    NatToStringCanonical(y);
    Pad2Canonical(mo);
    Pad2Canonical(d);
    Pad2Canonical(hh);
    Pad2Canonical(mi);
    BareLocalParts(s);
    LocalTextOfParts(l, y, mo, d, hh, mi);
  }

  lemma BareLocalParts(s: string)
    requires IsBareLocal(s)
    ensures s == s[..4] + "-" + s[5..7] + "-" + s[8..10] + "T" + (s[11..13] + ":" + s[14..16])
  {
  }

  lemma LocalTextOfParts(l: Local, y: string, mo: string, d: string, hh: string, mi: string)
    requires IntToString(l.year) == y && Pad2(l.month + 1) == mo && Pad2(l.day) == d
    requires Pad2(l.hour) == hh && Pad2(l.minute) == mi
    ensures DateKey(l) + "T" + ClockText(l) == y + "-" + mo + "-" + d + "T" + (hh + ":" + mi)
  {
  }

  /** Migration never touches a reminder twice: running it again changes nothing. */
  lemma MigrateIdempotent(h: Host, list: Option<seq<Todo>>)
    ensures MigrateTodosToISO(h, MigrateTodosToISO(h, list)) == MigrateTodosToISO(h, list)
  {
    if list.Some? {
      var once := MigrateTodosToISO(h, list).value;
      forall i | 0 <= i < |once|
        ensures MigrateTodo(h, once[i]) == once[i]
      {
        MigrateTodoStable(h, list.value[i]);
      }
      assert MigrateTodosToISO(h, Some(once)).value == once;
    }
  }

  lemma MigrateTodoStable(h: Host, t: Todo)
    ensures MigrateTodo(h, MigrateTodo(h, t)) == MigrateTodo(h, t)
  {
    var u := MigrateTodo(h, t);
    if u != t {
      IsoIsNotBareLocal(u.remindAt.value);
    }
  }

  /** After migration the only reminders left in the bare local form are ones the host cannot read. */
  lemma MigrationLeavesOnlyUnreadableLegacy(h: Host, list: seq<Todo>)
    ensures forall u :: u in MigrateTodosToISO(h, Some(list)).value && IsLegacy(u) ==>
      h.parse(u.remindAt.value).Invalid?
  {
    var r := MigrateTodosToISO(h, Some(list)).value;
    forall u | u in r && IsLegacy(u)
      ensures h.parse(u.remindAt.value).Invalid?
    {
      var i :| 0 <= i < |r| && r[i] == u;
      var t := list[i];
      if u.remindAt != t.remindAt {
        IsoIsNotBareLocal(u.remindAt.value);
      }
    }
  }
}
