/** `date_formatter`: five answers about how dates look in the file become a
    `strptime` pattern such as `%Y-%m-%d`. */
module DateFormat {
  import opened Values
  import opened RubyCore

  datatype MonthForm = MonthNumber | MonthAbbreviation | MonthName
  datatype YearForm = TwoDigitYear | FourDigitYear
  datatype Ordering = YearMonthDay | YearDayMonth | MonthDayYear | DayMonthYear

  /** A recognised description of the file's dates; the day is always `%d`. */
  datatype FormatSpec = FormatSpec(month: MonthForm, year: YearForm, separator: string, ordering: Ordering)

  /** The `ArgumentError` messages "Bad Month", "Bad Day", "Bad Year" and "Bad Ordering". */
  datatype FormatError = BadMonth | BadDay | BadYear | BadOrdering

  /** The five answers, in the order they are asked. */
  datatype FormatAnswers = FormatAnswers(month: string, day: string, year: string, separator: string, ordering: string)

  /** The month answer is downcased before it is compared, so the branches for
      "Jan" and "January" can never be taken. */
  function MonthChoice(answer: string): Option<MonthForm>
  {
    var a := Downcase(answer);
    if a == "1" || a == "number" then Some(MonthNumber)
    else if a == "2" || a == "Jan" then Some(MonthAbbreviation)
    else if a == "3" || a == "January" then Some(MonthName)
    else None
  }

  /** The day answer is compared as typed; "1", "01" and "2" all mean `%d`. */
  predicate DayAccepted(answer: string)
  {
    answer == "1" || answer == "01" || answer == "2"
  }

  function YearChoice(answer: string): Option<YearForm>
  {
    var a := Downcase(answer);
    if a == "1" || a == "2 digits" then Some(TwoDigitYear)
    else if a == "2" || a == "4 digits" then Some(FourDigitYear)
    else None
  }

  function OrderingChoice(answer: string): Option<Ordering>
  {
    var a := Downcase(answer);
    if a == "1" || a == "year-month-day" then Some(YearMonthDay)
    else if a == "2" || a == "year-day-month" then Some(YearDayMonth)
    else if a == "3" || a == "month-day-year" then Some(MonthDayYear)
    else if a == "4" || a == "day-month-year" then Some(DayMonthYear)
    else None
  }

  /** The answers are checked in the order they are asked; the first bad one is reported. */
  function BuildFormat(f: FormatAnswers): Result<FormatSpec, FormatError>
  {
    match MonthChoice(f.month)
    case None => Err(BadMonth)
    case Some(month) =>
      if !DayAccepted(f.day) then Err(BadDay)
      else match YearChoice(f.year)
        case None => Err(BadYear)
        case Some(year) =>
          match OrderingChoice(f.ordering)
          case None => Err(BadOrdering)
          case Some(ordering) => Ok(FormatSpec(month, year, f.separator, ordering))
  }

  function MonthToken(m: MonthForm): string
  {
    match m
    case MonthNumber => "%m"
    case MonthAbbreviation => "%b"
    case MonthName => "%B"
  }

  const DayToken: string := "%d"

  function YearToken(y: YearForm): string
  {
    match y
    case TwoDigitYear => "%y"
    case FourDigitYear => "%Y"
  }

  /** `@date_formatting`: three tokens in the chosen order, with the separator between them. */
  function Pattern(f: FormatSpec): string
  {
    var m, d, y, sep := MonthToken(f.month), DayToken, YearToken(f.year), f.separator;
    match f.ordering
    case YearMonthDay => y + sep + m + sep + d
    case YearDayMonth => y + sep + d + sep + m
    case MonthDayYear => m + sep + d + sep + y
    case DayMonthYear => d + sep + m + sep + y
  }

  function ReadMonth(token: string): Option<MonthForm>
  {
    if token == "%m" then Some(MonthNumber)
    else if token == "%b" then Some(MonthAbbreviation)
    else if token == "%B" then Some(MonthName)
    else None
  }

  function ReadYear(token: string): Option<YearForm>
  {
    if token == "%y" then Some(TwoDigitYear)
    else if token == "%Y" then Some(FourDigitYear)
    else None
  }

  /** Reads three tokens and two separators back: where the day token stands fixes the ordering. */
  function Assemble(first: string, sep: string, second: string, sep': string, third: string): Option<FormatSpec>
  {
    if sep != sep' then None
    else if third == DayToken && ReadYear(first).Some? && ReadMonth(second).Some? then
      Some(FormatSpec(ReadMonth(second).value, ReadYear(first).value, sep, YearMonthDay))
    else if second == DayToken && ReadYear(first).Some? && ReadMonth(third).Some? then
      Some(FormatSpec(ReadMonth(third).value, ReadYear(first).value, sep, YearDayMonth))
    else if second == DayToken && ReadMonth(first).Some? && ReadYear(third).Some? then
      Some(FormatSpec(ReadMonth(first).value, ReadYear(third).value, sep, MonthDayYear))
    else if first == DayToken && ReadMonth(second).Some? && ReadYear(third).Some? then
      Some(FormatSpec(ReadMonth(second).value, ReadYear(third).value, sep, DayMonthYear))
    else None
  }

  /** Reads a pattern back, cutting it into three two-character tokens and two equal separators. */
  function Decompose(p: string): Option<FormatSpec>
  {
    if |p| < 6 || |p| % 2 != 0 then None
    else
      var k := (|p| - 6) / 2;
      Assemble(p[..2], p[2..2 + k], p[2 + k..4 + k], p[4 + k..4 + 2 * k], p[4 + 2 * k..])
  }

  /** A pattern of three two-character tokens cuts back into those tokens. */
  lemma DecomposeJoined(a: string, sep: string, b: string, c: string)
    requires |a| == 2 && |b| == 2 && |c| == 2
    ensures Decompose(a + sep + b + sep + c) == Assemble(a, sep, b, sep, c)
  {
    var p, k := a + sep + b + sep + c, |sep|;
    assert |p| == 6 + 2 * k && (|p| - 6) / 2 == k;
    assert p[..2] == a && p[2..2 + k] == sep && p[2 + k..4 + k] == b;
    assert p[4 + k..4 + 2 * k] == sep && p[4 + 2 * k..] == c;
  }

  /** The pattern determines the description it was built from: no two
      descriptions give the same `strptime` pattern. */
  lemma PatternRoundTrip(f: FormatSpec)
    ensures Decompose(Pattern(f)) == Some(f)
  {
    var m, y, sep := MonthToken(f.month), YearToken(f.year), f.separator;
    TokensDistinct(f.month, f.year);
    match f.ordering
    case YearMonthDay =>
      DecomposeJoined(y, sep, m, DayToken);
    case YearDayMonth =>
      DecomposeJoined(y, sep, DayToken, m);
    case MonthDayYear =>
      DecomposeJoined(m, sep, DayToken, y);
    case DayMonthYear =>
      DecomposeJoined(DayToken, sep, m, y);
  }

  lemma TokensDistinct(month: MonthForm, year: YearForm)
    ensures ReadMonth(MonthToken(month)) == Some(month) && ReadYear(MonthToken(month)) == None
    ensures ReadYear(YearToken(year)) == Some(year) && ReadMonth(YearToken(year)) == None
    ensures ReadMonth(DayToken) == None && ReadYear(DayToken) == None
    ensures MonthToken(month) != DayToken && YearToken(year) != DayToken
    ensures |MonthToken(month)| == 2 && |YearToken(year)| == 2 && |DayToken| == 2
  {
  }

  /** Only the numbered answers choose a month form; the words "Jan" and "January" are refused. */
  lemma MonthWordsUnreachable(answer: string)
    ensures MonthChoice(answer).Some? <==> Downcase(answer) in {"1", "number", "2", "3"}
    ensures Downcase(answer) == "jan" || Downcase(answer) == "january" ==> MonthChoice(answer) == None
  {
    DowncaseNeverHasCapitals(answer, "Jan", 0);
    DowncaseNeverHasCapitals(answer, "January", 0);
  }

  /** Numeric month, two-digit day, four-digit year, "-" and year-month-day give `%Y-%m-%d`;
      typing the month as "Jan" is refused. */
  lemma IsoAnswers()
    ensures BuildFormat(FormatAnswers("1", "01", "2", "-", "1")).Ok?
    ensures Pattern(BuildFormat(FormatAnswers("1", "01", "2", "-", "1")).value) == "%Y-%m-%d"
    ensures BuildFormat(FormatAnswers("Jan", "01", "2", "-", "1")) == Err(BadMonth)
  {
    assert Downcase("1") == "1";
    assert Downcase("2") == "2";
    assert Downcase("Jan") == "jan";
  }
}
