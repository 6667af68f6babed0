/** The conversation `WeedingHelper` holds with its user, one answer at a time: each
    method of the class is a step from the instance variables before it to the
    instance variables after it, with an outcome. Every answer the script reads with
    `gets` is a parameter; where the script would print a complaint and `retry`, the
    step ends with `Failed`, leaving the instance variables as they were at the raise. */
module Workflow {
  import opened Values
  import opened RubyCore
  import opened Dedup
  import opened Columns
  import opened DateFormat
  import opened Candidates
  import opened Filters

  /** The instance variables `@file_data`, `@headers`, `@chosen_indexes`, `@date_formatting`. */
  datatype Session = Session(fileData: Table, headers: Row, chosenIndexes: seq<int>, dateFormatting: string)

  /** What made a step give up; the script would complain and ask again. */
  datatype Failure =
    | ColumnRejected                    // "One of your numbers isn't a real column."
    | FormatRejected(formatError: FormatError) // "Invalid Value. Restarting..."
    | ComparisonDateRejected            // "That's not a date I can work with!"
    | CellRejected(cellError: CellError) // a file cell that `strptime` refuses, or a division by zero years
    | UnknownComparison                 // "Invalid Choice, yo."
    | UnknownCommand                    // "Unknown command number or word"

  datatype Outcome = Done | Exited | Failed(why: Failure)

  datatype Step = Step(after: Session, outcome: Outcome)

  /** The answers `compare_dates` reads: its columns, the five format answers, the threshold. */
  datatype DateAnswers = DateAnswers(columns: string, format: FormatAnswers, comparison: string)

  /** The answers `compare_circs` reads; the last two only on the "average" path. */
  datatype CircAnswers = CircAnswers(columns: string, choice: string, minimum: string,
                                     dateColumns: string, dateFormat: FormatAnswers)

  /** The answers `criteria_selection` and the comparisons it runs read. */
  datatype CriteriaAnswers = CriteriaAnswers(option: string, dates: DateAnswers, circs: CircAnswers)

  /** The format the comparison date must be typed in (weeding.rb:158). */
  const IsoFormat: string := "%Y-%m-%d"

  /** `initialize`: `CSV.read(...).to_a` keeps the header row as the first row of
      `@file_data`, and `@headers` is that row. */
  function Load(headerRow: Row, dataRows: Table): (s: Session)
    ensures |s.fileData| == |dataRows| + 1 && s.fileData[0] == s.headers == headerRow
    ensures s.fileData[1..] == dataRows
  {
    Session([headerRow] + dataRows, headerRow, [], "")
  }

  /** `choose_column`: `@chosen_indexes` is assigned before the range check, so a
      refused answer leaves its indexes behind. */
  function ChooseColumn(s: Session, answer: string): Step
  {
    var indexes := ChosenIndexes(answer);
    var after := s.(chosenIndexes := indexes);
    if Accepted(indexes, |s.headers|) then Step(after, Done) else Step(after, Failed(ColumnRejected))
  }

  /** `date_formatter`: `@date_formatting` changes only once all five answers are good. */
  function DateFormatter(s: Session, f: FormatAnswers): Step
  {
    match BuildFormat(f)
    case Err(e) => Step(s, Failed(FormatRejected(e)))
    case Ok(spec) => Step(s.(dateFormatting := Pattern(spec)), Done)
  }

  /** `compare_dates`. */
  function CompareDates(s: Session, a: DateAnswers, parse: Parser): Step
  {
    var c := ChooseColumn(s, a.columns);
    if c.outcome != Done then c
    else
      var f := DateFormatter(c.after, a.format);
      if f.outcome != Done then f
      else
        var s1 := f.after;
        match parse(a.comparison, IsoFormat)
        case None => Step(s1, Failed(ComparisonDateRejected))
        case Some(threshold) =>
          match DateFilter(s1.fileData, s1.chosenIndexes, s1.dateFormatting, parse, threshold)
          case Err(e) => Step(s1, Failed(CellRejected(e)))
          case Ok(kept) => Step(s1.(fileData := kept), Done)
  }

  /** The `begin` block of `compare_circs` (weeding.rb:184-245), entered with the
      circulation columns in `@chosen_indexes`. */
  function CircComparison(s: Session, a: CircAnswers, parse: Parser, currentYear: int): Step
  {
    var choice := Downcase(a.choice);
    var minimum := ToI(a.minimum);
    if choice == "1" || choice == "absolute" then
      Step(s.(fileData := CountFilter(s.fileData, s.chosenIndexes, minimum)), Done)
    else if choice == "2" || choice == "average" then
      var circColumns := s.chosenIndexes;
      var c := ChooseColumn(s, a.dateColumns);
      if c.outcome != Done then c
      else
        var f := DateFormatter(c.after, a.dateFormat);
        if f.outcome != Done then f
        else
          var s1 := f.after;
          match AverageFilter(s1.fileData, circColumns, s1.chosenIndexes, s1.dateFormatting, parse, currentYear, minimum)
          case Err(e) => Step(s1, Failed(CellRejected(e)))
          case Ok(kept) => Step(s1.(fileData := kept), Done)
    else Step(s, Failed(UnknownComparison))
  }

  /** `compare_circs`: choose the circulation columns, then compare. */
  function CompareCircs(s: Session, a: CircAnswers, parse: Parser, currentYear: int): Step
  {
    var c := ChooseColumn(s, a.columns);
    if c.outcome != Done then c else CircComparison(c.after, a, parse, currentYear)
  }

  datatype Command = ByDate | ByCirculation | ByBoth | Quit

  /** The `case` of `criteria_selection` on the downcased answer. */
  function CriteriaCommand(option: string): Option<Command>
  {
    var o := Downcase(option);
    if o == "1" || o == "dates" || o == "age" then Some(ByDate)
    else if o == "2" || o == "circulation" then Some(ByCirculation)
    else if o == "3" || o == "both" then Some(ByBoth)
    else if o == "exit" then Some(Quit)
    else None
  }

  /** `criteria_selection`; "both" compares by date first and then by circulation. */
  function CriteriaSelection(s: Session, a: CriteriaAnswers, parse: Parser, currentYear: int): Step
  {
    match CriteriaCommand(a.option)
    case None => Step(s, Failed(UnknownCommand))
    case Some(ByDate) => CompareDates(s, a.dates, parse)
    case Some(ByCirculation) => CompareCircs(s, a.circs, parse, currentYear)
    case Some(ByBoth) =>
      var d := CompareDates(s, a.dates, parse);
      if d.outcome != Done then d else CompareCircs(d.after, a.circs, parse, currentYear)
    case Some(Quit) => Step(s, Exited)
  }

  /** The collection pattern ends the program only when typed exactly "exit" or "EXIT". */
  predicate IsExit(collection: string)
  {
    collection == "exit" || collection == "EXIT"
  }

  /** `collection_selection`, which goes on to `criteria_selection`. */
  function CollectionSelection(s: Session, columns: string, collection: string, criteria: CriteriaAnswers,
                               parse: Parser, currentYear: int): Step
  {
    var c := ChooseColumn(s, columns);
    if c.outcome != Done then c
    else if IsExit(collection) then Step(c.after, Exited)
    else
      var narrowed := c.after.(fileData := MatchingAll(c.after.fileData, c.after.chosenIndexes, collection));
      CriteriaSelection(narrowed, criteria, parse, currentYear)
  }

  /** Past the column question and a collection other than "exit", the collection step
      is the criteria step on the narrowed table. */
  lemma CollectionSelectionContinues(s: Session, columns: string, collection: string, criteria: CriteriaAnswers,
                                     parse: Parser, currentYear: int)
    requires Accepted(ChosenIndexes(columns), |s.headers|) && !IsExit(collection)
    ensures var chosen := s.(chosenIndexes := ChosenIndexes(columns));
      CollectionSelection(s, columns, collection, criteria, parse, currentYear)
      == CriteriaSelection(chosen.(fileData := MatchingAll(s.fileData, chosen.chosenIndexes, collection)),
                           criteria, parse, currentYear)
  {
  }

  /** The script's main program: read the file, then `collection_selection`. */
  function Weed(headerRow: Row, dataRows: Table, columns: string, collection: string, criteria: CriteriaAnswers,
                parse: Parser, currentYear: int): Step
  {
    CollectionSelection(Load(headerRow, dataRows), columns, collection, criteria, parse, currentYear)
  }

  // ================================================================ properties

  /** Typing 1-based column numbers chooses them, in order and with repetitions, and the
      answer is accepted exactly when each names a header; either way nothing but
      `@chosen_indexes` changes, and a refused answer stays in `@chosen_indexes`. */
  lemma ChooseTypedColumns(s: Session, numbers: seq<nat>)
    requires |numbers| >= 1
    ensures var c := ChooseColumn(s, Answer(numbers));
      && c.after == s.(chosenIndexes := c.after.chosenIndexes)
      && |c.after.chosenIndexes| == |numbers|
      && (forall k :: 0 <= k < |numbers| ==> c.after.chosenIndexes[k] == numbers[k] as int - 1)
      && (c.outcome == Done <==> forall k :: 0 <= k < |numbers| ==> 1 <= numbers[k] <= |s.headers|)
      && (c.outcome == Done || c.outcome == Failed(ColumnRejected))
  {
    TypedColumnsResolve(numbers, |s.headers|);
  }

  /** Column 0 does not exist: its index -1 is refused, and stays in `@chosen_indexes`. */
  lemma ColumnZeroRejected(s: Session)
    ensures ChooseColumn(s, "0") == Step(s.(chosenIndexes := [-1]), Failed(ColumnRejected))
  {
    assert Numerals([0]) == ["0"];
    assert Answer([0]) == "0";
    TypedColumnsResolve([0], |s.headers|);
    assert ChosenIndexes("0") == [-1];
    assert !Accepted([-1], |s.headers|);
  }

  /** A refused date format leaves `@date_formatting` as it was; an accepted one stores
      a pattern that determines the answers' meaning. */
  lemma DateFormatterSpec(s: Session, f: FormatAnswers)
    ensures DateFormatter(s, f).outcome == Done <==> BuildFormat(f).Ok?
    ensures DateFormatter(s, f).outcome != Done ==>
      DateFormatter(s, f) == Step(s, Failed(FormatRejected(BuildFormat(f).error)))
    ensures DateFormatter(s, f).outcome == Done ==>
      DateFormatter(s, f).after == s.(dateFormatting := DateFormatter(s, f).after.dateFormatting)
      && Decompose(DateFormatter(s, f).after.dateFormatting) == Some(BuildFormat(f).value)
  {
    if BuildFormat(f).Ok? {
      PatternRoundTrip(BuildFormat(f).value);
    }
  }

  /** Comparing by date keeps, once each, the rows with a chosen date strictly before the
      threshold; a cell that does not parse keeps the whole table, as does any refused answer. */
  lemma CompareDatesSpec(s: Session, a: DateAnswers, parse: Parser)
    ensures var d := CompareDates(s, a, parse);
      && d.after.headers == s.headers
      && (d.outcome.Failed? ==> d.after.fileData == s.fileData)
      && (d.outcome == Done || d.outcome.Failed?)
      && (d.outcome == Done ==>
            && parse(a.comparison, IsoFormat).Some?
            && NoDup(d.after.fileData)
            && InOrderOf(d.after.fileData, s.fileData)
            && d.after.chosenIndexes == ChosenIndexes(a.columns)
            && BuildFormat(a.format).Ok?
            && d.after.dateFormatting == Pattern(BuildFormat(a.format).value)
            && forall x :: x in d.after.fileData <==>
                 (x in s.fileData && exists idx :: (idx in d.after.chosenIndexes
                   && DatedBefore(x, idx, d.after.dateFormatting, parse, parse(a.comparison, IsoFormat).value))))
  {
    var c := ChooseColumn(s, a.columns);
    if c.outcome == Done {
      var f := DateFormatter(c.after, a.format);
      if f.outcome == Done && parse(a.comparison, IsoFormat).Some? {
        var s1 := f.after;
        DateFilterSpec(s1.fileData, s1.chosenIndexes, s1.dateFormatting, parse, parse(a.comparison, IsoFormat).value);
      }
    }
  }

  /** The absolute comparison keeps, once each, the rows with some chosen circulation
      cell whose `to_i` is at most the minimum; it cannot fail. */
  lemma AbsoluteSpec(s: Session, a: CircAnswers, parse: Parser, currentYear: int)
    requires Downcase(a.choice) == "1" || Downcase(a.choice) == "absolute"
    ensures var r := CircComparison(s, a, parse, currentYear);
      && r.outcome == Done
      && r.after == s.(fileData := r.after.fileData)
      && NoDup(r.after.fileData)
      && InOrderOf(r.after.fileData, s.fileData)
      && forall x :: x in r.after.fileData <==>
           x in s.fileData && exists idx :: idx in s.chosenIndexes && CellToI(x, idx) <= ToI(a.minimum)
  {
    CountFilterSpec(s.fileData, s.chosenIndexes, ToI(a.minimum));
  }

  /** The average comparison divides by the years of the date columns chosen second, but
      takes the circulations from the columns chosen first, although choosing the date
      columns overwrites `@chosen_indexes`. */
  lemma AverageUsesFirstSelection(s: Session, a: CircAnswers, parse: Parser, currentYear: int)
    requires Downcase(a.choice) == "2" || Downcase(a.choice) == "average"
    requires Accepted(ChosenIndexes(a.dateColumns), |s.headers|) && BuildFormat(a.dateFormat).Ok?
    ensures var r := CircComparison(s, a, parse, currentYear);
      var format := Pattern(BuildFormat(a.dateFormat).value);
      var avg := AverageFilter(s.fileData, s.chosenIndexes, ChosenIndexes(a.dateColumns), format, parse,
                               currentYear, ToI(a.minimum));
      && r.after.chosenIndexes == ChosenIndexes(a.dateColumns)
      && r.after.dateFormatting == format
      && (avg.Err? ==> r == Step(r.after, Failed(CellRejected(avg.error))) && r.after.fileData == s.fileData)
      && (avg.Ok? ==>
            && r.outcome == Done && NoDup(r.after.fileData)
            && r.after.fileData == avg.value
            && InOrderOf(r.after.fileData, s.fileData)
            && forall x :: x in r.after.fileData <==>
                 (x in s.fileData && exists c, d :: (c in s.chosenIndexes && d in ChosenIndexes(a.dateColumns)
                   && LowAverage(x, c, d, format, parse, currentYear, ToI(a.minimum)))))
  {
    AverageFilterSpec(s.fileData, s.chosenIndexes, ChosenIndexes(a.dateColumns),
                      Pattern(BuildFormat(a.dateFormat).value), parse, currentYear, ToI(a.minimum));
  }

  /** The `retry` at weeding.rb:244 goes back to the comparison question only, not to
      `choose_column`. After an average comparison that failed on a cell, `@chosen_indexes`
      holds the date columns, so answering "average" again takes the circulations from
      the date columns. */
  lemma AverageRetryReadsDateColumns(s: Session, a: CircAnswers, again: CircAnswers, parse: Parser, currentYear: int)
    requires Downcase(a.choice) == "average" && CircComparison(s, a, parse, currentYear).outcome.Failed?
    requires CircComparison(s, a, parse, currentYear).outcome.why.CellRejected?
    requires Downcase(again.choice) == "average"
    requires Accepted(ChosenIndexes(again.dateColumns), |s.headers|) && BuildFormat(again.dateFormat).Ok?
    ensures var failed := CircComparison(s, a, parse, currentYear).after;
      var format := Pattern(BuildFormat(again.dateFormat).value);
      var avg := AverageFilter(s.fileData, ChosenIndexes(a.dateColumns), ChosenIndexes(again.dateColumns), format,
                               parse, currentYear, ToI(again.minimum));
      && failed.fileData == s.fileData && failed.chosenIndexes == ChosenIndexes(a.dateColumns)
      && CircComparison(failed, again, parse, currentYear).after.fileData == (if avg.Ok? then avg.value else s.fileData)
  {
    AverageUsesFirstSelection(s, a, parse, currentYear);
    var failed := CircComparison(s, a, parse, currentYear).after;
    AverageUsesFirstSelection(failed, again, parse, currentYear);
  }

  /** `compare_circs` with accepted circulation columns and a comparison answer other
      than the four accepted words: it raises `ArgumentError` with the table, the headers
      and the date format as they were, and `@chosen_indexes` holding the circulation
      columns just chosen. */
  lemma UnknownComparisonAfterChoice(s: Session, a: CircAnswers, parse: Parser, currentYear: int)
    requires Accepted(ChosenIndexes(a.columns), |s.headers|)
    requires Downcase(a.choice) !in {"1", "absolute", "2", "average"}
    ensures var r := CompareCircs(s, a, parse, currentYear);
      && r.outcome == Failed(UnknownComparison)
      && r.after.fileData == s.fileData && r.after.headers == s.headers
      && r.after.dateFormatting == s.dateFormatting
      && r.after.chosenIndexes == ChosenIndexes(a.columns)
  {
  }

  /** Every step only ever removes rows: what is left was in the table before, and the
      headers never change. */
  lemma CompareCircsShrinks(s: Session, a: CircAnswers, parse: Parser, currentYear: int)
    ensures var r := CompareCircs(s, a, parse, currentYear);
      r.after.headers == s.headers && (r.outcome.Failed? ==> r.after.fileData == s.fileData)
      && (r.outcome == Done || r.outcome.Failed?)
      && forall x :: x in r.after.fileData ==> x in s.fileData
  {
    var c := ChooseColumn(s, a.columns);
    if c.outcome == Done {
      var s1 := c.after;
      var choice := Downcase(a.choice);
      if choice == "1" || choice == "absolute" {
        AbsoluteSpec(s1, a, parse, currentYear);
      } else if choice == "2" || choice == "average" {
        var c2 := ChooseColumn(s1, a.dateColumns);
        if c2.outcome == Done {
          var f := DateFormatter(c2.after, a.dateFormat);
          if f.outcome == Done {
            AverageUsesFirstSelection(s1, a, parse, currentYear);
          }
        }
      }
    }
  }

  lemma CriteriaShrinks(s: Session, a: CriteriaAnswers, parse: Parser, currentYear: int)
    ensures var r := CriteriaSelection(s, a, parse, currentYear);
      r.after.headers == s.headers && forall x :: x in r.after.fileData ==> x in s.fileData
  {
    match CriteriaCommand(a.option)
    case None =>
    case Some(ByDate) =>
      CompareDatesSpec(s, a.dates, parse);
    case Some(ByCirculation) =>
      CompareCircsShrinks(s, a.circs, parse, currentYear);
    case Some(ByBoth) =>
      CompareDatesSpec(s, a.dates, parse);
      var d := CompareDates(s, a.dates, parse);
      if d.outcome == Done {
        CompareCircsShrinks(d.after, a.circs, parse, currentYear);
      }
    case Some(Quit) =>
  }

  /** The answer to "What would you like to use?" is read without regard to letter
      case: it selects the same command as its downcased form, so "DATES" compares by
      date and "Both" runs both comparisons. */
  lemma CriteriaCommandIgnoresCase(option: string)
    ensures CriteriaCommand(option) == CriteriaCommand(Downcase(option))
    ensures CriteriaCommand("DATES") == Some(ByDate) && CriteriaCommand("Both") == Some(ByBoth)
  {
    DowncaseIdempotent(option);
    assert Downcase("DATES") == "dates";
    assert Downcase("Both") == "both";
  }

  /** "Exit" ends the criteria question, but as a collection name it is a pattern to match. */
  lemma ExitSpellings()
    ensures CriteriaCommand("Exit") == Some(Quit)
    ensures !IsExit("Exit")
  {
    assert Downcase("Exit") == "exit";
  }

  /** "Both" filters by date and then by circulation: with the absolute comparison it keeps
      exactly the rows that have a chosen date before the threshold and a chosen
      circulation count at most the minimum. */
  lemma BothIsDatesThenCircs(s: Session, a: CriteriaAnswers, parse: Parser, currentYear: int)
    requires CriteriaCommand(a.option) == Some(ByBoth)
    requires Downcase(a.circs.choice) == "absolute"
    requires CriteriaSelection(s, a, parse, currentYear).outcome == Done
    ensures var r := CriteriaSelection(s, a, parse, currentYear);
      var threshold := parse(a.dates.comparison, IsoFormat).value;
      var format := Pattern(BuildFormat(a.dates.format).value);
      && parse(a.dates.comparison, IsoFormat).Some? && BuildFormat(a.dates.format).Ok?
      && NoDup(r.after.fileData)
      && forall x :: x in r.after.fileData <==>
           && x in s.fileData
           && (exists idx :: idx in ChosenIndexes(a.dates.columns) && DatedBefore(x, idx, format, parse, threshold))
           && (exists idx :: idx in ChosenIndexes(a.circs.columns) && CellToI(x, idx) <= ToI(a.circs.minimum))
  {
    var d := CompareDates(s, a.dates, parse);
    CompareDatesSpec(s, a.dates, parse);
    assert d.outcome == Done;
    DateFormatterSpec(ChooseColumn(s, a.dates.columns).after, a.dates.format);
    var c := ChooseColumn(d.after, a.circs.columns);
    assert c.outcome == Done;
    AbsoluteSpec(c.after, a.circs, parse, currentYear);
  }

  /** Typing "exit" or "EXIT" as the collection ends the program with the table untouched. */
  lemma CollectionExitKeepsTable(s: Session, columns: string, collection: string, criteria: CriteriaAnswers,
                                 parse: Parser, currentYear: int)
    requires IsExit(collection)
    ensures var r := CollectionSelection(s, columns, collection, criteria, parse, currentYear);
      r.after.fileData == s.fileData && (r.outcome == Exited || r.outcome == Failed(ColumnRejected))
  {
  }

  /** Whatever the criteria, every row left after the collection step was in the table and
      holds the collection pattern in every chosen collection column. */
  lemma CollectionSelectionNarrows(s: Session, columns: string, collection: string, criteria: CriteriaAnswers,
                                   parse: Parser, currentYear: int)
    requires !IsExit(collection) && Accepted(ChosenIndexes(columns), |s.headers|)
    ensures var r := CollectionSelection(s, columns, collection, criteria, parse, currentYear);
      r.after.headers == s.headers
      && forall x :: x in r.after.fileData ==> x in s.fileData && MatchesAll(x, ChosenIndexes(columns), collection)
  {
    var c := ChooseColumn(s, columns);
    var narrowed := c.after.(fileData := MatchingAll(c.after.fileData, c.after.chosenIndexes, collection));
    MatchingAllSpec(s.fileData, ChosenIndexes(columns), collection);
    CriteriaShrinks(narrowed, criteria, parse, currentYear);
  }

  /** The header row is part of `@file_data`, so it goes through the filters too: with a
      minimum of 0 or more, the absolute comparison keeps it whenever a chosen header is text. */
  lemma HeaderRowKeptByAbsolute(headerRow: Row, dataRows: Table, cols: seq<int>, minimum: int, idx: int)
    requires idx in cols && minimum >= 0
    requires CellAt(headerRow, idx).Some? && ToI(CellAt(headerRow, idx).value) == 0
    ensures headerRow in CountFilter(Load(headerRow, dataRows).fileData, cols, minimum)
  {
    CountFilterSpec(Load(headerRow, dataRows).fileData, cols, minimum);
  }

  /** Nothing the conversation does adds a row: whatever is written out was read from the file. */
  lemma WeedKeepsOnlyFileRows(headerRow: Row, dataRows: Table, columns: string, collection: string,
                              criteria: CriteriaAnswers, parse: Parser, currentYear: int)
    ensures var rows := Weed(headerRow, dataRows, columns, collection, criteria, parse, currentYear).after.fileData;
      forall x :: x in rows ==> x == headerRow || x in dataRows
  {
    var s := Load(headerRow, dataRows);
    if !IsExit(collection) && Accepted(ChosenIndexes(columns), |s.headers|) {
      CollectionSelectionNarrows(s, columns, collection, criteria, parse, currentYear);
    }
  }
}
