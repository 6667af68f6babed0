/** The class `WeedingHelper` itself: its four instance variables, updated in place by
    its methods as the script updates them. Each method is proved to leave the object in
    the state the matching step of `Workflow` describes, so the properties proved there
    hold of the object. */
module Weeding {
  import opened Values
  import opened RubyCore
  import opened Dedup
  import opened Columns
  import opened DateFormat
  import opened Candidates
  import opened Filters
  import Workflow

  class WeedingHelper {
    var fileData: Table
    var headers: Row
    var chosenIndexes: seq<int>
    var dateFormatting: string

    /** The instance variables as one value. */
    function State(): Workflow.Session
      reads this
    {
      Workflow.Session(fileData, headers, chosenIndexes, dateFormatting)
    }

    /** `initialize`, with the file already read into its header row and data rows. */
    constructor(headerRow: Row, dataRows: Table)
      ensures State() == Workflow.Load(headerRow, dataRows)
    {
      fileData := [headerRow] + dataRows;
      headers := headerRow;
      chosenIndexes := [];
      dateFormatting := "";
    }

    /** `choose_column`: split and read the answer, shift every index down by one in
        place, then check each against the headers. */
    method ChooseColumn(answer: string) returns (ok: bool)
      modifies this
      ensures State() == Workflow.ChooseColumn(old(State()), answer).after
      ensures ok <==> Workflow.ChooseColumn(old(State()), answer).outcome == Workflow.Done
    {
      ghost var before := State();
      var read := ReadNumbers(RubySplit(answer, ','));
      chosenIndexes := read;
      for k := 0 to |read|
        invariant fileData == before.fileData && headers == before.headers && dateFormatting == before.dateFormatting
        invariant |chosenIndexes| == |read|
        invariant forall j :: 0 <= j < k ==> chosenIndexes[j] == read[j] - 1
        invariant forall j :: k <= j < |read| ==> chosenIndexes[j] == read[j]
      {
        chosenIndexes := chosenIndexes[k := chosenIndexes[k] - 1];
      }
      IndexesOfPieces(answer, read, |headers|);
      assert chosenIndexes == ChosenIndexes(answer);
      ok := AllBetween(chosenIndexes, |headers|);
    }

    /** `date_formatter`: each answer picks its `strptime` token, and the ordering joins
        them with the separator into `@date_formatting`. */
    method DateFormatter(f: FormatAnswers) returns (ok: bool)
      modifies this
      ensures State() == Workflow.DateFormatter(old(State()), f).after
      ensures ok <==> Workflow.DateFormatter(old(State()), f).outcome == Workflow.Done
    {
      var monthChoice := MonthChoice(f.month);
      if monthChoice.None? {
        return false;
      }
      var monthType := MonthToken(monthChoice.value);
      if !DayAccepted(f.day) {
        return false;
      }
      var dayType := DayToken;
      var yearChoice := YearChoice(f.year);
      if yearChoice.None? {
        return false;
      }
      var yearType := YearToken(yearChoice.value);
      var separatorCharacter := f.separator;
      var ordering := OrderingChoice(f.ordering);
      if ordering.None? {
        return false;
      }
      match ordering.value {
        case YearMonthDay =>
          dateFormatting := yearType + separatorCharacter + monthType + separatorCharacter + dayType;
        case YearDayMonth =>
          dateFormatting := yearType + separatorCharacter + dayType + separatorCharacter + monthType;
        case MonthDayYear =>
          dateFormatting := monthType + separatorCharacter + dayType + separatorCharacter + yearType;
        case DayMonthYear =>
          dateFormatting := dayType + separatorCharacter + monthType + separatorCharacter + yearType;
      }
      return true;
    }

    /** `compare_dates`. */
    method CompareDates(a: Workflow.DateAnswers, parse: Parser) returns (outcome: Workflow.Outcome)
      modifies this
      ensures State() == Workflow.CompareDates(old(State()), a, parse).after
      ensures outcome == Workflow.CompareDates(old(State()), a, parse).outcome
    {
      var ok := ChooseColumn(a.columns);
      if !ok {
        return Workflow.Failed(Workflow.ColumnRejected);
      }
      ok := DateFormatter(a.format);
      if !ok {
        return Workflow.Failed(Workflow.FormatRejected(BuildFormat(a.format).error));
      }
      var comparingDate := parse(a.comparison, Workflow.IsoFormat);
      if comparingDate.None? {
        return Workflow.Failed(Workflow.ComparisonDateRejected);
      }
      var candidates := DateCandidates(fileData, chosenIndexes, dateFormatting, parse, comparingDate.value);
      if candidates.Err? {
        return Workflow.Failed(Workflow.CellRejected(candidates.error));
      }
      fileData := Uniq(candidates.value);
      return Workflow.Done;
    }

    /** `compare_circs`; on the "average" path the circulation columns are saved before
        `choose_column` overwrites `@chosen_indexes` with the date columns. */
    method CompareCircs(a: Workflow.CircAnswers, parse: Parser, currentYear: int) returns (outcome: Workflow.Outcome)
      modifies this
      ensures State() == Workflow.CompareCircs(old(State()), a, parse, currentYear).after
      ensures outcome == Workflow.CompareCircs(old(State()), a, parse, currentYear).outcome
    {
      var ok := ChooseColumn(a.columns);
      if !ok {
        return Workflow.Failed(Workflow.ColumnRejected);
      }
      var compareChoice := Downcase(a.choice);
      if compareChoice == "1" || compareChoice == "absolute" {
        var minimumCircs := ToI(a.minimum);
        var candidates := CountCandidates(fileData, chosenIndexes, minimumCircs);
        fileData := Uniq(candidates);
        return Workflow.Done;
      } else if compareChoice == "2" || compareChoice == "average" {
        var minimumCircs := ToI(a.minimum);
        var circColumns := chosenIndexes;
        ok := ChooseColumn(a.dateColumns);
        if !ok {
          return Workflow.Failed(Workflow.ColumnRejected);
        }
        ok := DateFormatter(a.dateFormat);
        if !ok {
          return Workflow.Failed(Workflow.FormatRejected(BuildFormat(a.dateFormat).error));
        }
        var candidates := AverageCandidates(fileData, circColumns, chosenIndexes, dateFormatting, parse,
                                            currentYear, minimumCircs);
        if candidates.Err? {
          return Workflow.Failed(Workflow.CellRejected(candidates.error));
        }
        fileData := Uniq(candidates.value);
        return Workflow.Done;
      } else {
        return Workflow.Failed(Workflow.UnknownComparison);
      }
    }

    /** `criteria_selection`. */
    method CriteriaSelection(a: Workflow.CriteriaAnswers, parse: Parser, currentYear: int)
      returns (outcome: Workflow.Outcome)
      modifies this
      ensures State() == Workflow.CriteriaSelection(old(State()), a, parse, currentYear).after
      ensures outcome == Workflow.CriteriaSelection(old(State()), a, parse, currentYear).outcome
    {
      var optionSelected := Downcase(a.option);
      if optionSelected == "1" || optionSelected == "dates" || optionSelected == "age" {
        outcome := CompareDates(a.dates, parse);
      } else if optionSelected == "2" || optionSelected == "circulation" {
        outcome := CompareCircs(a.circs, parse, currentYear);
      } else if optionSelected == "3" || optionSelected == "both" {
        outcome := CompareDates(a.dates, parse);
        if outcome == Workflow.Done {
          outcome := CompareCircs(a.circs, parse, currentYear);
        }
      } else if optionSelected == "exit" {
        outcome := Workflow.Exited;
      } else {
        outcome := Workflow.Failed(Workflow.UnknownCommand);
      }
    }

    /** The loop at weeding.rb:59-62: for each chosen column, keep the rows whose cell there
        is present, then those whose cell matches the collection. */
    method NarrowByChosenColumns(collection: string)
      modifies this
      ensures State() == old(State()).(fileData := MatchingAll(old(fileData), chosenIndexes, collection))
    {
      ghost var start := fileData;
      var cols := chosenIndexes;
      MatchingNoColumns(start, collection);
      for i := 0 to |cols|
        invariant headers == old(headers) && chosenIndexes == cols && dateFormatting == old(dateFormatting)
        invariant fileData == MatchingAll(start, cols[..i], collection)
      {
        var narrowed := KeepIfPresent(fileData, cols[i]);
        fileData := narrowed;
        fileData := KeepIfContains(narrowed, cols[i], collection);
        NarrowStep(start, cols[..i], cols[i], collection);
        assert cols[..i + 1] == cols[..i] + [cols[i]];
      }
      assert cols[..|cols|] == cols;
    }

    /** `collection_selection`: narrow `@file_data` column by column, then go on to
        `criteria_selection`. */
    method CollectionSelection(columns: string, collection: string, criteria: Workflow.CriteriaAnswers,
                               parse: Parser, currentYear: int)
      returns (outcome: Workflow.Outcome)
      modifies this
      ensures State() == Workflow.CollectionSelection(old(State()), columns, collection, criteria, parse, currentYear).after
      ensures outcome == Workflow.CollectionSelection(old(State()), columns, collection, criteria, parse, currentYear).outcome
    {
      var ok := ChooseColumn(columns);
      if !ok {
        return Workflow.Failed(Workflow.ColumnRejected);
      }
      if collection == "exit" || collection == "EXIT" {
        return Workflow.Exited;
      }
      NarrowByChosenColumns(collection);
      Workflow.CollectionSelectionContinues(old(State()), columns, collection, criteria, parse, currentYear);
      outcome := CriteriaSelection(criteria, parse, currentYear);
    }
  }

  /** `map(&:to_i)` at weeding.rb:127: each piece of the answer read as a number. */
  method ReadNumbers(pieces: seq<string>) returns (read: seq<int>)
    ensures |read| == |pieces| && forall j :: 0 <= j < |pieces| ==> read[j] == ToI(pieces[j])
  {
    read := [];
    for k := 0 to |pieces|
      invariant |read| == k && forall j :: 0 <= j < k ==> read[j] == ToI(pieces[j])
    {
      read := read + [ToI(pieces[k])];
    }
  }

  /** The loop at weeding.rb:131-135: every index must satisfy `between?(0, @headers.length - 1)`. */
  method AllBetween(indexes: seq<int>, headerCount: int) returns (ok: bool)
    ensures ok <==> Accepted(indexes, headerCount)
    ensures !ok ==> exists k :: 0 <= k < |indexes| && (indexes[k] < 0 || indexes[k] >= headerCount)
  {
    for k := 0 to |indexes|
      invariant forall j :: 0 <= j < k ==> 0 <= indexes[j] <= headerCount - 1
    {
      if !(0 <= indexes[k] <= headerCount - 1) {
        return false;
      }
    }
    return true;
  }

  /** The script's last two lines, `WeedingHelper.new` then `collection_selection`: the
      rows that would be written out, and how the conversation ended. */
  method Weed(headerRow: Row, dataRows: Table, columns: string, collection: string,
              criteria: Workflow.CriteriaAnswers, parse: Parser, currentYear: int)
    returns (rows: Table, outcome: Workflow.Outcome)
    ensures var w := Workflow.Weed(headerRow, dataRows, columns, collection, criteria, parse, currentYear);
      rows == w.after.fileData && outcome == w.outcome
    ensures forall x :: x in rows ==> x == headerRow || x in dataRows
  {
    var helper := new WeedingHelper(headerRow, dataRows);
    outcome := helper.CollectionSelection(columns, collection, criteria, parse, currentYear);
    rows := helper.fileData;
    Workflow.WeedKeepsOnlyFileRows(headerRow, dataRows, columns, collection, criteria, parse, currentYear);
  }
}
