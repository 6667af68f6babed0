# Weeding helper, modelled in Dafny

`weeding.rb` is an interactive Ruby script that helps a librarian build a
"weeding list": the items of a catalogue export (a CSV file) that are candidates
for removal. The class `WeedingHelper` reads the file into `@file_data` (header
row first) and `@headers`, asks which columns hold the collection name and keeps
the rows whose chosen cells contain the collection text. It then asks for a
criterion:

- **date**: keep rows with a chosen date strictly before a threshold;
- **circulation, absolute**: keep rows with a chosen circulation count at most a minimum;
- **circulation, average**: keep rows whose circulations per year since a chosen date are at most a minimum;
- **both**: date first, then circulation.

Every candidate list is de-duplicated with `uniq` before it replaces `@file_data`.

The model has four layers.

- **Ruby semantics the script relies on** (`RubyCore`). These are `Array#[]` with
  negative indexes, string interpolation of `nil`, `String#to_i`, floor division
  `Integer#/`, `String#downcase` on ASCII, `String#split(",")` (trailing empty
  fields dropped) and substring matching. `Dedup` holds `Array#uniq`.
- **The filters** (`Columns`, `DateFormat`, `Candidates`, `Filters`). The loops of
  the source are methods proved equal to functions of their inputs. Each function
  has a lemma saying which rows it keeps, in what order, and when it raises.
- **The conversation** (`Workflow`). Each method of the class is a step function
  from the four instance variables (a `Session`) and the user's answers to the
  new instance variables and an `Outcome`.
- **The class** (`Weeding.WeedingHelper`). It has the four instance variables as
  fields. Its methods update them in place as the script does and are proved to
  reach the state the matching `Workflow` step describes.

Behaviours of the code worth knowing, all proved:

- `choose_column` assigns `@chosen_indexes` before checking it, so a refused
  answer stays in `@chosen_indexes` (`Workflow.ColumnZeroRejected`).
- The month answer is downcased before it is compared with "Jan" and "January",
  so those two words are never accepted (`DateFormat.MonthWordsUnreachable`).
- The header row is part of `@file_data` and goes through every filter like a
  data row (`Workflow.HeaderRowKeptByAbsolute`).
- The `retry` of `compare_circs` goes back only to the comparison question. After
  an average comparison fails on a cell, the date columns are still in
  `@chosen_indexes`, so answering "average" again takes the circulations from the
  date columns (`Workflow.AverageRetryReadsDateColumns`).

## Model

| member | source | states |
|---|---|---|
| RubyCore.CellAt | weeding.rb:60 | `row[idx]`: the cell at an index, counting from the end for a negative index, `nil` outside the row |
| RubyCore.CellText | weeding.rb:169 | `"#{row[idx]}"`: the cell's text, and the empty string for `nil` |
| RubyCore.CellToI | weeding.rb:201 | `row[idx].to_i`: the cell read with `to_i`, and 0 for `nil`; `CountFilterSpec` and `HeaderRowKeptByAbsolute` use it |
| RubyCore.ToI | weeding.rb:127 | `String#to_i` without underscores or the `0d` prefix: blanks, an optional sign and leading digits; `ToIOfDecimal` and `NonNumericIsZero` describe it |
| RubyCore.ToIOfDecimal | weeding.rb:127 | `to_i` reads a typed decimal numeral, with or without a minus sign, back as its value |
| RubyCore.NonNumericIsZero | weeding.rb:201 | a cell whose text does not start (after blanks) with a digit or sign reads as 0 |
| RubyCore.FloorDiv | weeding.rb:228 | `Integer#/` rounds toward minus infinity, for positive and for negative divisors |
| RubyCore.Downcase | weeding.rb:261 | `downcase` keeps the length, leaves no capital letter and changes only capitals, each to its lower-case letter |
| RubyCore.DowncaseIdempotent | weeding.rb:78 | downcasing a downcased answer changes nothing |
| RubyCore.DowncaseNeverHasCapitals | weeding.rb:265-267 | no downcased answer equals a word containing a capital |
| RubyCore.SplitJoin | weeding.rb:127 | splitting comma-joined pieces without commas gives the pieces back |
| RubyCore.RubySplit | weeding.rb:127 | `split(",")`: the comma fields with trailing empty fields dropped; `SplitJoin` and `Columns.TrailingCommasIgnored` describe it |
| RubyCore.JoinSplit | weeding.rb:127 | joining the comma fields of any text again gives back the text, so splitting loses nothing before trailing empty fields are dropped |
| RubyCore.Contains | weeding.rb:61 | `match` read as a literal substring: some position of the text starts the pattern |
| RubyCore.OccursAt | weeding.rb:61 | the pattern occurs in the text at the given position |
| Dedup.Uniq | weeding.rb:175 | `uniq` has no duplicates, has exactly the elements of its input and is no longer than it |
| Dedup.UniqIsSubsequence | weeding.rb:175 | `uniq` only leaves elements out, never reorders them |
| Dedup.UniqOfNoDup | weeding.rb:175 | a list without duplicates is its own `uniq` |
| Dedup.UniqIdempotent | weeding.rb:175 | applying `uniq` twice is applying it once |
| Dedup.UniqFirstOccurrenceOrder | weeding.rb:175 | `uniq` lists elements in the order of their first occurrence |
| Columns.ChosenIndexes | weeding.rb:127-129 | the answer split at commas, each piece read with `to_i` and shifted down by one; `TypedColumnsResolve` describes it |
| Columns.Accepted | weeding.rb:131-135 | every index lies between 0 and the number of headers minus 1; `TypedColumnsResolve` and `NonNumericPieceRejected` use it |
| Columns.AnswerPieces | weeding.rb:127 | splitting a comma-joined answer of numerals gives back the numerals, each reading as its number |
| Columns.IndexesOfPieces | weeding.rb:127-135 | pieces that read as `numbers` give the indexes `numbers[k] - 1`, accepted exactly when each number is between 1 and the number of headers |
| Columns.TypedColumnsResolve | weeding.rb:127-135 | typed 1-based column numbers become their 0-based indexes, in order and with repetitions, and are accepted exactly when each is between 1 and the number of headers |
| Columns.NonNumericPieceRejected | weeding.rb:127-135 | a piece that reads as 0 makes the index -1, so the whole answer is refused |
| Columns.EmptyAnswerChoosesNothing | weeding.rb:127-135 | an empty answer chooses no column and is accepted |
| Columns.TrailingCommasIgnored | weeding.rb:127 | a trailing comma does not add a column |
| DateFormat.BuildFormat | weeding.rb:261-313 | the four answers of `date_formatter` as a month form, year form, separator and ordering, or the first refused answer; `MonthWordsUnreachable` and `IsoAnswers` describe it |
| DateFormat.Pattern | weeding.rb:314-322 | the `strptime` pattern the chosen ordering joins from the three tokens and the separator; `PatternRoundTrip` describes it |
| DateFormat.PatternRoundTrip | weeding.rb:314-322 | the four orderings give `@date_formatting` strings from which the month form, year form, separator and ordering can be read back, so no two descriptions share a pattern |
| DateFormat.MonthWordsUnreachable | weeding.rb:261-270 | the month answer is accepted exactly when its downcased form is "1", "number", "2" or "3"; "jan" and "january" are refused |
| DateFormat.IsoAnswers | weeding.rb:261-322 | numeric month, "01" day, 4-digit year, "-" and year-month-day give `%Y-%m-%d`; typing "Jan" is refused with "Bad Month" |
| Candidates.RowHits | weeding.rb:168-172 | the inner loop over the chosen columns of one row: the pushes of that row, or the first error raised; `RowHitsSpec` describes it |
| Candidates.Collect | weeding.rb:167-173 | `candidates_array` after the loop over all rows, or the first error raised; `CollectSpec` and `CollectUniq` describe it |
| Candidates.RowHitsErrPersists | weeding.rb:168-172 | once a test raises on a row, the later columns of that row do not matter |
| Candidates.CollectErrPersists | weeding.rb:167-173 | once a row raises, the later rows do not matter |
| Candidates.RowHitsSpec | weeding.rb:168-172 | a row raises exactly when a test on one of its columns raises; otherwise it is pushed only as itself, and at least once exactly when some column keeps it |
| Candidates.CollectSpec | weeding.rb:167-173 | the candidate loop raises exactly when some row fails on some column; otherwise it collects exactly the rows some column keeps |
| Candidates.Kept | weeding.rb:167-173 | the reference filter: the rows of a table, in table order, that some column keeps |
| Candidates.KeptInOrder | weeding.rb:167-173 | leaving rows out of a list in first-occurrence order keeps that order |
| Candidates.CollectUniq | weeding.rb:167-175 | `uniq` of the candidates equals the reference filter applied to the table's distinct rows in first-occurrence order |
| Candidates.CollectInTableOrder | weeding.rb:167-175 | `uniq` of the candidates lists rows in the order they first appear in the table |
| Filters.KeepIfPresent | weeding.rb:60 | after the first `keep_if` every row has the cell present |
| Filters.KeepIfContains | weeding.rb:61 | keeps, in order, the rows whose cell at the column contains the collection text as a literal substring |
| Filters.Matches | weeding.rb:60-61 | the row survives both `keep_if` calls for one column: the cell is present and contains the pattern |
| Filters.MatchesAll | weeding.rb:59-62 | the row matches in every chosen column; `MatchingAllSpec` keeps exactly such rows |
| Filters.MatchingAll | weeding.rb:59-62 | the table after both `keep_if` calls for every chosen column in turn; `MatchingAllSpec` describes it |
| Filters.NarrowStep | weeding.rb:59-61 | one pass of the loop narrows by one more column: present and matching |
| Filters.MatchingAllSpec | weeding.rb:59-62 | a row is kept iff it was there and every chosen cell is present and contains the pattern; order is kept; with no column the table is unchanged |
| Filters.MatchingAllCopies | weeding.rb:59-62 | narrowing keeps every copy of a matching row and no copy of any other |
| Values.Earlier | weeding.rb:169 | `Date#<`: chronological order, lexicographic on year, month and day; `ThresholdDayDropped` and `DateFilterMonotone` use it |
| Filters.DateVerdict | weeding.rb:169 | the test of the date loop: raise when the cell does not parse, keep when its date is before the threshold, else skip; `DateFilterSpec` describes it |
| Filters.DateCandidates | weeding.rb:166-173 | the date loop pushes a row once per chosen date before the threshold, or raises at the first cell `strptime` refuses |
| Filters.DateFilter | weeding.rb:166-175 | `uniq` of the date candidates, or the parse error raised; `DateFilterSpec` describes it |
| Filters.DateFilterSpec | weeding.rb:166-175 | the date filter raises iff some chosen cell does not parse; otherwise it keeps, once each and in table order, exactly the rows with some chosen date strictly before the threshold |
| Filters.DateFilterMonotone | weeding.rb:169 | a later threshold keeps every row an earlier one keeps |
| Filters.ThresholdDayDropped | weeding.rb:169 | a row dated exactly on the threshold is not kept |
| Filters.CountVerdict | weeding.rb:201 | the test of the absolute loop: keep when the cell's `to_i` is at most the minimum, else skip; `CountFilterSpec` describes it |
| Filters.CountCandidates | weeding.rb:198-205 | the absolute loop pushes a row once per chosen cell whose `to_i` is at most the minimum, and never raises |
| Filters.CountFilter | weeding.rb:198-207 | `uniq` of the absolute candidates; `CountFilterSpec` describes it |
| Filters.CountFilterSpec | weeding.rb:198-207 | the absolute filter keeps, once each and in table order, exactly the rows with a chosen cell whose `to_i` is at most the minimum; a missing cell counts as 0 |
| Filters.AverageVerdict | weeding.rb:226-232 | one pass of the innermost loop: raise on an unparsable date, then on a zero age, else keep when the floor average is at most the minimum; `AverageFilterSpec` describes it |
| Filters.Product | weeding.rb:223-224 | the (circulation column, date column) pairs in the order the nested loops visit them; `ProductMembers` describes it |
| Filters.ProductMembers | weeding.rb:223-224 | the nested loops visit every (circulation column, date column) pair |
| Filters.AverageRowHits | weeding.rb:223-234 | for one row, the two inner loops push it once per low-average pair, or raise at the first unparsable date or zero-year age |
| Filters.AverageCandidates | weeding.rb:222-235 | the average loop over all rows, raising at the first failing row |
| Filters.AverageFilter | weeding.rb:221-237 | `uniq` of the average candidates, or the error raised; `AverageFilterSpec` describes it |
| Filters.AverageFilterSpec | weeding.rb:218-237 | the average filter raises iff there is a circulation column and some row has a chosen date that does not parse or is in the current year; otherwise it keeps, once each and in table order, exactly the rows with some pair whose floor average is at most the minimum |
| Filters.AverageExample | weeding.rb:226-230 | 10 circulations since 2015, in 2024, average 1: kept for minimum 2, dropped for minimum 0 |
| Workflow.Load | weeding.rb:32-33 | `@file_data` is the header row followed by the data rows, and `@headers` is its first row |
| Workflow.ChooseColumn | weeding.rb:107-140 | `choose_column`: `@chosen_indexes` set to the resolved indexes, then refused unless accepted; `ChooseTypedColumns` and `ColumnZeroRejected` describe it |
| Workflow.DateFormatter | weeding.rb:249-329 | `date_formatter`: `@date_formatting` set to the built pattern, or the first refused answer; `DateFormatterSpec` describes it |
| Workflow.CompareDates | weeding.rb:145-176 | `compare_dates`: choose, format, threshold, then the date filter on `@file_data`; `CompareDatesSpec` describes it |
| Workflow.CircComparison | weeding.rb:184-245 | the comparison question of `compare_circs`: absolute, average or refused; `AbsoluteSpec`, `AverageUsesFirstSelection` and `UnknownComparisonAfterChoice` describe it |
| Workflow.CompareCircs | weeding.rb:179-246 | `compare_circs`: choose the circulation columns, then compare; `CompareCircsShrinks` describes it |
| Workflow.CriteriaCommand | weeding.rb:78-100 | the `case` on the downcased criterion answer: dates, circulation, both, exit or unknown; `CriteriaCommandIgnoresCase` describes it |
| Workflow.CriteriaSelection | weeding.rb:68-105 | `criteria_selection`: the dispatch on the downcased answer, "both" being dates then circulation; `CriteriaShrinks` and `BothIsDatesThenCircs` describe it |
| Workflow.IsExit | weeding.rb:55-56 | the collection answer ends the program only as exactly "exit" or "EXIT"; `ExitSpellings` and `CollectionExitKeepsTable` use it |
| Workflow.CollectionSelection | weeding.rb:43-66 | `collection_selection`: choose, the exit check, narrowing, then criteria; `CollectionSelectionNarrows` and `CollectionExitKeepsTable` describe it |
| Workflow.Weed | weeding.rb:353-354 | the main program: load, then `collection_selection`; `WeedKeepsOnlyFileRows` describes it |
| Workflow.ChooseTypedColumns | weeding.rb:127-135 | choosing typed column numbers changes only `@chosen_indexes`, to the 0-based indexes, and succeeds exactly when each number names a header |
| Workflow.ColumnZeroRejected | weeding.rb:127-135 | column "0" is refused and index -1 is left in `@chosen_indexes` |
| Workflow.DateFormatterSpec | weeding.rb:249-329 | `@date_formatting` changes only when all five answers are valid, to a pattern that reads back as the answers' meaning; otherwise the first bad answer is reported |
| Workflow.CompareDatesSpec | weeding.rb:145-176 | comparing by date keeps the headers; on any failure the table is unchanged; on success the format is the pattern built from the answers and it keeps, once each and in table order, exactly the rows with a chosen date before the typed threshold |
| Workflow.AbsoluteSpec | weeding.rb:193-207 | the absolute comparison cannot fail, changes only `@file_data` and keeps, once each and in table order, exactly the rows with a low count |
| Workflow.AverageUsesFirstSelection | weeding.rb:209-237 | the average comparison divides by ages from the date columns chosen second, but reads circulations from the columns chosen first; a failing cell leaves the table unchanged |
| Workflow.AverageRetryReadsDateColumns | weeding.rb:218-244 | after a failed average comparison, a second "average" answer reads circulations from the previous date columns |
| Workflow.UnknownComparisonAfterChoice | weeding.rb:179-246 | with accepted circulation columns and an unknown comparison answer, `compare_circs` fails with the table, headers and date format unchanged and `@chosen_indexes` holding the columns just chosen |
| Workflow.CompareCircsShrinks | weeding.rb:179-246 | comparing by circulation only removes rows, keeps the headers, and leaves the table unchanged on failure |
| Workflow.CriteriaShrinks | weeding.rb:79-100 | every criterion only removes rows and keeps the headers |
| Workflow.CriteriaCommandIgnoresCase | weeding.rb:78-96 | the criterion answer selects the same command as its downcased form, so "DATES" compares by date and "Both" runs both |
| Workflow.ExitSpellings | weeding.rb:55-56 | "Exit" ends the criteria question but is only a pattern at the collection question |
| Workflow.BothIsDatesThenCircs | weeding.rb:90-93 | "both" with the absolute comparison keeps exactly the rows dated before the threshold that also have a low count |
| Workflow.CollectionExitKeepsTable | weeding.rb:55-57 | "exit" or "EXIT" as collection leaves the table untouched |
| Workflow.CollectionSelectionNarrows | weeding.rb:43-66 | whatever follows, every row left was in the table and matches the collection in every chosen column |
| Workflow.HeaderRowKeptByAbsolute | weeding.rb:32-33 | the header row is a candidate of the absolute filter when a chosen header is text and the minimum is at least 0 |
| Workflow.WeedKeepsOnlyFileRows | weeding.rb:353-354 | every row written out was read from the file |
| Weeding.WeedingHelper.constructor | weeding.rb:15-41 | the object starts in the `Load` state |
| Weeding.WeedingHelper.ChooseColumn | weeding.rb:107-140 | splits, reads, shifts in place and range-checks, reaching the `Workflow.ChooseColumn` state and reporting success exactly as it does |
| Weeding.WeedingHelper.DateFormatter | weeding.rb:249-329 | builds `@date_formatting` token by token, reaching the `Workflow.DateFormatter` state |
| Weeding.WeedingHelper.NarrowByChosenColumns | weeding.rb:59-62 | the two `keep_if` calls per chosen column leave exactly the rows matching in every chosen column |
| Weeding.WeedingHelper.CompareDates | weeding.rb:145-176 | runs the date loop and `uniq` on the fields, reaching the `Workflow.CompareDates` state and outcome |
| Weeding.WeedingHelper.CompareCircs | weeding.rb:179-246 | runs the absolute or average loops on the fields, reaching the `Workflow.CompareCircs` state and outcome |
| Weeding.WeedingHelper.CriteriaSelection | weeding.rb:68-105 | dispatches on the downcased answer, reaching the `Workflow.CriteriaSelection` state and outcome |
| Weeding.WeedingHelper.CollectionSelection | weeding.rb:43-66 | reaches the `Workflow.CollectionSelection` state and outcome |
| Weeding.ReadNumbers | weeding.rb:127 | `map(&:to_i)` reads each piece of the answer, in order |
| Weeding.AllBetween | weeding.rb:131-135 | the check loop succeeds exactly when every index is between 0 and the number of headers minus 1, and otherwise names an index outside |
| Weeding.Weed | weeding.rb:353-354 | the main program's rows and outcome are those of `Workflow.Weed`, and every row was read from the file |

## Left out

- Prompting and `retry`: every `gets` answer is a parameter. Where the script
  prints a complaint and asks again, the step ends with a `Failed` outcome. The
  instance variables are left as they were at the raise. The questions are not
  asked again, except in `Workflow.AverageRetryReadsDateColumns`.
- Reading the CSV file (`CSV.read`, the file path and separator questions) is
  left out. The model starts from the header row and data rows. The `.compact`
  is left out because `CSV::Table#to_a` yields no `nil` rows.
- `write_candidates` (writing the file) is left out. A `Done` outcome stands for
  "the rows in `@file_data` are written".
- Printing the numbered header list in `choose_column` is left out. It does not
  change state.
- `Date.strptime` is a function parameter (`Parser`). Its format language is not
  modelled. `Date.today.year` is the `currentYear` parameter.
- Filters.KeepIfContains: the collection answer is used as a regular expression
  (`/#{collection}/`). The model treats it as literal text that must occur in the
  cell. Patterns with regex metacharacters are not modelled.
- Filters.Matches: the same literal-substring reading of the collection pattern.
- RubyCore.Contains: matches a literal substring only; regular-expression syntax is
  not modelled.
- RubyCore.ToI: `String#to_i` is modelled as leading blanks, an optional sign
  and decimal digits. Underscores between digits and the `0d`/`0D` radix prefix
  after the sign are not modelled: `"0d12".to_i` is 12 in Ruby and 0 in the model.
- RubyCore.Downcase: ASCII letters only. Ruby's full Unicode case mapping is not
  modelled.
- Weeding.WeedingHelper.ChooseColumn: the model runs the steps in the script's
  order and keeps a refused answer in `@chosen_indexes`, because weeding.rb:127
  assigns before the check at weeding.rb:131-135.
- Weeding.WeedingHelper.CollectionSelection: the script calls
  `criteria_selection` from inside `collection_selection`. The model does the same,
  but `Workflow.CollectionSelection` stops at the first `Failed` outcome instead
  of looping.
- Filters.AverageCandidates: the two inner loops are a separate method,
  `Filters.AverageRowHits`. The loop order, the pushes and the point where an
  error ends the loop are unchanged.
