/** Values shared by every part of the weeding engine: the table read from the
    CSV file, the dates the date parser produces, and the usual Option/Result. */
module Values {

  datatype Option<+T> = None | Some(value: T)

  datatype Result<+T, +E> = Ok(value: T) | Err(error: E)

  /** One cell of a CSV row; `None` is Ruby's `nil` (an empty unquoted field). */
  type Cell = Option<string>

  /** A row as `CSV::Table#to_a` yields it; a cell may be nil, and a row may be longer than the header row. */
  type Row = seq<Cell>

  /** `@file_data`: the header row first, then the data rows. */
  type Table = seq<Row>

  /** A calendar date as `Date.strptime` returns it. */
  datatype Date = Date(year: int, month: int, day: int)

  /** `a < b` on dates: chronological, i.e. lexicographic on (year, month, day). */
  predicate Earlier(a: Date, b: Date)
  {
    a.year < b.year
    || (a.year == b.year && (a.month < b.month || (a.month == b.month && a.day < b.day)))
  }

  /** `Date.strptime(text, format)`: a date, or `None` where Ruby raises `Date::Error`. */
  type Parser = (string, string) -> Option<Date>
}
