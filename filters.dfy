/** The four filters of the weeding engine: the collection match of
    `collection_selection`, the date filter of `compare_dates`, and the absolute
    and average circulation filters of `compare_circs`. Each candidate loop of the
    source is a method proved against a function of its inputs, and each function
    is characterised by a lemma. The collection loop narrows `@file_data` in place,
    so its method belongs to the class in `Weeding`. */
module Filters {
  import opened Values
  import opened RubyCore
  import opened Dedup
  import opened Candidates

  /** Why a filter loop raised: `Date.strptime` refused the text of a cell, or a
      date in the current year made the years in the collection 0 (`ZeroDivisionError`). */
  datatype CellError = Unparsable(text: string) | ZeroYears

  // ================================================================ collection match

  /** `@file_data.keep_if { |row| row[idx] != nil }` */
  function KeepIfPresent(t: Table, idx: int): (r: Table)
    ensures forall k :: 0 <= k < |r| ==> CellAt(r[k], idx).Some?
  {
    if t == [] then []
    else
      var last := t[|t| - 1];
      KeepIfPresent(t[..|t| - 1], idx) + (if CellAt(last, idx).Some? then [last] else [])
  }

  /** `@file_data.keep_if { |row| row[idx].match /#{collection}/ }`, which would raise
      on a `nil` cell; the preceding `keep_if` has removed those. */
  function KeepIfContains(t: Table, idx: int, pattern: string): Table
    requires forall k :: 0 <= k < |t| ==> CellAt(t[k], idx).Some?
  {
    if t == [] then []
    else
      var last := t[|t| - 1];
      KeepIfContains(t[..|t| - 1], idx, pattern) + (if Contains(CellAt(last, idx).value, pattern) then [last] else [])
  }

  /** The cell at `idx` exists and the collection pattern occurs in it. */
  predicate Matches(row: Row, idx: int, pattern: string)
  {
    CellAt(row, idx).Some? && Contains(CellAt(row, idx).value, pattern)
  }

  predicate MatchesAll(row: Row, cols: seq<int>, pattern: string)
  {
    forall k :: 0 <= k < |cols| ==> Matches(row, cols[k], pattern)
  }

  /** The rows of `t`, in order, whose every chosen cell holds the pattern. */
  function MatchingAll(t: Table, cols: seq<int>, pattern: string): Table
  {
    if t == [] then []
    else
      var last := t[|t| - 1];
      MatchingAll(t[..|t| - 1], cols, pattern) + (if MatchesAll(last, cols, pattern) then [last] else [])
  }

  /** `keep_if` keeps every copy of a matching row and no copy of any other. */
  lemma {:induction false} MatchingAllCopies(t: Table, cols: seq<int>, pattern: string, x: Row)
    ensures multiset(MatchingAll(t, cols, pattern))[x] == if MatchesAll(x, cols, pattern) then multiset(t)[x] else 0
    decreases |t|
  {
    if t != [] {
      MatchingAllCopies(t[..|t| - 1], cols, pattern, x);
      assert t == t[..|t| - 1] + [t[|t| - 1]];
    }
  }

  lemma KeepIfPresentSnoc(t: Table, x: Row, idx: int)
    ensures KeepIfPresent(t + [x], idx) == KeepIfPresent(t, idx) + (if CellAt(x, idx).Some? then [x] else [])
  {
    assert (t + [x])[..|t|] == t;
  }

  lemma KeepIfContainsSnoc(t: Table, x: Row, idx: int, pattern: string)
    requires forall k :: 0 <= k < |t| ==> CellAt(t[k], idx).Some?
    requires CellAt(x, idx).Some?
    ensures KeepIfContains(t + [x], idx, pattern)
         == KeepIfContains(t, idx, pattern) + (if Contains(CellAt(x, idx).value, pattern) then [x] else [])
  {
    assert (t + [x])[..|t|] == t;
  }

  lemma MatchesAllSnoc(row: Row, cols: seq<int>, c: int, pattern: string)
    ensures MatchesAll(row, cols + [c], pattern) <==> MatchesAll(row, cols, pattern) && Matches(row, c, pattern)
  {
    assert forall k :: 0 <= k < |cols| ==> (cols + [c])[k] == cols[k];
    assert (cols + [c])[|cols|] == c;
  }

  /** One more pass of the loop at weeding.rb:59 narrows by one more column. */
  lemma {:induction false} NarrowStep(t: Table, cols: seq<int>, c: int, pattern: string)
    ensures KeepIfContains(KeepIfPresent(MatchingAll(t, cols, pattern), c), c, pattern)
         == MatchingAll(t, cols + [c], pattern)
  {
    if t != [] {
      var pre, last := t[..|t| - 1], t[|t| - 1];
      NarrowStep(pre, cols, c, pattern);
      MatchesAllSnoc(last, cols, c, pattern);
      var m := MatchingAll(pre, cols, pattern);
      var goal := MatchingAll(t, cols + [c], pattern);
      assert goal == MatchingAll(pre, cols + [c], pattern) + (if MatchesAll(last, cols + [c], pattern) then [last] else []);
      if MatchesAll(last, cols, pattern) {
        assert MatchingAll(t, cols, pattern) == m + [last];
        var p := KeepIfPresent(m, c);
        KeepIfPresentSnoc(m, last, c);
        assert KeepIfPresent(MatchingAll(t, cols, pattern), c) == KeepIfPresent(m + [last], c);
        if CellAt(last, c).Some? {
          assert KeepIfPresent(m + [last], c) == p + [last];
          KeepIfContainsSnoc(p, last, c, pattern);
          assert KeepIfContains(p + [last], c, pattern)
              == KeepIfContains(p, c, pattern) + (if Matches(last, c, pattern) then [last] else []);
        } else {
          assert KeepIfPresent(m + [last], c) == p;
        }
      } else {
        assert MatchingAll(t, cols, pattern) == m;
      }
    }
  }

  lemma {:induction false} MatchingNoColumns(t: Table, pattern: string)
    ensures MatchingAll(t, [], pattern) == t
  {
    if t != [] {
      MatchingNoColumns(t[..|t| - 1], pattern);
      assert t == t[..|t| - 1] + [t[|t| - 1]];
    }
  }

  /** The collection match keeps, in their order, exactly the rows whose every chosen
      cell is present and holds the pattern: the columns are combined with AND, and
      without any chosen column the table is unchanged. */
  lemma {:induction false} MatchingAllSpec(t: Table, cols: seq<int>, pattern: string)
    ensures forall x :: x in MatchingAll(t, cols, pattern) <==> x in t && MatchesAll(x, cols, pattern)
    ensures IsSubsequence(MatchingAll(t, cols, pattern), t)
    ensures cols == [] ==> MatchingAll(t, cols, pattern) == t
  {
    if t != [] {
      var pre, last := t[..|t| - 1], t[|t| - 1];
      var m := MatchingAll(pre, cols, pattern);
      MatchingAllSpec(pre, cols, pattern);
      assert t == pre + [last];
      if MatchesAll(last, cols, pattern) {
        assert MatchingAll(t, cols, pattern) == m + [last];
        assert (m + [last])[..|m|] == m;
      } else {
        assert MatchingAll(t, cols, pattern) == m;
        SubsequenceExtend(m, pre, last);
      }
    }
    if cols == [] {
      MatchingNoColumns(t, pattern);
    }
  }

  // ================================================================ date filter

  /** The test at weeding.rb:169 for one row and one chosen column. */
  function DateVerdict(row: Row, idx: int, format: string, parse: Parser, threshold: Date): Verdict<CellError>
  {
    match parse(CellText(row, idx), format)
    case None => Fail(Unparsable(CellText(row, idx)))
    case Some(d) => if Earlier(d, threshold) then Keep else Drop
  }

  function DateTest(format: string, parse: Parser, threshold: Date): (Row, int) -> Verdict<CellError>
  {
    (row, idx) => DateVerdict(row, idx, format, parse, threshold)
  }

  /** The cell parses to a date strictly before the threshold. */
  predicate DatedBefore(row: Row, idx: int, format: string, parse: Parser, threshold: Date)
  {
    parse(CellText(row, idx), format).Some? && Earlier(parse(CellText(row, idx), format).value, threshold)
  }

  /** The loop at weeding.rb:166-173. */
  method DateCandidates(t: Table, cols: seq<int>, format: string, parse: Parser, threshold: Date)
    returns (r: Result<Table, CellError>)
    ensures r == Collect(t, cols, DateTest(format, parse, threshold))
  {
    ghost var test := DateTest(format, parse, threshold);
    var candidates: Table := [];
    for i := 0 to |t|
      invariant Collect(t[..i], cols, test) == Ok(candidates)
    {
      var row := t[i];
      ghost var before := candidates;
      assert t[..i + 1][..i] == t[..i];
      for j := 0 to |cols|
        invariant RowHits(row, cols[..j], test).Ok?
        invariant candidates == before + RowHits(row, cols[..j], test).value
      {
        var date := parse(CellText(row, cols[j]), format);
        RowHitsStep(row, cols, test, j);
        assert test(row, cols[j]) == DateVerdict(row, cols[j], format, parse, threshold);
        if date.None? {
          RowHitsErrPersists(row, cols, test, j + 1);
          CollectErrPersists(t, cols, test, i + 1);
          return Err(Unparsable(CellText(row, cols[j])));
        }
        if Earlier(date.value, threshold) {
          candidates := candidates + [row];
        }
      }
      assert cols[..|cols|] == cols;
    }
    assert t[..|t|] == t;
    return Ok(candidates);
  }

  /** `compare_dates` from weeding.rb:166 on: the candidates, then `uniq`. */
  function DateFilter(t: Table, cols: seq<int>, format: string, parse: Parser, threshold: Date): Result<Table, CellError>
  {
    match Collect(t, cols, DateTest(format, parse, threshold))
    case Err(e) => Err(e)
    case Ok(candidates) => Ok(Uniq(candidates))
  }

  /** The date filter raises exactly when some chosen cell of some row does not parse;
      otherwise it keeps each row, once and in table order, that has a chosen cell dated
      strictly before the threshold. */
  lemma DateFilterSpec(t: Table, cols: seq<int>, format: string, parse: Parser, threshold: Date)
    ensures DateFilter(t, cols, format, parse, threshold).Err? <==>
      exists row, idx :: row in t && idx in cols && parse(CellText(row, idx), format).None?
    ensures DateFilter(t, cols, format, parse, threshold).Ok? ==>
      var kept := DateFilter(t, cols, format, parse, threshold).value;
      NoDup(kept)
      && InOrderOf(kept, t)
      && forall x :: x in kept <==> x in t && exists idx :: idx in cols && DatedBefore(x, idx, format, parse, threshold)
  {
    var test := DateTest(format, parse, threshold);
    CollectSpec(t, cols, test);
    CollectInTableOrder(t, cols, test);
    assert forall row, idx :: test(row, idx).Fail? <==> parse(CellText(row, idx), format).None?;
    assert forall row, idx :: test(row, idx).Keep? <==> DatedBefore(row, idx, format, parse, threshold);
  }

  /** A later threshold keeps every row an earlier one keeps, and raises on the same tables. */
  lemma DateFilterMonotone(t: Table, cols: seq<int>, format: string, parse: Parser, earlier: Date, later: Date)
    requires earlier == later || Earlier(earlier, later)
    ensures DateFilter(t, cols, format, parse, earlier).Ok? <==> DateFilter(t, cols, format, parse, later).Ok?
    ensures DateFilter(t, cols, format, parse, earlier).Ok? ==>
      forall x :: x in DateFilter(t, cols, format, parse, earlier).value ==> x in DateFilter(t, cols, format, parse, later).value
  {
    DateFilterSpec(t, cols, format, parse, earlier);
    DateFilterSpec(t, cols, format, parse, later);
  }

  /** A row whose chosen dates all equal the threshold is not kept: the comparison is strict. */
  lemma ThresholdDayDropped(t: Table, cols: seq<int>, format: string, parse: Parser, threshold: Date, x: Row)
    requires forall idx :: idx in cols ==> parse(CellText(x, idx), format) == Some(threshold)
    requires DateFilter(t, cols, format, parse, threshold).Ok?
    ensures x !in DateFilter(t, cols, format, parse, threshold).value
  {
    DateFilterSpec(t, cols, format, parse, threshold);
  }

  // ================================================================ absolute circulation

  /** The test at weeding.rb:201 for one row and one chosen column. */
  function CountVerdict(row: Row, idx: int, minimum: int): Verdict<CellError>
  {
    if CellToI(row, idx) <= minimum then Keep else Drop
  }

  function CountTest(minimum: int): (Row, int) -> Verdict<CellError>
  {
    (row, idx) => CountVerdict(row, idx, minimum)
  }

  /** The loop at weeding.rb:198-205; it cannot raise. */
  method CountCandidates(t: Table, cols: seq<int>, minimum: int) returns (candidates: Table)
    ensures Collect(t, cols, CountTest(minimum)) == Ok(candidates)
  {
    ghost var test := CountTest(minimum);
    candidates := [];
    for i := 0 to |t|
      invariant Collect(t[..i], cols, test) == Ok(candidates)
    {
      var row := t[i];
      ghost var before := candidates;
      assert t[..i + 1][..i] == t[..i];
      for j := 0 to |cols|
        invariant RowHits(row, cols[..j], test).Ok?
        invariant candidates == before + RowHits(row, cols[..j], test).value
      {
        RowHitsStep(row, cols, test, j);
        assert test(row, cols[j]) == if CellToI(row, cols[j]) <= minimum then Keep else Drop;
        if CellToI(row, cols[j]) <= minimum {
          candidates := candidates + [row];
        }
      }
      assert cols[..|cols|] == cols;
    }
    assert t[..|t|] == t;
  }

  /** The absolute filter: the candidates, then `uniq` (weeding.rb:207). */
  function CountFilter(t: Table, cols: seq<int>, minimum: int): Table
  {
    CollectSpec(t, cols, CountTest(minimum));
    Uniq(Collect(t, cols, CountTest(minimum)).value)
  }

  /** The absolute filter keeps each row, once and in table order, that has a chosen cell whose `to_i`
      is at most the minimum; a missing or non-numeric cell counts as 0. */
  lemma CountFilterSpec(t: Table, cols: seq<int>, minimum: int)
    ensures NoDup(CountFilter(t, cols, minimum))
    ensures InOrderOf(CountFilter(t, cols, minimum), t)
    ensures forall x :: x in CountFilter(t, cols, minimum) <==>
      x in t && exists idx :: idx in cols && CellToI(x, idx) <= minimum
    ensures forall x, idx :: x in t && idx in cols && CellAt(x, idx) == None && minimum >= 0 ==> x in CountFilter(t, cols, minimum)
  {
    var test := CountTest(minimum);
    CollectSpec(t, cols, test);
    CollectInTableOrder(t, cols, test);
    assert forall row, idx :: test(row, idx).Keep? <==> CellToI(row, idx) <= minimum;
  }

  // ================================================================ average circulation

  /** The body of the innermost loop at weeding.rb:226-232, for one row, one circulation
      column and one date column. */
  function AverageVerdict(row: Row, circ: int, date: int, format: string, parse: Parser, currentYear: int, minimum: int)
    : Verdict<CellError>
  {
    match parse(CellText(row, date), format)
    case None => Fail(Unparsable(CellText(row, date)))
    case Some(d) =>
      var years := currentYear - d.year;
      if years == 0 then Fail(ZeroYears)
      else if FloorDiv(CellToI(row, circ), years) <= minimum then Keep
      else Drop
  }

  function AverageTest(format: string, parse: Parser, currentYear: int, minimum: int)
    : (Row, (int, int)) -> Verdict<CellError>
  {
    (row, p: (int, int)) => AverageVerdict(row, p.0, p.1, format, parse, currentYear, minimum)
  }

  /** Every date column paired with one circulation column. */
  function Pairs(circ: int, dates: seq<int>): seq<(int, int)>
  {
    seq(|dates|, j requires 0 <= j < |dates| => (circ, dates[j]))
  }

  /** The pairs in the order the nested loops visit them: circulation columns outside. */
  function Product(circs: seq<int>, dates: seq<int>): seq<(int, int)>
  {
    if circs == [] then [] else Product(circs[..|circs| - 1], dates) + Pairs(circs[|circs| - 1], dates)
  }

  lemma {:induction false} ProductMembers(circs: seq<int>, dates: seq<int>)
    ensures forall p :: p in Product(circs, dates) <==> p.0 in circs && p.1 in dates
  {
    if circs != [] {
      var pre, last := circs[..|circs| - 1], circs[|circs| - 1];
      ProductMembers(pre, dates);
      assert circs == pre + [last];
      forall p | p in Pairs(last, dates) ensures p.0 == last && p.1 in dates {
        var j :| 0 <= j < |dates| && Pairs(last, dates)[j] == p;
      }
      forall p: (int, int) | p.0 == last && p.1 in dates ensures p in Pairs(last, dates) {
        var j :| 0 <= j < |dates| && dates[j] == p.1;
        assert Pairs(last, dates)[j] == p;
      }
    }
  }

  lemma {:induction false} ProductPrefix(circs: seq<int>, dates: seq<int>, a: nat)
    requires a <= |circs|
    ensures Product(circs[..a], dates) <= Product(circs, dates)
    decreases |circs|
  {
    if a < |circs| {
      var pre := circs[..|circs| - 1];
      assert pre[..a] == circs[..a];
      ProductPrefix(pre, dates, a);
    } else {
      assert circs[..a] == circs;
    }
  }

  lemma ProductStep(circs: seq<int>, dates: seq<int>, a: nat)
    requires a < |circs|
    ensures Product(circs[..a + 1], dates) == Product(circs[..a], dates) + Pairs(circs[a], dates)
    ensures Product(circs[..a + 1], dates) <= Product(circs, dates)
  {
    assert circs[..a + 1][..a] == circs[..a];
    ProductPrefix(circs, dates, a + 1);
  }

  lemma PairsStep(done: seq<(int, int)>, circ: int, dates: seq<int>, b: nat)
    requires b < |dates|
    ensures var p := done + Pairs(circ, dates[..b + 1]);
      p[..|p| - 1] == done + Pairs(circ, dates[..b]) && p[|p| - 1] == (circ, dates[b])
    ensures done + Pairs(circ, dates[..b + 1]) <= done + Pairs(circ, dates)
  {
    assert Pairs(circ, dates[..b + 1]) == Pairs(circ, dates[..b]) + [(circ, dates[b])];
  }

  lemma RowHitsErrPrefix<P, E>(row: Row, pre: seq<P>, all: seq<P>, test: (Row, P) -> Verdict<E>)
    requires pre <= all && RowHits(row, pre, test).Err?
    ensures RowHits(row, all, test) == RowHits(row, pre, test)
  {
    assert all[..|pre|] == pre;
    RowHitsErrPersists(row, all, test, |pre|);
  }

  lemma AverageStep(row: Row, done: seq<(int, int)>, circ: int, dates: seq<int>, b: nat, format: string,
                    parse: Parser, currentYear: int, minimum: int, pushed: seq<Row>)
    requires b < |dates|
    requires RowHits(row, done + Pairs(circ, dates[..b]), AverageTest(format, parse, currentYear, minimum)) == Ok(pushed)
    ensures RowHits(row, done + Pairs(circ, dates[..b + 1]), AverageTest(format, parse, currentYear, minimum))
         == match AverageVerdict(row, circ, dates[b], format, parse, currentYear, minimum)
            case Fail(e) => Err(e)
            case Keep => Ok(pushed + [row])
            case Drop => Ok(pushed)
  {
    PairsStep(done, circ, dates, b);
  }

  /** The two inner loops at weeding.rb:224-234, for one row: the pushes of that row, or
      the error raised. */
  method AverageRowHits(row: Row, circs: seq<int>, dates: seq<int>, format: string, parse: Parser,
                        currentYear: int, minimum: int)
    returns (hits: Result<seq<Row>, CellError>)
    ensures hits == RowHits(row, Product(circs, dates), AverageTest(format, parse, currentYear, minimum))
  {
    ghost var test := AverageTest(format, parse, currentYear, minimum);
    ghost var all := Product(circs, dates);
    var pushed: seq<Row> := [];
    for a := 0 to |circs|
      invariant RowHits(row, Product(circs[..a], dates), test) == Ok(pushed)
    {
      var circ := circs[a];
      ghost var done := Product(circs[..a], dates);
      ProductStep(circs, dates, a);
      assert done + Pairs(circ, dates[..0]) == done;
      for b := 0 to |dates|
        invariant RowHits(row, done + Pairs(circ, dates[..b]), test) == Ok(pushed)
      {
        var idx := dates[b];
        PairsStep(done, circ, dates, b);
        AverageStep(row, done, circ, dates, b, format, parse, currentYear, minimum, pushed);
        ghost var tried := done + Pairs(circ, dates[..b + 1]);
        ghost var verdict := AverageVerdict(row, circ, idx, format, parse, currentYear, minimum);
        var parsed := parse(CellText(row, idx), format);
        if parsed.None? {
          assert verdict == Fail(Unparsable(CellText(row, idx)));
          RowHitsErrPrefix(row, tried, all, test);
          return Err(Unparsable(CellText(row, idx)));
        }
        var years := currentYear - parsed.value.year;
        if years == 0 {
          assert verdict == Fail(ZeroYears);
          RowHitsErrPrefix(row, tried, all, test);
          return Err(ZeroYears);
        }
        var average := FloorDiv(CellToI(row, circ), years);
        assert verdict == if average <= minimum then Keep else Drop;
        if average <= minimum {
          pushed := pushed + [row];
        }
      }
      assert dates[..|dates|] == dates;
    }
    assert circs[..|circs|] == circs;
    return Ok(pushed);
  }

  /** The loop over the rows at weeding.rb:222-236. */
  method AverageCandidates(t: Table, circs: seq<int>, dates: seq<int>, format: string, parse: Parser,
                           currentYear: int, minimum: int)
    returns (r: Result<Table, CellError>)
    ensures r == Collect(t, Product(circs, dates), AverageTest(format, parse, currentYear, minimum))
  {
    ghost var test := AverageTest(format, parse, currentYear, minimum);
    ghost var all := Product(circs, dates);
    var candidates: Table := [];
    for i := 0 to |t|
      invariant Collect(t[..i], all, test) == Ok(candidates)
    {
      assert t[..i + 1][..i] == t[..i];
      var hits := AverageRowHits(t[i], circs, dates, format, parse, currentYear, minimum);
      if hits.Err? {
        CollectErrPersists(t, all, test, i + 1);
        return Err(hits.error);
      }
      candidates := candidates + hits.value;
    }
    assert t[..|t|] == t;
    return Ok(candidates);
  }

  /** `compare_circs` "average" from weeding.rb:221 on: the candidates, then `uniq`. */
  function AverageFilter(t: Table, circs: seq<int>, dates: seq<int>, format: string, parse: Parser,
                         currentYear: int, minimum: int): Result<Table, CellError>
  {
    match Collect(t, Product(circs, dates), AverageTest(format, parse, currentYear, minimum))
    case Err(e) => Err(e)
    case Ok(candidates) => Ok(Uniq(candidates))
  }

  /** The date cell does not parse, or it lies in the current year. */
  predicate AgeUnknown(row: Row, date: int, format: string, parse: Parser, currentYear: int)
  {
    parse(CellText(row, date), format).None? || parse(CellText(row, date), format).value.year == currentYear
  }

  /** Circulations divided (rounding down) by the years since the date is at most the minimum. */
  predicate LowAverage(row: Row, circ: int, date: int, format: string, parse: Parser, currentYear: int, minimum: int)
  {
    && parse(CellText(row, date), format).Some?
    && var years := currentYear - parse(CellText(row, date), format).value.year;
    && years != 0
    && FloorDiv(CellToI(row, circ), years) <= minimum
  }

  /** The average filter raises exactly when there is a circulation column and some row
      has a chosen date that does not parse or lies in the current year; otherwise it keeps
      each row, once and in table order, for which some (circulation column, date column)
      pair gives a low average. */
  lemma AverageFilterSpec(t: Table, circs: seq<int>, dates: seq<int>, format: string, parse: Parser,
                          currentYear: int, minimum: int)
    ensures AverageFilter(t, circs, dates, format, parse, currentYear, minimum).Err? <==>
      circs != [] && exists row, d :: row in t && d in dates && AgeUnknown(row, d, format, parse, currentYear)
    ensures AverageFilter(t, circs, dates, format, parse, currentYear, minimum).Ok? ==>
      var kept := AverageFilter(t, circs, dates, format, parse, currentYear, minimum).value;
      NoDup(kept)
      && InOrderOf(kept, t)
      && forall x :: x in kept <==>
           (x in t && exists c, d :: c in circs && d in dates && LowAverage(x, c, d, format, parse, currentYear, minimum))
  {
    var test := AverageTest(format, parse, currentYear, minimum);
    var all := Product(circs, dates);
    CollectSpec(t, all, test);
    CollectInTableOrder(t, all, test);
    ProductMembers(circs, dates);
    assert forall row, p :: test(row, p).Fail? <==> AgeUnknown(row, p.1, format, parse, currentYear);
    assert forall row, p :: test(row, p).Keep? <==> LowAverage(row, p.0, p.1, format, parse, currentYear, minimum);
    if circs != [] {
      if exists row, d :: row in t && d in dates && AgeUnknown(row, d, format, parse, currentYear) {
        var row, d :| row in t && d in dates && AgeUnknown(row, d, format, parse, currentYear);
        assert (circs[0], d) in all;
      }
    }
    forall x | x in t && exists c, d :: c in circs && d in dates && LowAverage(x, c, d, format, parse, currentYear, minimum)
      ensures exists p :: p in all && test(x, p).Keep?
    {
      var c, d :| c in circs && d in dates && LowAverage(x, c, d, format, parse, currentYear, minimum);
      assert (c, d) in all;
    }
  }

  /** Ten circulations, first seen in 2015, in 2024: nine years, an average of 1 (rounded
      down), so the row is a candidate for a minimum of 2 and not for a minimum of 0. */
  lemma AverageExample(row: Row, format: string, parse: Parser)
    requires CellAt(row, 0) == Some("10")
    requires parse(CellText(row, 1), format) == Some(Date(2015, 1, 1))
    ensures AverageVerdict(row, 0, 1, format, parse, 2024, 2) == Keep
    ensures AverageVerdict(row, 0, 1, format, parse, 2024, 0) == Drop
  {
    assert Decimal(10) == "10";
    ToIOfDecimal(10);
    assert FloorDiv(10, 9) == 1;
  }
}
