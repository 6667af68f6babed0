/** The pieces of Ruby's core library the weeding engine relies on, written out
    so that their edge cases are explicit: `Array#[]`, string interpolation of a
    cell, `String#to_i`, `Integer#/`, `String#downcase`, substring search and
    `String#split(",")`. */
module RubyCore {
  import opened Values

  // ---------------------------------------------------------------- cells

  /** `row[idx]`: a negative index counts from the end, an index past either end is `nil`. */
  function CellAt(row: Row, idx: int): Cell
  {
    if 0 <= idx < |row| then row[idx]
    else if -|row| <= idx < 0 then row[|row| + idx]
    else None
  }

  /** `"#{row[idx]}"`: interpolating `nil` gives the empty string. */
  function CellText(row: Row, idx: int): string
  {
    match CellAt(row, idx)
    case None => ""
    case Some(s) => s
  }

  /** `row[idx].to_i`: `nil.to_i` is 0. */
  function CellToI(row: Row, idx: int): int
  {
    match CellAt(row, idx)
    case None => 0
    case Some(s) => ToI(s)
  }

  // ---------------------------------------------------------------- String#to_i

  /** The characters C's `isspace` accepts: space, tab, newline, vertical tab, form feed, return. */
  predicate IsSpace(c: char)
  {
    c == ' ' || '\t' <= c <= '\r'
  }

  predicate IsDigit(c: char)
  {
    '0' <= c <= '9'
  }

  function DigitValue(c: char): nat
    requires IsDigit(c)
  {
    c as int - '0' as int
  }

  function SkipSpace(s: string): (t: string)
    ensures |t| <= |s| && t == s[|s| - |t|..]
    ensures t == [] || !IsSpace(t[0])
  {
    if s != [] && IsSpace(s[0]) then SkipSpace(s[1..]) else s
  }

  /** The maximal run of decimal digits at the front of `s`. */
  function LeadingDigits(s: string): (d: string)
    ensures |d| <= |s| && d == s[..|d|]
    ensures forall i :: 0 <= i < |d| ==> IsDigit(d[i])
  {
    if s != [] && IsDigit(s[0]) then [s[0]] + LeadingDigits(s[1..]) else []
  }

  /** The value of a run of decimal digits, most significant first. */
  function DigitsValue(d: string): nat
    requires forall i :: 0 <= i < |d| ==> IsDigit(d[i])
  {
    if d == [] then 0 else DigitsValue(d[..|d| - 1]) * 10 + DigitValue(d[|d| - 1])
  }

  /** `String#to_i`: leading white space, an optional sign, then the longest
      run of digits; a string that does not start that way is 0. Underscores between
      digits and the `0d` radix prefix are not read. */
  function ToI(s: string): int
  {
    var t := SkipSpace(s);
    if t != [] && t[0] == '-' then -(DigitsValue(LeadingDigits(t[1..])) as int)
    else if t != [] && t[0] == '+' then DigitsValue(LeadingDigits(t[1..]))
    else DigitsValue(LeadingDigits(t))
  }

  /** `Integer#to_s` for a non-negative integer. */
  function Decimal(n: nat): (s: string)
    decreases n
  {
    if n < 10 then [('0' as int + n) as char]
    else Decimal(n / 10) + [('0' as int + n % 10) as char]
  }

  lemma {:induction false} AllDigitsLead(s: string)
    requires forall i :: 0 <= i < |s| ==> IsDigit(s[i])
    ensures LeadingDigits(s) == s
  {
    if s != [] {
      AllDigitsLead(s[1..]);
    }
  }

  lemma {:induction false} DecimalDigits(n: nat)
    ensures |Decimal(n)| >= 1
    ensures forall i :: 0 <= i < |Decimal(n)| ==> IsDigit(Decimal(n)[i])
    ensures DigitsValue(Decimal(n)) == n
    decreases n
  {
    if n >= 10 {
      DecimalDigits(n / 10);
      var d := Decimal(n);
      assert d[..|d| - 1] == Decimal(n / 10);
    }
  }

  /** `to_i` reads back what `to_s` writes, with or without a minus sign. */
  lemma ToIOfDecimal(n: nat)
    ensures ToI(Decimal(n)) == n
    ensures ToI("-" + Decimal(n)) == -(n as int)
  {
    var d := Decimal(n);
    DecimalDigits(n);
    AllDigitsLead(d);
    assert SkipSpace(d) == d by { assert !IsSpace(d[0]); }
    var m := "-" + d;
    assert SkipSpace(m) == m by { assert m[0] == '-'; }
    assert m[1..] == d;
  }

  /** A string whose first non-blank character is neither a sign nor a digit is 0
      (this is also how an empty cell or an empty answer reads). */
  lemma NonNumericIsZero(s: string)
    requires SkipSpace(s) == [] || !(IsDigit(SkipSpace(s)[0]) || SkipSpace(s)[0] in "+-")
    ensures ToI(s) == 0
  {
  }

  // ---------------------------------------------------------------- Integer#/

  /** Ruby's `Integer#/`, which rounds towards negative infinity. */
  function FloorDiv(a: int, b: int): (q: int)
    requires b != 0
    ensures b > 0 ==> b * q <= a < b * q + b
    ensures b < 0 ==> b * q + b < a <= b * q
  {
    if b > 0 then a / b
    else
      var q := (-a) / (-b);
      assert (-b) * q <= -a < (-b) * q + (-b);
      assert (-b) * q == -(b * q);
      q
  }

  // ---------------------------------------------------------------- String#downcase

  predicate IsUpper(c: char)
  {
    'A' <= c <= 'Z'
  }

  /** `String#downcase`, for the ASCII letters. */
  function Downcase(s: string): (r: string)
    ensures |r| == |s|
    ensures forall i :: 0 <= i < |r| ==> !IsUpper(r[i])
    ensures forall i :: 0 <= i < |r| ==> (r[i] == s[i] || (IsUpper(s[i]) && r[i] as int == s[i] as int + 32))
  {
    seq(|s|, i requires 0 <= i < |s| => if IsUpper(s[i]) then (s[i] as int + 32) as char else s[i])
  }

  /** Downcasing an already downcased string changes nothing. */
  lemma DowncaseIdempotent(s: string)
    ensures Downcase(Downcase(s)) == Downcase(s)
  {
  }

  /** No answer ever downcases to a string holding a capital letter. */
  lemma DowncaseNeverHasCapitals(s: string, w: string, i: int)
    requires 0 <= i < |w| && IsUpper(w[i])
    ensures Downcase(s) != w
  {
  }

  // ---------------------------------------------------------------- matching

  /** `text.match /pattern/` for a pattern without regular-expression metacharacters:
      the pattern occurs somewhere in the text. */
  predicate Contains(text: string, pattern: string)
  {
    exists i | 0 <= i <= |text| - |pattern| :: OccursAt(text, pattern, i)
  }

  predicate OccursAt(text: string, pattern: string, i: int)
  {
    0 <= i <= |text| - |pattern| && text[i..i + |pattern|] == pattern
  }

  // ---------------------------------------------------------------- String#split

  /** Every field between separators, empty ones included. */
  function SplitAll(s: string, sep: char): (pieces: seq<string>)
    ensures |pieces| >= 1
    ensures forall k :: 0 <= k < |pieces| ==> sep !in pieces[k]
  {
    if s == [] then [[]]
    else
      var rest := SplitAll(s[1..], sep);
      if s[0] == sep then [[]] + rest
      else [[s[0]] + rest[0]] + rest[1..]
  }

  function Join(pieces: seq<string>, sep: char): string
    requires |pieces| >= 1
  {
    if |pieces| == 1 then pieces[0] else pieces[0] + [sep] + Join(pieces[1..], sep)
  }

  /** `split` with no limit drops the empty fields at the end. */
  function DropTrailingEmpty(pieces: seq<string>): (r: seq<string>)
    ensures |r| <= |pieces| && r == pieces[..|r|]
    ensures r == [] || r[|r| - 1] != []
    ensures forall k :: |r| <= k < |pieces| ==> pieces[k] == []
  {
    if pieces != [] && pieces[|pieces| - 1] == [] then DropTrailingEmpty(pieces[..|pieces| - 1])
    else pieces
  }

  /** `s.split(sep)` with a one-character string separator. */
  function RubySplit(s: string, sep: char): seq<string>
  {
    DropTrailingEmpty(SplitAll(s, sep))
  }

  /** Joining the fields again restores the text. */
  lemma {:induction false} JoinSplit(s: string, sep: char)
    ensures Join(SplitAll(s, sep), sep) == s
  {
    if s != [] {
      JoinSplit(s[1..], sep);
      var rest := SplitAll(s[1..], sep);
      if s[0] == sep {
        assert ([[]] + rest)[1..] == rest;
      } else if |rest| > 1 {
        var ps := [[s[0]] + rest[0]] + rest[1..];
        assert ps[1..] == rest[1..];
        assert Join(rest, sep) == rest[0] + [sep] + Join(rest[1..], sep);
      }
    }
  }

  lemma {:induction false} SplitPrefix(p: string, tail: string, sep: char)
    requires sep !in p
    ensures SplitAll(p + tail, sep) == [p + SplitAll(tail, sep)[0]] + SplitAll(tail, sep)[1..]
  {
    if p == [] {
      assert p + tail == tail;
      var r := SplitAll(tail, sep);
      assert r == [r[0]] + r[1..];
      assert p + r[0] == r[0];
    } else {
      SplitPrefix(p[1..], tail, sep);
      assert (p + tail)[1..] == p[1..] + tail;
      assert [p[0]] + (p[1..] + SplitAll(tail, sep)[0]) == p + SplitAll(tail, sep)[0];
    }
  }

  /** Splitting fields joined with a separator none of them holds gives the fields back. */
  lemma {:induction false} SplitJoin(pieces: seq<string>, sep: char)
    requires |pieces| >= 1
    requires forall k :: 0 <= k < |pieces| ==> sep !in pieces[k]
    ensures SplitAll(Join(pieces, sep), sep) == pieces
  {
    if |pieces| == 1 {
      SplitPrefix(pieces[0], [], sep);
      assert pieces[0] + [] == pieces[0];
    } else {
      SplitJoin(pieces[1..], sep);
      var tail := [sep] + Join(pieces[1..], sep);
      SplitPrefix(pieces[0], tail, sep);
      assert pieces[0] + [sep] + Join(pieces[1..], sep) == pieces[0] + tail;
      assert tail[1..] == Join(pieces[1..], sep);
      assert SplitAll(tail, sep) == [[]] + pieces[1..];
      assert pieces[0] + [] == pieces[0];
      assert pieces == [pieces[0]] + pieces[1..];
    }
  }
}
