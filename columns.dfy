/** How `choose_column` turns the answer "which column(s)?" into array indexes. */
module Columns {
  import opened Values
  import opened RubyCore

  /** `gets.chomp.split(",").map(&:to_i)` followed by `map! { |idx| idx - 1 }`. */
  function ChosenIndexes(answer: string): seq<int>
  {
    var pieces := RubySplit(answer, ',');
    seq(|pieces|, k requires 0 <= k < |pieces| => ToI(pieces[k]) - 1)
  }

  lemma ChosenIndexesSpec(answer: string)
    ensures |ChosenIndexes(answer)| == |RubySplit(answer, ',')|
    ensures forall k :: 0 <= k < |ChosenIndexes(answer)| ==>
      ChosenIndexes(answer)[k] == ToI(RubySplit(answer, ',')[k]) - 1
  {
  }

  /** The check of every index with `between?(0, @headers.length - 1)`. */
  predicate Accepted(indexes: seq<int>, headerCount: int)
  {
    forall k :: 0 <= k < |indexes| ==> 0 <= indexes[k] <= headerCount - 1
  }

  /** The decimal numerals of `numbers`. */
  function Numerals(numbers: seq<nat>): (pieces: seq<string>)
    ensures |pieces| == |numbers|
  {
    seq(|numbers|, k requires 0 <= k < |numbers| => Decimal(numbers[k]))
  }

  /** What a user types to choose the 1-based columns `numbers`: the numbers joined by commas. */
  function Answer(numbers: seq<nat>): string
    requires |numbers| >= 1
  {
    Join(Numerals(numbers), ',')
  }

  /** Splitting a typed answer gives back its numerals, each of which reads as its number. */
  lemma AnswerPieces(numbers: seq<nat>)
    requires |numbers| >= 1
    ensures RubySplit(Answer(numbers), ',') == Numerals(numbers)
    ensures forall k :: 0 <= k < |numbers| ==> ToI(Numerals(numbers)[k]) == numbers[k]
  {
    var pieces := Numerals(numbers);
    forall k | 0 <= k < |pieces|
      ensures ',' !in pieces[k] && pieces[k] != [] && ToI(pieces[k]) == numbers[k]
    {
      DecimalDigits(numbers[k]);
      ToIOfDecimal(numbers[k]);
    }
    SplitJoin(pieces, ',');
    assert pieces[|pieces| - 1] != [];
    assert DropTrailingEmpty(pieces) == pieces;
  }

  /** An answer whose pieces read as `numbers` chooses the indexes `numbers[k] - 1`, and is
      accepted exactly when each number names a header. */
  lemma IndexesOfPieces(answer: string, numbers: seq<int>, headerCount: int)
    requires |RubySplit(answer, ',')| == |numbers|
    requires forall k :: 0 <= k < |numbers| ==> ToI(RubySplit(answer, ',')[k]) == numbers[k]
    ensures |ChosenIndexes(answer)| == |numbers|
    ensures forall k :: 0 <= k < |numbers| ==> ChosenIndexes(answer)[k] == numbers[k] - 1
    ensures Accepted(ChosenIndexes(answer), headerCount) <==> forall k :: 0 <= k < |numbers| ==> 1 <= numbers[k] <= headerCount
  {
    ChosenIndexesSpec(answer);
  }

  /** Typing the column numbers gives their 0-based indexes, in the order typed and with
      repetitions kept, and the answer is accepted exactly when every number names a header. */
  lemma TypedColumnsResolve(numbers: seq<nat>, headerCount: int)
    requires |numbers| >= 1
    ensures |ChosenIndexes(Answer(numbers))| == |numbers|
    ensures forall k :: 0 <= k < |numbers| ==> ChosenIndexes(Answer(numbers))[k] == numbers[k] as int - 1
    ensures Accepted(ChosenIndexes(Answer(numbers)), headerCount)
        <==> forall k :: 0 <= k < |numbers| ==> 1 <= numbers[k] <= headerCount
  {
    AnswerPieces(numbers);
    IndexesOfPieces(Answer(numbers), numbers, headerCount);
  }

  /** A piece that is not a number reads as 0, i.e. index -1, and the whole answer is refused. */
  lemma NonNumericPieceRejected(answer: string, headerCount: int, k: int)
    requires 0 <= k < |RubySplit(answer, ',')|
    requires ToI(RubySplit(answer, ',')[k]) == 0
    ensures !Accepted(ChosenIndexes(answer), headerCount)
  {
    assert ChosenIndexes(answer)[k] == -1;
  }

  /** An empty answer chooses no column at all, and that is accepted. */
  lemma EmptyAnswerChoosesNothing(headerCount: int)
    ensures ChosenIndexes("") == [] && Accepted(ChosenIndexes(""), headerCount)
  {
    assert SplitAll("", ',') == [[]];
    assert DropTrailingEmpty([[]]) == [];
  }

  /** Commas at the end of the answer are ignored, as `split` drops trailing empty fields. */
  lemma {:induction false} TrailingCommasIgnored(answer: string)
    ensures ChosenIndexes(answer + ",") == ChosenIndexes(answer)
  {
    SplitAppendSeparator(answer);
  }

  lemma {:induction false} SplitAppendSeparator(s: string)
    ensures SplitAll(s + ",", ',') == SplitAll(s, ',') + [[]]
  {
    if s == [] {
      assert SplitAll([','][1..], ',') == [[]];
    } else {
      SplitAppendSeparator(s[1..]);
      assert (s + ",")[1..] == s[1..] + ",";
      var rest := SplitAll(s[1..], ',');
      if s[0] != ',' {
        assert (rest + [[]])[0] == rest[0];
        assert (rest + [[]])[1..] == rest[1..] + [[]];
      }
    }
  }
}
