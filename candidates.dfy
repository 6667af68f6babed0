/** The loop shape shared by the date and circulation filters: for every row,
    for every probe (a chosen column, or a pair of columns), push the row onto
    `candidates_array` when the test keeps it; a test that raises ends the
    whole loop, and nothing collected so far is kept. */
module Candidates {
  import opened Values
  import opened Dedup

  /** What one test says about one row and one probe. */
  datatype Verdict<+E> = Keep | Drop | Fail(error: E)

  /** The pushes for one row over the probes tried so far, in order. */
  function RowHits<P, E>(row: Row, probes: seq<P>, test: (Row, P) -> Verdict<E>): Result<seq<Row>, E>
    decreases |probes|
  {
    if probes == [] then Ok([])
    else
      match RowHits(row, probes[..|probes| - 1], test)
      case Err(e) => Err(e)
      case Ok(hits) =>
        match test(row, probes[|probes| - 1])
        case Fail(e) => Err(e)
        case Keep => Ok(hits + [row])
        case Drop => Ok(hits)
  }

  /** `candidates_array` after the loop over the rows `t`, or the first error raised. */
  function Collect<P, E>(t: Table, probes: seq<P>, test: (Row, P) -> Verdict<E>): Result<Table, E>
    decreases |t|
  {
    if t == [] then Ok([])
    else
      match Collect(t[..|t| - 1], probes, test)
      case Err(e) => Err(e)
      case Ok(candidates) =>
        match RowHits(t[|t| - 1], probes, test)
        case Err(e) => Err(e)
        case Ok(hits) => Ok(candidates + hits)
  }

  /** Once a probe has raised, the later probes of the row are never tried. */
  lemma {:induction false} RowHitsErrPersists<P, E>(row: Row, probes: seq<P>, test: (Row, P) -> Verdict<E>, k: nat)
    requires k <= |probes| && RowHits(row, probes[..k], test).Err?
    ensures RowHits(row, probes, test) == RowHits(row, probes[..k], test)
    decreases |probes| - k
  {
    if k < |probes| {
      assert probes[..k + 1][..k] == probes[..k];
      RowHitsErrPersists(row, probes, test, k + 1);
    } else {
      assert probes[..k] == probes;
    }
  }

  /** Once a row has raised, the later rows are never looked at. */
  lemma {:induction false} CollectErrPersists<P, E>(t: Table, probes: seq<P>, test: (Row, P) -> Verdict<E>, k: nat)
    requires k <= |t| && Collect(t[..k], probes, test).Err?
    ensures Collect(t, probes, test) == Collect(t[..k], probes, test)
    decreases |t| - k
  {
    if k < |t| {
      assert t[..k + 1][..k] == t[..k];
      CollectErrPersists(t, probes, test, k + 1);
    } else {
      assert t[..k] == t;
    }
  }

  /** A row fails exactly when one of its probes fails; otherwise it is pushed
      only as itself, and at least once exactly when some probe keeps it. */
  lemma {:induction false} RowHitsSpec<P, E>(row: Row, probes: seq<P>, test: (Row, P) -> Verdict<E>)
    ensures RowHits(row, probes, test).Err? <==> exists p :: p in probes && test(row, p).Fail?
    ensures RowHits(row, probes, test).Ok? ==>
      (forall x :: x in RowHits(row, probes, test).value ==> x == row)
      && (row in RowHits(row, probes, test).value <==> exists p :: p in probes && test(row, p).Keep?)
    decreases |probes|
  {
    if probes != [] {
      var pre, last := probes[..|probes| - 1], probes[|probes| - 1];
      RowHitsSpec(row, pre, test);
      assert probes == pre + [last];
      assert forall p :: p in probes <==> p in pre || p == last;
    }
  }

  /** The loop raises exactly when some row fails on some probe; otherwise it
      collects exactly the rows that some probe keeps. */
  lemma {:induction false} CollectSpec<P, E>(t: Table, probes: seq<P>, test: (Row, P) -> Verdict<E>)
    ensures Collect(t, probes, test).Err? <==>
      exists row, p :: row in t && p in probes && test(row, p).Fail?
    ensures Collect(t, probes, test).Ok? ==> forall x :: x in Collect(t, probes, test).value <==>
      x in t && exists p :: p in probes && test(x, p).Keep?
    decreases |t|
  {
    if t != [] {
      var pre, last := t[..|t| - 1], t[|t| - 1];
      CollectSpec(pre, probes, test);
      RowHitsSpec(last, probes, test);
      assert t == pre + [last];
      assert forall x :: x in t <==> x in pre || x == last;
    }
  }

  /** One more probe of the inner loop: push, skip or raise, as the test says. */
  lemma RowHitsStep<P, E>(row: Row, probes: seq<P>, test: (Row, P) -> Verdict<E>, j: nat)
    requires j < |probes| && RowHits(row, probes[..j], test).Ok?
    ensures RowHits(row, probes[..j + 1], test)
         == match test(row, probes[j])
            case Fail(e) => Err(e)
            case Keep => Ok(RowHits(row, probes[..j], test).value + [row])
            case Drop => Ok(RowHits(row, probes[..j], test).value)
  {
    assert probes[..j + 1][..j] == probes[..j];
  }

  /** The rows of `t` that some probe keeps, each occurrence once, in table order. */
  ghost function Kept<P, E>(t: Table, probes: seq<P>, test: (Row, P) -> Verdict<E>): (r: Table)
    ensures forall x :: x in r <==> x in t && exists p :: p in probes && test(x, p).Keep?
    decreases |t|
  {
    if t == [] then []
    else
      var pre, last := t[..|t| - 1], t[|t| - 1];
      assert t == pre + [last];
      Kept(pre, probes, test) + (if exists p :: p in probes && test(last, p).Keep? then [last] else [])
  }

  /** Leaving rows out keeps the others in the order of their first occurrence. */
  lemma {:induction false} KeptInOrder<P, E>(s: Table, t: Table, probes: seq<P>, test: (Row, P) -> Verdict<E>)
    requires InOrderOf(s, t)
    ensures InOrderOf(Kept(s, probes, test), t)
    decreases |s|
  {
    if s != [] {
      var pre, last := s[..|s| - 1], s[|s| - 1];
      assert s == pre + [last];
      assert forall i :: 0 <= i < |pre| ==> pre[i] == s[i];
      KeptInOrder(pre, t, probes, test);
      var k, r := Kept(pre, probes, test), Kept(s, probes, test);
      if r != k {
        assert r == k + [last];
        forall i, j | 0 <= i < j < |r|
          ensures FirstIndex(t, r[i]) < FirstIndex(t, r[j])
        {
          if j < |k| {
            assert r[i] == k[i] && r[j] == k[j];
          } else {
            assert r[i] == k[i] && k[i] in pre;
            var m :| 0 <= m < |pre| && pre[m] == k[i];
            assert s[m] == r[i] && s[|s| - 1] == r[j];
          }
        }
      }
    }
  }

  lemma KeptSnoc<P, E>(s: Table, x: Row, probes: seq<P>, test: (Row, P) -> Verdict<E>)
    ensures Kept(s + [x], probes, test)
         == Kept(s, probes, test) + (if exists p :: p in probes && test(x, p).Keep? then [x] else [])
  {
    assert (s + [x])[..|s|] == s;
  }

  lemma CollectSnoc<P, E>(t: Table, probes: seq<P>, test: (Row, P) -> Verdict<E>)
    requires t != [] && Collect(t, probes, test).Ok?
    ensures Collect(t[..|t| - 1], probes, test).Ok? && RowHits(t[|t| - 1], probes, test).Ok?
    ensures Collect(t, probes, test).value
         == Collect(t[..|t| - 1], probes, test).value + RowHits(t[|t| - 1], probes, test).value
  {
  }

  /** Once duplicates are removed, the candidate loop amounts to keeping, from the
      table's distinct rows in first-occurrence order, those some probe keeps. */
  lemma {:induction false} CollectUniq<P, E>(t: Table, probes: seq<P>, test: (Row, P) -> Verdict<E>)
    ensures Collect(t, probes, test).Ok? ==> Uniq(Collect(t, probes, test).value) == Kept(Uniq(t), probes, test)
    decreases |t|
  {
    if t != [] && Collect(t, probes, test).Ok? {
      var pre, last := t[..|t| - 1], t[|t| - 1];
      CollectSnoc(t, probes, test);
      var c, hits := Collect(pre, probes, test).value, RowHits(last, probes, test).value;
      CollectUniq(pre, probes, test);
      CollectSpec(pre, probes, test);
      RowHitsSpec(last, probes, test);
      var u := Uniq(pre);
      assert t == pre + [last];
      UniqSnoc(pre, last);
      KeptSnoc(u, last, probes, test);
      if hits == [] {
        assert c + hits == c;
      } else {
        assert hits[0] in hits;
        UniqRepeat(c, hits, last);
        UniqSnoc(c, last);
      }
    }
  }

  /** The loop followed by `uniq` keeps rows in table order. */
  lemma CollectInTableOrder<P, E>(t: Table, probes: seq<P>, test: (Row, P) -> Verdict<E>)
    ensures Collect(t, probes, test).Ok? ==> InOrderOf(Uniq(Collect(t, probes, test).value), t)
  {
    UniqFirstOccurrenceOrder(t);
    KeptInOrder(Uniq(t), t, probes, test);
    CollectUniq(t, probes, test);
  }
}
