/** `Array#uniq`, which every candidate filter applies to its result, and the
    order facts about sequences needed to state what it keeps. */
module Dedup {

  predicate NoDup<T(==)>(s: seq<T>)
  {
    forall i, j :: 0 <= i < j < |s| ==> s[i] != s[j]
  }

  /** `a` is `b` with some elements left out, the rest in their order. */
  predicate IsSubsequence<T(==)>(a: seq<T>, b: seq<T>)
    decreases |b|
  {
    if b == [] then a == []
    else if a != [] && a[|a| - 1] == b[|b| - 1] then IsSubsequence(a[..|a| - 1], b[..|b| - 1])
    else IsSubsequence(a, b[..|b| - 1])
  }

  /** The position of the first occurrence of `x` in `s`. */
  function FirstIndex<T(==)>(s: seq<T>, x: T): (k: nat)
    requires x in s
    ensures k < |s| && s[k] == x && x !in s[..k]
  {
    if s[0] == x then 0
    else
      var k := 1 + FirstIndex(s[1..], x);
      assert s[..k] == [s[0]] + s[1..][..k - 1];
      k
  }

  /** `Array#uniq`: every element once, at the place where it first occurs. */
  function Uniq<T(==, !new)>(s: seq<T>): (u: seq<T>)
    ensures NoDup(u)
    ensures forall x :: x in u <==> x in s
    ensures |u| <= |s|
  {
    if s == [] then []
    else
      var u := Uniq(s[..|s| - 1]);
      if s[|s| - 1] in u then u else u + [s[|s| - 1]]
  }

  lemma {:induction false} SubsequenceDropLast<T>(a: seq<T>, b: seq<T>)
    requires a != [] && IsSubsequence(a, b)
    ensures IsSubsequence(a[..|a| - 1], b)
    decreases |b|
  {
    var a', b' := a[..|a| - 1], b[..|b| - 1];
    if a[|a| - 1] == b[|b| - 1] {
      if a' != [] && a'[|a'| - 1] == b[|b| - 1] {
        SubsequenceDropLast(a', b');
      }
    } else {
      SubsequenceDropLast(a, b');
      if a' != [] && a'[|a'| - 1] == b[|b| - 1] {
        SubsequenceDropLast(a', b');
      }
    }
  }

  lemma {:induction false} SubsequenceExtend<T>(a: seq<T>, b: seq<T>, y: T)
    requires IsSubsequence(a, b)
    ensures IsSubsequence(a, b + [y])
  {
    assert (b + [y])[..|b|] == b;
    if a != [] && a[|a| - 1] == y {
      SubsequenceDropLast(a, b);
    }
  }

  /** `uniq` only leaves elements out; it never reorders them. */
  lemma {:induction false} UniqIsSubsequence<T(!new)>(s: seq<T>)
    ensures IsSubsequence(Uniq(s), s)
  {
    if s != [] {
      var pre := s[..|s| - 1];
      UniqIsSubsequence(pre);
      assert s == pre + [s[|s| - 1]];
      if s[|s| - 1] in Uniq(pre) {
        SubsequenceExtend(Uniq(pre), pre, s[|s| - 1]);
      } else {
        var u := Uniq(pre) + [s[|s| - 1]];
        assert u[..|u| - 1] == Uniq(pre);
      }
    }
  }

  /** A sequence without duplicates is its own `uniq`. */
  lemma {:induction false} UniqOfNoDup<T(!new)>(s: seq<T>)
    requires NoDup(s)
    ensures Uniq(s) == s
  {
    if s != [] {
      var pre := s[..|s| - 1];
      assert NoDup(pre);
      UniqOfNoDup(pre);
      assert s[|s| - 1] !in pre;
      assert s == pre + [s[|s| - 1]];
    }
  }

  /** Applying `uniq` twice changes nothing. */
  lemma UniqIdempotent<T(!new)>(s: seq<T>)
    ensures Uniq(Uniq(s)) == Uniq(s)
  {
    UniqOfNoDup(Uniq(s));
  }

  lemma FirstIndexUnique<T>(s: seq<T>, x: T, k: nat)
    requires k < |s| && s[k] == x && x !in s[..k]
    ensures FirstIndex(s, x) == k
  {
    var r := FirstIndex(s, x);
    assert forall j | 0 <= j < k :: s[..k][j] == s[j];
    assert forall j | 0 <= j < r :: s[..r][j] == s[j];
  }

  lemma FirstIndexInPrefix<T>(pre: seq<T>, y: T, x: T)
    requires x in pre
    ensures FirstIndex(pre + [y], x) == FirstIndex(pre, x)
  {
    var k := FirstIndex(pre, x);
    assert (pre + [y])[..k] == pre[..k];
    FirstIndexUnique(pre + [y], x, k);
  }

  /** `uniq` lists the elements in the order of their first occurrences. */
  lemma {:induction false} UniqFirstOccurrenceOrder<T(!new)>(s: seq<T>)
    ensures forall i, j :: 0 <= i < j < |Uniq(s)| ==> FirstIndex(s, Uniq(s)[i]) < FirstIndex(s, Uniq(s)[j])
  {
    if s != [] {
      var pre, x := s[..|s| - 1], s[|s| - 1];
      var u := Uniq(pre);
      UniqFirstOccurrenceOrder(pre);
      assert s == pre + [x];
      forall y | y in pre
        ensures FirstIndex(s, y) == FirstIndex(pre, y)
      {
        FirstIndexInPrefix(pre, x, y);
      }
      if x !in u {
        FirstIndexUnique(s, x, |pre|);
        var v := u + [x];
        forall i, j | 0 <= i < j < |v|
          ensures FirstIndex(s, v[i]) < FirstIndex(s, v[j])
        {
          if j < |u| {
            assert v[i] == u[i] && v[j] == u[j];
          } else {
            assert v[i] == u[i] && u[i] in pre;
          }
        }
      }
    }
  }

  /** `u` holds only elements of `t`, listed in the order of their first occurrences in `t`. */
  predicate InOrderOf<T(==)>(u: seq<T>, t: seq<T>)
  {
    && (forall x :: x in u ==> x in t)
    && forall i, j :: 0 <= i < j < |u| ==> FirstIndex(t, u[i]) < FirstIndex(t, u[j])
  }

  lemma UniqSnoc<T(!new)>(s: seq<T>, x: T)
    ensures Uniq(s + [x]) == if x in Uniq(s) then Uniq(s) else Uniq(s) + [x]
  {
    assert (s + [x])[..|s|] == s;
  }

  /** A run of copies of one element adds to `uniq` what a single copy adds. */
  lemma {:induction false} UniqRepeat<T(!new)>(a: seq<T>, r: seq<T>, x: T)
    requires r != [] && forall y :: y in r ==> y == x
    ensures Uniq(a + r) == Uniq(a + [x])
    decreases |r|
  {
    if |r| > 1 {
      var r' := r[..|r| - 1];
      assert r[|r| - 1] in r;
      forall y | y in r'
        ensures y == x
      {
        var k :| 0 <= k < |r'| && r'[k] == y;
        assert r[k] in r;
      }
      UniqRepeat(a, r', x);
      assert (a + r)[..|a + r| - 1] == a + r';
      assert x in a + r';
    } else {
      assert r[0] in r;
      assert r == [x];
    }
  }
}
