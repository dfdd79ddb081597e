/** Orders used to lay out the database: Python's comparison of strings (for the
    ticker order) and the generic `sorted` over the keys of a dictionary, modelled
    as sorting a finite set under a strict total order. */
module Ordering {

  /** A strict total order: irreflexive, transitive and trichotomous. */
  ghost predicate IsStrictTotalOrder<T(!new)>(lt: (T, T) -> bool)
  {
    && (forall a :: !lt(a, a))
    && (forall a, b, c :: lt(a, b) && lt(b, c) ==> lt(a, c))
    && (forall a, b :: a == b || lt(a, b) || lt(b, a))
  }

  /** Every element precedes every later one: sorted and free of duplicates. */
  ghost predicate StrictlyAscending<T>(s: seq<T>, lt: (T, T) -> bool)
  {
    forall i, j :: 0 <= i < j < |s| ==> lt(s[i], s[j])
  }

  /** Python's `<` on `str`: code point by code point, a proper prefix first. */
  predicate LexLess(a: string, b: string)
  {
    |b| > 0 && (|a| == 0 || a[0] < b[0] || (a[0] == b[0] && LexLess(a[1..], b[1..])))
  }

  lemma {:induction false} LexLessIrreflexive(a: string)
    ensures !LexLess(a, a)
  {
    if |a| > 0 {
      LexLessIrreflexive(a[1..]);
    }
  }

  lemma {:induction false} LexLessTransitive(a: string, b: string, c: string)
    requires LexLess(a, b) && LexLess(b, c)
    ensures LexLess(a, c)
  {
    if |a| > 0 && a[0] == b[0] && b[0] == c[0] {
      LexLessTransitive(a[1..], b[1..], c[1..]);
    }
  }

  lemma {:induction false} LexLessTrichotomous(a: string, b: string)
    ensures a == b || LexLess(a, b) || LexLess(b, a)
  {
    if |a| > 0 && |b| > 0 && a[0] == b[0] {
      LexLessTrichotomous(a[1..], b[1..]);
      if a[1..] == b[1..] {
        assert a == [a[0]] + a[1..] && b == [b[0]] + b[1..];
      }
    }
  }

  /** The order Python uses to sort ticker strings is a strict total order. */
  lemma LexLessIsStrictTotalOrder()
    ensures IsStrictTotalOrder(LexLess)
  {
    forall a: string ensures !LexLess(a, a) {
      LexLessIrreflexive(a);
    }
    forall a: string, b: string, c: string | LexLess(a, b) && LexLess(b, c)
      ensures LexLess(a, c)
    {
      LexLessTransitive(a, b, c);
    }
    forall a: string, b: string ensures a == b || LexLess(a, b) || LexLess(b, a) {
      LexLessTrichotomous(a, b);
    }
  }

  /** Insert `x` at its place in an ascending sequence that does not hold it yet. */
  function Insert<T(!new)>(s: seq<T>, x: T, lt: (T, T) -> bool): (r: seq<T>)
    requires IsStrictTotalOrder(lt) && StrictlyAscending(s, lt) && x !in s
    ensures StrictlyAscending(r, lt)
    ensures |r| == |s| + 1
    ensures forall y :: y in r <==> y == x || y in s
  {
    if s == [] then [x]
    else if lt(x, s[0]) then [x] + s
    else
      var tail := Insert(s[1..], x, lt);
      assert lt(s[0], x);
      assert forall k :: 0 <= k < |tail| ==> lt(s[0], tail[k]) by {
        forall k | 0 <= k < |tail| ensures lt(s[0], tail[k]) {
          if tail[k] != x {
            assert tail[k] in tail;
            var m :| 0 <= m < |s[1..]| && s[1..][m] == tail[k];
            assert s[m + 1] == tail[k];
          }
        }
      }
      [s[0]] + tail
  }

  /** `sorted(keys)`: the elements of `s` in ascending order, each exactly once. */
  method SortSet<T(!new)>(s: set<T>, lt: (T, T) -> bool) returns (r: seq<T>)
    requires IsStrictTotalOrder(lt)
    ensures StrictlyAscending(r, lt)
    ensures forall y :: y in r <==> y in s
    ensures |r| == |s|
  {
    r := [];
    var rest := s;
    while rest != {}
      invariant rest <= s
      invariant StrictlyAscending(r, lt)
      invariant forall y :: y in r <==> y in s && y !in rest
      invariant |r| + |rest| == |s|
      decreases rest
    {
      var x :| x in rest;
      r := Insert(r, x, lt);
      rest := rest - {x};
    }
  }

  /** The head of an ascending sequence precedes every other element of it. */
  lemma HeadIsLeast<T>(s: seq<T>, y: T, lt: (T, T) -> bool)
    requires StrictlyAscending(s, lt) && y in s
    ensures y == s[0] || lt(s[0], y)
  {
    var k :| 0 <= k < |s| && s[k] == y;
    assert k == 0 || lt(s[0], s[k]);
  }

  /** An ascending sequence is determined by its elements: sorting the same keys
      twice gives the same order. */
  lemma {:induction false} AscendingUnique<T(!new)>(a: seq<T>, b: seq<T>, lt: (T, T) -> bool)
    requires IsStrictTotalOrder(lt)
    requires StrictlyAscending(a, lt) && StrictlyAscending(b, lt)
    requires forall y :: y in a <==> y in b
    ensures a == b
  {
    if a != [] && b != [] {
      HeadIsLeast(b, a[0], lt);
      HeadIsLeast(a, b[0], lt);
      assert a[0] == b[0];
      forall y ensures y in a[1..] <==> y in b[1..] {
        if y in a[1..] {
          var m :| 0 <= m < |a[1..]| && a[1..][m] == y;
          assert lt(a[0], a[m + 1]);
          assert y in b && y != b[0];
        }
        if y in b[1..] {
          var m :| 0 <= m < |b[1..]| && b[1..][m] == y;
          assert lt(b[0], b[m + 1]);
          assert y in a && y != a[0];
        }
      }
      AscendingUnique(a[1..], b[1..], lt);
      assert a == [a[0]] + a[1..] && b == [b[0]] + b[1..];
    } else {
      HeadIsMember(a);
      HeadIsMember(b);
    }
  }

  lemma HeadIsMember<T>(s: seq<T>)
    ensures s != [] ==> s[0] in s
  {
  }
}
