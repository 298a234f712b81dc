/**
 * Sequence operations that stand for the pandas operations the dashboard
 * applies to its data frame: boolean-mask row selection (`df[mask]`),
 * `Series.unique()` and value counting.  All of them recurse on the last
 * element of the sequence, so that one induction shape serves every lemma.
 */
module Selection {

  /** Row selection `s[mask]` where the mask is `keep` applied element-wise. */
  function Filter<T>(s: seq<T>, keep: T -> bool): (r: seq<T>)
    ensures |r| <= |s|
    ensures forall x :: x in r ==> x in s && keep(x)
  {
    if s == [] then []
    else Filter(s[..|s| - 1], keep) + (if keep(s[|s| - 1]) then [s[|s| - 1]] else [])
  }

  /** The indices at which the mask is true, in increasing order. */
  function Positions<T>(s: seq<T>, keep: T -> bool): (ix: seq<nat>)
    ensures forall k :: 0 <= k < |ix| ==> ix[k] < |s| && keep(s[ix[k]])
    ensures forall k, l :: 0 <= k < l < |ix| ==> ix[k] < ix[l]
    ensures forall i :: 0 <= i < |s| && keep(s[i]) ==> i in ix
  {
    if s == [] then []
    else
      var ix := Positions(s[..|s| - 1], keep);
      assert forall i :: 0 <= i < |s| - 1 ==> s[..|s| - 1][i] == s[i];
      ix + (if keep(s[|s| - 1]) then [|s| - 1] else [])
  }

  /** `ix` is a strictly increasing list of indices of `s` picking out `r`. */
  ghost predicate Embeds<T>(ix: seq<nat>, r: seq<T>, s: seq<T>)
  {
    && |ix| == |r|
    && (forall k :: 0 <= k < |ix| ==> ix[k] < |s| && r[k] == s[ix[k]])
    && (forall k, l :: 0 <= k < l < |ix| ==> ix[k] < ix[l])
  }

  /** `r` is a subsequence of `s`: its elements occur in `s` in the same relative order. */
  ghost predicate IsSubsequence<T>(r: seq<T>, s: seq<T>)
  {
    exists ix :: Embeds(ix, r, s)
  }

  /**
   * `r` consists of exactly the elements of `s` that satisfy `keep`, each
   * taken once and in their order in `s`: this is what a boolean mask selects.
   */
  ghost predicate IsOrderedSelection<T>(r: seq<T>, s: seq<T>, keep: T -> bool)
  {
    exists ix :: Embeds(ix, r, s) && forall i :: 0 <= i < |s| ==> (i in ix <==> keep(s[i]))
  }

  lemma {:induction false} FilterAppend<T>(a: seq<T>, b: seq<T>, keep: T -> bool)
    ensures Filter(a + b, keep) == Filter(a, keep) + Filter(b, keep)
    decreases |b|
  {
    if b == [] {
      assert a + b == a;
    } else {
      var b' := b[..|b| - 1];
      assert (a + b)[..|a + b| - 1] == a + b';
      assert (a + b)[|a + b| - 1] == b[|b| - 1];
      FilterAppend(a, b', keep);
    }
  }

  /** The selection is the input at the mask's true positions. */
  lemma {:induction false} FilterAtPositions<T>(s: seq<T>, keep: T -> bool)
    ensures Embeds(Positions(s, keep), Filter(s, keep), s)
    decreases |s|
  {
    if s != [] {
      var init := s[..|s| - 1];
      FilterAtPositions(init, keep);
      assert forall i :: 0 <= i < |init| ==> init[i] == s[i];
    }
  }

  lemma FilterIsOrderedSelection<T>(s: seq<T>, keep: T -> bool)
    ensures IsOrderedSelection(Filter(s, keep), s, keep)
  {
    var ix := Positions(s, keep);
    FilterAtPositions(s, keep);
    assert Embeds(ix, Filter(s, keep), s);
  }

  lemma FilterIsSubsequence<T>(s: seq<T>, keep: T -> bool)
    ensures IsSubsequence(Filter(s, keep), s)
  {
    FilterAtPositions(s, keep);
  }

  /** Every element the mask keeps is in the selection. */
  lemma FilterComplete<T>(s: seq<T>, keep: T -> bool)
    ensures forall i :: 0 <= i < |s| && keep(s[i]) ==> s[i] in Filter(s, keep)
  {
    var ix := Positions(s, keep);
    FilterAtPositions(s, keep);
    forall i | 0 <= i < |s| && keep(s[i])
      ensures s[i] in Filter(s, keep)
    {
      var k :| 0 <= k < |ix| && ix[k] == i;
      assert Filter(s, keep)[k] == s[i];
    }
  }

  /** Membership in the selection is exactly membership in `s` plus the predicate. */
  lemma FilterMembership<T>(s: seq<T>, keep: T -> bool)
    ensures forall x :: x in Filter(s, keep) <==> x in s && keep(x)
  {
    FilterComplete(s, keep);
  }

  /** A mask that is true everywhere selects everything. */
  lemma {:induction false} FilterKeepsAll<T>(s: seq<T>, keep: T -> bool)
    requires forall x :: x in s ==> keep(x)
    ensures Filter(s, keep) == s
    decreases |s|
  {
    if s != [] {
      var init := s[..|s| - 1];
      FilterKeepsAll(init, keep);
      assert Filter(s, keep) == init + [s[|s| - 1]];
      assert init + [s[|s| - 1]] == s;
    }
  }

  /** A mask that is false everywhere selects nothing. */
  lemma {:induction false} FilterKeepsNone<T>(s: seq<T>, keep: T -> bool)
    requires forall x :: x in s ==> !keep(x)
    ensures Filter(s, keep) == []
    decreases |s|
  {
    if s != [] {
      FilterKeepsNone(s[..|s| - 1], keep);
    }
  }

  /** Masks that agree on every element select the same rows. */
  lemma {:induction false} FilterSameMask<T>(s: seq<T>, p: T -> bool, q: T -> bool)
    requires forall x :: p(x) == q(x)
    ensures Filter(s, p) == Filter(s, q)
    decreases |s|
  {
    if s != [] {
      FilterSameMask(s[..|s| - 1], p, q);
    }
  }

  /** Selecting with `p` and then with `q` is selecting once with their conjunction. */
  lemma {:induction false} FilterFilter<T>(s: seq<T>, p: T -> bool, q: T -> bool, both: T -> bool)
    requires forall x :: both(x) == (p(x) && q(x))
    ensures Filter(Filter(s, p), q) == Filter(s, both)
    decreases |s|
  {
    if s != [] {
      var init, last := s[..|s| - 1], s[|s| - 1];
      FilterFilter(init, p, q, both);
      var tail := if p(last) then [last] else [];
      FilterAppend(Filter(init, p), tail, q);
      if p(last) {
        assert Filter(tail, q) == Filter([], q) + (if q(last) then [last] else []) by {
          assert tail[..0] == [];
        }
      }
    }
  }

  /** The distinct elements of `s` in order of first appearance (pandas `unique()`). */
  function Unique<T(==)>(s: seq<T>): (u: seq<T>)
    ensures |u| <= |s|
    ensures forall x :: x in u ==> x in s
    ensures forall x :: x in s ==> x in u
    ensures forall i, j :: 0 <= i < j < |u| ==> u[i] != u[j]
  {
    if s == [] then []
    else
      var u := Unique(s[..|s| - 1]);
      assert s == s[..|s| - 1] + [s[|s| - 1]];
      if s[|s| - 1] in u then u else u + [s[|s| - 1]]
  }

  /** The index of the first occurrence of `x` in `s`. */
  function FirstIndex<T(==)>(s: seq<T>, x: T): (i: nat)
    requires x in s
    ensures i < |s| && s[i] == x && x !in s[..i]
  {
    if s[0] == x then 0
    else
      var i := FirstIndex(s[1..], x);
      assert s[..i + 1] == [s[0]] + s[1..][..i];
      1 + i
  }

  /** Appending elements after a first occurrence does not move it. */
  lemma FirstIndexPrefix<T>(a: seq<T>, b: seq<T>, x: T)
    requires x in a
    ensures FirstIndex(a + b, x) == FirstIndex(a, x)
  {
    var i, j := FirstIndex(a, x), FirstIndex(a + b, x);
    assert forall k :: 0 <= k < j ==> (a + b)[..j][k] == (a + b)[k] != x;
    assert (a + b)[i] == x;
    assert j <= i;
    assert forall k :: 0 <= k < i ==> a[..i][k] == a[k] != x;
    assert a[j] == x;
  }

  /**
   * `Unique(s)` lists the distinct elements by the position of their first
   * occurrence in `s`.
   */
  lemma {:induction false} UniqueFirstSeenOrder<T>(s: seq<T>)
    ensures forall i, j :: 0 <= i < j < |Unique(s)| ==> FirstIndex(s, Unique(s)[i]) < FirstIndex(s, Unique(s)[j])
    decreases |s|
  {
    if s != [] {
      var init, last := s[..|s| - 1], s[|s| - 1];
      assert s == init + [last];
      UniqueFirstSeenOrder(init);
      var u := Unique(init);
      forall y | y in u
        ensures FirstIndex(s, y) == FirstIndex(init, y) < |init|
      {
        FirstIndexPrefix(init, [last], y);
      }
      if last !in u {
        assert FirstIndex(s, last) == |init| by {
          assert forall k :: 0 <= k < |init| ==> s[k] == init[k] != last;
        }
      }
    }
  }

  /** The number of occurrences of `x` in `s`. */
  function Count<T(==)>(s: seq<T>, x: T): (n: nat)
    ensures n <= |s|
    ensures n > 0 <==> x in s
  {
    if s == [] then 0
    else
      assert s == s[..|s| - 1] + [s[|s| - 1]];
      Count(s[..|s| - 1], x) + (if s[|s| - 1] == x then 1 else 0)
  }

  /** In a list without repetitions every value occurs at most once. */
  lemma {:induction false} CountDistinct<T>(u: seq<T>, x: T)
    requires forall i, j :: 0 <= i < j < |u| ==> u[i] != u[j]
    ensures Count(u, x) == if x in u then 1 else 0
    decreases |u|
  {
    if u != [] {
      var init := u[..|u| - 1];
      CountDistinct(init, x);
      if u[|u| - 1] == x {
        assert x !in init by {
          assert forall i :: 0 <= i < |init| ==> init[i] == u[i] != u[|u| - 1];
        }
      }
    }
  }

  /** The sum over `keys` of the number of occurrences of each key in `s`. */
  function SumCounts<T(==)>(s: seq<T>, keys: seq<T>): nat
  {
    if keys == [] then 0
    else SumCounts(s, keys[..|keys| - 1]) + Count(s, keys[|keys| - 1])
  }

  /** Appending `x` to `s` adds one for every time `x` occurs among the keys. */
  lemma {:induction false} SumCountsSnoc<T>(s: seq<T>, x: T, keys: seq<T>)
    ensures SumCounts(s + [x], keys) == SumCounts(s, keys) + Count(keys, x)
    decreases |keys|
  {
    if keys != [] {
      SumCountsSnoc(s, x, keys[..|keys| - 1]);
      assert (s + [x])[..|s + [x]| - 1] == s;
    }
  }

  /** Counting each distinct value once accounts for every element exactly once. */
  lemma {:induction false} CountsOfUniqueSumToLength<T>(s: seq<T>)
    ensures SumCounts(s, Unique(s)) == |s|
    decreases |s|
  {
    if s != [] {
      var init, last := s[..|s| - 1], s[|s| - 1];
      assert s == init + [last];
      var u := Unique(init);
      CountsOfUniqueSumToLength(init);
      SumCountsSnoc(init, last, u);
      CountDistinct(u, last);
      if last !in u {
        assert (u + [last])[..|u|] == u;
        assert Count(s, last) == 1 by {
          assert Count(init, last) == 0;
        }
      }
    }
  }
}
