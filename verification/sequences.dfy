/** Order-preserving filters over lists.

    Every list operation of the utilities keeps some elements of its input,
    in their original order, and drops the rest. `IsFilterOf` says what that
    means without saying how it is computed; `Filter` computes it the way the
    utilities' loops do, one element at a time, appending the kept ones. */
module Sequences {
  /** `s` can be obtained from `t` by deleting elements, keeping the order
      of the elements that remain. */
  ghost predicate IsSubsequence<T>(s: seq<T>, t: seq<T>)
    decreases |t|
  {
    if |s| == 0 then true
    else if |t| == 0 then false
    else (s[0] == t[0] && IsSubsequence(s[1..], t[1..])) || IsSubsequence(s, t[1..])
  }

  /** `r` is what remains of `xs` once every element failing `keep` is
      dropped: the survivors in their original order, each as often as it
      occurs in `xs`, and nothing else. */
  ghost predicate IsFilterOf<T(!new)>(r: seq<T>, xs: seq<T>, keep: T -> bool)
  {
    && IsSubsequence(r, xs)
    && forall q :: multiset(r)[q] == if keep(q) then multiset(xs)[q] else 0
  }

  /** Scans `xs` from the front and appends every element that passes `keep`. */
  function Filter<T(==,!new)>(xs: seq<T>, keep: T -> bool): (r: seq<T>)
    ensures IsFilterOf(r, xs, keep)
    ensures |r| <= |xs|
  {
    if |xs| == 0 then []
    else
      assert xs == [xs[0]] + xs[1..];
      if keep(xs[0]) then
        var rest := Filter(xs[1..], keep);
        assert ([xs[0]] + rest)[1..] == rest;
        [xs[0]] + rest
      else
        var rest := Filter(xs[1..], keep);
        SubsequenceOfTail(rest, xs);
        rest
  }

  /** An element survives the filter exactly when it is in the input and
      passes the test. */
  lemma FilterMembers<T(!new)>(r: seq<T>, xs: seq<T>, keep: T -> bool)
    requires IsFilterOf(r, xs, keep)
    ensures forall q :: q in r <==> q in xs && keep(q)
  {
    forall q
      ensures q in r <==> q in xs && keep(q)
    {
      assert multiset(r)[q] == if keep(q) then multiset(xs)[q] else 0;
    }
  }

  /** Every list is a subsequence of itself. */
  lemma {:induction false} SubsequenceReflexive<T>(s: seq<T>)
    ensures IsSubsequence(s, s)
    decreases |s|
  {
    if |s| > 0 {
      SubsequenceReflexive(s[1..]);
    }
  }

  /** A subsequence of the tail of `t` is a subsequence of `t`. */
  lemma SubsequenceOfTail<T>(s: seq<T>, t: seq<T>)
    requires |t| > 0
    requires IsSubsequence(s, t[1..])
    ensures IsSubsequence(s, t)
  {
  }

  /** Deleting elements never makes a list longer. */
  lemma {:induction false} SubsequenceLength<T>(s: seq<T>, t: seq<T>)
    requires IsSubsequence(s, t)
    ensures |s| <= |t|
    decreases |t|
  {
    if |s| > 0 {
      if s[0] == t[0] && IsSubsequence(s[1..], t[1..]) {
        SubsequenceLength(s[1..], t[1..]);
      } else {
        SubsequenceLength(s, t[1..]);
      }
    }
  }

  /** Deleting elements never adds occurrences. */
  lemma {:induction false} SubsequenceMultiset<T>(s: seq<T>, t: seq<T>)
    requires IsSubsequence(s, t)
    ensures multiset(s) <= multiset(t)
    decreases |t|
  {
    if |s| == 0 {
    } else {
      assert t == [t[0]] + t[1..];
      if s[0] == t[0] && IsSubsequence(s[1..], t[1..]) {
        SubsequenceMultiset(s[1..], t[1..]);
        assert s == [s[0]] + s[1..];
      } else {
        SubsequenceMultiset(s, t[1..]);
      }
    }
  }

  /** Every element of a subsequence is an element of the whole. */
  lemma SubsequenceMembers<T>(s: seq<T>, t: seq<T>)
    requires IsSubsequence(s, t)
    ensures forall q :: q in s ==> q in t
  {
    SubsequenceMultiset(s, t);
    forall q | q in s
      ensures q in t
    {
      assert q in multiset(s);
    }
  }

  /** A subsequence as long as the whole is the whole. */
  lemma {:induction false} SubsequenceSameLength<T>(s: seq<T>, t: seq<T>)
    requires IsSubsequence(s, t)
    requires |s| == |t|
    ensures s == t
    decreases |t|
  {
    if |s| > 0 {
      if IsSubsequence(s, t[1..]) {
        SubsequenceLength(s, t[1..]);
        assert false;
      }
      SubsequenceSameLength(s[1..], t[1..]);
      assert s == [s[0]] + s[1..] && t == [t[0]] + t[1..];
    }
  }

  /** In a list without repetitions a value occurs at most once. */
  lemma {:induction false} DistinctOnce<T>(s: seq<T>, q: T)
    requires forall i, j :: 0 <= i < j < |s| ==> s[i] != s[j]
    ensures multiset(s)[q] == if q in s then 1 else 0
  {
    if |s| > 0 {
      var t := s[1..];
      assert s == [s[0]] + t;
      assert forall i :: 0 <= i < |t| ==> t[i] == s[i + 1];
      DistinctOnce(t, q);
      if s[0] in t {
        assert false;
      }
    }
  }

  /** The filter characterisation has exactly one solution: whatever list
      satisfies it is the list `Filter` computes. */
  lemma {:induction false} FilterOfIsFilter<T(!new)>(r: seq<T>, xs: seq<T>, keep: T -> bool)
    requires IsFilterOf(r, xs, keep)
    ensures r == Filter(xs, keep)
    decreases |xs|
  {
    if |xs| == 0 {
      assert |r| == 0;
    } else {
      var x := xs[0];
      assert xs == [x] + xs[1..];
      assert multiset(xs)[x] == multiset(xs[1..])[x] + 1;
      if keep(x) {
        // `x` must be kept, so `r` cannot live in the tail alone.
        if IsSubsequence(r, xs[1..]) {
          SubsequenceMultiset(r, xs[1..]);
          assert false;
        }
        assert r[0] == x && IsSubsequence(r[1..], xs[1..]);
        assert r == [x] + r[1..];
        assert IsFilterOf(r[1..], xs[1..], keep);
        FilterOfIsFilter(r[1..], xs[1..], keep);
      } else {
        // `x` is dropped, so `r` cannot start with it.
        if |r| > 0 && r[0] == x {
          assert false;
        }
        assert IsSubsequence(r, xs[1..]);
        assert IsFilterOf(r, xs[1..], keep);
        FilterOfIsFilter(r, xs[1..], keep);
      }
    }
  }
}
