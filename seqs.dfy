/** Duplicate-free sequences and order-preserving deduplication (`[...new Set(xs)]`, or an `includes`/`push` loop). */
module Seqs {
  import opened Wrappers

  predicate Distinct<T(==)>(s: seq<T>) {
    forall i, j :: 0 <= i < j < |s| ==> s[i] != s[j]
  }

  /** The index of the first occurrence of `x` in `s`. */
  function FirstIndex<T(==)>(s: seq<T>, x: T): (i: nat)
    requires x in s
    ensures i < |s| && s[i] == x
    ensures forall k :: 0 <= k < i ==> s[k] != x
  {
    if s[0] == x then 0 else 1 + FirstIndex(s[1..], x)
  }

  /** `s` with every element after its first occurrence removed, in first-occurrence order. */
  function Dedup<T(==)>(s: seq<T>): (r: seq<T>)
    ensures Distinct(r)
    ensures forall k :: 0 <= k < |r| ==> r[k] in s
    ensures forall k :: 0 <= k < |s| ==> s[k] in r
    ensures |r| <= |s|
  {
    if |s| == 0 then []
    else
      var d := Dedup(s[..|s| - 1]);
      assert s == s[..|s| - 1] + [s[|s| - 1]];
      if s[|s| - 1] in d then d else d + [s[|s| - 1]]
  }

  /** A sequence that already has no duplicates is left as it is. */
  lemma {:induction false} DedupOfDistinct<T>(s: seq<T>)
    requires Distinct(s)
    ensures Dedup(s) == s
  {
    if |s| > 0 {
      DedupOfDistinct(s[..|s| - 1]);
    }
  }

  lemma FirstIndexOfExtension<T>(s: seq<T>, x: T, y: T)
    requires y in s
    ensures FirstIndex(s + [x], y) == FirstIndex(s, y)
  {
    var i := FirstIndex(s, y);
    var j := FirstIndex(s + [x], y);
    assert (s + [x])[i] == y;
  }

  /** The kept elements appear in the order of their first occurrences in the input. */
  lemma {:induction false} DedupKeepsFirstOccurrenceOrder<T>(s: seq<T>)
    ensures forall i, j :: 0 <= i < j < |Dedup(s)| ==>
      FirstIndex(s, Dedup(s)[i]) < FirstIndex(s, Dedup(s)[j])
  {
    if |s| > 0 {
      var p, x := s[..|s| - 1], s[|s| - 1];
      assert s == p + [x];
      var d := Dedup(p);
      DedupKeepsFirstOccurrenceOrder(p);
      forall y | y in d ensures FirstIndex(s, y) == FirstIndex(p, y) {
        FirstIndexOfExtension(p, x, y);
      }
      if x !in d {
        var j := FirstIndex(s, x);
        assert j == |p| by {
          assert s[|p|] == x;
        }
      }
    }
  }

  /** Keeps the non-empty strings: `xs.filter(Boolean)`. */
  function DropEmpty(xs: seq<string>): (r: seq<string>)
    ensures forall k :: 0 <= k < |r| ==> r[k] != ""
    ensures forall x :: x in r <==> x in xs && x != ""
  {
    if |xs| == 0 then []
    else
      assert xs == xs[..|xs| - 1] + [xs[|xs| - 1]];
      DropEmpty(xs[..|xs| - 1]) + (if xs[|xs| - 1] == "" then [] else [xs[|xs| - 1]])
  }

  lemma {:induction false} DropEmptyOfNonEmpty(xs: seq<string>)
    requires forall k :: 0 <= k < |xs| ==> xs[k] != ""
    ensures DropEmpty(xs) == xs
  {
    if |xs| > 0 {
      DropEmptyOfNonEmpty(xs[..|xs| - 1]);
    }
  }

  /** `xs.map(f)` for an `f` that may throw: all of the results, or the first failure. */
  function MapUntilFailure<A, B, E>(f: A -> Result<B, E>, xs: seq<A>): (r: Result<seq<B>, E>)
    ensures r.Success? ==> |r.value| == |xs| && forall k :: 0 <= k < |xs| ==> f(xs[k]) == Success(r.value[k])
  {
    if |xs| == 0 then Success([])
    else
      match MapUntilFailure(f, xs[..|xs| - 1])
      case Failure(e) => Failure(e)
      case Success(ys) =>
        match f(xs[|xs| - 1])
        case Failure(e) => Failure(e)
        case Success(y) => Success(ys + [y])
  }

  /** One more element: the prefix's results extended by its result, or its failure. */
  lemma MapUntilFailureStep<A, B, E>(f: A -> Result<B, E>, xs: seq<A>, i: nat)
    requires i < |xs| && MapUntilFailure(f, xs[..i]).Success?
    ensures f(xs[i]).Failure? ==> MapUntilFailure(f, xs[..i + 1]) == Failure(f(xs[i]).error)
    ensures f(xs[i]).Success? ==> MapUntilFailure(f, xs[..i + 1]) == Success(MapUntilFailure(f, xs[..i]).value + [f(xs[i]).value])
  {
    assert xs[..i + 1][..i] == xs[..i];
  }

  /** Once a prefix has failed, the whole sequence fails with the same error. */
  lemma {:induction false} MapUntilFailureStaysFailed<A, B, E>(f: A -> Result<B, E>, xs: seq<A>, i: nat)
    requires i <= |xs| && MapUntilFailure(f, xs[..i]).Failure?
    ensures MapUntilFailure(f, xs) == MapUntilFailure(f, xs[..i])
  {
    if i < |xs| {
      var n := |xs| - 1;
      assert xs[..n][..i] == xs[..i];
      MapUntilFailureStaysFailed(f, xs[..n], i);
    } else {
      assert xs[..i] == xs;
    }
  }

  /** A failure is the error of the first element that fails. */
  lemma {:induction false} MapUntilFailureFirstFailure<A, B, E>(f: A -> Result<B, E>, xs: seq<A>)
    requires MapUntilFailure(f, xs).Failure?
    ensures exists k :: 0 <= k < |xs| && f(xs[k]) == Failure(MapUntilFailure(f, xs).error) && forall j :: 0 <= j < k ==> f(xs[j]).Success?
  {
    var n := |xs| - 1;
    var prefix := MapUntilFailure(f, xs[..n]);
    if prefix.Failure? {
      MapUntilFailureFirstFailure(f, xs[..n]);
      var k :| 0 <= k < n && f(xs[..n][k]) == Failure(prefix.error)
        && forall j :: 0 <= j < k ==> f(xs[..n][j]).Success?;
      assert xs[..n][k] == xs[k];
      assert forall j :: 0 <= j < k ==> xs[..n][j] == xs[j];
    } else {
      assert forall j :: 0 <= j < n ==> xs[..n][j] == xs[j];
    }
  }

  /** When every element succeeds, the results are exactly theirs. */
  lemma {:induction false} MapUntilFailureAllSucceed<A, B, E>(f: A -> Result<B, E>, xs: seq<A>, ys: seq<B>)
    requires |xs| == |ys| && forall k :: 0 <= k < |xs| ==> f(xs[k]) == Success(ys[k])
    ensures MapUntilFailure(f, xs) == Success(ys)
  {
    if |xs| > 0 {
      var n := |xs| - 1;
      MapUntilFailureAllSucceed(f, xs[..n], ys[..n]);
      assert ys[..n] + [ys[n]] == ys;
    }
  }

  /** A repeat directly after the first occurrence is dropped. */
  lemma DedupDropsRepeat<T>(a: T, b: T)
    requires a != b
    ensures Dedup([a, a, b]) == [a, b]
  {
    assert [a, a, b][..2] == [a, a];
    assert [a, a][..1] == [a];
    assert [a][..0] == [];
    assert Dedup([a]) == [a];
    assert Dedup([a, a]) == [a];
  }

  /** A sequence is duplicate-free exactly when no element occurs in it twice. */
  lemma {:induction false} DistinctIffSingleOccurrences<T>(s: seq<T>)
    ensures Distinct(s) <==> forall x :: multiset(s)[x] <= 1
  {
    if |s| > 0 {
      var p := s[..|s| - 1];
      var y := s[|s| - 1];
      assert s == p + [y];
      DistinctIffSingleOccurrences(p);
      assert multiset(s) == multiset(p) + multiset{y};
      if Distinct(s) {
        assert Distinct(p) by {
          assert forall i :: 0 <= i < |p| ==> p[i] == s[i];
        }
        assert y !in p by {
          assert forall i :: 0 <= i < |p| ==> p[i] == s[i];
        }
      } else {
        var i, j :| 0 <= i < j < |s| && s[i] == s[j];
        if j < |s| - 1 {
          assert p[i] == p[j];
          var x :| multiset(p)[x] > 1;
          assert multiset(s)[x] > 1;
        } else {
          assert p[i] == y;
          assert multiset(s)[y] > 1;
        }
      }
    }
  }

  /** Rearranging a duplicate-free sequence leaves it duplicate-free. */
  lemma PermutationKeepsDistinct<T>(a: seq<T>, b: seq<T>)
    requires multiset(a) == multiset(b) && Distinct(a)
    ensures Distinct(b)
  {
    DistinctIffSingleOccurrences(a);
    DistinctIffSingleOccurrences(b);
  }

  /** The multiset of a non-empty sequence: that of all but the last element, plus the last. */
  lemma MultisetOfLast<T>(s: seq<T>)
    requires |s| > 0
    ensures multiset(s) == multiset(s[..|s| - 1]) + multiset{s[|s| - 1]}
  {
    assert s == s[..|s| - 1] + [s[|s| - 1]];
  }

  /** Deduplicating one more element keeps the earlier result and appends the element when it is new. */
  lemma DedupSnoc<T>(s: seq<T>, x: T)
    ensures Dedup(s + [x]) == if x in Dedup(s) then Dedup(s) else Dedup(s) + [x]
  {
    assert (s + [x])[..|s|] == s;
  }

  /** Appending to a one- or two-element display gives the longer display. */
  lemma DisplayAppend<T>(x: T, y: T, z: T)
    ensures [x] + [y] == [x, y]
    ensures [x, y] + [z] == [x, y, z]
  {
  }

  /** A new element appended to a sequence without duplicates keeps it without duplicates. */
  lemma DistinctSnoc<T>(s: seq<T>, x: T)
    requires Distinct(s) && x !in s
    ensures Distinct(s + [x])
  {
    forall i, j | 0 <= i < j < |s| + 1 ensures (s + [x])[i] != (s + [x])[j] {
      assert (s + [x])[i] == s[i];
    }
  }
}
