/**
  The in-place Fisher-Yates shuffle used to order the quiz options, with the
  random index drawn at each step supplied by the caller.
 */
module Shuffling {

  /** No element occurs twice. */
  predicate Distinct<T(==)>(s: seq<T>)
  {
    forall i, j :: 0 <= i < j < |s| ==> s[i] != s[j]
  }

  /** The draws a shuffle of `n` elements may use: at step i the index is in [0, i]. */
  predicate ValidDraws(js: seq<nat>, n: nat)
  {
    |js| == n && forall k :: 0 <= k < n ==> js[k] <= k
  }

  function Swap<T>(s: seq<T>, i: nat, j: nat): seq<T>
    requires i < |s| && j < |s|
  {
    s[i := s[j]][j := s[i]]
  }

  /**
    The shuffle as a sequence function: for i from the last index down to 1,
    swap position i with position js[i]. `i` is the next index to process.
   */
  function FisherYates<T>(s: seq<T>, js: seq<nat>, i: int): seq<T>
    requires ValidDraws(js, |s|) && i < |s|
    decreases i
  {
    if i <= 0 then s else FisherYates(Swap(s, i, js[i]), js, i - 1)
  }

  /** The shuffle is a permutation: same length, same elements with the same multiplicities. */
  lemma {:induction false} FisherYatesPermutes<T>(s: seq<T>, js: seq<nat>, i: int)
    requires ValidDraws(js, |s|) && i < |s|
    ensures |FisherYates(s, js, i)| == |s|
    ensures multiset(FisherYates(s, js, i)) == multiset(s)
    decreases i
  {
    if i > 0 {
      var t := Swap(s, i, js[i]);
      assert multiset(t) == multiset(s);
      FisherYatesPermutes(t, js, i - 1);
    }
  }

  /** shuffleArray: shuffles `a` in place exactly as FisherYates describes. */
  method ShuffleArray<T>(a: array<T>, js: seq<nat>)
    requires ValidDraws(js, a.Length)
    modifies a
    ensures a[..] == FisherYates(old(a[..]), js, a.Length - 1)
    ensures multiset(a[..]) == multiset(old(a[..]))
  {
    var i := a.Length - 1;
    while i > 0
      invariant -1 <= i < a.Length
      invariant a.Length > 0 ==> 0 <= i
      invariant FisherYates(a[..], js, i) == FisherYates(old(a[..]), js, a.Length - 1)
    {
      var j := js[i];
      ghost var before := a[..];
      a[i], a[j] := a[j], a[i];
      assert a[..] == Swap(before, i, j);
      i := i - 1;
    }
    FisherYatesPermutes(old(a[..]), js, a.Length - 1);
  }

  /** A non-empty list has no repeats when its head is not in its tail and its tail has none. */
  lemma DistinctCons<T>(s: seq<T>)
    requires |s| > 0
    ensures Distinct(s) <==> s[0] !in s[1..] && Distinct(s[1..])
  {
    var x, rest := s[0], s[1..];
    if Distinct(s) {
      forall k | 0 <= k < |rest| ensures rest[k] != x {
        assert rest[k] == s[k + 1];
      }
      forall i, j | 0 <= i < j < |rest| ensures rest[i] != rest[j] {
        assert rest[i] == s[i + 1] && rest[j] == s[j + 1];
      }
    }
    if x !in rest && Distinct(rest) {
      forall i, j | 0 <= i < j < |s| ensures s[i] != s[j] {
        if i == 0 {
          assert s[j] == rest[j - 1];
        } else {
          assert s[i] == rest[i - 1] && s[j] == rest[j - 1];
        }
      }
    }
  }

  /** Distinct elements are exactly those of multiplicity at most one. */
  lemma {:induction false} DistinctIffSingleOccurrences<T>(s: seq<T>)
    ensures Distinct(s) <==> forall x :: multiset(s)[x] <= 1
  {
    if |s| > 0 {
      var x, rest := s[0], s[1..];
      assert s == [x] + rest;
      DistinctIffSingleOccurrences(rest);
      DistinctCons(s);
      forall y ensures multiset(s)[y] == multiset([x])[y] + multiset(rest)[y] {
      }
      assert x !in rest <==> multiset(rest)[x] == 0;
    }
  }

  /** A permutation of a list without repeats has no repeats. */
  lemma PermutationKeepsDistinct<T>(s: seq<T>, t: seq<T>)
    requires multiset(s) == multiset(t)
    requires Distinct(s)
    ensures Distinct(t)
  {
    DistinctIffSingleOccurrences(s);
    DistinctIffSingleOccurrences(t);
  }
}
