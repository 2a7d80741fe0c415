/** The windowed objective: `posdist`, `pairScore`, the reference `score`
    (pairs of items) and `scoreFast` (pairs of positions at most 3 apart),
    their agreement on permutations, and how a change at one position moves
    the fast score. */
module Objective {
  import opened Sums
  import opened Lists

  /** The items are 0 .. N-1 (the source writes `0..99`). */
  const N: int := 100

  /** The window: pairs further apart than this do not score. */
  const W: int := 3

  /** `affinity(n, m)`: an edit distance between the items' fingerprints. */
  type Affinity = (int, int) -> nat

  ghost predicate SymmetricAffinity(aff: Affinity)
  {
    forall n, m :: aff(n, m) == aff(m, n)
  }

  /** A list holding each of 0 .. N-1 exactly once. */
  ghost predicate IsPermutation(s: seq<int>)
  {
    Distinct(s) && forall x :: x in s <==> 0 <= x < N
  }

  function Abs(x: int): nat
  {
    if x < 0 then -x else x
  }

  function Max(a: int, b: int): int
  {
    if a < b then b else a
  }

  function Min(a: int, b: int): int
  {
    if a < b then a else b
  }

  lemma DistinctCoverIsRangePermutation(s: seq<int>, n: int)
    requires Distinct(s)
    requires forall x :: x in s <==> 0 <= x < n
    ensures multiset(s) == multiset(Range(0, n))
  {
    DistinctCounts(s);
    DistinctCounts(Range(0, n));
    assert forall x :: multiset(s)[x] == multiset(Range(0, n))[x];
  }

  /** A permutation has N elements and the multiset of 0 .. N-1. */
  lemma PermutationFacts(s: seq<int>)
    requires IsPermutation(s)
    ensures |s| == N
    ensures multiset(s) == multiset(Range(0, N))
  {
    DistinctCoverIsRangePermutation(s, N);
    assert |s| == |multiset(s)| == |multiset(Range(0, N))| == N;
  }

  /** `posdist`: how far apart the first occurrences of n and m lie. Two
      different items of the list are never at distance 0, two absent items
      always are, and an absent item counts as sitting just before the list. */
  function PosDist(n: int, m: int, s: seq<int>): (d: nat)
    ensures n in s && m in s ==> (d == 0 <==> n == m)
    ensures n !in s && m !in s ==> d == 0
    ensures n !in s && m in s ==> 1 <= d <= |s| && s[d - 1] == m
    ensures n !in s && m in s ==> d == IndexOf(s, m) + 1
  {
    Abs(IndexOf(s, n) - IndexOf(s, m))
  }

  lemma PosDistSymmetric(n: int, m: int, s: seq<int>)
    ensures PosDist(n, m, s) == PosDist(m, n, s)
    ensures PosDist(n, n, s) == 0
  {
  }

  lemma PosDistExamples()
    ensures PosDist(12, 54, [1111, 12, 54, 89, 91, 1112]) == 1
    ensures PosDist(12, 89, [1111, 12, 54, 89, 91, 1112]) == 2
  {
    var s := [1111, 12, 54, 89, 91, 1112];
    assert s[1] == 12 && s[2] == 54 && s[3] == 89 && s[0] != 12;
    assert s[0] != 54 && s[1] != 54 && s[0] != 89 && s[1] != 89 && s[2] != 89;
  }

  /** On a list without duplicates, `posdist` of two entries is the distance
      of their positions. */
  lemma PosDistOfPositions(s: seq<int>, i: int, j: int)
    requires Distinct(s) && 0 <= i < |s| && 0 <= j < |s|
    ensures PosDist(s[i], s[j], s) == Abs(i - j)
  {
    IndexOfDistinct(s, i);
    IndexOfDistinct(s, j);
  }

  /** `pairScore`: affinity divided by position distance. */
  function PairScore(aff: Affinity, n: int, m: int, s: seq<int>): (r: real)
    requires PosDist(n, m, s) != 0
    ensures r >= 0.0
    ensures r * PosDist(n, m, s) as real == aff(n, m) as real
  {
    aff(n, m) as real / PosDist(n, m, s) as real
  }

  // ----- The fast form, by positions -----

  /** The reward of the pair at positions i < j, by its position distance. */
  function Term(aff: Affinity, s: seq<int>, i: int, j: int): real
  {
    if 0 <= i < j < |s| then aff(s[i], s[j]) as real / (j - i) as real else 0.0
  }

  /** The pairs whose later position is j. */
  function Window(aff: Affinity, s: seq<int>, j: int): real
  {
    Term(aff, s, j - 3, j) + Term(aff, s, j - 2, j) + Term(aff, s, j - 1, j)
  }

  /** The pairs whose later position is below n. (Listing s in the measure
      keeps the verifier from unrolling calls whose n is a known constant.) */
  function FastUpTo(aff: Affinity, s: seq<int>, n: int): real
    decreases n, s
  {
    if n <= 0 then 0.0 else FastUpTo(aff, s, n - 1) + Window(aff, s, n - 1)
  }

  /** The value of `scoreFast`: every pair of positions at most W apart,
      counted once, at its later position. */
  function FastSum(aff: Affinity, s: seq<int>): real
  {
    FastUpTo(aff, s, |s|)
  }

  lemma {:induction false} FastUpToNonNegative(aff: Affinity, s: seq<int>, n: int)
    ensures FastUpTo(aff, s, n) >= 0.0
    decreases n
  {
    if n > 0 {
      FastUpToNonNegative(aff, s, n - 1);
    }
  }

  lemma FastSumNonNegative(aff: Affinity, s: seq<int>)
    ensures FastSum(aff, s) >= 0.0
  {
    FastUpToNonNegative(aff, s, |s|);
  }

  /** `scoreFast`, working on lists of any length without duplicates. */
  method ScoreFast(aff: Affinity, s: seq<int>) returns (total: real)
    requires Distinct(s)
    ensures total == FastSum(aff, s)
  {
    total := 0.0;
    for j := 0 to |s|
      invariant total == FastUpTo(aff, s, j)
    {
      for i := Max(0, j - W) to j
        invariant total == FastUpTo(aff, s, j)
                           + (if j - 3 < i then Term(aff, s, j - 3, j) else 0.0)
                           + (if j - 2 < i then Term(aff, s, j - 2, j) else 0.0)
                           + (if j - 1 < i then Term(aff, s, j - 1, j) else 0.0)
      {
        var n := s[i];
        var m := s[j];
        PosDistOfPositions(s, i, j);
        assert 1 <= PosDist(n, m, s) == j - i <= W;
        total := total + PairScore(aff, n, m, s);
      }
    }
  }

  // ----- The reference form, by items -----

  /** The contribution of the item pair (n, m) to `score`. */
  function RefTerm(aff: Affinity, s: seq<int>, n: int, m: int): real
  {
    var d := PosDist(n, m, s);
    if d != 0 && d <= W then aff(n, m) as real / d as real else 0.0
  }

  function RefPair(aff: Affinity, s: seq<int>): (int, int) -> real
  {
    (n, m) => RefTerm(aff, s, n, m)
  }

  /** The value of `score`: every pair of items n < m whose positions are at
      most W apart. */
  function RefSum(aff: Affinity, s: seq<int>): real
  {
    TriSum(RefPair(aff, s), N)
  }

  /** One step of `score`'s inner loop: two different items, at most one of
      them missing, are never at distance 0, and the row sum grows by what the
      step adds. */
  lemma ScoreStep(aff: Affinity, s: seq<int>, n: int, m: int)
    requires MissesAtMostOne(s) && 0 <= n < m < N
    ensures PosDist(n, m, s) != 0
    ensures RowSum(RefPair(aff, s), m, n + 1)
            == RowSum(RefPair(aff, s), m, n)
               + if PosDist(n, m, s) <= W then PairScore(aff, n, m, s) else 0.0
  {
    assert IndexOf(s, n) != IndexOf(s, m);
  }

  /** Of any two items of 0 .. N-1, at least one occurs in s. */
  ghost predicate MissesAtMostOne(s: seq<int>)
  {
    forall n, m :: 0 <= n < m < N ==> n in s || m in s
  }

  /** Exactly the lists on which no pair `score` visits is at `posdist` 0:
      two missing items would both be at `indexOf` -1. */
  lemma MissesAtMostOneIff(s: seq<int>)
    ensures MissesAtMostOne(s) <==> forall n, m :: 0 <= n < m < N ==> PosDist(n, m, s) != 0
  {
    if MissesAtMostOne(s) {
      forall n, m | 0 <= n < m < N
        ensures PosDist(n, m, s) != 0
      {
        assert IndexOf(s, n) != IndexOf(s, m);
      }
    } else {
      var n, m :| 0 <= n < m < N && n !in s && m !in s;
      assert PosDist(n, m, s) == 0;
    }
  }

  /** `score`, for a list from which at most one of the items is missing
      (otherwise `pairScore` would divide `affinity(n, m)` by 0, which gives
      infinity, or NaN when the two traces coincide). */
  method Score(aff: Affinity, s: seq<int>) returns (total: real)
    requires MissesAtMostOne(s)
    ensures total == RefSum(aff, s)
  {
    total := 0.0;
    for m := 0 to N
      invariant total == TriSum(RefPair(aff, s), m)
    {
      for n := 0 to m
        invariant total == TriSum(RefPair(aff, s), m) + RowSum(RefPair(aff, s), m, n)
      {
        ScoreStep(aff, s, n, m);
        if PosDist(n, m, s) <= W {
          total := total + PairScore(aff, n, m, s);
        }
      }
    }
  }

  // ----- Agreement of the two forms -----

  /** The pair (i, j) of positions, in either order. */
  function PosTerm(aff: Affinity, s: seq<int>, i: int, j: int): real
  {
    if 0 <= i < |s| && 0 <= j < |s| && i != j && Abs(i - j) <= W
    then aff(s[i], s[j]) as real / Abs(i - j) as real
    else 0.0
  }

  function PosPair(aff: Affinity, s: seq<int>): (int, int) -> real
  {
    (i, j) => PosTerm(aff, s, i, j)
  }

  lemma {:induction false} RowBelowWindow(aff: Affinity, s: seq<int>, j: int, a: int)
    requires 0 <= a <= j - W
    ensures RowSum(PosPair(aff, s), j, a) == 0.0
    decreases a
  {
    if a > 0 {
      RowBelowWindow(aff, s, j, a - 1);
    }
  }

  lemma WindowIsRow(aff: Affinity, s: seq<int>, j: int)
    requires 0 <= j < |s|
    ensures RowSum(PosPair(aff, s), j, j) == Window(aff, s, j)
  {
    var F := PosPair(aff, s);
    if j >= 3 {
      RowBelowWindow(aff, s, j, j - 3);
      assert RowSum(F, j, j - 2) == RowSum(F, j, j - 3) + F(j - 3, j);
      assert RowSum(F, j, j - 1) == RowSum(F, j, j - 2) + F(j - 2, j);
    } else if j == 2 {
      assert RowSum(F, j, 1) == RowSum(F, j, 0) + F(0, j);
    }
  }

  lemma {:induction false} TriIsFast(aff: Affinity, s: seq<int>, a: int)
    requires 0 <= a <= |s|
    ensures TriSum(PosPair(aff, s), a) == FastUpTo(aff, s, a)
    decreases a
  {
    if a > 0 {
      TriIsFast(aff, s, a - 1);
      WindowIsRow(aff, s, a - 1);
    }
  }

  lemma RefPairSymmetric(aff: Affinity, s: seq<int>)
    requires SymmetricAffinity(aff)
    ensures forall n, m :: RefPair(aff, s)(n, m) == RefPair(aff, s)(m, n)
    ensures forall k :: RefPair(aff, s)(k, k) == 0.0
  {
    forall n, m
      ensures RefPair(aff, s)(n, m) == RefPair(aff, s)(m, n)
    {
      PosDistSymmetric(n, m, s);
    }
  }

  lemma PosPairSymmetric(aff: Affinity, s: seq<int>)
    requires SymmetricAffinity(aff)
    ensures forall i, j :: PosPair(aff, s)(i, j) == PosPair(aff, s)(j, i)
    ensures forall k :: PosPair(aff, s)(k, k) == 0.0
  {
    forall i, j
      ensures PosPair(aff, s)(i, j) == PosPair(aff, s)(j, i)
    {
      if 0 <= i < |s| && 0 <= j < |s| {
        var n, m := s[i], s[j];
        assert aff(n, m) == aff(m, n);
        assert Abs(i - j) == Abs(j - i);
      }
    }
  }

  lemma PosPairIsRefPair(aff: Affinity, s: seq<int>)
    requires Distinct(s)
    ensures forall i, j :: 0 <= i < |s| && 0 <= j < |s| ==>
              PosPair(aff, s)(i, j) == RefPair(aff, s)(s[i], s[j])
  {
    forall i, j | 0 <= i < |s| && 0 <= j < |s|
      ensures PosPair(aff, s)(i, j) == RefPair(aff, s)(s[i], s[j])
    {
      PosDistOfPositions(s, i, j);
    }
  }

  lemma RefGridIsTwiceTri(aff: Affinity, s: seq<int>)
    requires SymmetricAffinity(aff)
    ensures GridSum(RefPair(aff, s), N, N) == 2.0 * TriSum(RefPair(aff, s), N)
  {
    RefPairSymmetric(aff, s);
    GridIsTwiceTri(RefPair(aff, s), N);
  }

  lemma PosGridIsTwiceTri(aff: Affinity, s: seq<int>)
    requires SymmetricAffinity(aff)
    ensures GridSum(PosPair(aff, s), |s|, |s|) == 2.0 * TriSum(PosPair(aff, s), |s|)
  {
    PosPairSymmetric(aff, s);
    GridIsTwiceTri(PosPair(aff, s), |s|);
  }

  lemma RefGridIsPosGrid(aff: Affinity, s: seq<int>)
    requires IsPermutation(s)
    ensures |s| == N
    ensures GridSum(RefPair(aff, s), N, N) == GridSum(PosPair(aff, s), N, N)
  {
    PermutationFacts(s);
    PosPairIsRefPair(aff, s);
    GridReindex(RefPair(aff, s), PosPair(aff, s), s);
  }

  /** On a permutation of 0 .. N-1, `score` and `scoreFast` agree. */
  lemma ScoreEqualsScoreFast(aff: Affinity, s: seq<int>)
    requires IsPermutation(s) && SymmetricAffinity(aff)
    ensures RefSum(aff, s) == FastSum(aff, s)
  {
    RefGridIsPosGrid(aff, s);
    RefGridIsTwiceTri(aff, s);
    PosGridIsTwiceTri(aff, s);
    TriIsFast(aff, s, N);
  }

  // ----- Changing one position -----

  /** The pairs that involve position k. */
  function Local(aff: Affinity, s: seq<int>, k: int): real
  {
    Window(aff, s, k) + Term(aff, s, k, k + 1) + Term(aff, s, k, k + 2) + Term(aff, s, k, k + 3)
  }

  /** The pairs that involve position k and whose later position is below n. */
  function LocalUpTo(aff: Affinity, s: seq<int>, k: int, n: int): real
  {
    (if k < n then Window(aff, s, k) else 0.0)
    + (if k + 1 < n then Term(aff, s, k, k + 1) else 0.0)
    + (if k + 2 < n then Term(aff, s, k, k + 2) else 0.0)
    + (if k + 3 < n then Term(aff, s, k, k + 3) else 0.0)
  }

  lemma {:induction false} ReplaceUpTo(aff: Affinity, s: seq<int>, k: int, v: int, n: int)
    requires 0 <= k < |s| && 0 <= n <= |s|
    ensures FastUpTo(aff, s[k := v], n) - LocalUpTo(aff, s[k := v], k, n)
            == FastUpTo(aff, s, n) - LocalUpTo(aff, s, k, n)
    decreases n
  {
    if n > 0 {
      ReplaceUpTo(aff, s, k, v, n - 1);
      var t := s[k := v];
      var p := n - 1;
      assert Term(aff, t, p - 3, p) == Term(aff, s, p - 3, p) || p == k || p - 3 == k;
      assert Term(aff, t, p - 2, p) == Term(aff, s, p - 2, p) || p == k || p - 2 == k;
      assert Term(aff, t, p - 1, p) == Term(aff, s, p - 1, p) || p == k || p - 1 == k;
    }
  }

  /** Replacing the item at position k moves `scoreFast` by exactly the change
      in the pairs that involve k. */
  lemma ReplaceDelta(aff: Affinity, s: seq<int>, k: int, v: int)
    requires 0 <= k < |s|
    ensures FastSum(aff, s[k := v]) - FastSum(aff, s) == Local(aff, s[k := v], k) - Local(aff, s, k)
  {
    ReplaceUpTo(aff, s, k, v, |s|);
  }

  lemma LocalUnchanged(aff: Affinity, s: seq<int>, k: int, v: int, j: int)
    requires 0 <= k < |s| && 0 <= j < |s| && Abs(k - j) > W
    ensures Local(aff, s[k := v], j) == Local(aff, s, j)
  {
  }

  /** The slice `[max(0, k-3), min(|s|-1, k+3)]` sees every pair that involves k. */
  lemma SliceLocal(aff: Affinity, s: seq<int>, k: int)
    requires 0 <= k < |s|
    ensures Local(aff, s[Max(0, k - W)..Min(|s| - 1, k + W) + 1], k - Max(0, k - W)) == Local(aff, s, k)
  {
  }

  /** Replacing the item at k inside its slice changes the slice's fast score
      exactly as much as the same replacement changes the pairs around k in
      the whole list. */
  lemma SliceReplaceDelta(aff: Affinity, s: seq<int>, k: int, v: int)
    requires 0 <= k < |s|
    ensures
      var lo, hi := Max(0, k - W), Min(|s| - 1, k + W);
      FastSum(aff, s[lo..hi + 1][k - lo := v]) - FastSum(aff, s[lo..hi + 1])
      == Local(aff, s[k := v], k) - Local(aff, s, k)
  {
    var lo, hi := Max(0, k - W), Min(|s| - 1, k + W);
    var t := s[k := v];
    assert s[lo..hi + 1][k - lo := v] == t[lo..hi + 1];
    ReplaceDelta(aff, s[lo..hi + 1], k - lo, v);
    SliceLocal(aff, s, k);
    SliceLocal(aff, t, k);
  }

  /** For positions more than W apart, the change in the two windowed slices
      that `improveWithSwaps` compares equals the change in the full fast
      score caused by the swap. */
  lemma SwapDelta(aff: Affinity, s: seq<int>, i: int, j: int)
    requires 0 <= i < |s| && 0 <= j < |s| && Abs(i - j) > W
    ensures
      var iLo, iHi := Max(0, i - W), Min(|s| - 1, i + W);
      var jLo, jHi := Max(0, j - W), Min(|s| - 1, j + W);
      var iSlice, jSlice := s[iLo..iHi + 1], s[jLo..jHi + 1];
      (FastSum(aff, iSlice[i - iLo := s[j]]) + FastSum(aff, jSlice[j - jLo := s[i]]))
        - (FastSum(aff, iSlice) + FastSum(aff, jSlice))
      == FastSum(aff, Swap(s, i, j)) - FastSum(aff, s)
  {
    var t1 := s[i := s[j]];
    var t3 := s[j := s[i]];
    var t2 := t1[j := s[i]];
    assert t2 == Swap(s, i, j);
    assert t2 == t3[i := s[j]];
    SliceReplaceDelta(aff, s, i, s[j]);
    SliceReplaceDelta(aff, s, j, s[i]);
    ReplaceDelta(aff, s, i, s[j]);
    ReplaceDelta(aff, t1, j, s[i]);
    LocalUnchanged(aff, s, i, s[j], j);
    LocalUnchanged(aff, t3, i, s[j], j);
  }
}
