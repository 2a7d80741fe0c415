/** `improveWithSwaps`: first-improvement local search over two-position
    swaps, deciding each swap by the fast score of two windowed slices. */
module LocalSearch {
  import opened Sums
  import opened Lists
  import opened Objective

  /** No swap of position i with a position j < n more than W away raises
      the fast score. */
  ghost predicate RowFree(aff: Affinity, s: seq<int>, i: int, n: int)
    requires 0 <= i < |s| && 0 <= n <= |s|
    decreases n, s
  {
    n == 0 || (RowFree(aff, s, i, n - 1)
               && (Abs(i - (n - 1)) <= W || FastSum(aff, Swap(s, i, n - 1)) <= FastSum(aff, s)))
  }

  /** Rows 0 .. m-1 admit no improving swap. */
  ghost predicate RowsFree(aff: Affinity, s: seq<int>, m: int)
    requires 0 <= m <= |s|
    decreases m, s
  {
    m == 0 || (RowsFree(aff, s, m - 1) && RowFree(aff, s, m - 1, |s|))
  }

  /** What a sweep without an accepted swap establishes, stated outright in
      LocallyOptimalIff. */
  ghost predicate LocallyOptimal(aff: Affinity, s: seq<int>)
  {
    RowsFree(aff, s, |s|)
  }

  lemma {:induction false} RowFreeAt(aff: Affinity, s: seq<int>, i: int, n: int, j: int)
    requires 0 <= i < |s| && 0 <= j < n <= |s| && Abs(i - j) > W
    requires RowFree(aff, s, i, n)
    ensures FastSum(aff, Swap(s, i, j)) <= FastSum(aff, s)
    decreases n
  {
    if j < n - 1 {
      RowFreeAt(aff, s, i, n - 1, j);
    }
  }

  lemma {:induction false} RowFreeFrom(aff: Affinity, s: seq<int>, i: int, n: int)
    requires 0 <= i < |s| && 0 <= n <= |s|
    requires forall j :: 0 <= j < n && Abs(i - j) > W ==> FastSum(aff, Swap(s, i, j)) <= FastSum(aff, s)
    ensures RowFree(aff, s, i, n)
    decreases n
  {
    if n > 0 {
      RowFreeFrom(aff, s, i, n - 1);
    }
  }

  lemma {:induction false} RowsFreeAt(aff: Affinity, s: seq<int>, m: int, i: int)
    requires 0 <= i < m <= |s| && RowsFree(aff, s, m)
    ensures RowFree(aff, s, i, |s|)
    decreases m
  {
    if i < m - 1 {
      RowsFreeAt(aff, s, m - 1, i);
    }
  }

  lemma {:induction false} RowsFreeFrom(aff: Affinity, s: seq<int>, m: int)
    requires 0 <= m <= |s|
    requires forall i :: 0 <= i < m ==> RowFree(aff, s, i, |s|)
    ensures RowsFree(aff, s, m)
    decreases m
  {
    if m > 0 {
      RowsFreeFrom(aff, s, m - 1);
    }
  }

  /** A list is locally optimal exactly when no swap of two positions more
      than W apart raises its fast score. */
  lemma LocallyOptimalIff(aff: Affinity, s: seq<int>)
    ensures LocallyOptimal(aff, s) <==>
      forall i, j :: 0 <= i < |s| && 0 <= j < |s| && Abs(i - j) > W ==>
        FastSum(aff, Swap(s, i, j)) <= FastSum(aff, s)
  {
    if LocallyOptimal(aff, s) {
      forall i, j | 0 <= i < |s| && 0 <= j < |s| && Abs(i - j) > W
        ensures FastSum(aff, Swap(s, i, j)) <= FastSum(aff, s)
      {
        RowsFreeAt(aff, s, |s|, i);
        RowFreeAt(aff, s, i, |s|, j);
      }
    }
    if forall i, j :: 0 <= i < |s| && 0 <= j < |s| && Abs(i - j) > W ==>
         FastSum(aff, Swap(s, i, j)) <= FastSum(aff, s)
    {
      forall i | 0 <= i < |s|
        ensures RowFree(aff, s, i, |s|)
      {
        RowFreeFrom(aff, s, i, |s|);
      }
      RowsFreeFrom(aff, s, |s|);
    }
  }

  // ----- One step of the inner loop -----

  /** The body of the inner loop of `improveWithSwaps` for the pair (i, j):
      the swap is made exactly when it is more than W positions wide and
      raises the fast score of the whole list. */
  method TrySwap(aff: Affinity, working: seq<int>, workingScore: real, i: int, j: int)
    returns (next: seq<int>, nextScore: real, accepted: bool)
    requires |working| == N && Distinct(working) && 0 <= i < N && 0 <= j < N
    requires workingScore == FastSum(aff, working)
    ensures accepted <==> Abs(i - j) > W && FastSum(aff, Swap(working, i, j)) > FastSum(aff, working)
    ensures next == if accepted then Swap(working, i, j) else working
    ensures |next| == N && Distinct(next) && multiset(next) == multiset(working)
    ensures nextScore == FastSum(aff, next)
  {
    next, nextScore, accepted := working, workingScore, false;
    if i == j {
      return;
    }
    var iMin, iMax := Max(0, i - W), Min(N - 1, i + W);
    var jMin, jMax := Max(0, j - W), Min(N - 1, j + W);
    var iSlice := working[iMin..iMax + 1];
    var jSlice := working[jMin..jMax + 1];
    DistinctSlice(working, iMin, iMax + 1, j);
    DistinctSlice(working, jMin, jMax + 1, i);
    var iScore := ScoreFast(aff, iSlice);
    var jScore := ScoreFast(aff, jSlice);
    var currentScore := iScore + jScore;
    var iSwappedSlice := iSlice[i - iMin := working[j]];
    var jSwappedSlice := jSlice[j - jMin := working[i]];
    if Abs(i - j) <= W {
      // Each swapped slice now holds one item twice, at most W apart: its
      // `posdist` is 0, the sum is 0.0/0.0 (an item has affinity 0 with
      // itself), and a comparison with NaN is false.
      return;
    }
    DistinctUpdate(iSlice, i - iMin, working[j]);
    DistinctUpdate(jSlice, j - jMin, working[i]);
    var iSwappedScore := ScoreFast(aff, iSwappedSlice);
    var jSwappedScore := ScoreFast(aff, jSwappedSlice);
    var potentialScore := iSwappedScore + jSwappedScore;
    SwapDecision(aff, working, i, j, iSlice, jSlice, iSwappedSlice, jSwappedSlice);
    if potentialScore > currentScore {
      var temp := working[i];
      next := working[i := working[j]];
      next := next[j := temp];
      assert next == Swap(working, i, j);
      DistinctSwap(working, i, j);
      var newScore := ScoreFast(aff, next);
      assert newScore > workingScore;
      nextScore := newScore;
      accepted := true;
    }
  }

  /** The comparison `TrySwap` makes on the slices is the comparison of the
      whole list's fast score before and after the swap. */
  lemma SwapDecision(aff: Affinity, s: seq<int>, i: int, j: int,
                     iSlice: seq<int>, jSlice: seq<int>, iSwapped: seq<int>, jSwapped: seq<int>)
    requires 0 <= i < |s| && 0 <= j < |s| && Abs(i - j) > W
    requires iSlice == s[Max(0, i - W)..Min(|s| - 1, i + W) + 1]
    requires jSlice == s[Max(0, j - W)..Min(|s| - 1, j + W) + 1]
    requires iSwapped == iSlice[i - Max(0, i - W) := s[j]]
    requires jSwapped == jSlice[j - Max(0, j - W) := s[i]]
    ensures FastSum(aff, iSwapped) + FastSum(aff, jSwapped) > FastSum(aff, iSlice) + FastSum(aff, jSlice)
            <==> FastSum(aff, Swap(s, i, j)) > FastSum(aff, s)
  {
    SwapDelta(aff, s, i, j);
  }

  // ----- One pass of the outer loop -----

  /** One pass of the `do`-loop body: every ordered pair (i, j) in turn. It
      either raises the fast score or, having changed nothing, shows that no
      swap raises it. */
  method Sweep(aff: Affinity, w: seq<int>, score: real)
    returns (out: seq<int>, outScore: real, improved: bool)
    requires |w| == N && Distinct(w) && score == FastSum(aff, w)
    ensures |out| == N && Distinct(out) && multiset(out) == multiset(w)
    ensures outScore == FastSum(aff, out)
    ensures improved ==> FastSum(aff, out) > FastSum(aff, w)
    ensures !improved ==> out == w && LocallyOptimal(aff, w)
    ensures LocallyOptimal(aff, w) ==> !improved
  {
    out, outScore, improved := w, score, false;
    ghost var gi, gj := 0, 0;
    for i := 0 to N
      invariant |out| == N && Distinct(out) && multiset(out) == multiset(w)
      invariant outScore == FastSum(aff, out)
      invariant improved ==> FastSum(aff, out) > FastSum(aff, w) && ImprovingSwap(aff, w, gi, gj)
      invariant !improved ==> out == w && RowsFree(aff, w, i)
    {
      out, outScore, improved, gi, gj := SweepRow(aff, w, i, out, outScore, improved, gi, gj);
    }
    if improved && LocallyOptimal(aff, w) {
      RowsFreeAt(aff, w, N, gi);
      RowFreeAt(aff, w, gi, N, gj);
      assert false;
    }
  }

  /** Swapping positions i and j, more than W apart, raises the fast score. */
  ghost predicate ImprovingSwap(aff: Affinity, s: seq<int>, i: int, j: int)
  {
    0 <= i < |s| && 0 <= j < |s| && Abs(i - j) > W && FastSum(aff, Swap(s, i, j)) > FastSum(aff, s)
  }

  /** The inner loop of a sweep: position i against every position j. The
      ghost pair (gi, gj) records the first swap accepted in the sweep. */
  method SweepRow(aff: Affinity, w: seq<int>, i: int, out0: seq<int>, score0: real, improved0: bool,
                  ghost gi0: int, ghost gj0: int)
    returns (out: seq<int>, outScore: real, improved: bool, ghost gi: int, ghost gj: int)
    requires |w| == N && Distinct(w) && 0 <= i < N
    requires |out0| == N && Distinct(out0) && multiset(out0) == multiset(w) && score0 == FastSum(aff, out0)
    requires improved0 ==> FastSum(aff, out0) > FastSum(aff, w) && ImprovingSwap(aff, w, gi0, gj0)
    requires !improved0 ==> out0 == w
    ensures |out| == N && Distinct(out) && multiset(out) == multiset(w) && outScore == FastSum(aff, out)
    ensures improved ==> FastSum(aff, out) > FastSum(aff, w) && ImprovingSwap(aff, w, gi, gj)
    ensures improved0 ==> improved
    ensures !improved ==> out == w && RowFree(aff, w, i, N)
  {
    out, outScore, improved, gi, gj := out0, score0, improved0, gi0, gj0;
    for j := 0 to N
      invariant |out| == N && Distinct(out) && multiset(out) == multiset(w) && outScore == FastSum(aff, out)
      invariant improved ==> FastSum(aff, out) > FastSum(aff, w) && ImprovingSwap(aff, w, gi, gj)
      invariant improved0 ==> improved
      invariant !improved ==> out == w && RowFree(aff, w, i, j)
    {
      var accepted;
      out, outScore, accepted := TrySwap(aff, out, outScore, i, j);
      if accepted {
        if !improved {
          gi, gj := i, j;
        }
        improved := true;
      }
    }
  }

  // ----- Termination -----

  /** Every list of length n whose items come from `items`. */
  ghost function Arrangements(items: set<int>, n: nat): set<seq<int>>
  {
    if n == 0 then {[]}
    else set t, x | t in Arrangements(items, n - 1) && x in items :: t + [x]
  }

  lemma {:induction false} InArrangements(items: set<int>, t: seq<int>)
    requires forall k :: 0 <= k < |t| ==> t[k] in items
    ensures t in Arrangements(items, |t|)
    decreases |t|
  {
    if t != [] {
      var p, x := t[..|t| - 1], t[|t| - 1];
      InArrangements(items, p);
      assert t == p + [x];
      assert p in Arrangements(items, |t| - 1) && x in items;
    }
  }

  /** The rearrangements of s' items that score strictly higher than w: a
      finite set that every accepted swap makes strictly smaller. */
  ghost function Better(aff: Affinity, s: seq<int>, w: seq<int>): set<seq<int>>
  {
    set t | t in Arrangements(set x | x in s, |s|) && FastSum(aff, t) > FastSum(aff, w)
  }

  lemma BetterShrinks(aff: Affinity, s: seq<int>, w: seq<int>, w': seq<int>)
    requires multiset(w') == multiset(s)
    requires FastSum(aff, w') > FastSum(aff, w)
    ensures |Better(aff, s, w')| < |Better(aff, s, w)|
  {
    var items := set x | x in s;
    forall k | 0 <= k < |w'|
      ensures w'[k] in items
    {
      assert w'[k] in multiset(w');
    }
    assert |w'| == |multiset(w')| == |s|;
    InArrangements(items, w');
    var b, b' := Better(aff, s, w), Better(aff, s, w');
    assert w' in b && w' !in b';
    SubsetCard(b' + {w'}, b);
  }

  lemma {:induction false} SubsetCard<T>(a: set<T>, b: set<T>)
    requires a <= b
    ensures |a| <= |b|
    decreases |a|
  {
    if a != {} {
      var x :| x in a;
      SubsetCard(a - {x}, b - {x});
    }
  }

  // ----- The search -----

  /** `improveWithSwaps`: sweeps until a whole sweep accepts no swap. The
      result rearranges the input, scores at least as well, admits no
      improving swap of two positions more than W apart, and is the input
      itself when the input admits none. */
  method ImproveWithSwaps(aff: Affinity, resultScore: real, result: seq<int>)
    returns (score: real, out: seq<int>)
    requires |result| == N && Distinct(result)
    requires resultScore == FastSum(aff, result)
    ensures multiset(out) == multiset(result)
    ensures score == FastSum(aff, out) && score >= resultScore
    ensures LocallyOptimal(aff, out)
    ensures LocallyOptimal(aff, result) ==> out == result
  {
    var workingSeq := result;
    var workingScore := resultScore;
    var improved := true;
    while improved
      invariant |workingSeq| == N && Distinct(workingSeq) && multiset(workingSeq) == multiset(result)
      invariant workingScore == FastSum(aff, workingSeq) && workingScore >= resultScore
      invariant !improved ==> LocallyOptimal(aff, workingSeq)
      invariant LocallyOptimal(aff, result) ==> workingSeq == result
      decreases |Better(aff, result, workingSeq)|, if improved then 1 else 0
    {
      ghost var before := workingSeq;
      workingSeq, workingScore, improved := Sweep(aff, workingSeq, workingScore);
      if improved {
        BetterShrinks(aff, result, before, workingSeq);
      }
    }
    score := ScoreFast(aff, workingSeq);
    out := workingSeq;
  }

  /** `main`'s result stays a permutation of 0 .. N-1: `improveWithSwaps`
      only rearranges what `greedyNn` returns. */
  lemma RearrangedPermutation(s: seq<int>, t: seq<int>)
    requires IsPermutation(s) && multiset(t) == multiset(s)
    ensures IsPermutation(t)
  {
    forall x
      ensures x in t <==> 0 <= x < N
    {
      assert x in t <==> x in multiset(t);
      assert x in s <==> x in multiset(s);
    }
    DistinctCounts(s);
    CountsDistinct(t);
  }
}
