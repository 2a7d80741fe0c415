/** The greedy constructor: grow a list from a start item by repeatedly
    appending the remaining item that gives the highest fast score, and try
    every start. */
module Greedy {
  import opened Sums
  import opened Lists
  import opened Objective

  datatype Option<T> = None | Some(value: T)

  /** How the greedy step ranks a candidate x for appending to `placed`. */
  type Gain = (seq<int>, int) -> real

  /** `greedyNnWithStart` ranks a candidate by the fast score of `placed`
      with it appended. */
  function FastGain(aff: Affinity): Gain
  {
    (placed, x) => FastSum(aff, placed + [x])
  }

  /** The position in `cands` of the candidate the greedy step picks: it
      keeps the earlier of two equal scores (see FirstBestIndexIsBest). */
  function FirstBestIndex(gain: Gain, placed: seq<int>, cands: seq<int>): (k: nat)
    requires |cands| > 0
    ensures k < |cands|
    decreases |cands|
  {
    if |cands| == 1 then 0
    else
      var last := |cands| - 1;
      var b := FirstBestIndex(gain, placed, cands[..last]);
      if gain(placed, cands[last]) > gain(placed, cands[b]) then last else b
  }

  /** The picked candidate has the highest score, and every candidate before
      it has a strictly lower one. */
  lemma {:induction false} FirstBestIndexIsBest(gain: Gain, placed: seq<int>, cands: seq<int>)
    requires |cands| > 0
    ensures var k := FirstBestIndex(gain, placed, cands);
      && (forall i :: 0 <= i < k ==> gain(placed, cands[i]) < gain(placed, cands[k]))
      && (forall i :: 0 <= i < |cands| ==> gain(placed, cands[i]) <= gain(placed, cands[k]))
    decreases |cands|
  {
    if |cands| > 1 {
      var last := |cands| - 1;
      var prefix := cands[..last];
      FirstBestIndexIsBest(gain, placed, prefix);
      assert forall i :: 0 <= i < last ==> prefix[i] == cands[i];
    }
  }

  /** The rest of a greedy run from `placed`, with `remaining` still to go. */
  function GreedyFrom(gain: Gain, placed: seq<int>, remaining: seq<int>): (r: seq<int>)
    ensures |r| == |placed| + |remaining|
    decreases |remaining|
  {
    if |remaining| == 0 then placed
    else
      var t := remaining[FirstBestIndex(gain, placed, remaining)];
      GreedyFrom(gain, placed + [t], Remove(remaining, t))
  }

  /** The list `greedyNnWithStart(start)` builds. */
  function Greedy(aff: Affinity, start: int): seq<int>
  {
    GreedyFrom(FastGain(aff), [start], Remove(Range(0, N), start))
  }

  /** The item at position k is the one the greedy step picks among the items
      of `universe` not placed before k, taken in the universe's order. */
  ghost predicate GreedyChoice(gain: Gain, universe: seq<int>, out: seq<int>, k: int)
    requires 0 <= k < |out|
  {
    var c := Unplaced(universe, out[..k]);
    |c| > 0 && out[k] == c[FirstBestIndex(gain, out[..k], c)]
  }

  /** One greedy step: appending the pick keeps the remaining items equal to
      the unplaced ones, shortens them, and does not change where the run ends. */
  lemma GreedyAdvance(gain: Gain, universe: seq<int>, placed: seq<int>, remaining: seq<int>)
    requires Distinct(universe) && Distinct(placed)
    requires remaining == Unplaced(universe, placed) && |remaining| > 0
    ensures var t := remaining[FirstBestIndex(gain, placed, remaining)];
      && Distinct(placed + [t])
      && Remove(remaining, t) == Unplaced(universe, placed + [t])
      && |Remove(remaining, t)| < |remaining|
      && GreedyFrom(gain, placed + [t], Remove(remaining, t)) == GreedyFrom(gain, placed, remaining)
  {
    var t := remaining[FirstBestIndex(gain, placed, remaining)];
    DistinctAppend(placed, t);
    RemoveFromUnplaced(universe, placed, t);
  }

  /** A greedy run keeps what was placed as its prefix. */
  lemma {:induction false} GreedyFromPrefix(gain: Gain, placed: seq<int>, remaining: seq<int>)
    ensures var out := GreedyFrom(gain, placed, remaining);
      |out| >= |placed| && out[..|placed|] == placed
    decreases |remaining|
  {
    if |remaining| > 0 {
      var t := remaining[FirstBestIndex(gain, placed, remaining)];
      var placed' := placed + [t];
      GreedyFromPrefix(gain, placed', Remove(remaining, t));
      var out := GreedyFrom(gain, placed', Remove(remaining, t));
      assert out[..|placed|] == out[..|placed'|][..|placed|];
    }
  }

  /** A greedy run over the unplaced items never repeats an item. */
  lemma {:induction false} GreedyFromShape(gain: Gain, universe: seq<int>, placed: seq<int>, remaining: seq<int>)
    requires Distinct(universe) && Distinct(placed)
    requires remaining == Unplaced(universe, placed)
    ensures Distinct(GreedyFrom(gain, placed, remaining))
    decreases |remaining|
  {
    if |remaining| > 0 {
      var t := remaining[FirstBestIndex(gain, placed, remaining)];
      GreedyAdvance(gain, universe, placed, remaining);
      GreedyFromShape(gain, universe, placed + [t], Remove(remaining, t));
    }
  }

  /** A greedy run ends up holding exactly the placed items and the universe. */
  lemma {:induction false} GreedyFromMembers(gain: Gain, universe: seq<int>, placed: seq<int>, remaining: seq<int>)
    requires Distinct(universe) && Distinct(placed)
    requires remaining == Unplaced(universe, placed)
    ensures var out := GreedyFrom(gain, placed, remaining);
      forall x :: x in out <==> x in placed || x in universe
    decreases |remaining|
  {
    if |remaining| > 0 {
      var t := remaining[FirstBestIndex(gain, placed, remaining)];
      var placed' := placed + [t];
      assert t in universe;
      GreedyAdvance(gain, universe, placed, remaining);
      GreedyFromMembers(gain, universe, placed', Remove(remaining, t));
      forall x ensures x in placed' <==> x in placed || x == t {
        assert x in placed' <==> x in placed || x in [t];
      }
    }
  }

  /** The first item a greedy run appends is the greedy step's pick. */
  lemma GreedyFromFirstChoice(gain: Gain, universe: seq<int>, placed: seq<int>, remaining: seq<int>)
    requires remaining == Unplaced(universe, placed) && |remaining| > 0
    ensures GreedyChoice(gain, universe, GreedyFrom(gain, placed, remaining), |placed|)
  {
    var t := remaining[FirstBestIndex(gain, placed, remaining)];
    var out := GreedyFrom(gain, placed, remaining);
    assert out == GreedyFrom(gain, placed + [t], Remove(remaining, t));
    GreedyFromPrefix(gain, placed + [t], Remove(remaining, t));
    PrefixExtends(out, placed, t);
  }

  /** Every item a greedy run appends is the greedy step's pick among the
      items of the universe not placed before it. */
  lemma {:induction false} GreedyFromChoice(gain: Gain, universe: seq<int>, placed: seq<int>, remaining: seq<int>, k: int)
    requires Distinct(universe) && Distinct(placed)
    requires remaining == Unplaced(universe, placed)
    requires |placed| <= k < |placed| + |remaining|
    ensures GreedyChoice(gain, universe, GreedyFrom(gain, placed, remaining), k)
    decreases |remaining|
  {
    if k == |placed| {
      GreedyFromFirstChoice(gain, universe, placed, remaining);
    } else {
      var t := remaining[FirstBestIndex(gain, placed, remaining)];
      GreedyAdvance(gain, universe, placed, remaining);
      GreedyFromChoice(gain, universe, placed + [t], Remove(remaining, t), k);
    }
  }

  /** A greedy run from `start` over a universe without duplicates that
      contains it: the run begins with the start, holds every item of the
      universe once, and each later item is the greedy step's pick among the
      items not yet placed, in the universe's order. */
  lemma GreedyRun(gain: Gain, universe: seq<int>, start: int)
    requires Distinct(universe) && start in universe
    ensures var out := GreedyFrom(gain, [start], Remove(universe, start));
      && |out| >= 1 && out[0] == start
      && Distinct(out)
      && (forall x :: x in out <==> x in universe)
  {
    var rest := Remove(universe, start);
    assert rest == Unplaced(universe, [start]) by { RemoveIsUnplaced(universe, start); }
    var out := GreedyFrom(gain, [start], rest);
    GreedyFromPrefix(gain, [start], rest);
    GreedyFromShape(gain, universe, [start], rest);
    GreedyFromMembers(gain, universe, [start], rest);
    assert out[0] == out[..1][0];
  }

  /** `greedyNnWithStart` from a start in 0 .. N-1 yields a permutation that
      begins with the start. */
  lemma GreedyIsPermutation(aff: Affinity, start: int)
    requires 0 <= start < N
    ensures var out := Greedy(aff, start);
      && |out| == N && IsPermutation(out) && out[0] == start
  {
    var u := Range(0, N);
    assert Distinct(u);
    GreedyRun(FastGain(aff), u, start);
    PermutationFacts(Greedy(aff, start));
  }

  /** Each item after the first in `greedyNnWithStart`'s list is the greedy
      step's pick: the first, in ascending order, of the not yet placed items
      whose appending gives the highest fast score. */
  lemma GreedyChooses(aff: Affinity, start: int, k: int)
    requires 0 <= start < N && 1 <= k < N
    ensures |Greedy(aff, start)| == N && GreedyChoice(FastGain(aff), Range(0, N), Greedy(aff, start), k)
  {
    var u := Range(0, N);
    assert Distinct(u);
    GreedyIsPermutation(aff, start);
    var rest := Remove(u, start);
    assert rest == Unplaced(u, [start]) by { RemoveIsUnplaced(u, start); }
    GreedyFromChoice(FastGain(aff), u, [start], rest, k);
  }

  /** The inner loop of `greedyNnWithStart`: score every remaining item
      appended to `placed` and keep the first one with the highest score. */
  method BestExtension(aff: Affinity, placed: seq<int>, remaining: seq<int>) returns (topScorer: int)
    requires |remaining| > 0
    requires Distinct(placed)
    requires forall x :: x in remaining ==> x !in placed
    ensures topScorer == remaining[FirstBestIndex(FastGain(aff), placed, remaining)]
  {
    var topScore := -1.0;
    topScorer := -1;
    for idx := 0 to |remaining|
      invariant idx == 0 ==> topScore == -1.0 && topScorer == -1
      invariant idx > 0 ==>
        var b := FirstBestIndex(FastGain(aff), placed, remaining[..idx]);
        topScorer == remaining[b] && topScore == FastSum(aff, placed + [remaining[b]])
    {
      var it := remaining[idx];
      DistinctAppend(placed, it);
      var score := ScoreFast(aff, placed + [it]);
      FastSumNonNegative(aff, placed + [it]);
      assert remaining[..idx + 1][..idx] == remaining[..idx];
      if idx > 0 {
        FirstBestIndexIsBest(FastGain(aff), placed, remaining[..idx]);
      }
      if score > topScore {
        topScorer := it;
        topScore := score;
      }
    }
    assert remaining[..|remaining|] == remaining;
  }

  /** `greedyNnWithStart`. */
  method GreedyNnWithStart(aff: Affinity, start: int) returns (score: real, out: seq<int>)
    ensures out == Greedy(aff, start)
    ensures score == FastSum(aff, out)
  {
    var universe := Range(0, N);
    var remaining := Remove(universe, start);
    var placed := [start];
    RemoveIsUnplaced(universe, start);
    while |remaining| > 0
      invariant Distinct(placed)
      invariant remaining == Unplaced(universe, placed)
      invariant GreedyFrom(FastGain(aff), placed, remaining) == Greedy(aff, start)
      decreases |remaining|
    {
      var topScorer := BestExtension(aff, placed, remaining);
      GreedyAdvance(FastGain(aff), universe, placed, remaining);
      placed := placed + [topScorer];
      remaining := Remove(remaining, topScorer);
    }
    score := ScoreFast(aff, placed);
    out := placed;
  }

  /** The fast score of the greedy run from `start`: what `greedyNn` compares. */
  function GreedyScore(aff: Affinity, start: int): real
  {
    FastSum(aff, Greedy(aff, start))
  }

  /** The position of the first maximum of xs: what a scan keeps that
      replaces its best only on a strictly higher value. */
  function FirstMax(xs: seq<real>): (b: nat)
    requires |xs| > 0
    ensures b < |xs|
    decreases |xs|
  {
    if |xs| == 1 then 0
    else
      var b := FirstMax(xs[..|xs| - 1]);
      if xs[|xs| - 1] > xs[b] then |xs| - 1 else b
  }

  lemma {:induction false} FirstMaxIsBest(xs: seq<real>)
    requires |xs| > 0
    ensures var b := FirstMax(xs);
      && (forall k :: 0 <= k < b ==> xs[k] < xs[b])
      && (forall k :: 0 <= k < |xs| ==> xs[k] <= xs[b])
    decreases |xs|
  {
    if |xs| > 1 {
      var prefix := xs[..|xs| - 1];
      FirstMaxIsBest(prefix);
      assert forall k :: 0 <= k < |prefix| ==> prefix[k] == xs[k];
    }
  }

  /** scores lists the greedy scores of the starts 0 .. |scores|-1, in order. */
  ghost predicate AreStartScores(aff: Affinity, scores: seq<real>)
  {
    forall k :: 0 <= k < |scores| ==> scores[k] == GreedyScore(aff, k)
  }

  /** One step of `greedyNn`'s scan over non-negative scores that starts from
      -1: the kept position moves to the new score exactly when it is
      strictly higher than the kept one. */
  lemma FirstMaxAppend(xs: seq<real>, x: real, best: real)
    requires x >= 0.0
    requires |xs| == 0 ==> best == -1.0
    requires |xs| > 0 ==> best == xs[FirstMax(xs)]
    ensures x > best ==> FirstMax(xs + [x]) == |xs|
    ensures !(x > best) ==> |xs| > 0 && FirstMax(xs + [x]) == FirstMax(xs)
  {
    assert (xs + [x])[..|xs|] == xs;
  }

  /** The greedy score of the next start extends the list of start scores. */
  lemma StartScoresAppend(aff: Affinity, scores: seq<real>, sc: real)
    requires AreStartScores(aff, scores) && sc == GreedyScore(aff, |scores|)
    ensures AreStartScores(aff, scores + [sc])
  {
    var ext := scores + [sc];
    forall k | 0 <= k < |ext|
      ensures ext[k] == GreedyScore(aff, k)
    {
      if k < |scores| {
        assert ext[k] == scores[k];
      }
    }
  }

  /** What `greedyNn` promises: `out` is the greedy run from the first
      start, in ascending order, with the highest greedy score, and `score`
      is that score. */
  ghost predicate IsBestGreedyRun(aff: Affinity, score: real, out: seq<int>)
  {
    exists best ::
      && 0 <= best < N
      && out == Greedy(aff, best) && score == GreedyScore(aff, best)
      && (forall k :: 0 <= k < best ==> GreedyScore(aff, k) < score)
      && (forall k :: 0 <= k < N ==> GreedyScore(aff, k) <= score)
  }

  /** After trying all N starts, the kept run is the best greedy run. */
  lemma BestStartResult(aff: Affinity, scores: seq<real>)
    requires |scores| == N && AreStartScores(aff, scores)
    ensures IsBestGreedyRun(aff, scores[FirstMax(scores)], Greedy(aff, FirstMax(scores)))
  {
    var b := FirstMax(scores);
    var score := scores[b];
    FirstMaxIsBest(scores);
    forall k | 0 <= k < N
      ensures GreedyScore(aff, k) <= score
      ensures k < b ==> GreedyScore(aff, k) < score
    {
      assert scores[k] == GreedyScore(aff, k);
    }
    assert score == GreedyScore(aff, b);
  }

  /** `greedyNn`: the run from the first start, in ascending order, whose
      greedy score is the highest. */
  method GreedyNn(aff: Affinity) returns (score: real, out: seq<int>)
    ensures IsBestGreedyRun(aff, score, out)
    ensures IsPermutation(out)
  {
    var bestScore := -1.0;
    var bestSequence: Option<seq<int>> := None;
    var start := 0;
    ghost var scores: seq<real> := [];
    while start < N
      invariant 0 <= start <= N
      invariant |scores| == start && AreStartScores(aff, scores)
      invariant start == 0 ==> bestSequence == None && bestScore == -1.0
      invariant start > 0 ==>
        && bestScore == scores[FirstMax(scores)]
        && bestSequence == Some(Greedy(aff, FirstMax(scores)))
    {
      var sc, sq := GreedyNnWithStart(aff, start);
      FastSumNonNegative(aff, sq);
      FirstMaxAppend(scores, sc, bestScore);
      StartScoresAppend(aff, scores, sc);
      if sc > bestScore {
        bestScore := sc;
        bestSequence := Some(sq);
      }
      scores := scores + [sc];
      start := start + 1;
    }
    score := bestScore;
    out := bestSequence.value;
    BestStartResult(aff, scores);
    GreedyIsPermutation(aff, FirstMax(scores));
  }
}
