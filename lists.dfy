/** The Kotlin list operations the sequence scorer relies on: `indexOf`,
    `remove(element)`, and the facts about lists without duplicates. */
module Lists {

  predicate Distinct(s: seq<int>)
  {
    forall i, j :: 0 <= i < j < |s| ==> s[i] != s[j]
  }

  /** `List.indexOf`: the first position holding x, or -1 when x is absent. */
  function IndexOf(s: seq<int>, x: int): (r: int)
    ensures -1 <= r < |s|
    ensures r == -1 <==> x !in s
    ensures 0 <= r ==> s[r] == x
  {
    if s == [] then -1
    else if s[0] == x then 0
    else
      var r := IndexOf(s[1..], x);
      if r == -1 then -1 else r + 1
  }

  /** No position before the one `indexOf` returns holds x. */
  lemma {:induction false} IndexOfIsFirst(s: seq<int>, x: int, k: int)
    requires 0 <= k < IndexOf(s, x)
    ensures s[k] != x
  {
    if k > 0 {
      IndexOfIsFirst(s[1..], x, k - 1);
    }
  }

  lemma IndexOfDistinct(s: seq<int>, i: int)
    requires Distinct(s) && 0 <= i < |s|
    ensures IndexOf(s, s[i]) == i
  {
  }

  /** `MutableList.remove(element)`: drops the first occurrence of x, if any. */
  function Remove(s: seq<int>, x: int): (r: seq<int>)
    ensures x in s ==> |r| == |s| - 1
    ensures x !in s ==> r == s
    ensures forall y :: y != x ==> (y in r <==> y in s)
  {
    if s == [] then []
    else if s[0] == x then
      assert s == [s[0]] + s[1..];
      s[1..]
    else
      assert s == [s[0]] + s[1..];
      [s[0]] + Remove(s[1..], x)
  }

  /** The elements of `universe` that are not in `placed`, in their original order. */
  function Unplaced(universe: seq<int>, placed: seq<int>): (r: seq<int>)
    ensures forall x :: x in r <==> x in universe && x !in placed
    ensures Distinct(universe) ==> Distinct(r)
    ensures |r| <= |universe|
  {
    if universe == [] then []
    else
      var rest := Unplaced(universe[1..], placed);
      assert universe == [universe[0]] + universe[1..];
      if universe[0] in placed then rest else [universe[0]] + rest
  }

  lemma {:induction false} UnplacedNothing(universe: seq<int>)
    ensures Unplaced(universe, []) == universe
  {
    if universe != [] {
      UnplacedNothing(universe[1..]);
    }
  }

  lemma {:induction false} UnplacedIgnoresAbsent(universe: seq<int>, placed: seq<int>, t: int)
    requires t !in universe
    ensures Unplaced(universe, placed + [t]) == Unplaced(universe, placed)
  {
    if universe != [] {
      UnplacedIgnoresAbsent(universe[1..], placed, t);
    }
  }

  /** Removing the item just placed keeps the remaining list equal to the
      universe filtered by what has been placed so far, in the same order. */
  lemma {:induction false} RemoveFromUnplaced(universe: seq<int>, placed: seq<int>, t: int)
    requires Distinct(universe)
    ensures Remove(Unplaced(universe, placed), t) == Unplaced(universe, placed + [t])
  {
    if universe != [] {
      var h, u' := universe[0], universe[1..];
      assert Distinct(u');
      if h in placed {
        RemoveFromUnplaced(u', placed, t);
      } else if h == t {
        assert t !in u';
        UnplacedIgnoresAbsent(u', placed, t);
      } else {
        RemoveFromUnplaced(u', placed, t);
      }
    }
  }

  lemma RemoveIsUnplaced(universe: seq<int>, x: int)
    requires Distinct(universe)
    ensures Remove(universe, x) == Unplaced(universe, [x])
  {
    UnplacedNothing(universe);
    RemoveFromUnplaced(universe, [], x);
    assert [] + [x] == [x];
  }

  /** A list that starts with p + [x] starts with p, followed by x. */
  lemma PrefixExtends(s: seq<int>, p: seq<int>, x: int)
    requires |p| < |s| && s[..|p| + 1] == p + [x]
    ensures s[..|p|] == p && s[|p|] == x
  {
    assert s[..|p|] == s[..|p| + 1][..|p|];
    assert s[|p|] == s[..|p| + 1][|p|];
  }

  lemma DistinctAppend(s: seq<int>, x: int)
    requires Distinct(s) && x !in s
    ensures Distinct(s + [x])
  {
  }

  /** The list with the items at positions i and j exchanged. */
  function Swap(s: seq<int>, i: int, j: int): (r: seq<int>)
    requires 0 <= i < |s| && 0 <= j < |s|
    ensures |r| == |s| && r[i] == s[j] && r[j] == s[i]
    ensures forall k :: 0 <= k < |s| && k != i && k != j ==> r[k] == s[k]
    ensures multiset(r) == multiset(s)
  {
    s[i := s[j]][j := s[i]]
  }

  lemma DistinctSwap(s: seq<int>, i: int, j: int)
    requires Distinct(s) && 0 <= i < |s| && 0 <= j < |s|
    ensures Distinct(Swap(s, i, j))
  {
  }

  /** A slice of a list without duplicates misses every item outside it. */
  lemma DistinctSlice(s: seq<int>, lo: int, hi: int, j: int)
    requires Distinct(s) && 0 <= lo <= hi <= |s| && 0 <= j < |s|
    ensures Distinct(s[lo..hi])
    ensures !(lo <= j < hi) ==> s[j] !in s[lo..hi]
  {
  }

  lemma DistinctUpdate(s: seq<int>, k: int, v: int)
    requires Distinct(s) && 0 <= k < |s| && v !in s
    ensures Distinct(s[k := v])
  {
  }

  lemma {:induction false} DistinctCounts(s: seq<int>)
    requires Distinct(s)
    ensures forall x :: multiset(s)[x] == if x in s then 1 else 0
    decreases |s|
  {
    if s != [] {
      var p, l := s[..|s| - 1], s[|s| - 1];
      assert s == p + [l];
      assert Distinct(p);
      DistinctCounts(p);
      assert l !in p;
    }
  }

  lemma CountsDistinct(s: seq<int>)
    requires forall x :: multiset(s)[x] <= 1
    ensures Distinct(s)
  {
    forall i, j | 0 <= i < j < |s|
      ensures s[i] != s[j]
    {
      var x := s[j];
      assert s == s[..j] + s[j..];
      assert multiset(s)[x] == multiset(s[..j])[x] + multiset(s[j..])[x];
      assert x in s[j..];
      assert x !in multiset(s[..j]);
      assert s[i] in s[..j];
    }
  }
}
