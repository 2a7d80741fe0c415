/** Finite sums over integer indices, used to state what the two score
    enumerations add up, and the reindexing facts that relate them. */
module Sums {

  /** The list lo, lo+1, ..., hi-1 (Kotlin's `lo until hi`). */
  function Range(lo: int, hi: int): (r: seq<int>)
    ensures |r| == if lo <= hi then hi - lo else 0
    ensures forall k :: 0 <= k < |r| ==> r[k] == lo + k
    ensures forall x :: x in r <==> lo <= x < hi
  {
    if hi <= lo then []
    else
      var r := seq(hi - lo, k => lo + k);
      CountingMembers(r, lo);
      r
  }

  lemma CountingMembers(r: seq<int>, lo: int)
    requires forall k :: 0 <= k < |r| ==> r[k] == lo + k
    ensures forall x :: x in r <==> lo <= x < lo + |r|
  {
    forall x | lo <= x < lo + |r|
      ensures x in r
    {
      assert r[x - lo] == x;
    }
  }

  /** The sum of f over the elements of xs, added from front to back. */
  function SeqSum(f: int -> real, xs: seq<int>): real
  {
    if xs == [] then 0.0 else SeqSum(f, xs[..|xs| - 1]) + f(xs[|xs| - 1])
  }

  lemma {:induction false} SeqSumConcat(f: int -> real, a: seq<int>, b: seq<int>)
    ensures SeqSum(f, a + b) == SeqSum(f, a) + SeqSum(f, b)
    decreases |b|
  {
    if b == [] {
      assert a + b == a;
    } else {
      var b' := b[..|b| - 1];
      assert (a + b)[..|a + b| - 1] == a + b';
      SeqSumConcat(f, a, b');
    }
  }

  lemma SeqSumSingleton(f: int -> real, x: int)
    ensures SeqSum(f, [x]) == f(x)
  {
    assert [x][..0] == [];
  }

  /** A sum does not depend on the order in which its terms are added. */
  lemma {:induction false} SeqSumPermutation(f: int -> real, xs: seq<int>, ys: seq<int>)
    requires multiset(xs) == multiset(ys)
    ensures SeqSum(f, xs) == SeqSum(f, ys)
    decreases |xs|
  {
    if xs == [] {
      assert |ys| == |multiset(ys)| == 0;
    } else {
      var n := |xs|;
      var x := xs[n - 1];
      var xs' := xs[..n - 1];
      assert xs == xs' + [x];
      assert x in multiset(ys);
      assert x in ys;
      var k :| 0 <= k < |ys| && ys[k] == x;
      var ys' := ys[..k] + ys[k + 1..];
      assert ys == ys[..k] + [x] + ys[k + 1..];
      assert multiset(ys) == multiset(ys[..k]) + multiset{x} + multiset(ys[k + 1..]);
      assert multiset(xs) == multiset(xs') + multiset{x};
      assert multiset(ys') == multiset(ys[..k]) + multiset(ys[k + 1..]);
      assert multiset(xs') == multiset(xs) - multiset{x};
      assert multiset(ys') == multiset(ys) - multiset{x};
      SeqSumPermutation(f, xs', ys');
      SeqSumConcat(f, ys[..k] + [x], ys[k + 1..]);
      SeqSumConcat(f, ys[..k], [x]);
      SeqSumConcat(f, ys[..k], ys[k + 1..]);
      SeqSumSingleton(f, x);
    }
  }

  /** RowSum(F, m, a) is the sum of F(n, m) for 0 <= n < a. */
  function RowSum(F: (int, int) -> real, m: int, a: int): real
    decreases a
  {
    if a <= 0 then 0.0 else RowSum(F, m, a - 1) + F(a - 1, m)
  }

  /** ColSum(F, n, b) is the sum of F(n, m) for 0 <= m < b. */
  function ColSum(F: (int, int) -> real, n: int, b: int): real
    decreases b
  {
    if b <= 0 then 0.0 else ColSum(F, n, b - 1) + F(n, b - 1)
  }

  /** The sum of F(n, m) over all 0 <= n < m < a: every unordered pair once. */
  function TriSum(F: (int, int) -> real, a: int): real
    decreases a
  {
    if a <= 0 then 0.0 else TriSum(F, a - 1) + RowSum(F, a - 1, a - 1)
  }

  /** The sum of F(n, m) over all 0 <= n < a and 0 <= m < b. */
  function GridSum(F: (int, int) -> real, a: int, b: int): real
    decreases b
  {
    if b <= 0 then 0.0 else GridSum(F, a, b - 1) + RowSum(F, b - 1, a)
  }

  lemma {:induction false} GridAddRow(F: (int, int) -> real, a: int, b: int)
    requires a >= 0
    ensures GridSum(F, a + 1, b) == GridSum(F, a, b) + ColSum(F, a, b)
    decreases b
  {
    if b > 0 {
      GridAddRow(F, a, b - 1);
    }
  }

  lemma {:induction false} ColIsRow(F: (int, int) -> real, n: int, b: int)
    requires forall m :: 0 <= m < b ==> F(n, m) == F(m, n)
    ensures ColSum(F, n, b) == RowSum(F, n, b)
    decreases b
  {
    if b > 0 {
      ColIsRow(F, n, b - 1);
    }
  }

  /** For a symmetric F that vanishes on the diagonal, the full square counts
      every unordered pair twice. */
  lemma {:induction false} GridIsTwiceTri(F: (int, int) -> real, a: int)
    requires a >= 0
    requires forall n, m :: 0 <= n < a && 0 <= m < a ==> F(n, m) == F(m, n)
    requires forall k :: 0 <= k < a ==> F(k, k) == 0.0
    ensures GridSum(F, a, a) == 2.0 * TriSum(F, a)
    decreases a
  {
    if a > 0 {
      var p := a - 1;
      GridIsTwiceTri(F, p);
      GridAddRow(F, p, p);
      ColIsRow(F, p, p);
      assert RowSum(F, p, a) == RowSum(F, p, p) + F(p, p);
    }
  }

  lemma {:induction false} RowSumOverRange(F: (int, int) -> real, m: int, a: int, f: int -> real)
    requires a >= 0
    requires forall n :: 0 <= n < a ==> f(n) == F(n, m)
    ensures RowSum(F, m, a) == SeqSum(f, Range(0, a))
    decreases a
  {
    if a > 0 {
      RowSumOverRange(F, m, a - 1, f);
      assert Range(0, a)[..a - 1] == Range(0, a - 1);
    }
  }

  lemma {:induction false} RowSumAlongSeq(G: (int, int) -> real, j: int, s: seq<int>, a: int, f: int -> real)
    requires 0 <= a <= |s|
    requires forall i :: 0 <= i < a ==> G(i, j) == f(s[i])
    ensures RowSum(G, j, a) == SeqSum(f, s[..a])
    decreases a
  {
    if a > 0 {
      RowSumAlongSeq(G, j, s, a - 1, f);
      assert s[..a][..a - 1] == s[..a - 1];
    }
  }

  lemma {:induction false} GridSumOverRange(F: (int, int) -> real, a: int, b: int, h: int -> real)
    requires b >= 0
    requires forall m :: 0 <= m < b ==> h(m) == RowSum(F, m, a)
    ensures GridSum(F, a, b) == SeqSum(h, Range(0, b))
    decreases b
  {
    if b > 0 {
      GridSumOverRange(F, a, b - 1, h);
      assert Range(0, b)[..b - 1] == Range(0, b - 1);
    }
  }

  lemma {:induction false} GridSumAlongSeq(G: (int, int) -> real, a: int, s: seq<int>, b: int, h: int -> real)
    requires 0 <= b <= |s|
    requires forall j :: 0 <= j < b ==> RowSum(G, j, a) == h(s[j])
    ensures GridSum(G, a, b) == SeqSum(h, s[..b])
    decreases b
  {
    if b > 0 {
      GridSumAlongSeq(G, a, s, b - 1, h);
      assert s[..b][..b - 1] == s[..b - 1];
    }
  }

  /** Summing F over all pairs of items equals summing F over all pairs of
      positions of a list that holds every item exactly once. */
  lemma GridReindex(F: (int, int) -> real, G: (int, int) -> real, s: seq<int>)
    requires multiset(s) == multiset(Range(0, |s|))
    requires forall i, j :: 0 <= i < |s| && 0 <= j < |s| ==> G(i, j) == F(s[i], s[j])
    ensures GridSum(F, |s|, |s|) == GridSum(G, |s|, |s|)
  {
    var n := |s|;
    assert s[..n] == s;
    var h := m => RowSum(F, m, n);
    forall j | 0 <= j < n
      ensures RowSum(G, j, n) == h(s[j])
    {
      var f := x => F(x, s[j]);
      RowSumAlongSeq(G, j, s, n, f);
      SeqSumPermutation(f, s, Range(0, n));
      RowSumOverRange(F, s[j], n, f);
    }
    GridSumAlongSeq(G, n, s, n, h);
    SeqSumPermutation(h, s, Range(0, n));
    GridSumOverRange(F, n, n, h);
  }
}
