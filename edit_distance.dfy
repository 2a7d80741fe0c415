/** An edit distance with pluggable per-character costs, filled into a
    two-dimensional table, and the two cost settings the repository defines,
    together with its small helpers (`add`/`partial`, `PartialResult`). */
module EditDistance {

  /** `EditDistanceMetric`: the three cost functions (costs are exact reals
      here). */
  datatype Metric = Metric(add: char -> real, del: char -> real, sub: (char, char) -> real)

  /** Only the lower-case vowels count. */
  predicate IsVowel(c: char): (v: bool)
    ensures v <==> c in "aeiou"
  {
    c == 'a' || c == 'e' || c == 'i' || c == 'o' || c == 'u'
  }

  /** Adding or deleting a vowel costs 0.5 and any other character 1; a
      substitution costs 0.5 exactly when a vowel takes part, and 1 otherwise. */
  ghost predicate VowelsHalfPrice(m: Metric)
  {
    && (forall c :: IsVowel(c) ==> m.add(c) == m.del(c) == 0.5)
    && (forall c :: !IsVowel(c) ==> m.add(c) == m.del(c) == 1.0)
    && (forall c, d :: m.sub(c, d) == 0.5 <==> IsVowel(c) || IsVowel(d))
    && (forall c, d :: !IsVowel(c) && !IsVowel(d) ==> m.sub(c, d) == 1.0)
  }

  /** Every addition, deletion and substitution costs 1, even substituting a
      character by itself. */
  ghost predicate AllEditsCostOne(m: Metric)
  {
    && (forall c :: m.add(c) == m.del(c) == 1.0)
    && (forall c, d :: m.sub(c, d) == 1.0)
  }

  /** Adding or deleting costs 1; a substitution is free exactly when it keeps
      the character, and costs 1 otherwise. */
  ghost predicate MatchesAreFree(m: Metric)
  {
    && (forall c :: m.add(c) == m.del(c) == 1.0)
    && (forall c, d :: m.sub(c, d) == 0.0 <==> c == d)
    && (forall c, d :: c != d ==> m.sub(c, d) == 1.0)
  }

  /** `PascaleDistance`: vowels are half price. */
  function Pascale(): (m: Metric)
    ensures VowelsHalfPrice(m)
  {
    Metric(c => if IsVowel(c) then 0.5 else 1.0,
           c => if IsVowel(c) then 0.5 else 1.0,
           (c, d) => if IsVowel(c) || IsVowel(d) then 0.5 else 1.0)
  }

  /** `LevensteinDistance`: every edit costs 1, even substituting a
      character by itself. */
  function Levenstein(): (m: Metric)
    ensures AllEditsCostOne(m)
  {
    Metric(c => 1.0, c => 1.0, (c, d) => 1.0)
  }

  /** The standard Levenshtein costs, where keeping a character is free. This
      is the distance `levenshtein` in the sequence scorer relies on; its
      implementation is not part of this model. */
  function Standard(): (m: Metric)
    ensures MatchesAreFree(m)
  {
    Metric(c => 1.0, c => 1.0, (c, d) => if c == d then 0.0 else 1.0)
  }

  function Min3(p: real, q: real, r: real): (v: real)
    ensures v <= p && v <= q && v <= r
    ensures v == p || v == q || v == r
  {
    if p <= q && p <= r then p else if q <= r then q else r
  }

  /** The value of table cell dm[y][x]: the cost of turning a[..x] into b[..y].
      The border cells are x and y whatever the costs are. */
  function Cell(m: Metric, a: string, b: string, x: int, y: int): real
    requires 0 <= x <= |a| && 0 <= y <= |b|
    decreases x + y, a
  {
    if y == 0 then x as real
    else if x == 0 then y as real
    else Min3(Cell(m, a, b, x - 1, y - 1) + m.sub(a[x - 1], b[y - 1]),
              Cell(m, a, b, x, y - 1) + m.add(b[y - 1]),
              Cell(m, a, b, x - 1, y) + m.del(a[x - 1]))
  }

  function Dist(m: Metric, a: string, b: string): real
  {
    Cell(m, a, b, |a|, |b|)
  }

  /** `EditDistanceMetric.distance`: fills the (|b|+1) x (|a|+1) table, whose
      inner cells start at the sentinel -1.0, row by row. Each cell is read
      only after it has been written. */
  method Distance(m: Metric, a: string, b: string) returns (d: real)
    ensures d == Dist(m, a, b)
  {
    var dm := new real[|b| + 1, |a| + 1]((row, col) =>
      if row == 0 then col as real else if col == 0 then row as real else -1.0);
    for y := 1 to |b| + 1
      invariant dm.Length0 == |b| + 1 && dm.Length1 == |a| + 1
      invariant forall r, c {:trigger dm[r, c]} :: 0 <= r < y && 0 <= c <= |a| ==> dm[r, c] == Cell(m, a, b, c, r)
      invariant forall r, c {:trigger dm[r, c]} :: y <= r <= |b| && 0 <= c <= |a| ==>
                  dm[r, c] == if c == 0 then r as real else -1.0
    {
      FillRow(m, a, b, dm, y);
    }
    d := dm[|b|, |a|];
  }

  /** One pass of the inner loop of `distance`: row y from left to right,
      reading only row y-1 and the cells of row y already written. */
  method FillRow(m: Metric, a: string, b: string, dm: array2<real>, y: int)
    requires dm.Length0 == |b| + 1 && dm.Length1 == |a| + 1 && 1 <= y <= |b|
    requires forall r, c {:trigger dm[r, c]} :: 0 <= r < y && 0 <= c <= |a| ==> dm[r, c] == Cell(m, a, b, c, r)
    requires forall r, c {:trigger dm[r, c]} :: y <= r <= |b| && 0 <= c <= |a| ==>
               dm[r, c] == if c == 0 then r as real else -1.0
    modifies dm
    ensures forall r, c {:trigger dm[r, c]} :: 0 <= r <= y && 0 <= c <= |a| ==> dm[r, c] == Cell(m, a, b, c, r)
    ensures forall r, c {:trigger dm[r, c]} :: y < r <= |b| && 0 <= c <= |a| ==>
              dm[r, c] == if c == 0 then r as real else -1.0
  {
    for x := 1 to |a| + 1
      invariant forall r, c {:trigger dm[r, c]} :: 0 <= r < y && 0 <= c <= |a| ==> dm[r, c] == Cell(m, a, b, c, r)
      invariant forall c {:trigger dm[y, c]} :: 0 <= c < x ==> dm[y, c] == Cell(m, a, b, c, y)
      invariant forall c {:trigger dm[y, c]} :: x <= c <= |a| ==> dm[y, c] == -1.0
      invariant forall r, c {:trigger dm[r, c]} :: y < r <= |b| && 0 <= c <= |a| ==>
                  dm[r, c] == if c == 0 then r as real else -1.0
    {
      dm[y, x] := Min3(dm[y - 1, x - 1] + m.sub(a[x - 1], b[y - 1]),
                       dm[y - 1, x] + m.add(b[y - 1]),
                       dm[y, x - 1] + m.del(a[x - 1]));
    }
  }

  /** Against an empty string the distance is the other string's length, for
      any costs. */
  lemma EmptyDistance(m: Metric, a: string, b: string)
    ensures Dist(m, a, "") == |a| as real && Dist(m, "", b) == |b| as real
  {
  }

  /** With `LevensteinDistance`'s costs, cell (x, y) holds max(x, y). */
  lemma {:induction false} LevensteinCell(a: string, b: string, x: int, y: int)
    requires 0 <= x <= |a| && 0 <= y <= |b|
    ensures Cell(Levenstein(), a, b, x, y) == if x < y then y as real else x as real
    decreases x + y
  {
    if x > 0 && y > 0 {
      LevensteinCell(a, b, x - 1, y - 1);
      LevensteinCell(a, b, x, y - 1);
      LevensteinCell(a, b, x - 1, y);
    }
  }

  /** `LevensteinDistance.distance(a, b)` is the length of the longer string. */
  lemma LevensteinIsMax(a: string, b: string)
    ensures Dist(Levenstein(), a, b) == if |a| < |b| then |b| as real else |a| as real
  {
    LevensteinCell(a, b, |a|, |b|);
  }

  /** Every edit costs between 0 and 1. */
  ghost predicate UnitCosts(m: Metric)
  {
    && (forall c :: 0.0 <= m.add(c) <= 1.0)
    && (forall c :: 0.0 <= m.del(c) <= 1.0)
    && (forall c, d :: 0.0 <= m.sub(c, d) <= 1.0)
  }

  lemma MetricsHaveUnitCosts()
    ensures UnitCosts(Pascale()) && UnitCosts(Levenstein()) && UnitCosts(Standard())
  {
  }

  lemma {:induction false} CellBounded(m: Metric, a: string, b: string, x: int, y: int)
    requires UnitCosts(m) && 0 <= x <= |a| && 0 <= y <= |b|
    ensures 0.0 <= Cell(m, a, b, x, y) <= if x < y then y as real else x as real
    decreases x + y
  {
    if x > 0 && y > 0 {
      CellBounded(m, a, b, x - 1, y - 1);
      CellBounded(m, a, b, x, y - 1);
      CellBounded(m, a, b, x - 1, y);
    }
  }

  /** With costs in [0, 1] the distance lies between 0 and the longer length. */
  lemma DistanceBounded(m: Metric, a: string, b: string)
    requires UnitCosts(m)
    ensures 0.0 <= Dist(m, a, b) <= if |a| < |b| then |b| as real else |a| as real
  {
    CellBounded(m, a, b, |a|, |b|);
  }

  /** Adding costs as much as deleting, and substitution is symmetric. */
  ghost predicate SymmetricCosts(m: Metric)
  {
    && (forall c :: m.add(c) == m.del(c))
    && (forall c, d :: m.sub(c, d) == m.sub(d, c))
  }

  lemma MetricsAreSymmetric()
    ensures SymmetricCosts(Pascale()) && SymmetricCosts(Levenstein()) && SymmetricCosts(Standard())
  {
  }

  lemma {:induction false} CellSymmetric(m: Metric, a: string, b: string, x: int, y: int)
    requires SymmetricCosts(m) && 0 <= x <= |a| && 0 <= y <= |b|
    ensures Cell(m, a, b, x, y) == Cell(m, b, a, y, x)
    decreases x + y
  {
    if x > 0 && y > 0 {
      CellSymmetric(m, a, b, x - 1, y - 1);
      CellSymmetric(m, a, b, x, y - 1);
      CellSymmetric(m, a, b, x - 1, y);
      assert m.add(a[x - 1]) == m.del(a[x - 1]) && m.add(b[y - 1]) == m.del(b[y - 1]);
      assert m.sub(a[x - 1], b[y - 1]) == m.sub(b[y - 1], a[x - 1]);
    }
  }

  /** With symmetric costs the distance does not depend on argument order. */
  lemma DistanceSymmetric(m: Metric, a: string, b: string)
    requires SymmetricCosts(m)
    ensures Dist(m, a, b) == Dist(m, b, a)
  {
    CellSymmetric(m, a, b, |a|, |b|);
  }

  lemma {:induction false} StandardDiagonal(a: string, x: int)
    requires 0 <= x <= |a|
    ensures Cell(Standard(), a, a, x, x) == 0.0
    decreases x
  {
    if x > 0 {
      StandardDiagonal(a, x - 1);
      MetricsHaveUnitCosts();
      CellBounded(Standard(), a, a, x, x);
    }
  }

  /** Under the standard costs a string is at distance 0 from itself (under
      `LevensteinDistance` it is at distance |a|). */
  lemma StandardSelfZero(a: string)
    ensures Dist(Standard(), a, a) == 0.0
  {
    StandardDiagonal(a, |a|);
  }

  /** The standard distance between "kitten" and "sitting" is 3: two
      substitutions and one insertion. (The words are parameters so that the
      table is worked out row by row rather than unfolded all at once.) */
  lemma KittenSitting(a: string, b: string)
    requires a == "kitten" && b == "sitting"
    ensures Dist(Standard(), a, b) == 3.0
  {
    var S := Standard();
    assert Cell(S, a, b, 1, 1) == 1.0 && Cell(S, a, b, 2, 1) == 2.0 && Cell(S, a, b, 3, 1) == 3.0;
    assert Cell(S, a, b, 4, 1) == 4.0 && Cell(S, a, b, 5, 1) == 5.0 && Cell(S, a, b, 6, 1) == 6.0;
    assert Cell(S, a, b, 1, 2) == 2.0 && Cell(S, a, b, 2, 2) == 1.0 && Cell(S, a, b, 3, 2) == 2.0;
    assert Cell(S, a, b, 4, 2) == 3.0 && Cell(S, a, b, 5, 2) == 4.0 && Cell(S, a, b, 6, 2) == 5.0;
    assert Cell(S, a, b, 1, 3) == 3.0 && Cell(S, a, b, 2, 3) == 2.0 && Cell(S, a, b, 3, 3) == 1.0;
    assert Cell(S, a, b, 4, 3) == 2.0 && Cell(S, a, b, 5, 3) == 3.0 && Cell(S, a, b, 6, 3) == 4.0;
    assert Cell(S, a, b, 1, 4) == 4.0 && Cell(S, a, b, 2, 4) == 3.0 && Cell(S, a, b, 3, 4) == 2.0;
    assert Cell(S, a, b, 4, 4) == 1.0 && Cell(S, a, b, 5, 4) == 2.0 && Cell(S, a, b, 6, 4) == 3.0;
    assert Cell(S, a, b, 1, 5) == 5.0 && Cell(S, a, b, 2, 5) == 4.0 && Cell(S, a, b, 3, 5) == 3.0;
    assert Cell(S, a, b, 4, 5) == 2.0 && Cell(S, a, b, 5, 5) == 2.0 && Cell(S, a, b, 6, 5) == 3.0;
    assert Cell(S, a, b, 1, 6) == 6.0 && Cell(S, a, b, 2, 6) == 5.0 && Cell(S, a, b, 3, 6) == 4.0;
    assert Cell(S, a, b, 4, 6) == 3.0 && Cell(S, a, b, 5, 6) == 3.0 && Cell(S, a, b, 6, 6) == 2.0;
    assert Cell(S, a, b, 1, 7) == 7.0 && Cell(S, a, b, 2, 7) == 6.0 && Cell(S, a, b, 3, 7) == 5.0;
    assert Cell(S, a, b, 4, 7) == 4.0 && Cell(S, a, b, 5, 7) == 4.0;
  }

  /** `LevensteinDistance` puts the same two words 7 apart, the length of the
      longer one, and a one-letter word 1 away from itself. */
  lemma LevensteinMisses()
    ensures Dist(Levenstein(), "kitten", "sitting") == 7.0
    ensures Dist(Levenstein(), "a", "a") == 1.0
  {
    LevensteinIsMax("kitten", "sitting");
    LevensteinIsMax("a", "a");
  }

  /** The first two rows of the table for the call in the repository's `main`. */
  lemma PascaleExampleTop()
    ensures var P, a, b := Pascale(), "Luc", "Lake";
      && Cell(P, a, b, 1, 2) == 1.5 && Cell(P, a, b, 2, 2) == 1.5 && Cell(P, a, b, 3, 2) == 2.0
  {
    var P, a, b := Pascale(), "Luc", "Lake";
    assert Cell(P, a, b, 1, 1) == 1.0 && Cell(P, a, b, 2, 1) == 1.5 && Cell(P, a, b, 3, 1) == 2.5;
  }

  /** The call in the repository's `main`. */
  lemma PascaleExample()
    ensures Dist(Pascale(), "Luc", "Lake") == 2.5
  {
    var P, a, b := Pascale(), "Luc", "Lake";
    PascaleExampleTop();
    assert Cell(P, a, b, 1, 3) == 2.5 && Cell(P, a, b, 2, 3) == 2.0 && Cell(P, a, b, 3, 3) == 2.5;
    assert Cell(P, a, b, 1, 4) == 3.0 && Cell(P, a, b, 2, 4) == 2.5 && Cell(P, a, b, 3, 4) == 2.5;
  }

  // ----- Helpers -----

  /** Kotlin's `Int`. */
  newtype int32 = x: int | -0x8000_0000 <= x < 0x8000_0000

  /** `add`: Kotlin's `+` on `Int`, which wraps around modulo 2^32. */
  function Add(a: int32, b: int32): (r: int32)
    ensures -0x8000_0000 <= a as int + b as int < 0x8000_0000 ==> r as int == a as int + b as int
    ensures (r as int - (a as int + b as int)) % 0x1_0000_0000 == 0
  {
    ((a as int + b as int + 0x8000_0000) % 0x1_0000_0000 - 0x8000_0000) as int32
  }

  lemma AddWraps()
    ensures Add(0x7fff_ffff, 1) == -0x8000_0000
  {
  }

  /** `partial`: fixes the first argument of a two-argument function. */
  function Partial<R, S(!new), T>(f: (R, S) -> T, a: R): (g: S -> T)
    ensures forall b :: g(b) == f(a, b)
  {
    b => f(a, b)
  }

  /** `addOne`: adds 1, wrapping `Int.MAX_VALUE` round to `Int.MIN_VALUE`. */
  function AddOne(): (f: int32 -> int32)
    ensures forall x: int32 :: x < 0x7fff_ffff ==> f(x) as int == x as int + 1
    ensures f(0x7fff_ffff) == -0x8000_0000
  {
    Partial(Add, 1)
  }

  /** `shoulbBeThree` is 3. */
  lemma ShouldBeThree()
    ensures AddOne()(2) == 3
  {
  }

  /** `PartialResult`: a table position and the cost of reaching it. */
  datatype PartialResult = PartialResult(x: int, y: int, cost: real)

  /** `compareTo`: orders partial results by cost alone. */
  function CompareTo(p: PartialResult, q: PartialResult): (r: int)
    ensures r == 1 <==> p.cost > q.cost
    ensures r == -1 <==> p.cost < q.cost
    ensures r == 0 <==> p.cost == q.cost
  {
    if p.cost > q.cost then 1 else if p.cost < q.cost then -1 else 0
  }

  lemma CompareToAntisymmetric(p: PartialResult, q: PartialResult)
    ensures CompareTo(p, q) == -CompareTo(q, p)
  {
  }

  lemma CompareToTransitive(p: PartialResult, q: PartialResult, s: PartialResult)
    requires CompareTo(p, q) <= 0 && CompareTo(q, s) <= 0
    ensures CompareTo(p, s) <= 0
  {
  }
}
