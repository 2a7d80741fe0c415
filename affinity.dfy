/** `affinity(n, m)`: the standard Levenshtein distance between the traces
    of n and m. The SHA-1 digest of an item's decimal string is a parameter. */
module Affinities {
  import opened Trace
  import opened EditDistance
  import opened Objective

  /** `levenshtein`: the standard distance, converted to `Int` (for the
      non-negative values it takes, truncation is the floor). */
  function Levenshtein(a: string, b: string): (r: nat)
    ensures r as real <= Dist(Standard(), a, b) < r as real + 1.0
    ensures r <= if |a| < |b| then |b| else |a|
  {
    MetricsHaveUnitCosts();
    DistanceBounded(Standard(), a, b);
    Dist(Standard(), a, b).Floor
  }

  /** The repository's test: `levenshtein("kitten", "sitting")` is 3. */
  lemma LevenshteinExample(a: string, b: string)
    requires a == "kitten" && b == "sitting"
    ensures Levenshtein(a, b) == 3
  {
    KittenSitting(a, b);
  }

  /** `affinity`: `levenshtein` of the two traces, `trace(n)` being `TraceOfDigest(digest(n))`. */
  function TraceAffinity(digest: int -> seq<byte>): (aff: Affinity)
    ensures forall n, m :: aff(n, m) <= 2 * Max(|digest(n)|, |digest(m)|)
  {
    (n, m) => Levenshtein(TraceOfDigest(digest(n)), TraceOfDigest(digest(m)))
  }

  lemma TraceAffinitySymmetric(digest: int -> seq<byte>)
    ensures SymmetricAffinity(TraceAffinity(digest))
  {
    forall n, m
      ensures TraceAffinity(digest)(n, m) == TraceAffinity(digest)(m, n)
    {
      MetricsAreSymmetric();
      DistanceSymmetric(Standard(), TraceOfDigest(digest(n)), TraceOfDigest(digest(m)));
    }
  }

  /** An item has affinity 0 with itself. */
  lemma TraceAffinitySelfZero(digest: int -> seq<byte>, n: int)
    ensures TraceAffinity(digest)(n, n) == 0
  {
    StandardSelfZero(TraceOfDigest(digest(n)));
  }

  /** With the real affinity, `score` and `scoreFast` agree on every ordering
      of the items. */
  lemma ScoreIsScoreFast(digest: int -> seq<byte>, s: seq<int>)
    requires IsPermutation(s)
    ensures RefSum(TraceAffinity(digest), s) == FastSum(TraceAffinity(digest), s)
  {
    TraceAffinitySymmetric(digest);
    ScoreEqualsScoreFast(TraceAffinity(digest), s);
  }
}
