# Sequence score and edit distance, in Dafny

This project models two small Kotlin programs from a programming-challenge repository.

**SequenceScore** arranges the items 0 .. 99 in a list.
- The `affinity` of two items is the Levenshtein distance between their *traces*. A trace is the SHA-1 digest of the item's decimal string, printed in hexadecimal, with only its letters kept and lowered.
- A list scores the sum of `affinity(n, m) / posdist(n, m)` over every pair whose positions are at most 3 apart.
- `score` enumerates that sum by pairs of items; `scoreFast` enumerates it by pairs of positions.
- `greedyNnWithStart` grows a list from one start item: it repeatedly appends the remaining item that gives the highest `scoreFast`.
- `greedyNn` tries every start and keeps the best run.
- `improveWithSwaps` is a first-improvement local search over swaps of two positions. It judges each swap by the fast score of the two windowed slices around the swapped positions.

**EditDistance** is an edit distance with pluggable per-character costs, filled into a two-dimensional table. It comes with two cost settings:
- `PascaleDistance`, where vowels cost half;
- `LevensteinDistance`, where every edit costs 1.

The file also holds a few helpers: `add`, `partial`, `addOne` and `PartialResult.compareTo`.

The modules:
- `Sums`: finite sums and the reindexing facts that relate the two score enumerations.
- `Lists`: Kotlin's `indexOf` and `remove`, and lists without duplicates.
- `Trace`: the hexadecimal printout and the letter filter of `trace`.
- `Objective`: `posdist`, `pairScore`, `score` and `scoreFast`, their agreement, and how one change moves the fast score.
- `Greedy`: `greedyNnWithStart` and `greedyNn`.
- `LocalSearch`: `improveWithSwaps`.
- `EditDistance`: all of EditDistance.kt.
- `Affinities`: `levenshtein` and `affinity`, with the digest as a parameter.

How the model represents the programs:
- The affinity is a parameter `aff: (int, int) -> nat` wherever the algorithms only need a function.
- `Affinities.TraceAffinity` builds the real affinity from a digest function.
- Scores are exact reals.
- The methods follow the source's loops. Each method is proved against a function that states the value it computes, and the properties the source promises are lemmas about those functions.

A note on `LevensteinDistance` in EditDistance.kt: it charges 1 for substituting a character by itself. As written, its distance is therefore always the length of the longer string (`EditDistance.LevensteinIsMax`). The sequence scorer does not use it; it calls a `LevenshteinDistance` defined in a file not among those modelled. That distance is modelled by the standard costs, where keeping a character is free (`EditDistance.Standard`).

## Model

| member | source | states |
|---|---|---|
| `Trace.PrintHexBinary` | SequenceScore/src/techtime/SequenceScore.kt:14 | The printout has two characters per byte, all of them from `0-9A-F`. |
| `Trace.PrintHexBinaryDecodes` | SequenceScore/src/techtime/SequenceScore.kt:14 | Reading the two digits printed for byte k (high nibble first) gives back byte k. |
| `Trace.KeepLetters` | SequenceScore/src/techtime/SequenceScore.kt:14 | The result of `filter { it.isLetter() }` holds exactly the letters that occur in the input, and is never longer. |
| `Trace.KeepLettersOne` | SequenceScore/src/techtime/SequenceScore.kt:14 | A single character is kept exactly when it is a letter. |
| `Trace.KeepLettersAppend` | SequenceScore/src/techtime/SequenceScore.kt:14 | The filter of a concatenation is the concatenation of the filters; with `KeepLettersOne`, the letters are kept in order and with their repeats. |
| `Trace.ToLowerCase` | SequenceScore/src/techtime/SequenceScore.kt:14 | Lower-casing keeps the length and maps each character on its own. |
| `Trace.TraceOfDigest` | SequenceScore/src/techtime/SequenceScore.kt:10-15 | A trace contains only `a`..`f`, at most two characters per digest byte. |
| `Affinities.Levenshtein` | SequenceScore/src/techtime/SequenceScore.kt:17 | `levenshtein` is the integer part of the standard edit distance. It is at most the longer length. |
| `Affinities.LevenshteinExample` | SequenceScore/src/techtime/SequenceScoreKtTest.kt:13-16 | `levenshtein("kitten", "sitting")` is 3. |
| `Affinities.TraceAffinity` | SequenceScore/src/techtime/SequenceScore.kt:10-19 | `affinity(n, m)`, the `levenshtein` distance of the two traces `trace(n)` and `trace(m)` (each `Trace.TraceOfDigest` of the item's digest), is at most twice the longer digest length (40 for SHA-1). |
| `Affinities.TraceAffinitySymmetric` | SequenceScore/src/techtime/SequenceScore.kt:19 | `affinity(n, m) == affinity(m, n)` for every digest. |
| `Affinities.TraceAffinitySelfZero` | SequenceScore/src/techtime/SequenceScore.kt:19 | An item has affinity 0 with itself. |
| `Affinities.ScoreIsScoreFast` | SequenceScore/src/techtime/SequenceScore.kt:40-44 | With the real affinity, `score` and `scoreFast` give the same value on every permutation of 0 .. 99. |
| `Lists.IndexOf` | SequenceScore/src/techtime/SequenceScore.kt:21 | `indexOf` returns -1 exactly when x is absent; otherwise it returns a position holding x. |
| `Lists.IndexOfIsFirst` | SequenceScore/src/techtime/SequenceScore.kt:21 | No position before the one `indexOf` returns holds x. |
| `Lists.Remove` | SequenceScore/src/techtime/SequenceScore.kt:94 | `remove(x)` shortens the list by one when x is present and leaves it unchanged otherwise. Other items stay members exactly when they were. |
| `Lists.RemoveFromUnplaced` | SequenceScore/src/techtime/SequenceScore.kt:93-94 | Removing the item just appended keeps `remaining` equal to the items 0 .. 99 not yet placed, in ascending order. |
| `Objective.PosDist` | SequenceScore/src/techtime/SequenceScore.kt:21 | Two items of the list are at `posdist` 0 exactly when they are the same item. Two absent items are always at 0. An absent item is exactly `indexOf(m) + 1` away from a present m, the first position holding m counted from 1, as if the absent item sat just before the list. |
| `Objective.PosDistSymmetric` | SequenceScore/src/techtime/SequenceScore.kt:21 | `posdist(n, m) == posdist(m, n)`, and `posdist(n, n)` is 0. |
| `Objective.PosDistExamples` | SequenceScore/src/techtime/SequenceScoreKtTest.kt:24-28 | The two `posdist` examples of the repository's test give 1 and 2. |
| `Objective.PosDistOfPositions` | SequenceScore/src/techtime/SequenceScore.kt:21 | On a list without duplicates, `posdist` of the items at positions i and j is the distance between i and j. |
| `Objective.PairScore` | SequenceScore/src/techtime/SequenceScore.kt:23 | `pairScore` is non-negative, and multiplied by `posdist` it gives back the affinity. |
| `Objective.Score` | SequenceScore/src/techtime/SequenceScore.kt:25-38 | `score` sums, over the item pairs n < m at most 3 positions apart, affinity divided by position distance. |
| `Objective.MissesAtMostOneIff` | SequenceScore/src/techtime/SequenceScore.kt:21-31 | No pair that `score` visits is at `posdist` 0 exactly when at most one of the items 0 .. 99 is missing from the list. |
| `Objective.ScoreStep` | SequenceScore/src/techtime/SequenceScore.kt:30-33 | In a list missing at most one item, two different items are never at `posdist` 0. One inner step adds exactly that pair's contribution. |
| `Objective.ScoreFast` | SequenceScore/src/techtime/SequenceScore.kt:44-57 | `scoreFast` sums, over position pairs i < j with j - i <= 3, the affinity divided by j - i. It does so for a list of any length. |
| `Objective.FastSumNonNegative` | SequenceScore/src/techtime/SequenceScore.kt:44-57 | The fast score is never negative, so the sentinel -1.0 is always beaten. |
| `Objective.ScoreEqualsScoreFast` | SequenceScore/src/techtime/SequenceScore.kt:40-44 | For any symmetric affinity, `score` and `scoreFast` agree on every permutation of 0 .. 99. |
| `Objective.ReplaceDelta` | SequenceScore/src/techtime/SequenceScore.kt:109 | Replacing the item at one position changes the fast score by exactly the change in the pairs that involve that position. |
| `Objective.SliceReplaceDelta` | SequenceScore/src/techtime/SequenceScore.kt:110-127 | The slice `[max(0, k-3), min(99, k+3)]` sees that same change. |
| `Objective.SwapDelta` | SequenceScore/src/techtime/SequenceScore.kt:109-129 | For positions more than 3 apart, the slice comparison measures exactly the change a swap makes to the whole list's fast score. |
| `Greedy.FirstBestIndexIsBest` | SequenceScore/src/techtime/SequenceScore.kt:83-92 | The picked candidate has the highest score. Every candidate before it scores strictly lower: ties go to the first. |
| `Greedy.BestExtension` | SequenceScore/src/techtime/SequenceScore.kt:83-92 | The inner loop returns the first remaining item whose appending gives the highest fast score. |
| `Greedy.GreedyNnWithStart` | SequenceScore/src/techtime/SequenceScore.kt:75-97 | `greedyNnWithStart(start)` returns the greedy run from `start` and its fast score. |
| `Greedy.GreedyRun` | SequenceScore/src/techtime/SequenceScore.kt:76-95 | The greedy run begins with the start and holds every item of the universe exactly once. |
| `Greedy.GreedyIsPermutation` | SequenceScore/src/techtime/SequenceScore.kt:75-97 | From a start in 0 .. 99, the result is a permutation of 0 .. 99 that begins with the start. |
| `Greedy.GreedyChooses` | SequenceScore/src/techtime/SequenceScore.kt:81-95 | Each item after the first is the greedy pick among the items not yet placed, taken in ascending order. |
| `Greedy.FirstMaxIsBest` | SequenceScore/src/techtime/SequenceScore.kt:63-70 | The kept position holds the highest score, and every earlier position scores strictly lower. |
| `Greedy.FirstMaxAppend` | SequenceScore/src/techtime/SequenceScore.kt:66-69 | One step of the scan: the kept run changes exactly when the new score is strictly higher. |
| `Greedy.BestStartResult` | SequenceScore/src/techtime/SequenceScore.kt:60-72 | After all 100 starts, the kept run is the one from the first start with the highest greedy score. |
| `Greedy.GreedyNn` | SequenceScore/src/techtime/SequenceScore.kt:60-72 | `greedyNn` returns, with its score, the greedy run of the first start whose score is the highest; the `!!` never fails; and the run is a permutation. |
| `LocalSearch.LocallyOptimalIff` | SequenceScore/src/techtime/SequenceScore.kt:140-147 | The recursive "no improving swap" predicate holds exactly when no swap of two positions more than 3 apart raises the fast score. |
| `LocalSearch.SwapDecision` | SequenceScore/src/techtime/SequenceScore.kt:116-129 | For positions more than 3 apart, the slice comparison holds exactly when the swap raises the whole list's fast score. |
| `LocalSearch.TrySwap` | SequenceScore/src/techtime/SequenceScore.kt:108-144 | The swap is made exactly when it spans more than 3 positions and raises the fast score. The new score is the new list's fast score; `assert(newScore > workingScore)` holds; the list stays a rearrangement. |
| `LocalSearch.SweepRow` | SequenceScore/src/techtime/SequenceScore.kt:107-145 | While no swap has been accepted in the pass, row i leaves the list unchanged only when no swap of i with a position more than 3 away improves it. |
| `LocalSearch.Sweep` | SequenceScore/src/techtime/SequenceScore.kt:105-146 | A pass either raises the fast score or, changing nothing, shows that the list is locally optimal (and conversely). |
| `LocalSearch.BetterShrinks` | SequenceScore/src/techtime/SequenceScore.kt:104-147 | Every improving pass shrinks the finite set of better rearrangements, so the `do`-loop ends. |
| `LocalSearch.ImproveWithSwaps` | SequenceScore/src/techtime/SequenceScore.kt:100-149 | The result rearranges the input, scores at least as well, admits no improving swap of two positions more than 3 apart, and is the input itself when the input admits none. |
| `LocalSearch.RearrangedPermutation` | SequenceScore/src/techtime/SequenceScore.kt:152-156 | Rearranging a permutation of 0 .. 99, as the swaps do, keeps it a permutation. |
| `EditDistance.IsVowel` | EditDistance/src/EditDistance.kt:33 | `isVowel` holds exactly for the five lower-case vowels. |
| `EditDistance.Pascale` | EditDistance/src/EditDistance.kt:7-11 | `PascaleDistance`: adding or deleting a vowel costs 0.5 and any other character 1; a substitution costs 0.5 exactly when one of its two characters is a vowel, and 1 otherwise. |
| `EditDistance.Levenstein` | EditDistance/src/EditDistance.kt:13-17 | `LevensteinDistance`: every addition, deletion and substitution costs 1, substituting a character by itself included. |
| `EditDistance.Standard` | SequenceScore/src/techtime/SequenceScore.kt:17 | The standard costs behind `levenshtein`: adding or deleting costs 1, and a substitution is free exactly when it keeps the character and costs 1 otherwise. |
| `EditDistance.Distance` | EditDistance/src/EditDistance.kt:40-60 | `distance` fills the table from its border (column and row indices, inner cells -1) and returns the minimum-cost edit value of the recurrence. |
| `EditDistance.FillRow` | EditDistance/src/EditDistance.kt:51-57 | One inner pass gives every cell of row y its recurrence value and leaves the later rows as initialised. |
| `EditDistance.EmptyDistance` | EditDistance/src/EditDistance.kt:41-49 | Against the empty string, the distance is the other string's length, whatever the costs. |
| `EditDistance.LevensteinIsMax` | EditDistance/src/EditDistance.kt:13-17 | `LevensteinDistance.distance(a, b)` is the length of the longer string. |
| `EditDistance.LevensteinMisses` | EditDistance/src/EditDistance.kt:13-17 | `LevensteinDistance` puts "kitten" and "sitting" 7 apart, and "a" 1 away from itself. |
| `EditDistance.MetricsHaveUnitCosts` | EditDistance/src/EditDistance.kt:7-17 | Both cost settings (and the standard one) charge between 0 and 1 per edit. |
| `EditDistance.DistanceBounded` | EditDistance/src/EditDistance.kt:40-60 | With such costs, the distance lies between 0 and the longer length. |
| `EditDistance.MetricsAreSymmetric` | EditDistance/src/EditDistance.kt:7-17 | In each setting, adding costs what deleting does, and substitution is symmetric. |
| `EditDistance.DistanceSymmetric` | EditDistance/src/EditDistance.kt:40-60 | With such costs, `distance(a, b) == distance(b, a)`. |
| `EditDistance.StandardSelfZero` | SequenceScore/src/techtime/SequenceScore.kt:17 | Under the standard costs, a string is at distance 0 from itself. |
| `EditDistance.KittenSitting` | SequenceScore/src/techtime/SequenceScoreKtTest.kt:13-16 | The standard distance between "kitten" and "sitting" is 3. |
| `EditDistance.PascaleExample` | EditDistance/src/EditDistance.kt:3-11 | The call in `main`, `PascaleDistance.distance("Luc", "Lake")`, gives 2.5. |
| `EditDistance.Add` | EditDistance/src/EditDistance.kt:19-21 | `add` is the sum when that fits in an `Int`. Otherwise it wraps around modulo 2^32. |
| `EditDistance.AddWraps` | EditDistance/src/EditDistance.kt:19-21 | `add(Int.MAX_VALUE, 1)` is `Int.MIN_VALUE`. |
| `EditDistance.Partial` | EditDistance/src/EditDistance.kt:23-27 | `partial(f, a)` applied to b is `f(a, b)`. |
| `EditDistance.AddOne` | EditDistance/src/EditDistance.kt:29 | `addOne` adds 1 to every `Int` below `Int.MAX_VALUE`, and wraps `Int.MAX_VALUE` round to `Int.MIN_VALUE`. |
| `EditDistance.ShouldBeThree` | EditDistance/src/EditDistance.kt:29-31 | `addOne(2)`, the value of `shoulbBeThree`, is 3. |
| `EditDistance.CompareTo` | EditDistance/src/EditDistance.kt:69-76 | `compareTo` is 1, -1 or 0 exactly when this cost is greater than, less than or equal to the other's. |
| `EditDistance.CompareToAntisymmetric` | EditDistance/src/EditDistance.kt:69-76 | Swapping the arguments negates the result. |
| `EditDistance.CompareToTransitive` | EditDistance/src/EditDistance.kt:69-76 | "At most" by `compareTo` is transitive. |

## Left out

- The SHA-1 digest and the decimal `toString` of `trace` are a parameter, a function from the item to its digest bytes: hashing is outside the model.
- `Char.isLetter` and `toLowerCase` are modelled on ASCII only. That is all a hexadecimal printout contains.
- `EditDistance.Distance` works on Dafny strings, which are sequences of Unicode scalar values, while Kotlin's `length` and indexing count UTF-16 code units. For a character outside the Basic Multilingual Plane the two differ (for the one-character string U+1F600 against "", Kotlin's `LevensteinDistance` gives 2, the model gives 1). The model agrees with the source only on text made entirely of Basic Multilingual Plane characters, such as the ASCII traces.
- The `LevenshteinDistance` that `levenshtein` calls is defined in a file not among those modelled. It is modelled by the standard edit costs under the table recurrence of `EditDistance.Distance`.
- `Float` and `Double` rounding is not modelled: costs and scores are exact reals. The sum of 100-item scores is therefore exact, and ties between candidate scores are exact ties.
- `Objective.ScoreFast` requires a list without duplicates. With duplicates, `posdist` measures first occurrences: it can be 0, where the source's division gives NaN or infinity, or differ from the distance of the two positions. Every caller passes a list without duplicates, except the near swaps below.
- `LocalSearch.TrySwap`: a swap of two positions at most 3 apart is rejected without computing the swapped slices' scores. In the source, each swapped slice then holds one item twice within the window, so that pair's `pairScore` is 0/0 = NaN (the affinity of an item with itself is 0, see `Affinities.TraceAffinitySelfZero`), and a comparison with NaN is false. For a generic affinity with non-zero self-affinity the source would instead divide by 0 to infinity; the model does not follow that case.
- `Objective.Score` requires that at most one of the items 0 .. 99 is missing from the list. Two missing items both sit at `indexOf` -1, so their `posdist` is 0 and the source divides `affinity(n, m)` by 0, which gives infinity, or NaN when the two traces coincide (`Objective.MissesAtMostOneIff`); a list with exactly one missing item is covered.
- `Lists.Remove`: its contract states membership and length only, not the order of the items that stay. `RemoveFromUnplaced` gives the order in the case the greedy run uses.
- `LocalSearch.ImproveWithSwaps` requires its input to have 100 items without duplicates and its score to be the input's fast score. That is what `greedyNn` hands it in `main`.
- The unused `pairs` counter of `score`, the `println` progress output and `main`'s output, the recorded results in comments, and the unfinished `distance2` (with its empty priority queue) are not modelled.
- `Array<Array<Float>>` becomes a Dafny `array2<real>` indexed `[row, col]`. Kotlin's mutable working lists become local sequences that the methods reassign: no list is shared between callers, so nothing is lost to aliasing.
- `Greedy.BestExtension`, `LocalSearch.TrySwap`, `LocalSearch.SweepRow`, `LocalSearch.Sweep` and `EditDistance.FillRow` are the bodies of the source's loops, written as methods of their own.
- The greedy step is stated once for any ranking of candidates (`Greedy.Gain`); `greedyNnWithStart` uses it with the fast score of the extended list.

## Findings

| source | as written | input that shows it | evidently intended | confidence | as-written member | corrected member |
|---|---|---|---|---|---|---|
| EditDistance/src/EditDistance.kt:13-17 | `LevensteinDistance` charges 1.0 for every substitution, including a character by itself, so its distance is the length of the longer string | `distance("a", "a")` is 1.0; `distance("kitten", "sitting")` is 7.0, not 3 | substituting a character by itself is free, the standard Levenshtein distance | medium, not executed | `EditDistance.LevensteinMisses` | `EditDistance.StandardSelfZero` |
