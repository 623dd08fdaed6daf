# DiSH preference vectors and the M_rad split of an M-tree

This project models two small pieces of a data-mining framework in Dafny and
proves what they compute.

**The DiSH preprocessor** (`preprocessing.dfy`, module `Preprocessing`) does two things:
- It sets its two parameters: `minpts`, a positive integer, and `epsilon`, a
  real in [0, 1] that defaults to 0.001.
- For every object it determines a *preference vector* from the object's
  neighbourhood in each single dimension.

Bit i of the preference vector is set exactly when two things hold:
- dimension i has more than `minpts` neighbours;
- for every other dimension j that also has more than `minpts` neighbours, the
  two neighbourhoods share at least `minpts` objects.

The method keeps a lazily filled, symmetric cache of intersections and stops
scanning at the first incompatible dimension. The model keeps both mechanics
and proves that they compute the rule above.

**The M_rad split** (`mtree.dfy`, module `MTree`) chooses the two entries of an
overflowing M-tree node that are promoted to the parent.
- Every pair (i, j) with i < j is tried in turn.
- A trial builds one distance list per candidate, sorts both lists, and hands out
  the entries in alternating nearest-neighbour steps.
- A trial gives up as soon as the sum of the two covering radii reaches the best
  larger radius found so far.
- A finished trial replaces the best pair when its larger radius is strictly
  smaller.

The model defines `MRadChoice`, a reference fold of the pair-by-pair step
over the pairs in the order the two loops take them: it holds the best larger
radius and the pair that has it. `Promote` and the constructor prove that the
recorded pair and radius are exactly this fold's result, and that the fields
hold that pair's finished trial. The fold alone determines the pair; the
properties below describe its result but do not single it out, since another
pair can satisfy them too. Pruning compares the radius sum against the best larger radius, and the
larger radius is at most the final sum, so a trial that finishes is always
taken. The recorded pair (bi, bj) with larger radius m is therefore the last
pair whose trial was not pruned:
- every pair tried before it is worse than m, or would be pruned against m;
- every pair tried after it was pruned against m.

The second alternative in the first bullet is real.
`PrunedPairCanHaveSmallerRadius` gives three entries for which the split
records a pair with larger radius 10. Another pair would finish with larger
radius 8, but its radius sum reaches 10 first, so it is pruned. The promoted
pair therefore need not have the smallest larger radius of all pairs. Its final
radius sum, 12, is not the smallest either, since that of the pruned pair is 10.
The example's distance is not a metric and its step only adds up distances, so
it shows the search's behaviour for some distance and step, not for a
nearest-neighbour step over a metric space.

Where the documentation and the code differ, the model follows the code:
- The `minpts` description says the intersection bound holds "for all
  dimensions d_j". The code checks it only against dimensions that have more
  than `minpts` neighbours. `DescribedRuleImpliesImplemented` and
  `ImplementedRuleSetsMoreBits` relate the two readings.
- The `promote` comment speaks of the pair whose *sum* of covering radii is
  minimum. The code compares the *larger* of the two radii and prunes on the sum. So the
  result is not always the pair with the minimum sum, nor always the pair with
  the minimum larger radius.
- The `testPartition` comment says the trial aborts once the *maximum* covering
  radius exceeds the bound, and returns a value at least the bound. The code
  returns no assignment as soon as the radius *sum* reaches the bound
  (MRadSplit.java:116-119). So a pair whose larger radius is below the bound
  can be pruned, which `PrunedPairCanHaveSmallerRadius` exhibits.

`wrappers.dfy` holds the `Option` type both modules use.

## Model

| member | source | states |
|---|---|---|
| Preprocessing.DiSHPreprocessor.constructor | src/de/lmu/ifi/dbs/preprocessing/DiSHPreprocessor.java:85-101 | A new preprocessor has minpts 0, the default of an int field, and no epsilon, as the field is null until the parameters are set. |
| Preprocessing.DiSHPreprocessor.SetParameters | src/de/lmu/ifi/dbs/preprocessing/DiSHPreprocessor.java:200-227 | Accepted exactly when minpts parsed and is positive and epsilon is either absent or parsed within [0, 1]. A bad minpts is reported as a wrong minpts value, and only a bad minpts is. A bad epsilon is reported as a wrong epsilon value. An absent epsilon becomes 0.001. A value that parsed is stored even when its range check then fails. A minpts failure leaves epsilon untouched. |
| Preprocessing.DiSHPreprocessor.DeterminePreferenceVector | src/de/lmu/ifi/dbs/preprocessing/DiSHPreprocessor.java:252-307 | No index at or beyond the dimensionality is set. Index i is set iff dimension i has more than minpts neighbours and shares at least minpts neighbours with every other dimension that has more than minpts neighbours. |
| Preprocessing.DiSHPreprocessor.CompatibleWithAll | src/de/lmu/ifi/dbs/preprocessing/DiSHPreprocessor.java:262-293 | The scan over j, through the cache and with its early break, yields true iff dimension i satisfies the full rule. The cache stays sound: every filled entry [i, j] holds s_i ∩ s_j, and [j, i] holds the same object. |
| Preprocessing.Intersection.constructor | src/de/lmu/ifi/dbs/preprocessing/DiSHPreprocessor.java:270-272 | A new cache entry holds the intersection of the two neighbourhoods. |
| Preprocessing.UndersizedNeverPreferred | src/de/lmu/ifi/dbs/preprocessing/DiSHPreprocessor.java:264 | A dimension with at most minpts neighbours is never preferred, whatever the other dimensions hold. |
| Preprocessing.UndersizedDimensionImposesNothing | src/de/lmu/ifi/dbs/preprocessing/DiSHPreprocessor.java:268 | Replacing an undersized dimension's neighbourhood by any other undersized one changes no other dimension's bit. |
| Preprocessing.ConflictExcludesBoth | src/de/lmu/ifi/dbs/preprocessing/DiSHPreprocessor.java:268-291 | Two qualifying dimensions whose intersection is below minpts exclude each other: neither bit is set. |
| Preprocessing.SingleDimension | src/de/lmu/ifi/dbs/preprocessing/DiSHPreprocessor.java:266 | With one dimension, its bit is set iff it has more than minpts neighbours. |
| Preprocessing.DescribedRuleImpliesImplemented | src/de/lmu/ifi/dbs/preprocessing/DiSHPreprocessor.java:69-74 | Every bit set by the described rule ("for all dimensions d_j") is set by the implemented rule. |
| Preprocessing.ImplementedRuleSetsMoreBits | src/de/lmu/ifi/dbs/preprocessing/DiSHPreprocessor.java:69-74 | The converse fails. With minpts 2, neighbourhoods {1, 2, 3} and {}, dimension 0 is preferred by the code but not by the described rule. |
| MTree.MTreeNode.constructor | src/de/lmu/ifi/dbs/index/metrical/mtree/MRadSplit.java:45-49 | A node holds its entry array, an entry count no larger than the array, and its leaf flag. These are the three things the split reads. |
| MTree.MRadSplit.constructor | src/de/lmu/ifi/dbs/index/metrical/mtree/MRadSplit.java:27-30 | Creating the split promotes at once. With fewer than two entries, no field is set. Otherwise the fields record exactly the pair chosen by MRadChoice, with that pair's finished trial. That pair has the properties of PromotedPair. |
| MTree.MRadSplit.Promote | src/de/lmu/ifi/dbs/index/metrical/mtree/MRadSplit.java:42-66 | With fewer than two entries, nothing changes. Otherwise the recorded pair (bi, bj) and its larger radius are exactly MRadChoice's result, and the fields hold that pair's finished trial. Every pair tried before it is worse than its larger radius m or prunable against m. Every pair tried after it is pruned against m. |
| MTree.MRadSplit.PromoteRow | src/de/lmu/ifi/dbs/index/metrical/mtree/MRadSplit.java:45-65 | One pass of the outer loop. It takes the search from the choice at the start of row i to the choice at the start of row i + 1. The fields keep recording the current choice. |
| MTree.MRadSplit.TryPair | src/de/lmu/ifi/dbs/index/metrical/mtree/MRadSplit.java:49-63 | One pass of the inner loop; the best radius never increases. When the trial is pruned against maxCR, the radius, the pair and every field stay the same. Otherwise the best radius becomes the pair's larger radius, the pair becomes (i, j), and the fields record (i, j)'s finished trial. This is the step TryStep of the reference fold. |
| MTree.MRadSplit.Adopt | src/de/lmu/ifi/dbs/index/metrical/mtree/MRadSplit.java:56-62 | The two promoted ids, both radii and both assignments all come from the same pair's finished trial. |
| MTree.MRadSplit.RecordedChoicePromoted | src/de/lmu/ifi/dbs/index/metrical/mtree/MRadSplit.java:42-66 | When the fields record the fold's final choice, they record a promoted pair, and the fold's result is that pair with its own larger radius. |
| MTree.MRadSplit.MRadChoiceDescribed | src/de/lmu/ifi/dbs/index/metrical/mtree/MRadSplit.java:42-66 | With at least two entries, the fold ends with a finite radius that is the larger radius m of its pair bi < bj. Every earlier pair is worse than m or prunable against it. Every later pair is pruned against m. |
| MTree.MRadSplit.ChoiceBeforeInvariant | src/de/lmu/ifi/dbs/index/metrical/mtree/MRadSplit.java:48-63 | Before the pair (i, j) is tried, the search's choice meets the search invariant: with no pair chosen yet, nothing has been tried; otherwise it holds its pair's larger radius m, earlier pairs are worse than m or prunable, and the pairs since are pruned. |
| MTree.MRadSplit.RowStartInvariant | src/de/lmu/ifi/dbs/index/metrical/mtree/MRadSplit.java:45-47 | At the start of each row, the choice meets the search invariant before the pair (i, i + 1). |
| MTree.MRadSplit.TryStepKeepsInvariant | src/de/lmu/ifi/dbs/index/metrical/mtree/MRadSplit.java:50-63 | Trying one pair carries the search invariant from (i, j) to (i, j + 1). |
| MTree.MRadSplit.ImprovementKeepsEarlierWorseOrPrunable | src/de/lmu/ifi/dbs/index/metrical/mtree/MRadSplit.java:54-56 | When a pair improves on the best, every pair tried so far is worse than the new best or prunable against it. |
| MTree.MRadSplit.AbortedPairExtends | src/de/lmu/ifi/dbs/index/metrical/mtree/MRadSplit.java:51-52 | A pruned pair extends the run of pairs pruned since the best pair. |
| MTree.MRadSplit.UnprunedTrialImproves | src/de/lmu/ifi/dbs/index/metrical/mtree/MRadSplit.java:54-55 | A trial that is not pruned has a larger radius below the bound, since the larger radius is at most the final radius sum. So every returned assignment is taken. |
| MTree.MRadSplit.OtherPairsReachPromotedRadius | src/de/lmu/ifi/dbs/index/metrical/mtree/MRadSplit.java:42-66 | Against the promoted pair's larger radius, every other pair's trial has a step whose radius sum reaches it. |
| MTree.MRadSplit.PrunedPairCanHaveSmallerRadius | src/de/lmu/ifi/dbs/index/metrical/mtree/MRadSplit.java:34-36 | With three entries and a concrete distance and assignment step, the split chooses the pair (0, 1) with larger radius 10. The pair (0, 2) has larger radius 8 but is pruned against 10. The final radius sums are 12 for (0, 1) and 10 for (0, 2). So the chosen pair is not the one with the smallest larger radius, and not the one with the smallest sum the comment names. |
| MTree.MRadSplit.ExampleTrial | src/de/lmu/ifi/dbs/index/metrical/mtree/MRadSplit.java:108-114 | In that example, each candidate's radius grows by its weight at each of its own steps. This gives the radii after one, two and three steps. |
| MTree.MRadSplit.TestPartition | src/de/lmu/ifi/dbs/index/metrical/mtree/MRadSplit.java:82-123 | Returns no assignment iff some step among the first numEntries steps brings the radius sum up to the bound. Otherwise returns the radii and assignments after exactly numEntries alternating steps. When the node has at least one entry, a returned assignment's radius sum is below the bound. With no entries the loop never runs, and an assignment with radius sum 0 is returned whatever the bound. |
| MTree.MRadSplit.DistanceLists | src/de/lmu/ifi/dbs/index/metrical/mtree/MRadSplit.java:96-104 | Each list holds one element per node entry, in node order, tagged with the entry's index and its distance to the candidate. |
| MTree.SortByDistanceCorrect | src/de/lmu/ifi/dbs/index/metrical/mtree/MRadSplit.java:105-106 | The sorted list is ordered by distance and is a permutation of its input. |
| MTree.InsertByDistanceSorted | src/de/lmu/ifi/dbs/index/metrical/mtree/MRadSplit.java:105-106 | Inserting into a list ordered by distance keeps it ordered. |
| MTree.InsertByDistancePermutes | src/de/lmu/ifi/dbs/index/metrical/mtree/MRadSplit.java:105-106 | Inserting adds exactly the inserted element to the multiset of elements. |
| MTree.SortByDistanceStable | src/de/lmu/ifi/dbs/index/metrical/mtree/MRadSplit.java:105-106 | Sorting a list whose indices increase gives a list ordered by distance and then by index. `DistanceEntry.compareTo` is not part of this model; the model assumes entries at equal distance keep node order, as the stable `Collections.sort` leaves them under a comparison by distance alone. |
| MTree.DistanceListSortedStably | src/de/lmu/ifi/dbs/index/metrical/mtree/MRadSplit.java:96-106 | Each sorted distance list is ordered by distance and then by index. |
| MTree.InsertByDistanceStable | src/de/lmu/ifi/dbs/index/metrical/mtree/MRadSplit.java:105-106 | Inserting an element whose index is below every index in a list ordered by distance and then index keeps that order. |
| MTree.SortByDistanceOfSorted | src/de/lmu/ifi/dbs/index/metrical/mtree/MRadSplit.java:105-106 | Sorting a list already ordered by distance leaves it as it is. |
| MTree.StepsAlternate | src/de/lmu/ifi/dbs/index/metrical/mtree/MRadSplit.java:108-114 | An even step leaves the second candidate's radius and assignment alone. An odd step leaves the first candidate's alone. |

## Left out

- `DiSHPreprocessor.run` is left out: range queries, association storage, progress, logging and debug messages. It is I/O and plumbing around the rule. Neighbourhoods are given as sets of object ids.
- Neighbourhoods hold `QueryResult` objects (DiSHPreprocessor.java:137-139, 252), and the intersection depends on their `equals`. The model assumes two results are equal exactly when they are for the same object id. `QueryResult` is not part of this model.
- `Util.intersection` (DiSHPreprocessor.java:272) is not part of this model. The model assumes it fills the new set with exactly s_i ∩ s_j.
- `initDistanceFunctions`, `description`, `getAttributeSettings` and the rest of the option handling are left out. `super.setParameters` is not part of this model.
- SetParameters: string parsing is reduced to "parsed to a value" or "did not parse". The exception's message is reduced to the parameter's name.
- SetParameters: an absent minpts is modelled as a value that did not parse. This is a modelling assumption. The value is read by `optionHandler.getOptionValue` (DiSHPreprocessor.java:201), outside the `try`. What that call does for a missing option is not part of this model: it may throw its own exception before the parse.
- SetParameters: epsilon is a real. The model does not capture double rounding, or a NaN epsilon, which the range test lets through.
- SetParameters: minpts is an unbounded integer. The 32-bit limit of `Integer.parseInt` only changes which strings parse.
- The `Split` superclass is not part of this model. Its nearest-neighbour step `assignNN` is a function-valued field that returns the grown assignment, both lists and the new radius. So everything proved holds for any such step. The step's in-place updates of the lists become these returned values.
- The distance function is a parameter of type (id, id) → nat. The distance type's infinite and null distances are `Infinite` and `0`.
- Distances of the generic type `D` are naturals, so rounding in `plus` and `compareTo` for real-valued distances (MRadSplit.java:117-118) is not modelled. `Util.max` (MRadSplit.java:54) is not part of this model; `Max` assumes it is the plain maximum of its two arguments.
- `DistanceEntry.compareTo` is not part of this model. The lists are sorted by distance with a stable insertion sort. `DistanceListSortedStably` proves that the result is ordered by distance and then by index. A `compareTo` that breaks ties another way, by object id for instance, would give the step differently ordered lists, which the model does not capture.
- `MTreeNode` is reduced to its entry array, entry count and leaf flag. Entries are reduced to their object ids.
- Promote: the order of the pairs is followed by the reference fold `MRadChoice`. The trial calls themselves are not recorded as a trace.
- Promote: the recorded pair's indices are ghost results, because the method returns nothing.

