# DCREmbeddings, modelled in Dafny

DCREmbeddings looks for causal rules in a knowledge graph: a list of `(subject, predicate,
object)` string triples. It pairs up instances whose embeddings lie close together. It keeps
the pairs whose structural similarity, measured on the graph, is high enough. Then it counts,
over those pairs, how often the difference in a treatment goes with the expected difference in
an outcome. A tutorial builds synthetic look-alikes of an instance by editing some of its
properties.

This project models four files of that repository and proves properties about them:

- `dcr_discovery/metrics.py` (module `Metrics`). It follows property paths, reads the outcome
  of an instance, classifies each pair as agreeing, disagreeing or tied with the rule, and
  turns the counters into the causal ratio and its interval.
- `similarity_search/pairs_mining.py` (modules `SimilarityMatrix` and `PairsMining`). It fills
  the neighbour-distance matrix. It selects pairs greedily under a distance threshold, or a
  fixed number of them for a target proportion. The matrix is a Dafny `array2` that the
  methods update in place.
- `similarity_search/distance_threshold_estimation.py` (modules `Similarity` and
  `ThresholdSampling`). It draws pairs of instances and scores their structural similarity
  property by property. It bins the (distance, similarity) points into equal-width distance
  intervals and samples each bin.
- `tutorials/synthetic_generation.py` (module `SyntheticGeneration`). It builds the description
  dict of an instance and reads its DBpedia type. It groups the nodes to change by type. It
  searches for an existing instance that differs only in the chosen properties, and draws the
  (node, property) paths to change.

The infrastructure modules are:

- `TripleStore`: the list comprehensions over triples.
- `Dicts`: Python dicts in insertion order, and the "append to the list under this key" idiom.
- `StrOrder`: Python's string order and `np.unique`.
- `PyInt`: `int()` on decimal strings.
- `Seqs`: filters, de-duplication, minimum and concatenation.
- `Wrappers`: `Option`, `Result` and the Python exceptions the code can raise.

The embedding model is an oracle. The model is given its results:

- the nearest-neighbour lists with their distances;
- the pair distance as a function on pairs;
- the triple score as a function on triples.

An exception the source raises becomes `Err(e)`. A `try/except: pass` around a pair becomes a
pair class (`Failed`) that changes no counter.

The source is followed where it differs from its own comments and documentation:

- In `get_similarity_for_pair` the properties assessed are the keys of `dic_functionality`
  (`distance_threshold_estimation.py:74`). They are not the result of
  `get_properties_to_assess` on the line before, which is discarded. `Similarity.PropertiesToAssess`
  is still modelled, but the similarity does not use it.
- `end_node` reads the type of the first type triple of the whole graph
  (`distance_threshold_estimation.py:178`), not a type of the entity.
  `Similarity.EndNodeIgnoresEntity` states the consequence.
- On an interval boundary a distance falls into both neighbouring intervals, because both
  comparisons are inclusive (`distance_threshold_estimation.py:211`). Equal intervals collapse
  into one dict key.

## Model

| member | source | states |
|---|---|---|
| TripleStore.WithSubject | DCREmbeddings/tutorials/synthetic_generation.py:44-46 | every returned triple has the given subject and comes from the graph, and every triple of the graph with that subject is returned |
| TripleStore.ObjectsOfMembers | DCREmbeddings/dcr_discovery/metrics.py:64 | an object is listed for (s, p) exactly when (s, p, o) is a triple of the graph |
| TripleStore.SubjectsWithMembers | DCREmbeddings/tutorials/synthetic_generation.py:140-142 | a subject is listed for (p, o) exactly when (s, p, o) is a triple of the graph |
| TripleStore.ObjectsOfPredicateMembers | DCREmbeddings/similarity_search/distance_threshold_estimation.py:133-137 | an object is listed for a property exactly when some triple carries that property and that object |
| TripleStore.PredicatesOfMembers | DCREmbeddings/similarity_search/distance_threshold_estimation.py:122-130 | a property is listed for an entity exactly when some triple has that subject and that property |
| TripleStore.FirstObject | DCREmbeddings/dcr_discovery/metrics.py:64 | the lookup `[...][0]` fails (IndexError) exactly when no triple has that subject and predicate; otherwise it gives the object of the first such triple in graph order |
| TripleStore.FirstObjectAt | DCREmbeddings/dcr_discovery/metrics.py:64 | the lookup returns the object of the earliest matching triple, whichever that is |
| PyInt.ParseShowRoundTrip | DCREmbeddings/dcr_discovery/metrics.py:74 | `int()` reads back every integer from its decimal form, sign included |
| PyInt.ParseNeedsDigit | DCREmbeddings/dcr_discovery/metrics.py:74 | a string without any digit makes `int()` raise, so the pair is skipped |
| PyInt.ParseOneDigit | DCREmbeddings/dcr_discovery/metrics.py:74 | a single digit reads as its value |
| StrOrder.Unique | DCREmbeddings/similarity_search/distance_threshold_estimation.py:137 | `np.unique` gives a strictly ascending list (Python string order) holding exactly the elements of its input |
| StrOrder.SortedDetermined | DCREmbeddings/similarity_search/distance_threshold_estimation.py:137 | two ascending lists with the same elements are equal, so the result of `np.unique` is fixed by the set of its input |
| StrOrder.LessTotal | DCREmbeddings/similarity_search/distance_threshold_estimation.py:137 | Python's string order is total: two different strings compare one way or the other |
| StrOrder.LessTransitive | DCREmbeddings/similarity_search/distance_threshold_estimation.py:137 | Python's string order is transitive |
| Dicts.Put | DCREmbeddings/tutorials/synthetic_generation.py:38-40 | `d[k] = v`: a new key goes to the end, an existing key keeps its place, only k's value changes, and keys stay distinct and equal to the domain |
| Dicts.Get | DCREmbeddings/tutorials/synthetic_generation.py:155 | `d[k]` succeeds exactly when k is a key, gives its value, and raises KeyError otherwise |
| Dicts.GroupKeys | DCREmbeddings/tutorials/synthetic_generation.py:37-40 | grouping pairs with "append, creating the list if needed" gives keys that are the first components in order of first appearance |
| Dicts.GroupValues | DCREmbeddings/tutorials/synthetic_generation.py:37-40 | a key is present exactly when some pair carries it, and its list holds that key's second components in order, duplicates kept |
| Dicts.GroupTotal | DCREmbeddings/tutorials/synthetic_generation.py:37-40 | grouping loses no pair: the lists hold as many values as there were pairs |
| Metrics.Compare | DCREmbeddings/dcr_discovery/metrics.py:20-25 | with the first member treated, the pair agrees exactly when its outcome is higher, disagrees exactly when lower, and ties exactly when equal |
| Metrics.TallyCountsClasses | DCREmbeddings/dcr_discovery/metrics.py:12-38 | T_O, T_not_O and same_0 are the numbers of agreeing, disagreeing and tied pairs; together they never exceed the number of pairs; no pairs gives (0, 0, 0) |
| Metrics.TallyIgnoresSkipped | DCREmbeddings/dcr_discovery/metrics.py:34-37 | pairs that raise or whose treatments do not match the rule change no counter: dropping them leaves the counters unchanged |
| Metrics.WalkAppend | DCREmbeddings/dcr_discovery/metrics.py:62-64 | following a concatenated path is following the first part, then the second from where it ended; a failed step fails the whole walk |
| Metrics.WalkLastStep | DCREmbeddings/dcr_discovery/metrics.py:62-64 | a successful walk ends on the object of a graph triple whose predicate is the last property of the path |
| Metrics.FollowPath | DCREmbeddings/dcr_discovery/metrics.py:62-64 | the loop over the path gives the walk that takes the first matching object at each step |
| Metrics.TreatmentAndOutcomeVitamin | DCREmbeddings/dcr_discovery/metrics.py:56-74 | a result exists exactly when the treatment walk and the two diet walks succeed and both diets parse; it is the treatment end and int(diet) - int(ideal diet) |
| Metrics.OutcomeVitaminNotFunctional | DCREmbeddings/dcr_discovery/metrics.py:127-142 | a result exists exactly when both diet walks end on strings that parse as integers, and it is their difference |
| Metrics.YearsPerBook | DCREmbeddings/dcr_discovery/metrics.py:150-152 | the published-years list has one entry per book, in book order, each the first year recorded for that book |
| Metrics.YearsNonePropagates | DCREmbeddings/dcr_discovery/metrics.py:151-152 | once one book has no parsable year, the whole computation raises |
| Metrics.PublishedYears | DCREmbeddings/dcr_discovery/metrics.py:150-152 | the append loop computes exactly that list of years |
| Metrics.EarliestYear | DCREmbeddings/dcr_discovery/metrics.py:154 | `min` of the years is no later than any book's year and is the year of some book |
| Metrics.DbpediaOutcomeIsEarliestBook | DCREmbeddings/dcr_discovery/metrics.py:147-154 | a writer without books has no outcome (`min([])` raises); otherwise outcome plus birth year is the earliest publication year: no book is earlier and one book has it |
| Metrics.OutcomeDbpedia | DCREmbeddings/dcr_discovery/metrics.py:147-154 | the method computes that outcome |
| Metrics.ArwuLookupAsWrittenFails | DCREmbeddings/dcr_discovery/metrics.py:209-210 | on a two-triple graph where the university lists the instance and has ARWU score 7, the lookup as written finds nothing, while the corrected lookup gives 7 |
| Metrics.ArwuLookupFindsScore | DCREmbeddings/dcr_discovery/metrics.py:208-210 | for every graph where some university lists the instance as a student, the corrected lookup reads the ARWU score of the first such university, and the lookup as written gives nothing |
| Metrics.SwapPreservesClassification | DCREmbeddings/dcr_discovery/metrics.py:19-32 | listing a pair's members in the other order changes no classification (categorical with t0 != t1, membership, numerical) |
| Metrics.OutcomeSwapInvertsClassification | DCREmbeddings/dcr_discovery/metrics.py:19-32 | exchanging the two outcomes turns agreement into disagreement and back, and keeps ties and non-matching pairs |
| Metrics.DbpediaOppositeToVitamin | DCREmbeddings/dcr_discovery/metrics.py:182-199 | the DBpedia membership rule (lower outcome when treated agrees) is the exact inverse of the vitamin membership rule of `get_categorical_values_vitamin_not_functional` |
| Metrics.VitaminExample | DCREmbeddings/dcr_discovery/metrics.py:19-25 | a worked graph where the t0 member has the higher diet excess is counted as agreeing |
| Metrics.CategoricalValuesVitamin | DCREmbeddings/dcr_discovery/metrics.py:8-38 | the counters returned are the tally of the per-pair classes under the t0/t1 rule |
| Metrics.CountVitaminPair | DCREmbeddings/dcr_discovery/metrics.py:15-37 | one pair counts by its class; a pair whose lookups raise counts nothing |
| Metrics.CountCategorical | DCREmbeddings/dcr_discovery/metrics.py:19-35 | the branches on (ti0, ti1) and the outcomes add one to the counter of the pair's class, and nothing when neither order of (t0, t1) matches |
| Metrics.CategoricalValuesVitaminNotFunctional | DCREmbeddings/dcr_discovery/metrics.py:93-124 | the counters are the tally of the membership classes, with higher outcome on the treated member agreeing |
| Metrics.CountVitaminMembershipPair | DCREmbeddings/dcr_discovery/metrics.py:100-123 | one pair counts by its membership class, or nothing when it raises |
| Metrics.CountVitaminMembership | DCREmbeddings/dcr_discovery/metrics.py:104-121 | exactly one member treated: count by comparison of outcomes; both or neither treated: count nothing |
| Metrics.CategoricalValuesDbpedia | DCREmbeddings/dcr_discovery/metrics.py:171-202 | the counters are the tally of the DBpedia membership classes |
| Metrics.CountDbpediaMembershipPair | DCREmbeddings/dcr_discovery/metrics.py:177-201 | one pair counts by its class, or nothing when it raises |
| Metrics.CountDbpediaMembership | DCREmbeddings/dcr_discovery/metrics.py:182-199 | exactly one member treated: a lower outcome on the treated member agrees; otherwise nothing is counted |
| Metrics.NumericalValuesDbpedia | DCREmbeddings/dcr_discovery/metrics.py:227-259 | the counters are the tally of the numerical classes, with the ARWU lookup corrected (see Findings) |
| Metrics.CountNumericalPair | DCREmbeddings/dcr_discovery/metrics.py:233-258 | one pair counts by its numerical class, with the ARWU lookup corrected, or nothing when a lookup raises |
| Metrics.ArwuPairsSkippedAsWritten | DCREmbeddings/dcr_discovery/metrics.py:208-259 | with the ARWU lookup as written, every pair on the `[arwuW]` path raises and is skipped, so the counters stay (0, 0, 0) on every graph |
| Metrics.NumericalClassesAsWrittenOffArwu | DCREmbeddings/dcr_discovery/metrics.py:205-207 | off the `[arwuW]` path, the lookup as written and the corrected lookup classify every pair alike |
| Metrics.CountNumerical | DCREmbeddings/dcr_discovery/metrics.py:241-255 | a higher treatment with a lower outcome (or a lower treatment with a higher outcome) agrees; equal treatments count nothing |
| Metrics.ComputeEffect | DCREmbeddings/dcr_discovery/metrics.py:47-53 | the counters are passed through; the result is (0, [0, 0]) exactly when T_O or T_not_O is zero; otherwise the ratio is positive, ratio * T_not_O == T_O, and the interval is log-normal with variance 1/T_O + 1/T_not_O |
| Metrics.RatioAboveOne | DCREmbeddings/dcr_discovery/metrics.py:47-48 | the ratio exceeds one exactly when agreeing pairs outnumber disagreeing ones |
| Metrics.EmptyPairsGiveSentinel | DCREmbeddings/dcr_discovery/metrics.py:12-53 | no pairs give the sentinel result with zero counters |
| Metrics.ComputeMetricVitamin | DCREmbeddings/dcr_discovery/metrics.py:42-53 | the metric is the effect of the tally of the vitamin classes |
| Metrics.ComputeMetricVitaminNotFunctional | DCREmbeddings/dcr_discovery/metrics.py:79-90 | the metric is the effect of the tally of the vitamin membership classes |
| Metrics.ComputeMetricDbpediaCategorical | DCREmbeddings/dcr_discovery/metrics.py:157-168 | the metric is the effect of the tally of the DBpedia membership classes |
| Metrics.ComputeMetricDbpediaNumericalAsWritten | DCREmbeddings/dcr_discovery/metrics.py:213-217 | as written, the call passes five arguments to a four-parameter function, so every call raises TypeError |
| Metrics.ComputeMetricDbpediaNumerical | DCREmbeddings/dcr_discovery/metrics.py:213-224 | as intended, the metric is the effect of the tally of the numerical classes |
| SimilarityMatrix.Recorded | DCREmbeddings/similarity_search/pairs_mining.py:35-36 | a distance is recorded for a row label exactly when the label appears in the neighbour list |
| SimilarityMatrix.RecordedIsLast | DCREmbeddings/similarity_search/pairs_mining.py:35-36 | when a label occurs several times, the last write wins |
| SimilarityMatrix.BuiltCell | DCREmbeddings/similarity_search/pairs_mining.py:28-40 | a diagonal cell in mixed mode holds 100; a cell whose row never appears among the column's neighbours holds the fill value (100 mixed, 200 cross); otherwise it holds the last recorded distance |
| SimilarityMatrix.MixedBuiltShaped | DCREmbeddings/similarity_search/pairs_mining.py:28-40 | symmetric neighbour lists give a square, symmetric matrix with 100 on the diagonal and nothing above 100 |
| SimilarityMatrix.RowOf | DCREmbeddings/similarity_search/pairs_mining.py:36 | `df.loc` finds the row whose label is the neighbour's name |
| SimilarityMatrix.FillColumn | DCREmbeddings/similarity_search/pairs_mining.py:35-36 | filling one column sets each of its cells to the distance recorded for that row, and leaves the other columns alone |
| SimilarityMatrix.FillFrame | DCREmbeddings/similarity_search/pairs_mining.py:29-36 | every cell holds the distance recorded for its row by its column's neighbour list, or nothing |
| SimilarityMatrix.FillMissing | DCREmbeddings/similarity_search/pairs_mining.py:38 | `fillna` replaces exactly the missing cells by the fill value and keeps the rest |
| SimilarityMatrix.FillDiagonal | DCREmbeddings/similarity_search/pairs_mining.py:40 | `np.fill_diagonal` sets the diagonal and changes nothing else |
| SimilarityMatrix.MatrixSimilarityPairs | DCREmbeddings/similarity_search/pairs_mining.py:10-55 | an unknown mode returns None; mixed mode returns a fresh matrix over the instances, filled with 100 and with a 100 diagonal; treatment_sort mode returns instances_t1 by instances_t0 filled with 200 |
| PairsMining.MatMin | DCREmbeddings/similarity_search/pairs_mining.py:76 | the minimum is below or equal to every cell |
| PairsMining.MatMinIsCell | DCREmbeddings/similarity_search/pairs_mining.py:76 | the minimum is the value of some cell |
| PairsMining.MatMax | DCREmbeddings/similarity_search/pairs_mining.py:142 | the maximum is above or equal to every cell |
| PairsMining.MatMaxIsCell | DCREmbeddings/similarity_search/pairs_mining.py:142 | the maximum is the value of some cell |
| PairsMining.ArgMin | DCREmbeddings/similarity_search/pairs_mining.py:85-87 | the position read from `np.where(... == min)` holds the minimum, and no cell earlier in row-major order does |
| PairsMining.ClearKeepsMinimum | DCREmbeddings/similarity_search/pairs_mining.py:93-100 | writing a value no lower than the minimum never lowers the minimum |
| PairsMining.GreedyRoundDecreases | DCREmbeddings/similarity_search/pairs_mining.py:83-100 | each round strictly lowers the number of cells under the threshold, so the loop ends |
| PairsMining.GreedyEmptyIff | DCREmbeddings/similarity_search/pairs_mining.py:79-81 | the greedy strategy selects nothing exactly when the smallest distance is not under the threshold |
| PairsMining.GreedyPicksOriginalCells | DCREmbeddings/similarity_search/pairs_mining.py:83-90 | every selected pair is a cell of the original matrix whose original distance is under the threshold |
| PairsMining.GreedyDistinct | DCREmbeddings/similarity_search/pairs_mining.py:93-97 | no row is selected twice; in mixed mode no column is selected twice either |
| PairsMining.GreedyNonDecreasing | DCREmbeddings/similarity_search/pairs_mining.py:83-100 | the selected distances never decrease, starting from the matrix minimum |
| PairsMining.GreedyMirror | DCREmbeddings/similarity_search/pairs_mining.py:93-95 | on a symmetric mixed matrix the second selection has the same distance as the first: the mirror cell survives the first clearing |
| PairsMining.MirrorKeepsMinimum | DCREmbeddings/similarity_search/pairs_mining.py:93-95 | after the first clearing of a symmetric mixed matrix, the minimum is unchanged |
| PairsMining.GreedyCountNonDecreasing | DCREmbeddings/similarity_search/pairs_mining.py:139-155 | in the proportion strategy too, the selected distances never decrease, starting from the minimum |
| PairsMining.Target | DCREmbeddings/similarity_search/pairs_mining.py:130-135 | the target number of pairs never exceeds the smaller dimension of the matrix |
| PairsMining.RoundsCounts | DCREmbeddings/similarity_search/pairs_mining.py:139 | a round count is under the target exactly when it is under `Rounds(target)`, so the `while` loop runs exactly that many rounds |
| PairsMining.RoundsBounded | DCREmbeddings/similarity_search/pairs_mining.py:130-139 | the proportion strategy never selects more pairs than the smaller dimension |
| PairsMining.LabelsSnoc | DCREmbeddings/similarity_search/pairs_mining.py:88-90 | each selection appends (column label, row label) |
| PairsMining.CopyMatrix | DCREmbeddings/similarity_search/pairs_mining.py:74-75 | the work matrix is a fresh copy, so the caller's frame is untouched |
| PairsMining.MatrixMin | DCREmbeddings/similarity_search/pairs_mining.py:76 | the loop computes the minimum over all cells |
| PairsMining.MatrixMax | DCREmbeddings/similarity_search/pairs_mining.py:142 | the loop computes the maximum over all cells |
| PairsMining.FirstPosition | DCREmbeddings/similarity_search/pairs_mining.py:85-87 | the scan returns the first position of the minimum in row-major order |
| PairsMining.ClearSelection | DCREmbeddings/similarity_search/pairs_mining.py:93-97 | the array afterwards holds the cleared matrix |
| PairsMining.GreedyThreshold | DCREmbeddings/similarity_search/pairs_mining.py:83-102 | the loop returns the labels of the greedy selections |
| PairsMining.PairsFromThreshold | DCREmbeddings/similarity_search/pairs_mining.py:58-109 | an empty frame raises ValueError; the greedy strategy returns the labels of the greedy selections; the optimal strategy returns []; an unknown strategy returns None |
| PairsMining.ProportionRound | DCREmbeddings/similarity_search/pairs_mining.py:140-155 | one round selects the current minimum and overwrites its row (and column) with the current maximum |
| PairsMining.GreedyProportion | DCREmbeddings/similarity_search/pairs_mining.py:139-157 | the loop returns the labels of exactly `Rounds(target)` proportion selections |
| PairsMining.PairsFromProportion | DCREmbeddings/similarity_search/pairs_mining.py:112-157 | the number of pairs is `Rounds(target)`, and they are the labels of that many selections of the proportion strategy |
| Similarity.ObjectsOfProperty | DCREmbeddings/similarity_search/distance_threshold_estimation.py:133-137 | the objects of a property come back ascending, holding exactly the objects of the triples with that property |
| Similarity.ObjectsOfPropertyCharacterized | DCREmbeddings/similarity_search/distance_threshold_estimation.py:133-137 | membership is stated on triples, and any ascending list with those members is the result |
| Similarity.PropertiesToAssess | DCREmbeddings/similarity_search/distance_threshold_estimation.py:122-130 | the properties to assess come back ascending, holding exactly the predicates of the first entity |
| Similarity.PropertiesToAssessCharacterized | DCREmbeddings/similarity_search/distance_threshold_estimation.py:122-130 | a property is assessed exactly when some triple has the first entity as subject and that property |
| Similarity.InsertRow | DCREmbeddings/similarity_search/distance_threshold_estimation.py:168-170 | inserting a scored row into a descending list keeps it descending and adds exactly that row |
| Similarity.SortByScore | DCREmbeddings/similarity_search/distance_threshold_estimation.py:168-170 | sorting by score gives a descending list that is a permutation of the rows |
| Similarity.SliceTo | DCREmbeddings/similarity_search/distance_threshold_estimation.py:146-147 | Python's `[:f]` is a prefix of length min(f, n), or n + f clipped at 0 for negative f |
| Similarity.TopObjects | DCREmbeddings/similarity_search/distance_threshold_estimation.py:140-147 | the top objects are candidates, there are at most as many as candidates, and exactly min(f, n) for f >= 0 |
| Similarity.TopObjectsOrdered | DCREmbeddings/similarity_search/distance_threshold_estimation.py:145-147 | the selected objects come in descending score order, so the first one, which `end_node` tests, is the best-scored candidate |
| Similarity.TopObjectsDominate | DCREmbeddings/similarity_search/distance_threshold_estimation.py:140-171 | every selected object scores at least as high as every candidate left out |
| Similarity.EndNode | DCREmbeddings/similarity_search/distance_threshold_estimation.py:174-183 | reading the type raises IndexError exactly when no triple has the type predicate; the entity is judged not terminal only when it has an outgoing triple |
| Similarity.EndNodeDecided | DCREmbeddings/similarity_search/distance_threshold_estimation.py:174-183 | once the first type triple is found, the entity is terminal exactly when that triple's object is a terminal type or the entity has no outgoing triple |
| Similarity.EndNodeFalseWhenOwnTriple | DCREmbeddings/similarity_search/distance_threshold_estimation.py:178-183 | when the first type is not terminal, an entity with an outgoing triple is judged not terminal |
| Similarity.EndNodeIgnoresEntity | DCREmbeddings/similarity_search/distance_threshold_estimation.py:178-179 | the type test reads the first type triple of the whole graph, so when its object is a terminal type every entity is judged terminal |
| Similarity.Common | DCREmbeddings/similarity_search/distance_threshold_estimation.py:90 | the number of shared top objects is at most the length of either list |
| Similarity.CompareTops | DCREmbeddings/similarity_search/distance_threshold_estimation.py:84-117 | an empty top list for the first entity raises IndexError |
| Similarity.CompareTopsBounds | DCREmbeddings/similarity_search/distance_threshold_estimation.py:88-93 | on terminal objects, a property's contribution lies between 0 and its weight |
| Similarity.Contribution | DCREmbeddings/similarity_search/distance_threshold_estimation.py:80-88 | a property with no candidate objects raises KeyError (ranking an empty frame by its missing `score` column); with candidates and a functionality of 0 the empty top list raises IndexError |
| Similarity.ContributionBounds | DCREmbeddings/similarity_search/distance_threshold_estimation.py:79-93 | a successful contribution lies between 0 and the per-property weight |
| Similarity.SumAllOk | DCREmbeddings/similarity_search/distance_threshold_estimation.py:79-117 | when no property raises, the sum is defined |
| Similarity.SumFirstError | DCREmbeddings/similarity_search/distance_threshold_estimation.py:79-117 | the first property that raises determines the error of the sum |
| Similarity.SimilarityFirstError | DCREmbeddings/similarity_search/distance_threshold_estimation.py:73-119 | the first property whose contribution raises determines the error of the similarity |
| Similarity.SimilarityAllOk | DCREmbeddings/similarity_search/distance_threshold_estimation.py:73-119 | when every property contributes, the similarity is defined |
| Similarity.SimilarityBounds | DCREmbeddings/similarity_search/distance_threshold_estimation.py:73-119 | a defined similarity lies between 0 and the node weight |
| Similarity.PropertyContribution | DCREmbeddings/similarity_search/distance_threshold_estimation.py:79-117 | the loop body computes the contribution of the i-th property |
| Similarity.SimilarityForPair | DCREmbeddings/similarity_search/distance_threshold_estimation.py:54-119 | the loop over the properties computes the similarity, raising as the first failing property does |
| ThresholdSampling.Combinations2Count | DCREmbeddings/similarity_search/distance_threshold_estimation.py:24 | `itertools.combinations(l, 2)` yields n(n-1)/2 pairs |
| ThresholdSampling.Combinations2Members | DCREmbeddings/similarity_search/distance_threshold_estimation.py:24 | (x, y) is a combination exactly when x stands before y in the list |
| ThresholdSampling.Combinations2NoDup | DCREmbeddings/similarity_search/distance_threshold_estimation.py:24 | distinct instances give distinct combinations |
| ThresholdSampling.DrawSetOfPairs | DCREmbeddings/similarity_search/distance_threshold_estimation.py:12-25 | `random.sample` raises ValueError exactly when the sample size is negative or above the number of combinations; otherwise it returns that many combinations, each used at most as often as it occurs |
| ThresholdSampling.DrawnPairs | DCREmbeddings/similarity_search/distance_threshold_estimation.py:24-25 | from distinct instances, the drawn pairs are distinct and each takes its members from two positions i < j |
| ThresholdSampling.MeasuredAligned | DCREmbeddings/similarity_search/distance_threshold_estimation.py:32-37 | the measures hold one (distance, similarity) point per pair, in pair order |
| ThresholdSampling.MeasuredAllOk | DCREmbeddings/similarity_search/distance_threshold_estimation.py:32-37 | when no similarity raises, the measures are defined |
| ThresholdSampling.MeasuredFirstError | DCREmbeddings/similarity_search/distance_threshold_estimation.py:33-36 | the first pair whose similarity raises determines the error |
| ThresholdSampling.PairSimilarity | DCREmbeddings/similarity_search/distance_threshold_estimation.py:35 | the loop body computes the similarity of the i-th pair |
| ThresholdSampling.MeasuresForPairs | DCREmbeddings/similarity_search/distance_threshold_estimation.py:28-37 | the loop computes the measures, raising as the first failing pair does |
| Seqs.MinReal | DCREmbeddings/similarity_search/distance_threshold_estimation.py:205 | the minimum distance is one of the distances and no distance is below it |
| Seqs.MaxReal | DCREmbeddings/similarity_search/distance_threshold_estimation.py:205 | the maximum distance is one of the distances and no distance is above it |
| ThresholdSampling.StepSpan | DCREmbeddings/similarity_search/distance_threshold_estimation.py:205-206 | the step is non-negative, it is zero exactly when all distances are equal, and the last mark reaches the maximum (in exact reals) |
| ThresholdSampling.IntervalsSpan | DCREmbeddings/similarity_search/distance_threshold_estimation.py:206 | the intervals start at the minimum and end at the maximum, each spans one step, and they are contiguous (in exact reals) |
| ThresholdSampling.KeysCount | DCREmbeddings/similarity_search/distance_threshold_estimation.py:206-207 | with spread-out distances there are number_step intervals; when all distances are equal the tuple keys collapse into one |
| ThresholdSampling.BinMembers | DCREmbeddings/similarity_search/distance_threshold_estimation.py:208-212 | a point is listed under an interval exactly when it is a measure whose distance lies in the closed interval |
| ThresholdSampling.BoundaryInBoth | DCREmbeddings/similarity_search/distance_threshold_estimation.py:210-212 | a point on a shared boundary is listed under both neighbouring intervals |
| ThresholdSampling.PointCovered | DCREmbeddings/similarity_search/distance_threshold_estimation.py:207-212 | every measure is listed under at least one interval (in exact reals) |
| ThresholdSampling.BinPoints | DCREmbeddings/similarity_search/distance_threshold_estimation.py:208-212 | the binning loop computes the bins of the measures |
| ThresholdSampling.SampleBins | DCREmbeddings/similarity_search/distance_threshold_estimation.py:215-220 | the subset is the concatenation of one part per bin: the whole bin when it holds at most number_points points, otherwise number_points of its points; so it holds exactly the sum over the bins of min(bin size, number_points) points |
| ThresholdSampling.DrawnFromMeasures | DCREmbeddings/similarity_search/distance_threshold_estimation.py:215-220 | every retained point is one of the measures |
| ThresholdSampling.SubsetPointsForThreshold | DCREmbeddings/similarity_search/distance_threshold_estimation.py:186-222 | no measures raise ValueError (`max` of nothing); number_step 0 raises ZeroDivisionError; negative number_step gives []; a negative sample size raises ValueError; otherwise the result is the per-bin samples, of the capped total size, all drawn from the measures |
| SyntheticGeneration.WithSubjectConcat | DCREmbeddings/tutorials/synthetic_generation.py:44-46 | the triples of an instance keep graph order: the comprehension over a concatenation is the concatenation of the comprehensions |
| SyntheticGeneration.Description | DCREmbeddings/tutorials/synthetic_generation.py:33-41 | the loop over the instance's triples builds the description dict |
| SyntheticGeneration.DescriptionContents | DCREmbeddings/tutorials/synthetic_generation.py:33-41 | the keys are the instance's predicates in order of first appearance; each holds that predicate's objects in graph order; in all they hold one value per triple of the instance |
| SyntheticGeneration.DescriptionTriple | DCREmbeddings/tutorials/synthetic_generation.py:33-41 | v is listed under p exactly when (instance, p, v) is a triple |
| SyntheticGeneration.HasInfixSplits | DCREmbeddings/tutorials/synthetic_generation.py:136 | Python's `'dbpedia' in t` holds exactly when t is a + 'dbpedia' + b for some a and b |
| SyntheticGeneration.FirstDbpediaType | DCREmbeddings/tutorials/synthetic_generation.py:135-137 | None exactly when no type mentions dbpedia; otherwise the first type that does |
| SyntheticGeneration.TypeOfCharacterized | DCREmbeddings/tutorials/synthetic_generation.py:132-137 | a returned type is an rdf:type object of the instance that mentions dbpedia; None exactly when none of its types does |
| SyntheticGeneration.GetType | DCREmbeddings/tutorials/synthetic_generation.py:132-137 | the loop returns that first dbpedia type, or None when the loop ends without returning |
| SyntheticGeneration.InstancesForTypeMembers | DCREmbeddings/tutorials/synthetic_generation.py:140-142 | an instance is listed exactly when the type is known and the instance has it as rdf:type; the type None lists nobody |
| SyntheticGeneration.DicWithTypeAndNodesModified | DCREmbeddings/tutorials/synthetic_generation.py:85-94 | the dict is the grouping of the nodes to change by their type |
| SyntheticGeneration.NodesOfType | DCREmbeddings/tutorials/synthetic_generation.py:85-94 | a node is listed under a type exactly when it is a node to change with that type |
| SyntheticGeneration.TypesModified | DCREmbeddings/tutorials/synthetic_generation.py:85-94 | a type is a key exactly when some node to change has it; its list is those nodes in order; every node lands under exactly one type |
| SyntheticGeneration.Narrow | DCREmbeddings/tutorials/synthetic_generation.py:154-162 | narrowing keeps exactly the candidates inside (or outside) the given group |
| SyntheticGeneration.NarrowAll | DCREmbeddings/tutorials/synthetic_generation.py:158-174 | a candidate survives exactly when it carries (or lacks) the triple (i, p, v) for every value v of the property |
| SyntheticGeneration.NarrowByValues | DCREmbeddings/tutorials/synthetic_generation.py:160-174 | the inner loop computes that narrowing |
| SyntheticGeneration.SieveOutcome | DCREmbeddings/tutorials/synthetic_generation.py:158-180 | the sieve raises KeyError only for a property missing from the description; "no candidate left" means no candidate meets the properties; a list means exactly the candidates that meet them, and it is non-empty when some property was applied |
| SyntheticGeneration.SieveByProperties | DCREmbeddings/tutorials/synthetic_generation.py:158-180 | the outer loop, with its early `return 0`, computes the sieve |
| SyntheticGeneration.IfInstanceExist | DCREmbeddings/tutorials/synthetic_generation.py:145-182 | the method computes the search for an existing instance |
| SyntheticGeneration.InstanceExistsOutcome | DCREmbeddings/tutorials/synthetic_generation.py:145-182 | a node that is not among the paths raises KeyError, and only KeyError is raised; the search always succeeds when every changed property belongs to the node; 0 means no instance qualifies; a list holds exactly the other instances of the node's dbpedia type that share all unchanged (p, v) and lack all changed ones; an empty list only happens when nothing is to change and the node has no properties |
| SyntheticGeneration.SharedStage | DCREmbeddings/tutorials/synthetic_generation.py:154-168 | the first loop never raises: it reports no instance, or exactly the typed instances sharing every unchanged value |
| SyntheticGeneration.DifferStage | DCREmbeddings/tutorials/synthetic_generation.py:170-182 | the second loop raises only KeyError; it reports no instance, or exactly the instances that qualify |
| SyntheticGeneration.EntriesMembers | DCREmbeddings/tutorials/synthetic_generation.py:66 | the writer's entries pair the writer with each of its properties |
| SyntheticGeneration.BookEntriesMembers | DCREmbeddings/tutorials/synthetic_generation.py:67-69 | the book entries pair each book with each of its properties |
| SyntheticGeneration.BookPaths | DCREmbeddings/tutorials/synthetic_generation.py:67-69 | the nested loop builds those entries, book by book |
| SyntheticGeneration.UniEntriesCount | DCREmbeddings/tutorials/synthetic_generation.py:70 | each property of the university appears once per value it has, and nothing else appears |
| SyntheticGeneration.CandidatesMembers | DCREmbeddings/tutorials/synthetic_generation.py:66-71 | a (node, p) is a candidate exactly when it is a writer property, a book property, a university property with a value, or (country, isCountryOf) |
| SyntheticGeneration.Unblocked | DCREmbeddings/tutorials/synthetic_generation.py:74 | filtering keeps exactly the candidates whose property is not blocked, each no more often than before |
| SyntheticGeneration.RemoveOutcome | DCREmbeddings/tutorials/synthetic_generation.py:75 | `list.remove` raises ValueError exactly when the entry is absent; otherwise it drops the first occurrence and nothing else |
| SyntheticGeneration.PoolOutcome | DCREmbeddings/tutorials/synthetic_generation.py:66-75 | the pool exists exactly when (uni, hasForStudent) is a candidate and not blocked; it is the unblocked candidates less one (uni, hasForStudent); each member is an unblocked candidate |
| SyntheticGeneration.EmptyListsShape | DCREmbeddings/tutorials/synthetic_generation.py:78 | the first loop creates one empty list per drawn node, in order of first appearance |
| SyntheticGeneration.ListPaths | DCREmbeddings/tutorials/synthetic_generation.py:78-80 | the two loops group the drawn entries by node |
| SyntheticGeneration.PathsToChange | DCREmbeddings/tutorials/synthetic_generation.py:59-82 | the call raises ValueError when the remove fails or the sample size is out of range; otherwise it returns the grouping of a sample of exactly that many pool entries |
| SyntheticGeneration.PathsDrawn | DCREmbeddings/tutorials/synthetic_generation.py:76-82 | the dict holds exactly number_differences properties in all, every listed (node, p) is in the pool, and a node is a key exactly when it was drawn |

## Left out

- The embedding model is an oracle. `find_nearest_neighbours` is given as precomputed neighbour
  lists with their distances, `model.predict` as a score function on triples, and
  `model.get_embeddings` with `distance.euclidean` as a distance function on pairs. The
  non-euclidean branch of `get_distance_for_pair`, which returns None, is not modelled. Neither
  are `get_distance_for_degree`, the copy of `get_distance_for_pair` in `pairs_mining.py`, or
  `similarity_search/threshold_estimation.py` and `tutorials/plot_rules.py` (curve fitting and
  plots).
- Floating point and `round(., 3)` are not modelled: distances, scores and ratios are exact reals.
- Metrics.ComputeEffect: the confidence interval `exp(log r -/+ z*sqrt(1/T_O + 1/T_not_O))`
  is kept as its parameters `LogNormal(z, 1/T_O + 1/T_not_O)`, because log, exp and sqrt are
  not available on Dafny reals. The ratio is not rounded.
- Printing is left out, including the error message at `metrics.py:35` and the number of pairs
  at `pairs_mining.py:137`. So is the console message for an unknown strategy.
- PairsMining.PairsFromThreshold requires that the greedy loop ends (`Terminates`: the
  threshold is at most the sentinel 100, or nothing is under it). With a threshold above 100
  the source loops forever, and a total Dafny method cannot express that run.
- PairsMining.PairsFromThreshold: the mode `OtherMode` (neither mixed nor treatment_sort)
  clears nothing, just as the source does. The termination requirement then excludes it
  whenever a cell is under the threshold.
- pandas `DataFrame` details are not modelled: for example, `df.loc` enlarging the frame for an
  unknown label. SimilarityMatrix.MatrixSimilarityPairs requires distinct labels and neighbours
  drawn from the frame's labels, which holds because the neighbours are drawn from
  `entities_subset=instances_tc`.
- Similarity.SortByScore orders by descending score with a stable insertion sort. pandas'
  default sort is not stable, so ties between scores may come out in another order in the
  source.
- Similarity.Contribution: the branch for objects that are not end nodes
  (`distance_threshold_estimation.py:95-117`) is modelled only by the exception it raises. A
  functionality of 0 never reaches it: `[:0]` gives an empty top list, whose `[0]` raises
  IndexError at line 88. A relative weight of 0 raises ZeroDivisionError at line 99. When the
  second entity has more left-over objects than the first, there is no permutation, so
  `max([])` raises ValueError at line 116. Otherwise there is at least one combination: a
  non-empty one makes the recursive call at line 111, which passes too few arguments and
  raises TypeError, and an empty one is a list used as a dict key at line 113, which raises
  TypeError too.
- Similarity.Contribution: for a property without objects, the model raises the KeyError of
  `sort_values` on the empty frame (line 170). What `model.predict` does with an empty array
  (line 145) is the embedding model's business and is not modelled; if it raises first, the
  source raises that error instead.
- Metrics.NumericalValuesDbpedia counts with the corrected ARWU lookup (first row of
  Findings). As written, every pair on the `[arwuW]` path is skipped and the counters stay
  (0, 0, 0); Metrics.ArwuPairsSkippedAsWritten states that count.
- Metrics.CountNumericalPair classifies a pair with the corrected ARWU lookup, not with the
  lookup as written, which makes every `[arwuW]` pair raise and count nothing.
- ThresholdSampling.StepSpan, ThresholdSampling.IntervalsSpan and ThresholdSampling.PointCovered
  hold for exact reals. In IEEE doubles `min + step*number_step` can fall short of the maximum:
  with distances 0.0 and 1.0 and number_step 49 the last upper bound is 0.9999999999999999, so
  the largest point lies in no interval and the source drops it. The model does not capture that
  loss.
- Random draws (`random.sample` in `draw_set_of_pairs`, `get_subset_points_for_threshold` and
  `get_paths_to_change`) are a nondeterministic choice. The model states what every draw
  satisfies (its size and that its elements come from the population), not the distribution.
- `get_description_for_generation`, `get_university_from_writer`, `get_country_from_university`,
  `draw_objects_from_p`, `get_new_triples_for_given_instance` and `get_triples_to_add` are not
  part of this model. They generate new triples with random draws and fresh `uuid` names.
- SyntheticGeneration.PathsToChange takes no `X` and no `dic_country`, which the source
  accepts and never uses. The default `blocked_p=[]` is an explicit parameter.
- SyntheticGeneration.InstanceExists models only the `list` branch of
  `type(description_node[p_])==list`. Description values are always lists, so the other branch
  never runs.
- PyInt.ParseInt reads an optional sign followed by ASCII decimal digits. It does not model
  Python's surrounding whitespace, `_` digit separators, or the non-ASCII Unicode decimal digits
  (Arabic-Indic, fullwidth and others) that Python's `int()` also accepts.

## Findings

| source | as written | input that shows it | evidently intended | confidence | as-written member | corrected member |
|---|---|---|---|---|---|---|
| DCREmbeddings/dcr_discovery/metrics.py:209-210 | `uni` is the whole first `hasForStudent` triple, and it is then compared with the subject string of each triple, so the lookup never matches, the final `[0]` raises IndexError and the pair is skipped | `X = [("uni", hasForStudent, "w"), ("uni", arwuW, "7")]`, instance `"w"`, path `[arwuW]` | `uni` is the subject `x[0]` of that triple, so the treatment is the ARWU score 7 | high; not executed | Metrics.ArwuLookupAsWrittenFails | Metrics.ArwuLookupFindsScore |
| DCREmbeddings/dcr_discovery/metrics.py:217 | `get_numerical_values_dbpedia` takes four arguments but is called with five (`list_instances_t` is extra), so every call raises TypeError | any call of `compute_metric_dbpedia_numerical` | call it without `list_instances_t`, giving the metric of the numerical classes | high; not executed | Metrics.ComputeMetricDbpediaNumericalAsWritten | Metrics.ComputeMetricDbpediaNumerical |
