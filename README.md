# Gradient-boosted regression trees, modelled in Dafny

This project models the core of `gbdt_numba.py`, a small gradient-boosted
decision tree learner. It covers four parts:

- the second-order split statistics: `leaf_score`, `leaf_loss` and `calculate_gain`;
- the exhaustive split search: `find_threshold` and `find_best_split`;
- the regression tree: `TreeNode` and the class `Tree`, with `construct_tree`,
  `predict_single`, `fit` and `predict`;
- boosting with the squared-error loss: `mse` and the class `GBDT`.

Floating-point numbers are modelled as `real`. Sample matrices are sequences of
rows. NumPy boolean masks are `seq<bool>`, and `x[mask]` is `Seqs.Select`.

Modules, one file each:

- `Seqs` (`seqs.dfy`): vector sums and boolean-mask selection. It proves that
  the two sides of a mask add up to the whole, and that selecting twice is
  selecting once with a composed mask.
- `SplitStats` (`split_stats.dfy`): the leaf score -G/(H+λ) and the leaf loss
  -½G²/(H+λ) as functions of the gradient and hessian sums. The score is proved
  to minimise the quadratic objective, and the loss is its minimum.
  `CalculateGain` is the accumulating loop, proved equal to the gain defined on
  the masked sums.
- `SplitSearch` (`split_search.dfy`):
  - `np.unique` as sorted insertion, and the midpoints between consecutive
    distinct values;
  - the running arg-max shared by both searches: it starts at gain 0 and moves
    only on a strictly larger gain;
  - `FindThreshold` and `FindBestSplit`, the loops, each proved equal to a
    functional specification;
  - lemmas that a found threshold separates the rows, and that a constant
    column or all-zero gradients give no threshold.
- `Trees` (`trees.dfy`):
  - `ConstructTree` with its three stopping rules;
  - the lemmas that constant features or all-zero gradients make the whole
    tree a single leaf;
  - `PredictSingle`;
  - the class `Tree`, whose `estimator` field is set by `Fit`;
  - the theorem that a training row is predicted the leaf score of exactly the
    training rows that share its leaf.
- `Boosting` (`boosting.dfy`):
  - the mse gradient and hessian;
  - `Scores`, the start score plus `learning_rate` times each tree's prediction;
  - `Boost`, the trees fitted round by round;
  - the class `GBDT`, whose `Fit` and `Predict` loops update a score array in
    place and are proved equal to `Boost` and `Scores`.

## Model

| member | source | states |
|---|---|---|
| SplitStats.LeafScore | gbdt_numba.py:6-12 | with ΣH+λ > 0, the leaf score is positive, zero or negative exactly when the summed gradient is negative, zero or positive |
| SplitStats.LeafLoss | gbdt_numba.py:14-21 | with ΣH+λ > 0, leaf_loss is never positive, and it is zero exactly when the summed gradient is zero |
| SplitStats.NodeScoreSolvesDerivative | gbdt_numba.py:6-21 | the leaf score w = -G/(H+λ) solves G + (H+λ)·w = 0, the leaf loss equals ½·G·w, and the loss is never positive when H+λ > 0 |
| SplitStats.LeafScoreMinimizesObjective | gbdt_numba.py:6-21 | leaf_score minimises the second-order objective G·w + ½(H+λ)w², and leaf_loss is the minimum it attains |
| SplitStats.CalculateGain | gbdt_numba.py:23-43 | the one-pass accumulation into left (feature < threshold) and right sums yields the original loss minus the leaf loss of each masked side |
| SplitStats.SidesAddUp | gbdt_numba.py:34-40 | every sample lands on exactly one side, so the left and right sums add up to the node's sum (of g, and of h) |
| SplitStats.SplitGainFromSums | gbdt_numba.py:41-43 | the gain depends only on the four side sums, and both side denominators H+λ are positive |
| SplitStats.OneSidedSplitGainsNothing | gbdt_numba.py:23-43 | a threshold that puts every sample on one side gains exactly 0 against the unsplit node's leaf_loss |
| SplitStats.ZeroGradientGainsNothing | gbdt_numba.py:23-43 | with all gradients zero, every threshold gains exactly 0 |
| SplitStats.GainCanBeNegative | gbdt_numba.py:23-43 | a single candidate's gain can be negative: two unit samples with λ = 1 give -1/6 |
| SplitSearch.Unique | gbdt_numba.py:54 | np.unique never returns more values than the column has, and returns none exactly for an empty column |
| SplitSearch.UniqueIncreasing | gbdt_numba.py:54 | the distinct values of a column come out strictly increasing |
| SplitSearch.UniqueMembers | gbdt_numba.py:54 | the distinct values are exactly the values of the column |
| SplitSearch.Midpoints | gbdt_numba.py:55-56 | one candidate threshold per pair of consecutive distinct values: one fewer than the values, none for an empty column |
| SplitSearch.MidpointBetween | gbdt_numba.py:55-56 | each candidate threshold lies strictly between the two consecutive distinct values it is built from |
| SplitSearch.FirstMax | gbdt_numba.py:53-60 | the running best gain is ≥ 0; an index is chosen exactly when the gain is > 0, and then it points at an entry of that gain |
| SplitSearch.FirstMaxIsMaximum | gbdt_numba.py:53-60 | no entry exceeds the best gain, and every entry before the chosen index is strictly smaller (the first maximum wins) |
| SplitSearch.FirstMaxCharacterized | gbdt_numba.py:53-60 | the max-and-first-occurrence property determines the running arg-max's result uniquely (both directions) |
| SplitSearch.BestThreshold | gbdt_numba.py:45-61 | find_threshold's gain is ≥ 0, and a threshold is returned exactly when the gain is positive |
| SplitSearch.BestThresholdIsFirstBestCandidate | gbdt_numba.py:45-61 | no candidate gains more than the returned gain, and a returned threshold is the first midpoint reaching it |
| SplitSearch.BestThresholdSplitsColumn | gbdt_numba.py:54-60 | a returned threshold lies strictly between two values of the column |
| SplitSearch.ConstantColumnHasNoThreshold | gbdt_numba.py:54-61 | a column with a single value returns (None, 0) |
| SplitSearch.ZeroGradientHasNoThreshold | gbdt_numba.py:51-61 | all-zero gradients return (None, 0) |
| SplitSearch.FindThreshold | gbdt_numba.py:45-61 | the loop over consecutive distinct values returns the threshold and gain of the functional specification |
| SplitSearch.BestSplit | gbdt_numba.py:63-82 | the gain is ≥ 0; a threshold exists exactly when the gain is positive; otherwise the result is (0, None, 0); a found split is its feature's find_threshold result |
| SplitSearch.BestSplitIsFirstBestFeature | gbdt_numba.py:63-82 | no feature's best gain exceeds the chosen one, and every earlier feature's best gain is strictly smaller |
| SplitSearch.FindBestSplit | gbdt_numba.py:63-82 | the loop over feature columns returns the feature, threshold and gain of the functional specification |
| SplitSearch.BestSplitSeparatesRows | gbdt_numba.py:76-82 | when a threshold is found, the mask train[:,feature] < threshold keeps at least one row and drops at least one |
| Seqs.SumSelectSplit | gbdt_numba.py:30-40 | the sums of the two sides of a mask add up to the sum of the whole vector |
| Seqs.Select | gbdt_numba.py:290-292 | `v[mask]` has one entry per true mask entry; what each entry is, is stated by Seqs.SelectAt |
| Seqs.SelectAt | gbdt_numba.py:290-292 | entry i is kept exactly where mask[i] holds, at position Count(mask[..i]), which depends on the mask alone, so train, g and h cut with one mask stay aligned |
| Seqs.SumAppend | gbdt_numba.py:12 | np.sum accumulates entry by entry: appending x to a vector adds x to its sum |
| Seqs.SumNonNegative | gbdt_numba.py:12 | the sum of non-negative hessians is non-negative, so H+λ > 0 whenever λ > 0 |
| Seqs.SelectCompose | gbdt_numba.py:290-292 | masking twice equals masking once with the composed mask |
| Trees.ConstructTree | gbdt_numba.py:262-293 | the built tree splits only on existing feature indices, and its depth never exceeds a non-negative max_depth |
| Trees.ConstructTreeStops | gbdt_numba.py:282-288 | the result is a leaf exactly when max_depth == 0, fewer than min_sample_split rows remain, or the best gain is ≤ gamma; a leaf's score is leaf_score of the node's gradients and hessians |
| Trees.ConstructTreeSplits | gbdt_numba.py:285-293 | an internal node carries find_best_split's feature and threshold with gain > gamma; each child is built at depth - 1 from exactly the rows on its side of the mask; neither side is empty |
| Trees.ZeroGradientMakesLeaf | gbdt_numba.py:270-288 | with all gradients zero, find_best_split returns (0, None, 0) and construct_tree returns the single leaf scored by leaf_score |
| Trees.ConstantFeaturesMakeLeaf | gbdt_numba.py:270-288 | when every feature takes one value over the rows, find_best_split returns (0, None, 0) and construct_tree returns the single leaf scored by leaf_score |
| Trees.PredictSingle | gbdt_numba.py:248-260 | the prediction for a row is always the score of one of the tree's leaves |
| Trees.SameLeafSamePrediction | gbdt_numba.py:248-260 | rows that take the same branches reach the same leaf and get the same prediction |
| Trees.TrainingRowPrediction | gbdt_numba.py:248-293 | a training row is predicted the leaf_score of the gradients and hessians of exactly the training rows sharing its leaf, itself included |
| Trees.PredictRows | gbdt_numba.py:237-246 | a fresh array holding predict_single of each test row, in order |
| Trees.Tree.constructor | gbdt_numba.py:223-227 | the four settings are stored as given, with the defaults 3, 10, 1 and 0 |
| Trees.Tree.Fit | gbdt_numba.py:229-235 | the settings are unchanged and the estimator becomes construct_tree(train, g, h, max_depth) |
| Trees.Tree.Predict | gbdt_numba.py:237-246 | the result holds the fitted tree's prediction for each test row |
| Boosting.MseGradient | gbdt_numba.py:111-112 | one gradient per sample, positive exactly where the score overshoots the target and zero exactly where it meets it |
| Boosting.MseHessian | gbdt_numba.py:114-115 | one hessian per sample, all non-negative, adding up to the sample count |
| Boosting.Mean | gbdt_numba.py:164 | the mean target lies between the smallest and the largest target |
| Boosting.MseSecondOrderIsExact | gbdt_numba.py:106-115 | for mse, the loss after a step d equals the loss plus g·d plus ½·h·d², so the second-order model the trees fit is exact |
| Boosting.FirstRoundGradientsSumToZero | gbdt_numba.py:164-169 | starting every score at the mean target, the first round's mse gradients sum to 0 |
| Boosting.MseLeafScore | gbdt_numba.py:111-115 | under mse a leaf scores -(Σscore - Σtarget)/(n+λ) |
| Boosting.Scores | gbdt_numba.py:174-178 | one score per row; the closed form of each score is Boosting.ScoresAreSumOfTreeOutputs |
| Boosting.Boost | gbdt_numba.py:160-172 | n rounds give n trees, each splitting only on features the rows have; for a constant target see Boosting.ConstantTargetFitsLeaves |
| Boosting.MeanOfConstant | gbdt_numba.py:164 | the mean of a target whose entries all equal c is c |
| Boosting.ConstantTargetFitsLeaves | gbdt_numba.py:164-171 | with every target equal to c, every round fits the single leaf 0 (all-zero residuals give best_gain 0, which stops the tree at its root) and the training scores stay at c |
| Boosting.ScoresAreSumOfTreeOutputs | gbdt_numba.py:174-178 | a row's score is the start score plus learning_rate times the sum of every tree's prediction for it |
| Boosting.AddScaled | gbdt_numba.py:171 | `score += learning_rate * pred` updates each entry in place and changes nothing else |
| Boosting.FitRound | gbdt_numba.py:166-171 | one round appends the tree Boost fits next and advances the training scores to the scores of the extended ensemble |
| Boosting.GBDT.constructor | gbdt_numba.py:148-158 | the settings are stored as given, with the defaults 3, 10, 1, 0, 0.1 and 100, and the model is not yet fitted |
| Boosting.GBDT.Fit | gbdt_numba.py:160-172 | the settings are unchanged; score_start is the mean target; the estimators are the trees Boost fits over n_estimators rounds; the model is fitted |
| Boosting.GBDT.Predict | gbdt_numba.py:174-178 | on a fitted model, the result is score_start plus learning_rate times the predictions of the first n_estimators trees, applied in order |

## Left out

- Floating point: reals are exact. NaN, infinities and rounding are not modelled, so the midpoint `(a+b)/2` always lies strictly between `a` and `b`.
- The log loss (`log` class) and its sigmoid link are not modelled. Neither are the abstract `loss` base class or user-supplied loss objects. The model uses only the squared-error loss, whose link is the identity, so `GBDT.predict`'s final `link` call is omitted.
- The `loss` string dispatch in `GBDT.fit` is left out. The model always uses mse.
- `n_threads`, the numba `@jit` compilation and multiprocessing are left out. They do not change results.
- Trees.ConstructTree requires `gamma >= 0`. With a negative gamma and no positive-gain split, the source splits at threshold `None` and raises a TypeError.
- SplitStats.SplitGain, SplitStats.CalculateGain, the split search (BestThreshold, FindThreshold, BestSplit, FindBestSplit) and Trees.ConstructTree require `reg_lambda > 0` and non-negative hessians, so every H+λ divided by is positive. mse hessians are ones. SplitStats.LeafScore and SplitStats.LeafLoss require only that H+λ is not zero.
- Boosting.Mean and GBDT.Fit require a non-empty target. The mean of an empty array is NaN in the source.
- GBDT.Fit requires one target per row. With other lengths the source's `score - target` raises a broadcasting ValueError, or broadcasts a one-entry target over every row.
- Trees.PredictSingle, Tree.Predict and GBDT.Predict require every split feature of the tree to be present in the row. This is stronger than the source, which fails with an IndexError only when the row's own path tests a missing feature.
- Tree.Predict and GBDT.Predict require a fitted model. Predicting before fit raises an AttributeError in the source, because the fitted attributes do not exist yet. GBDT tracks this with the ghost field `fitted`, which the constructor clears and `Fit` sets.
- GBDT.Predict requires at most as many rounds as fitted trees (`Rounds(nEstimators) <= |estimators|`). Raising `n_estimators` after `fit` makes `self.estimators[i]` raise an IndexError in the source.
- GBDT.estimators holds the fitted trees' roots as `TreeNode` values, not the `Tree` objects. Each round's `Tree` is created, fitted and used inside `FitRound`.
- A negative `n_estimators` gives zero rounds (`Rounds`), as `range` does.
- `TreeNode`'s `is_leaf` flag and `None` fields are a two-constructor datatype. A malformed node (an `is_leaf=False` node without children) cannot be built.
- A single candidate's gain can be negative: SplitStats.GainCanBeNegative exhibits one. Only the best gains that find_threshold and find_best_split return are at least 0, because their running best starts at 0.
- Boosting.MseLeafScore states the mse leaf score in terms of the node score of the summed gradient and the sample count, not as a fully expanded quotient.
