# Decision rules of the heart-disease classification pipeline

`pipeline.py` imputes missing values, optionally one-hot encodes categorical
columns, standardises, optionally expands the features polynomially, reduces
them with PCA and trains one of four classifiers. An optional grid search
sweeps these hyper-parameters. Nearly every step is a call into
scikit-learn, Keras or pandas. This project models the few decision rules
that the file itself writes down. Each library step enters as a function
parameter or as an abstract input.

- `GridSearch` (`grid_search.dfy`) models `perform_gridsearch`:
  - the four nested loops in the order method, degree, k, component count;
  - the single train/test split, made before the loops;
  - the best record, which starts at 0.0, is replaced only on a strictly
    greater accuracy, and is unbound (so the report fails) when no accuracy
    beats 0.0.
- `Classification` (`classification.dfy`) models the dispatch of
  `Classification.__call__`. The set {SVC, LR, RF, NN} is closed, and any
  other name raises before cross-validation or training. One model object
  is reused for the folds and the final fit.
- `Schema` (`schema.dfy`) models tables as column schemas: a name plus a
  number of distinct values per column. Column values are not modelled.
- `Preprocessing` (`preprocessing.dfy`) models two things:
  - `check_one_hot_encoding`: a declared column with exactly two values is
    kept, and any other is replaced by K indicators (K-1 for the neural
    network);
  - `Preprocessing.__call__`, as the column names it returns: imputation
    fails on absent categorical headers, encoding runs only with a
    categorical list and a method other than RF, and the polynomial names
    appear exactly when a degree is given. The resulting widths are
    modelled too.
- `PolynomialExpansion` (`polynomial_expansion.dfy`) models the output names
  of `PolynomialFeatures(degree, include_bias=False)`. There are C(n+d, d) - 1
  of them, and the inputs come first.
- `RocAveraging` (`roc_averaging.dfy`) models the mean-TPR computation of
  `perform_cv`:
  - accumulate the interpolated fold curves on the 100-point grid;
  - zero the first point after every fold;
  - divide by the fold count;
  - pin the last point to 1.0.
- `FeatureRanking` (`feature_ranking.dfy`) models `get_best_features`:
  - normalise the absolute PCA loadings per component;
  - weight them by the explained-variance ratio;
  - sum over the ten components the forest ranks highest;
  - return the top ten features, largest first.
- `Sums` and `Wrappers` hold real sums and the `Option`/`Result` types.

Two behaviours of the code are easy to miss, and the model keeps both:

- Encoding replaces every declared column whose distinct count is not 2
  (pipeline.py:118). That includes a constant column (K = 1), which is
  replaced by one indicator, or by none for the neural network.
- Absent categorical headers raise in `clean_data` (pipeline.py:94) even
  for the random forest, for which encoding is otherwise skipped.

## Model

| member | source | states |
|---|---|---|
| GridSearch.CombosAt | pipeline.py:37-40 | The combination made of methods[a], degrees[b], kneighbors[c] and n_components[e] sits at position ((a·len(degrees) + b)·len(kneighbors) + c)·len(n_components) + e of the sweep. Method varies slowest, then degree, then k, then n. |
| GridSearch.CombosLength | pipeline.py:35-40 | The number of combinations is the product of the four list lengths, which is the `nr_combinations` the progress bar is given. |
| GridSearch.GridSize | pipeline.py:26-30 | The fixed grid has 15 combinations. The first is RF with k=6, degree 3 and 10 components; the last is SVC with 800 components. |
| GridSearch.Track | pipeline.py:57-61 | best_acc is never negative and never below any accuracy seen so far. A bound record points at a combination already run, and best_acc is that combination's accuracy. |
| GridSearch.TrackFindsFirstBest | pipeline.py:57-61 | The strict-improvement fold from 0.0 binds no record iff no accuracy exceeds 0.0. Otherwise it keeps the first position holding the maximum accuracy, and best_acc equals that maximum. |
| GridSearch.TrackNeverDecreases | pipeline.py:57-58 | best_acc after a longer prefix of the sweep is never below best_acc after a shorter one. |
| GridSearch.BestAccHistoryMonotone | pipeline.py:57-58 | The sequence of best_acc values observed after each combination is non-decreasing and never negative. |
| GridSearch.SweepExample | pipeline.py:57-61 | On accuracies 0.6, 0.55, 0.9, 0.7, best_acc moves through 0.6, 0.6, 0.9, 0.9 and the third combination is retained. |
| GridSearch.Sweep | pipeline.py:37-64 | A run that raises aborts the sweep with its error. Otherwise the sweep fails as unbound iff no accuracy exceeds 0.0, and else returns the first best combination's params, model, statistics and accuracy. |
| GridSearch.PerformGridSearch | pipeline.py:25-64 | The split is computed once from the data, and every combination of the fixed grid runs on that one split. The result obeys the sweep's contract. |
| Classification.MethodName | pipeline.py:344-351 | Every model family is requested by a name the dispatch accepts. |
| Classification.SelectModel | pipeline.py:344-353 | A name selects a family iff it is one of SVC, LR, RF, NN, and the selected family is the one carrying that name. Any other name gives the ValueError with the fixed message "Select one of SVC, LR, RF and NN". |
| Classification.MethodNameInjective | pipeline.py:344-351 | Two families share a name iff they are the same family, so a valid name selects exactly one. |
| Classification.Classify | pipeline.py:342-359 | The call fails iff the name is unknown, with nothing cross-validated or trained. Otherwise the statistics come from cross-validating the freshly built model. The returned model is that same model object refit on the whole training set. |
| RocAveraging.MeanFpr | pipeline.py:253 | The FPR grid has 100 strictly increasing points from exactly 0 to exactly 1. |
| RocAveraging.Accumulate | pipeline.py:252-268 | After any number of folds the accumulator has 100 points. Its first point is 0.0, and every other point is the sum of the folds' values there. |
| RocAveraging.MeanTpr | pipeline.py:252-271 | With at least one fold, the mean curve has 100 points, the first exactly 0.0 and the last exactly 1.0. Each interior point is the sum of the fold values divided by the fold count. With no fold it fails. |
| RocAveraging.MeanTprInUnitInterval | pipeline.py:267-271 | If every fold curve holds rates in [0, 1], every point of the mean curve lies in [0, 1]. |
| RocAveraging.MeanTprNonDecreasing | pipeline.py:267-271 | If every fold curve is a non-decreasing rate curve, so is the anchored mean curve. |
| FeatureRanking.NormaliseRow | pipeline.py:324 | Each normalised loading is the absolute loading over the row's absolute total. It is non-negative, and the row sums to 1. |
| FeatureRanking.NormaliseRowProportional | pipeline.py:324 | Multiplying a normalised loading back by the row total recovers the absolute loading. |
| FeatureRanking.ContributionRow | pipeline.py:327 | A component's contribution row is its normalised row scaled by its variance ratio, and it sums to that ratio. |
| FeatureRanking.Contribution | pipeline.py:324-327 | The contribution matrix has one row per component and one entry per feature. Each row sums to its component's explained-variance ratio. |
| FeatureRanking.FeatureContribution | pipeline.py:330-332 | The summed contribution has one entry per feature. Entry f is the sum of column f over the selected rows, in selection order. |
| FeatureRanking.FeatureContributionNonNegative | pipeline.py:330-332 | Summing non-negative contribution rows over any selection gives non-negative feature contributions. |
| FeatureRanking.FeatureContributionTotal | pipeline.py:330-332 | When each row sums to its component's ratio, the summed feature contributions add up to the ratios of the selected components. |
| FeatureRanking.ContributionFeaturesNonNegative | pipeline.py:324-332 | With non-negative variance ratios, every feature's contribution summed over any selection of components is non-negative. |
| FeatureRanking.ContributionTotal | pipeline.py:324-332 | The back-projected feature contributions add up to the total explained-variance ratio of the selected components. |
| FeatureRanking.TopIndices | pipeline.py:334 | The result holds min(k, n) distinct in-range indices in non-increasing score order. No index left out scores higher than any index kept. |
| FeatureRanking.RankFeatures | pipeline.py:329-335 | The chosen components are the top ten by importance. The features are the top ten by contribution summed over those components, listed largest first. Each returned label is the label of its feature index. |
| FeatureRanking.BestFeatures | pipeline.py:314-340 | The contribution matrix is the normalised, ratio-weighted absolute loadings, and the rankings over it are as in RankFeatures: the top ten components by importance, then the top ten features by summed contribution, largest first, with their labels. |
| Schema.Find | pipeline.py:118 | Looking up a header finds the first column with that name, or reports that no column has it. |
| Schema.Missing | pipeline.py:94 | The absent headers are exactly the declared headers that name no column of the table. |
| PolynomialExpansion.Combinations | pipeline.py:105-107 | Every generated index list has the requested degree and lists column indices in non-decreasing order. |
| PolynomialExpansion.Powers | pipeline.py:105-107 | Every exponent list of the degree-d map has between 1 and d column indices, in non-decreasing order and within range. |
| PolynomialExpansion.PolynomialNames | pipeline.py:105-107 | The map yields one name per exponent list. Every name is a monomial of 1 to d factors, and each factor is one of the input names. |
| PolynomialExpansion.PowersCount | pipeline.py:105-107 | Over n columns, the monomials of degree 1 to d number C(n+d, d) - 1. |
| PolynomialExpansion.PolynomialNamesSpec | pipeline.py:105-107 | For degree ≥ 1 the expansion has C(n+d, d) - 1 names, at least n. Its first n names are the input columns themselves, in order. |
| PolynomialExpansion.PowersLinearFirst | pipeline.py:105-107 | For degree ≥ 1 the first n index lists are the single columns 0 to n-1. |
| Preprocessing.Indicators | pipeline.py:122-126 | A column with K levels yields K indicators, or K-1 for the neural network. All of them are indicators of that column. |
| Preprocessing.EncodeColumn | pipeline.py:116-126 | Encoding one declared column fails iff its header is absent, with a KeyError naming it. A binary column leaves the table unchanged. Otherwise the width becomes n - 1 plus the indicator count, every other column and every indicator is present, nothing else appears, and in a table without repeated names no column keeps the header's name. |
| Preprocessing.OneHotEncode | pipeline.py:116-127 | An empty declaration leaves the table unchanged. A failure names exactly one header, and that header is one of the declared ones. |
| Preprocessing.OneHotEncodeSpec | pipeline.py:116-127 | Encoding fails iff a declared header is absent, naming the first one. On success the result has no duplicate names. A declared non-binary column is gone and all its indicators are present, every other input column is kept, and nothing else appears. The width grows by K-1 per replaced column (K-2 for NN). |
| Preprocessing.Preprocess | pipeline.py:140-158 | Without a categorical list the call always succeeds. A failure needs a categorical list and names at least one header, all of them declared. |
| Preprocessing.PreprocessEncodingGate | pipeline.py:116-150 | Without a degree, a declared column keeps its own name iff the method is RF or the column is binary. All declared names survive iff the method is RF or every declared column is binary. An undeclared column always keeps its name. |
| Preprocessing.PreprocessExpansionGate | pipeline.py:149-157 | With degree d every output name is a monomial of 1 to d factors. Without a degree every output name is an input header or an indicator. |
| Preprocessing.PreprocessFails | pipeline.py:93-96 | The call fails iff a categorical list names an absent header, including for RF. The error lists exactly the absent headers. |
| Preprocessing.PreprocessNames | pipeline.py:147-153 | Without a degree, the output names are those of the encoded table, or of the input table when encoding is skipped. |
| Preprocessing.PreprocessWidth | pipeline.py:149-157 | The width is the encoded width w without a degree, and C(w+d, d) - 1 with degree d. |
| Preprocessing.PreprocessKeepsLinearTerms | pipeline.py:155-157 | With a degree, the names the call would give without one come first among the outputs, each as a degree-one monomial. |
| Preprocessing.SingleCategoricalWidth | pipeline.py:116-127 | Declaring one column with K values and no degree on an n-column table gives n columns when K = 2 or the method is RF, n+K-1 for the other non-NN methods, and n+K-2 for NN with K > 2. |
| Preprocessing.FiveColumnsDegreeTwo | pipeline.py:149-157 | For RF, a five-column table with present categorical headers and degree 2 gives 20 output columns. |

## Left out

- Library numerics are parameters or abstract inputs, not computations. This covers:
  - KNN imputation, scaling, PCA, `train_test_split` and `StratifiedKFold`;
  - the four classifiers and Keras model building, compiling, fitting and predicting;
  - `roc_curve`, `interp`, `auc` and `accuracy_score`.
- Standardisation changes values and never names, so `Preprocess` does not show whether it ran. Its always running (pipeline.py:152) is left out for that reason.
- Column values are not modelled: imputed values, `astype(int)` rounding and the values of indicators or monomials. Only names and distinct counts are.
- The distinct count is an input per column, not something computed. The model does not derive it from imputed values.
- Floating-point rounding is not modelled. Arithmetic is exact over `real`, and no AUC value is modelled.
- Column positions produced by `pd.get_dummies` are not modelled, and neither is the re-ordering done by re-wrapping with `self.X.columns` (pipeline.py:91-96, 147). The model appends the indicators, but its contracts state membership and widths, not positions.
- Indicator names are a constructor of their own, so the model assumes no dummy name coincides with an input header. pandas would build them from strings.
- The test split being reduced by its own, separately fitted PCA (pipeline.py:48-51) lies inside the abstract `run` of the grid search.
- The imputer's neighbour count only feeds the imputer, so it has no effect on schemas.
- Visualisation, `main`, the tqdm progress bar, the `verbose` printing and model saving are left out as I/O.
- `train_model`, `predict`, `evaluate_model`, `svc`, `logistic_regression`, `random_forest` and `neural_net` are library calls. They enter `Classification.Classify` and `GridSearch.Sweep` as function parameters.
- Preprocessing.PreprocessWidth: requires degree ≥ 1. `PolynomialFeatures` with degree 0 and no bias is library behaviour that the model does not state.
- Preprocessing.OneHotEncodeSpec: requires distinct categorical headers, so a repeated categorical header is outside the model. pandas would select and concatenate that column twice at pipeline.py:94-96, before encoding ever sees it. The same holds for `PreprocessEncodingGate`.
- Preprocessing.PreprocessFails: requires an input table with distinct raw headers, as a CSV header row read by pandas gives. The same holds for the other `Preprocess*` lemmas.
- FeatureRanking.TopIndices: does not fix which of two equally scored indices wins. `np.argsort` is not stable, so only the top-k set and the non-increasing order are stated.
- FeatureRanking.BestFeatures: requires every component to have a non-zero absolute loading sum. numpy would produce NaN otherwise.
- RocAveraging.MeanTpr: requires every fold curve to have the grid's 100 points. `interp` onto the grid guarantees this.
