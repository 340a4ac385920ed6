# Stratified train/test split, modelled in Dafny

`split_stratified(df, feature_by, test_frac, random_state, shuffle, visualize)`
partitions a pandas DataFrame into a train set and a test set so that every
label of the column `feature_by` keeps its share in both. It starts with two
empty index accumulators. It walks the distinct labels in order of first
appearance. For each label it takes the rows that `df[feature_by] == label`
selects (the label's *stratum*) and draws a test sample from them without
replacement. The sample's index goes to the test accumulator, and the rest of
the stratum's index, in frame order, goes to the train accumulator. Both
accumulators are then turned back into rows with `df.loc` and, if `shuffle`
is set, reordered. The function returns `(train, test)`.

The model has two modules:

- `Frames` (`frames.dfy`) covers the parts of a DataFrame that the split
  uses. A frame is a `seq<Row<Id, L>>`. Each row carries its index label
  `id` and its value `key` in the stratifying column. It also covers the
  pandas operations the split calls: `df.index` (`Ids`),
  `df[feature_by].unique()` (`Labels`/`Unique`),
  `df[df[feature_by] == l]` (`Matching`), `Index.drop` (`Drop`) and
  `df.loc[...]` (`Loc`). `Stratum` is the rows carrying a label, a missing
  label included; it describes what the outputs hold per label.
- `SplitStratified` (`split_stratified.dfy`) holds the split itself.
  - `Split` is a method with the per-label loop and the two `seq<Id>`
    accumulators.
  - `TestRows` and `TrainRows` are the specification functions: what the
    accumulators hold, as rows, after a prefix of the labels.
  - The lemmas prove the properties of the split from those functions.

The sampler `cur_df.sample(frac=test_frac, random_state=random_state)` is the
parameter `draw`. For the stratum of label `l` with `n` rows, `draw(l, n)`
gives the row positions picked, in the order they were picked. `ValidDraw`
requires these positions to be duplicate-free and below `n`, which is what
sampling without replacement means. `SizeRule(draw, k)` says that the number
of positions picked is `k(n)`, one rule for every label. It stands for pandas'
rounding of `test_frac * n`, with one `test_frac` for all strata; the rule
itself is left open. The shuffle `sample(frac=1)` has no seed. It is the
method `Shuffle`, which returns some permutation chosen nondeterministically.

Missing labels: `pd.isna` on labels is the parameter `missing`. `unique()`
lists a missing label (NaN, None) like any other, but pandas' `==` is never
true for it. So its stratum is empty and its rows reach neither output; see
"## Findings".

## Model

| member | source | states |
|---|---|---|
| `Frames.Ids` | split_stratified.py:20-21 | `df.index` has one id per row, the id of the row at the same position |
| `Frames.Column` | split_stratified.py:23 | `df[feature_by]` has one value per row, the label of the row at the same position |
| `Frames.Unique` | split_stratified.py:23 | the loop's label list holds every label of the column and nothing else, each exactly once |
| `Frames.Labels` | split_stratified.py:23 | the labels visited are duplicate-free, and every row's label is among them |
| `Frames.LabelsOccur` | split_stratified.py:23 | every label visited is carried by some row of `df` |
| `Frames.UniqueInOrder` | split_stratified.py:23 | labels are listed in order of first appearance in the column: an earlier label first occurs earlier |
| `Frames.AbsentLabel` | split_stratified.py:23-24 | a label no row carries selects an empty stratum |
| `Frames.Stratum` | split_stratified.py:24 | the rows carrying label `l`, a missing label matching itself: exactly the rows of `df` with that label; a unique index stays unique |
| `Frames.Matching` | split_stratified.py:24 | `df[df[feature_by] == l]` holds exactly the rows of `df` with label `l` when `l` is not missing, and no row when it is; a unique index stays unique |
| `Frames.StratumInOrder` | split_stratified.py:24 | the rows of one label keep their order in `df` |
| `Frames.StratumPermutation` | split_stratified.py:31-33 | reordering rows does not change which rows carry a given label |
| `Frames.Present` | split_stratified.py:18 | the rows whose label is not missing: exactly those rows of `df`, with a unique index kept unique |
| `Frames.PresentAll` | split_stratified.py:18 | when no label is missing, every row of `df` is present |
| `Frames.Drop` | split_stratified.py:27 | `Index.drop` keeps exactly the ids that are not removed |
| `Frames.DropInOrder` | split_stratified.py:27 | `Index.drop` keeps the remaining ids in their order |
| `Frames.Loc` | split_stratified.py:29-30 | `df.loc[ids]` returns rows of `df` whose ids are exactly `ids`, in that order |
| `Frames.LocIds` | split_stratified.py:29-30 | looking up the ids of rows taken from `df` gives back exactly those rows, in the same order |
| `Frames.UniqueOfPartition` | split_stratified.py:29-33 | if two row sequences together hold every row of a uniquely indexed frame once, they share no id and neither repeats one |
| `Frames.NotInPartition` | split_stratified.py:29-33 | a row the partitioned rows do not hold is in neither part |
| `SplitStratified.IsDraw` | split_stratified.py:25 | a draw without replacement from `n` rows picks no position twice, only positions below `n`, and so at most `n` of them |
| `SplitStratified.ValidDraw` | split_stratified.py:25 | the sampler draws without replacement from every stratum, so it never picks more rows than the stratum has |
| `SplitStratified.DrawSize` | split_stratified.py:25 | duplicate-free positions below `n` number at most `n` |
| `SplitStratified.Sample` | split_stratified.py:25 | the test sample has as many rows as positions drawn, all taken from the stratum, with no repeated id |
| `SplitStratified.Leftover` | split_stratified.py:27 | the stratum's leftover rows are exactly its rows whose id was not sampled, with no repeated id |
| `SplitStratified.LeftoverInOrder` | split_stratified.py:27 | the leftover rows keep their order in the stratum |
| `SplitStratified.IdsLeftover` | split_stratified.py:27 | `cur_df.index.drop(test_sample)` is the index of the leftover rows, in stratum order |
| `SplitStratified.StratumTest` | split_stratified.py:24-25 | label `l`'s test share has as many rows as `draw(l, n)` picks, all rows of `df`, all with label `l`, none when `l` is missing, with no repeated id |
| `SplitStratified.StratumTrain` | split_stratified.py:24-27 | label `l`'s train share is exactly the rows `l` selects whose id is not in the test share, with no repeated id |
| `SplitStratified.TestRows` | split_stratified.py:23-26 | every row the test accumulator receives for the labels so far is a row of `df` with one of those labels, not missing |
| `SplitStratified.TrainRows` | split_stratified.py:23-27 | every row the train accumulator receives for the labels so far is a row of `df` with one of those labels, not missing |
| `SplitStratified.NextLabel` | split_stratified.py:24-27 | one turn of the loop appends the sample's ids to the test index and `Index.drop` of them from the stratum's ids to the train index |
| `SplitStratified.StratumShares` | split_stratified.py:24-27 | per label: the test share is a duplicate-free subset of the stratum, as large as `draw(l, n)` and at most `n`; the train share is exactly the stratum minus the test share; together they are the stratum |
| `SplitStratified.PartitionSoFar` | split_stratified.py:20-27 | starting from empty accumulators, after distinct labels `ls`, test and train together hold each row whose label is in `ls` and not missing exactly once. It is applied after `Split`'s loop, whose invariants equate the two accumulators with the ids of `TestRows` and `TrainRows` |
| `SplitStratified.SharesOfLabel` | split_stratified.py:23-27 | the label-`l` rows of test (train) are exactly `l`'s test (train) share, in the same order; a label not visited contributes nothing |
| `SplitStratified.RowsStratumMajor` | split_stratified.py:26-27 | before shuffling, the rows of each label form one contiguous block in test and in train |
| `SplitStratified.SplitCoverage` | split_stratified.py:18-33 | in any order, test and train hold every row whose label is not missing exactly once, no row with a missing label, and no id twice |
| `SplitStratified.LabelOutcome` | split_stratified.py:7-8 | in any order, label `l`'s rows in test and train are its shares: `k(n)` test rows and `n - k(n)` train rows of the `n` rows `l` selects, by one size rule for every label |
| `SplitStratified.SplitShares` | split_stratified.py:7-8 | the same as `LabelOutcome`, for every label at once |
| `SplitStratified.Shuffle` | split_stratified.py:32-33 | `sample(frac=1)` returns a permutation of its rows: same rows, same multiplicities, same length |
| `SplitStratified.Split` | split_stratified.py:20-41 | returns `(train, test)`. Unshuffled, they are the label-ordered concatenation of the per-label shares and are stratum-major. Shuffled or not: they hold the same rows; together they hold every row whose label is not missing exactly once, no row with a missing label, and no id twice; each label's rows are its shares, `k(n)` in test and `n - k(n)` in train |
| `SplitStratified.MissingLabelListed` | split_stratified.py:23 | `unique()` lists a missing label like any other |
| `SplitStratified.MissingLabelLost` | split_stratified.py:18-27 | for index `[0, 1]` and labels `[1, NaN]`, the row labelled NaN is in neither accumulator, so they do not hold every row of `df` |
| `SplitStratified.SplitKeepingMissing` | split_stratified.py:18 | with a filter under which a missing label matches itself, train and test together hold every row of `df` exactly once, with `k(n)` test and `n - k(n)` train rows per label |

## Findings

| source | as written | input that shows it | evidently intended | confidence | as-written member | corrected member |
|---|---|---|---|---|---|---|
| split_stratified.py:23-27 | `unique()` lists a missing label (NaN, None), but `df[feature_by] == label` is false for every row when the label is missing, so that stratum is empty and its rows go to neither test nor train | index `[0, 1]`, column `[1.0, NaN]`: row 1 is in neither output | the docstring's "holding together 100% of the samples in df" (line 18): every row in exactly one output, which a filter such as `df[feature_by].isna()` for a missing label gives | not executed; follows from pandas' `==` on missing values | `SplitStratified.MissingLabelLost` | `SplitStratified.SplitKeepingMissing` |

`Split` itself models the code as written: its contract promises coverage
only of `Present(df, missing)` and states that rows with a missing label are
in neither output.

## Left out

- Visualisation (split_stratified.py:35-40) is not modelled. It is a plotting
  side effect through seaborn/matplotlib and does not change the returned
  frames.
- Columns other than the index and the stratifying column are not modelled.
  Each row keeps its other columns unchanged.
- Choosing the column (`df[feature_by]`) and the KeyError pandas raises for a
  missing column are not modelled. The row's `key` is already that column's
  value.
- `test_frac` is not a number in the model. The sample size is the size rule
  `k(n)`, the same for every label. pandas' float rounding of
  `test_frac * n` is library behaviour and is not fixed here.
- The source does not check that `test_frac` lies in (0, 1), but pandas'
  `sample` raises `ValueError` when `test_frac` is negative or above 1
  (sampling without replacement). `ValidDraw` only admits samplers that pick
  at most `n` distinct positions, so this error path is excluded rather than
  modelled.
- Randomness and seeding are left out. `random_state` only fixes which
  positions the sampler picks, so it is folded into the parameter `draw`.
  The unseeded shuffle is a nondeterministic choice of permutation.
- `pd.isna` is the parameter `missing`. How pandas decides what is missing
  (NaN, None, NaT, pd.NA) is not modelled.
- `Split` requires a unique index (`UniqueIndex(df)`). This is the data
  model's invariant. With repeated index labels, `Index.drop` and
  `df.loc` select every row under a label, so rows could be duplicated or
  lost. The model does not cover that case.
- `Frames.Loc` requires every id to be in the frame, because pandas raises
  for missing labels. The split only passes ids taken from the frame.
- Dataframes are values in the model, so `df` cannot be changed by the
  split. The source never assigns to `df` either.
- pandas `Index.append` is modelled as sequence concatenation, and the empty
  index `df.index.drop(df.index)` as `[]`.
