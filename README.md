# Preprocessing of the toxic-comment data, in Dafny

This project models the data-cleaning stage of a toxic-comment classifier, in
`src/data/preprocess.py`. The stage takes three raw tables read from CSV: the
training comments with their six labels, the test comments, and the test
labels. It does two things.

- `preprocess_data` re-keys every table by its `id` column. It then joins
  the test labels onto the test rows and drops the test rows that were never
  scored, which are the rows where every label is -1.
- `_preprocessed_data_is_valid` runs a fixed sequence of checks on the two
  resulting tables. It returns true or raises the error of the first check
  that fails.

The model has four modules.

- `Wrappers` (`wrappers.dfy`): `Option` and `Result`. A `Result` is a value
  or a raised error.
- `Frames` (`frames.dfy`): the tables and the two dataframe operations the
  stage uses.
  - A table has an optional index name, distinct column names and a
    sequence of records. Each record has a key and one cell per column.
  - A cell is text, an integer, or the missing value `NaN`.
  - `SetIndex` is `set_index`. It raises a `KeyError` when the column is
    absent.
  - `Join` is `join`, the library's default LEFT join.
    - Every left row is kept, in order.
    - A left row with no match gets `NaN` in every right-hand column.
    - A left row with several matches appears once per match.
    - Tables that share a column name raise an error, because no suffixes
      are given.
- `Preprocess` (`preprocess.dfy`): the two functions of the stage.
  - The input column name and the label names come from a configuration
    module, so they are parameters here (`input`, `labels`).
  - `Validate` runs the checks in source order. `Violations` lists every
    check that fails, and a lemma proves that `Validate` raises the first of
    them.
  - Selecting the label columns of a table that lacks one raises a
    `KeyError`. Both the filter and the validator's test-label check do
    this.
- `MockData` (`mock_data.dfy`): the mock tables of the test suite, built
  column by column, and what preprocessing and validation make of them.

All functions are pure, because the source is pure. `preprocess_data` is
three chained table expressions. The validator is a straight sequence of
guards.

`join` is the library's default left join. A test row with no label row
therefore survives the join with `NaN` labels, and the filter keeps it,
because `NaN` is not -1. The validator then rejects the result
(`UnmatchedTestRowFailsValidation`). On the mock data the filter keeps
exactly ids 2 and 4 (`MockPreprocessKeepsIds2And4`).

## Model

| member | source | states |
|---|---|---|
| Frames.SetIndex | src/data/preprocess.py:54-55 | fails with a KeyError exactly when the column is missing; otherwise the index takes the column's name, the column leaves the body and every row, the remaining columns keep their order, and the keys are the column's values in row order |
| Frames.SetIndexKeepsCells | src/data/preprocess.py:54 | re-keying keeps every row in place, with every other cell unchanged |
| Frames.Join | src/data/preprocess.py:55 | fails exactly when the two tables share a column name, reporting the shared names; otherwise keeps the left index name, puts the right columns after the left ones, and has at least as many rows as the left table |
| Frames.JoinUniqueKeys | src/data/preprocess.py:55 | with unique right keys the left join keeps the left rows one for one and in order, each extended by the cells of its match or by missing values |
| Frames.JoinKeepsUnmatched | src/data/preprocess.py:55 | a left row with no matching right row survives the join with a missing value in every right-hand column, whatever the right keys are |
| Frames.JoinKeysFromLeft | src/data/preprocess.py:55 | every joined row carries the key of a left row |
| Frames.MatchesUnique | src/data/preprocess.py:55 | with unique right keys a key has at most one match, the one lookup finds |
| Preprocess.KeepScored | src/data/preprocess.py:56 | a row is kept exactly when not every label cell is -1; no kept row is unscored |
| Preprocess.DropUnscored | src/data/preprocess.py:56 | raises a KeyError naming the missing labels exactly when a label is not a column; otherwise keeps the index and columns, keeps exactly the scored rows, and keeps them as an order-preserving subsequence of the input rows |
| Preprocess.KeepScoredIsSubsequence | src/data/preprocess.py:56 | the kept rows are an order-preserving subsequence of the input rows |
| Preprocess.KeepScoredOne | src/data/preprocess.py:56 | a single row is kept exactly when it is scored |
| Preprocess.KeepScoredAppend | src/data/preprocess.py:56 | filtering a concatenation is the concatenation of the filtered parts, so each row, duplicates included, is kept or dropped on its own |
| Preprocess.KeepScoredAllScored | src/data/preprocess.py:56 | a sequence with no unscored row passes through the filter unchanged |
| Preprocess.DropUnscoredIdempotent | src/data/preprocess.py:56 | filtering twice gives the same table as filtering once |
| Preprocess.ScoredWhenSomeLabelNotSentinel | src/data/preprocess.py:56 | a row with a missing label cell, or with some label other than -1, is never dropped |
| Preprocess.PreprocessData | src/data/preprocess.py:48-57 | a train, test or label table without an `id` column raises a KeyError, checked in that order; on success the train table keeps every raw train row, both tables are indexed by `id`, `id` is no train column, and no test row is unscored |
| Preprocess.IndexedOverlap | src/data/preprocess.py:55 | after re-keying, the test and label tables share a column exactly when the raw tables share one other than `id` |
| Preprocess.JoinedColumns | src/data/preprocess.py:55 | the joined columns are exactly the raw test and label columns other than `id` |
| Preprocess.PreprocessSucceedsIff | src/data/preprocess.py:54-56 | preprocessing succeeds exactly when all three tables have `id`, the test and label tables share no other column, and every label is a test or label column other than `id` |
| Preprocess.PreprocessKeepsTrainRows | src/data/preprocess.py:54 | the train keys are the raw train ids in order, and every other cell of every train row is unchanged |
| Preprocess.PreprocessTestKeysFromRawTest | src/data/preprocess.py:55-56 | every preprocessed test key is the id of a raw test row |
| Preprocess.PreprocessTestOrder | src/data/preprocess.py:55-56 | with unique label ids, the joined table has the raw test rows' length and order, each row carrying its matching label cells or missing values; the preprocessed test ids are an order-preserving subsequence of the raw test ids |
| Preprocess.Validate | src/data/preprocess.py:60-92 | never returns false; succeeds exactly when both tables are non-empty, both are indexed by `id`, the input and every label are train columns, every train and test label is 0 or 1, and the train columns are exactly the input plus the labels |
| Preprocess.ValidateReportsFirstViolation | src/data/preprocess.py:67-89 | the validator raises the first violated check in source order, and succeeds when none is violated |
| Preprocess.UnmatchedRowJoined | src/data/preprocess.py:55 | a test row whose id has no label row appears in the join with missing values in every label column |
| Preprocess.UnmatchedRowSurvives | src/data/preprocess.py:55-56 | such a row survives the filter with a missing value under the label |
| Preprocess.NotBinaryRow | src/data/preprocess.py:81-82 | one row with a label other than 0 or 1 makes the table's labels non-binary |
| Preprocess.UnmatchedTestRowFailsValidation | src/data/preprocess.py:81-82 | if a test id has no label row, the validator rejects the preprocessing result |
| Preprocess.PreprocessedIndexIsId | src/data/preprocess.py:71-74 | the validator never rejects a preprocessing result for its index name |
| Preprocess.JoinedRowVerdicts | src/data/preprocess.py:55-56 | a joined row is unscored, or has only binary labels, whenever its label row is |
| Preprocess.RekeyedVerdicts | src/data/preprocess.py:54-55 | re-keying leaves a row's unscored and binary verdicts unchanged |
| Preprocess.KeptRowsBinary | src/data/preprocess.py:55-56 | when every test row has exactly one label row and each label row is all -1 or all 0/1, every kept row has only 0 or 1 labels |
| Preprocess.RekeyedLabelRows | src/data/preprocess.py:55 | re-keying a label table with distinct ids gives unique keys and keeps each row's verdict |
| Preprocess.RekeyedTestRowsMatched | src/data/preprocess.py:55 | when every raw test id occurs among the label ids, every re-keyed test row has a label row with its key |
| Preprocess.PreprocessedTrainValid | src/data/preprocess.py:75-86 | a raw train table whose columns are `id`, the input and the labels, with 0/1 labels, passes the train-side checks after re-keying |
| Preprocess.PreprocessedTestBinary | src/data/preprocess.py:81-82 | with one well-labelled label row per test id, every preprocessed test label is 0 or 1 |
| Preprocess.PreprocessedDataValidates | src/data/preprocess.py:48-92 | on such well-formed raw data the validator accepts the preprocessing result, unless the filter left no test row, when it raises the empty-test error |
| MockData.FromColumns | tests/data/mock_data.py:13-30 | a table built from named value columns has those columns and, in row i, the i-th value of each |
| MockData.FromColumnsUnscored | tests/data/mock_data.py:49-63 | a built row is unscored exactly when every label value in it is -1 |
| MockData.FromColumnsBinary | tests/data/mock_data.py:49-63 | a built row whose label values are all 0 or 1 has binary labels |
| MockData.MockLabelRow | tests/data/mock_data.py:55-61 | mock label row j has id j + 1 and is unscored exactly when j is even (ids 1, 3, 5) |
| MockData.MockLabelFacts | tests/data/mock_data.py:53-63 | the mock label table has the columns `id` plus the labels, five rows with ids 1..5, unscored at ids 1, 3 and 5 |
| MockData.MockTestFacts | tests/data/mock_data.py:35-46 | the mock test table has the columns `id` and the comment text, and five rows with ids 1..5 |
| MockData.JoinedVerdict | src/data/preprocess.py:55 | when both keyed sequences have keys 1..n, joined row j has key j + 1 and the verdict of label row j |
| MockData.FiveRowsKeepSecondAndFourth | src/data/preprocess.py:56 | of five rows unscored at even positions, the filter keeps rows 2 and 4 |
| MockData.FilteredJoinKeys | src/data/preprocess.py:55-56 | joining five keyed test rows to five label rows unscored at keys 1, 3 and 5 and filtering leaves keys 2 and 4 |
| MockData.ScoredAtEvenIds | src/data/preprocess.py:54-56 | any three tables shaped like the mock tables preprocess successfully, keeping all train rows and exactly test ids 2 and 4 |
| MockData.MockColumnsCompatible | tests/data/mock_data.py:33-63 | the mock test and label tables share only `id`, and every label is a label column |
| MockData.MockPreprocessKeepsIds2And4 | tests/data/mock_data.py:49-63 | preprocessing the mock data succeeds, keeps the five train rows and keeps exactly test ids 2 and 4 |
| MockData.MockTrainBinary | tests/data/mock_data.py:23-28 | every mock train label is 0 or 1 |
| MockData.MockLabelsWellLabelled | tests/data/mock_data.py:55-61 | every mock label row is all -1 or all 0/1 |
| MockData.MockTrainFitForValidation | tests/data/mock_data.py:13-30 | the mock train table has the columns `id`, the comment text and the labels, is non-empty, and has binary labels |
| MockData.MockTestIdsMatched | tests/data/mock_data.py:37-55 | every mock test id occurs among the mock label ids |
| MockData.MockLabelRowsFit | tests/data/mock_data.py:53-63 | the mock label ids are distinct and every label row is all -1 or all 0/1 |
| MockData.MockPreprocessValidates | tests/data/mock_data.py:6-8 | the validator accepts what preprocessing makes of the mock data |

## Left out

- `main` and `load_raw_data` (src/data/preprocess.py:16-45) are left out. They read and write CSV files, create directories and print. `_raw_data_exists` is called there and is not part of this model.
- The `isinstance` checks (src/data/preprocess.py:63-66) are left out, because the argument types already guarantee tables.
- The "Preprocessing..." and "Validating..." messages are printed output, so they are left out.
- Dtypes are left out. When a test row has no label row, the join writes NaN and the library then stores that table's label columns as floating point. The model keeps 0, 1 and -1 as integers. `isin([0, 1])` and `== -1` give the same answers for these values either way.
- Non-integer numbers in a label column are left out: a `Cell` is text, an integer or NaN, so a label such as 0.5 cannot be written. The validator would reject it just as it rejects any integer other than 0 or 1.
- Frames.Join: the result keeps the left table's index name. The library's rule for two differently named indexes is not modelled, because both sides are named `id` here.
- Frames.Join: only the operand shapes this stage uses are modelled: an index join with no suffixes and no `on`, `how` or `sort` arguments.
- Frames.SetIndex: only the default `drop=True` behaviour on a table with a default positional index is modelled.
- The configuration module that defines the input column and the labels is not part of this model. Both are parameters of the model. `MockData` fixes them to the mock columns.
- The data download (`src/data/download.py`), the TensorFlow dataset conversion (`src/data/convert_to_tf.py`) and the data exploration plots (`src/data/explore.py`) are left out. They are network access, library calls, randomness and plotting.
- The commented-out code in src/data/preprocess.py:95-152 is dead code, so it is left out.
- The train/validation split and the inner-join merge exercised by `tests/data/__test_preprocess.py` are left out. No such functions exist in the modelled source.
