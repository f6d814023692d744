/**
 * The preprocessing stage of the toxic-comment pipeline: re-key the train
 * and test tables by `id`, left-join the test labels onto the test rows,
 * drop the test rows that are not scored (every label is -1), and validate
 * the two resulting tables before they are written out.
 *
 * The input column name and the label column names come from configuration;
 * here they are parameters (`input`, `labels`).
 */
module Preprocess {
  import opened Wrappers
  import opened Frames

  /** The identifier column every raw table carries. */
  const ID: string := "id"

  /** The label value that marks a test row as not scored. */
  const SENTINEL: int := -1

  /** What preprocessing or validation raises. */
  datatype Error =
    | Pandas(cause: FrameError)           // raised inside a table operation
    | TrainEmpty                          // "Expected 'train_df' to be non-empty."
    | TestEmpty                           // "Expected 'test_df' to be non-empty."
    | IndexNotId                          // "Expected 'id' to be the index."
    | InputNotColumn(input: string)       // "Expected the input ... to be a column."
    | LabelsNotColumns                    // "Expected all labels to be columns."
    | LabelsNotBinary                     // "Expected all labels to be binary (0, 1)."
    | UnexpectedColumns(expected: set<string>, actual: set<string>)

  function Lift<T>(r: Result<T, FrameError>): (r': Result<T, Error>)
    ensures r'.Success? <==> r.Success?
    ensures r.Success? ==> r'.value == r.value
    ensures r.Failure? ==> r'.error == Pandas(r.error)
  {
    match r
    case Success(v) => Success(v)
    case Failure(e) => Failure(Pandas(e))
  }

  // ---------------------------------------------------------------------
  // Dropping unscored test rows
  // ---------------------------------------------------------------------

  /** Every label cell of the row equals the sentinel. A missing cell (NaN)
      is not equal to the sentinel. With no labels at all this holds of
      every row, as `all` over no columns is true. */
  predicate Unscored(rec: Record, labels: seq<string>) {
    forall l :: l in labels ==> l in rec.cells && rec.cells[l] == Int(SENTINEL)
  }

  /** The rows that are not unscored, in their order. */
  function KeepScored(rs: seq<Record>, labels: seq<string>): (r: seq<Record>)
    ensures forall i :: 0 <= i < |r| ==> !Unscored(r[i], labels)
    ensures forall x :: x in r <==> x in rs && !Unscored(x, labels)
    ensures |r| <= |rs|
  {
    if rs == [] then []
    else if Unscored(rs[0], labels) then KeepScored(rs[1..], labels)
    else [rs[0]] + KeepScored(rs[1..], labels)
  }

  /**
   * `df.loc[~(df[labels] == -1).all(axis=1)]`: keeps the rows with at least
   * one label cell other than -1, order and columns unchanged. Selecting the
   * label columns raises a KeyError naming every label that is not a column.
   */
  function DropUnscored(f: Table, labels: seq<string>): (r: Result<Table, FrameError>)
    ensures r.Failure? <==> exists l :: l in labels && l !in f.columns
    ensures r.Failure? ==> r.error == KeyError(Missing(f.columns, labels))
    ensures r.Success? ==>
      && r.value.indexName == f.indexName
      && r.value.columns == f.columns
      && (forall i :: 0 <= i < |r.value.records| ==> !Unscored(r.value.records[i], labels))
      && (forall x :: x in f.records && !Unscored(x, labels) ==> x in r.value.records)
      && (forall x :: x in r.value.records ==> x in f.records)
      && IsSubsequence(r.value.records, f.records)
  {
    var missing := Missing(f.columns, labels);
    if missing != [] then
      assert missing[0] in labels && missing[0] !in f.columns;
      Failure(KeyError(missing))
    else
      var kept := KeepScored(f.records, labels);
      assert forall i :: 0 <= i < |kept| ==> kept[i] in f.records;
      KeepScoredIsSubsequence(f.records, labels);
      Success(Frame(f.indexName, f.columns, kept))
  }

  /** The kept rows are the original rows with some left out, in order. */
  lemma {:induction false} KeepScoredIsSubsequence(rs: seq<Record>, labels: seq<string>)
    ensures IsSubsequence(KeepScored(rs, labels), rs)
  {
    if rs != [] {
      KeepScoredIsSubsequence(rs[1..], labels);
      var r := KeepScored(rs, labels);
      if !Unscored(rs[0], labels) {
        assert r[1..] == KeepScored(rs[1..], labels);
      }
    }
  }

  /** The filter treats each row on its own: a single row is kept exactly
      when it is scored. */
  lemma KeepScoredOne(x: Record, labels: seq<string>)
    ensures KeepScored([x], labels) == if Unscored(x, labels) then [] else [x]
  {
    assert [x][1..] == [];
  }

  /** Filtering a concatenation filters each part; with `KeepScoredOne` this
      fixes the result row by row, duplicates included. */
  lemma {:induction false} KeepScoredAppend(a: seq<Record>, b: seq<Record>, labels: seq<string>)
    ensures KeepScored(a + b, labels) == KeepScored(a, labels) + KeepScored(b, labels)
  {
    if a != [] {
      assert (a + b)[0] == a[0] && (a + b)[1..] == a[1..] + b;
      KeepScoredAppend(a[1..], b, labels);
    } else {
      assert a + b == b;
    }
  }

  /** A table with no unscored row passes through the filter unchanged. */
  lemma {:induction false} KeepScoredAllScored(rs: seq<Record>, labels: seq<string>)
    requires forall i :: 0 <= i < |rs| ==> !Unscored(rs[i], labels)
    ensures KeepScored(rs, labels) == rs
  {
    if rs != [] {
      assert !Unscored(rs[0], labels);
      KeepScoredAllScored(rs[1..], labels);
    }
  }

  /** Dropping unscored rows twice is dropping them once. */
  lemma DropUnscoredIdempotent(f: Table, labels: seq<string>)
    requires DropUnscored(f, labels).Success?
    ensures DropUnscored(DropUnscored(f, labels).value, labels) == DropUnscored(f, labels)
  {
    var once := DropUnscored(f, labels).value;
    KeepScoredAllScored(once.records, labels);
  }

  /** A row with a missing label cell, or with a label other than -1, is
      never dropped (as long as that label is one of `labels`). */
  lemma ScoredWhenSomeLabelNotSentinel(rec: Record, labels: seq<string>, l: string)
    requires l in labels && (l !in rec.cells || rec.cells[l] != Int(SENTINEL))
    ensures !Unscored(rec, labels)
  {
  }

  lemma {:induction false} SubsequenceKeys(xs: seq<Record>, ys: seq<Record>)
    requires IsSubsequence(xs, ys)
    ensures IsSubsequence(KeysOf(xs), KeysOf(ys))
    decreases |ys|
  {
    if |xs| == 0 {
    } else if xs[0] == ys[0] && IsSubsequence(xs[1..], ys[1..]) {
      SubsequenceKeys(xs[1..], ys[1..]);
      assert KeysOf(xs)[1..] == KeysOf(xs[1..]);
      assert KeysOf(ys)[1..] == KeysOf(ys[1..]);
    } else {
      SubsequenceKeys(xs, ys[1..]);
      assert KeysOf(ys)[1..] == KeysOf(ys[1..]);
    }
  }

  // ---------------------------------------------------------------------
  // preprocess_data
  // ---------------------------------------------------------------------

  /**
   * Re-keys the train table by `id`; re-keys the test table and the test
   * label table by `id` and left-joins the labels onto the test rows; drops
   * the unscored test rows. Returns (train, test) or the first error raised.
   */
  function PreprocessData(rawTrain: Table, rawTest: Table, rawTestLabels: Table, labels: seq<string>)
    : (r: Result<(Table, Table), Error>)
    ensures ID !in rawTrain.columns ==> r == Failure(Pandas(KeyError([ID])))
    ensures ID in rawTrain.columns && ID !in rawTest.columns ==> r == Failure(Pandas(KeyError([ID])))
    ensures ID in rawTrain.columns && ID in rawTest.columns && ID !in rawTestLabels.columns ==>
      r == Failure(Pandas(KeyError([ID])))
    ensures r.Success? ==>
      && |r.value.0.records| == |rawTrain.records|
      && r.value.0.indexName == Some(ID) && ID !in r.value.0.columns
      && r.value.1.indexName == Some(ID)
      && forall i :: 0 <= i < |r.value.1.records| ==> !Unscored(r.value.1.records[i], labels)
  {
    var train :- Lift(SetIndex(rawTrain, ID));
    var test :- Lift(SetIndex(rawTest, ID));
    var testLabels :- Lift(SetIndex(rawTestLabels, ID));
    var joined :- Lift(Join(test, testLabels));
    var kept :- Lift(DropUnscored(joined, labels));
    Success((train, kept))
  }

  /** The stages of a successful run, one by one. */
  lemma PreprocessStages(rawTrain: Table, rawTest: Table, rawTestLabels: Table, labels: seq<string>)
    requires PreprocessData(rawTrain, rawTest, rawTestLabels, labels).Success?
    ensures SetIndex(rawTrain, ID).Success? && SetIndex(rawTest, ID).Success? && SetIndex(rawTestLabels, ID).Success?
    ensures Join(SetIndex(rawTest, ID).value, SetIndex(rawTestLabels, ID).value).Success?
    ensures var joined := Join(SetIndex(rawTest, ID).value, SetIndex(rawTestLabels, ID).value).value;
      && joined.records == JoinRecords(SetIndex(rawTest, ID).value.records, SetIndex(rawTestLabels, ID).value.records,
                                       SetIndex(rawTestLabels, ID).value.columns)
      && DropUnscored(joined, labels).Success?
      && PreprocessData(rawTrain, rawTest, rawTestLabels, labels).value
         == (SetIndex(rawTrain, ID).value, DropUnscored(joined, labels).value)
      && DropUnscored(joined, labels).value.records == KeepScored(joined.records, labels)
  {
  }

  /** The preprocessed test rows are the scored rows of the left join of
      the re-keyed test and label tables. */
  lemma PreprocessedTestRows(rawTrain: Table, rawTest: Table, rawTestLabels: Table, labels: seq<string>)
    requires PreprocessData(rawTrain, rawTest, rawTestLabels, labels).Success?
    ensures ID in rawTest.columns && ID in rawTestLabels.columns
    ensures PreprocessData(rawTrain, rawTest, rawTestLabels, labels).value.1.records
      == KeepScored(JoinRecords(SetIndex(rawTest, ID).value.records, SetIndex(rawTestLabels, ID).value.records,
                                SetIndex(rawTestLabels, ID).value.columns), labels)
  {
    PreprocessStages(rawTrain, rawTest, rawTestLabels, labels);
  }

  /** After re-keying by `id`, the test and label tables share a column
      exactly when the raw tables share one other than `id`. */
  lemma IndexedOverlap(rawTest: Table, rawTestLabels: Table)
    requires ID in rawTest.columns && ID in rawTestLabels.columns
    ensures var test := SetIndex(rawTest, ID).value;
            var testLabels := SetIndex(rawTestLabels, ID).value;
      (exists c :: c in test.columns && c in testLabels.columns) <==>
      (exists c :: c in rawTest.columns && c in rawTestLabels.columns && c != ID)
  {
    var test := SetIndex(rawTest, ID).value;
    var testLabels := SetIndex(rawTestLabels, ID).value;
    if c :| c in test.columns && c in testLabels.columns {
      assert c in ColumnSet(test.columns) && c in ColumnSet(testLabels.columns);
    }
    if c :| c in rawTest.columns && c in rawTestLabels.columns && c != ID {
      assert c in ColumnSet(rawTest.columns) - {ID} && c in ColumnSet(rawTestLabels.columns) - {ID};
      assert c in test.columns;
    }
  }

  /** After the join, a name is a column exactly when it is a column of the
      raw test or label table other than `id`. */
  lemma JoinedColumns(rawTest: Table, rawTestLabels: Table)
    requires ID in rawTest.columns && ID in rawTestLabels.columns
    requires Join(SetIndex(rawTest, ID).value, SetIndex(rawTestLabels, ID).value).Success?
    ensures forall c :: c in Join(SetIndex(rawTest, ID).value, SetIndex(rawTestLabels, ID).value).value.columns <==>
      c != ID && (c in rawTest.columns || c in rawTestLabels.columns)
  {
    var test := SetIndex(rawTest, ID).value;
    var testLabels := SetIndex(rawTestLabels, ID).value;
    var joined := Join(test, testLabels).value;
    forall c ensures c in joined.columns <==> c != ID && (c in rawTest.columns || c in rawTestLabels.columns) {
      assert c in joined.columns <==> c in ColumnSet(test.columns) || c in ColumnSet(testLabels.columns);
    }
  }

  /**
   * When preprocessing succeeds: every raw table has an `id` column, the
   * test and label tables share no other column (the join gives no
   * suffixes), and every label is a column of one of them other than `id`.
   */
  lemma PreprocessSucceedsIff(rawTrain: Table, rawTest: Table, rawTestLabels: Table, labels: seq<string>)
    ensures PreprocessData(rawTrain, rawTest, rawTestLabels, labels).Success? <==>
      && ID in rawTrain.columns && ID in rawTest.columns && ID in rawTestLabels.columns
      && (forall c :: c in rawTest.columns && c in rawTestLabels.columns ==> c == ID)
      && (forall l :: l in labels ==> l != ID && (l in rawTest.columns || l in rawTestLabels.columns))
  {
    if ID in rawTrain.columns && ID in rawTest.columns && ID in rawTestLabels.columns {
      var test := SetIndex(rawTest, ID).value;
      var testLabels := SetIndex(rawTestLabels, ID).value;
      IndexedOverlap(rawTest, rawTestLabels);
      if Join(test, testLabels).Success? {
        JoinedColumns(rawTest, rawTestLabels);
      }
    }
  }

  /** Re-keying the train table keeps every row in order, with the same
      cells apart from `id`, whose value becomes the row's key. */
  lemma PreprocessKeepsTrainRows(rawTrain: Table, rawTest: Table, rawTestLabels: Table, labels: seq<string>)
    requires PreprocessData(rawTrain, rawTest, rawTestLabels, labels).Success?
    ensures var train := PreprocessData(rawTrain, rawTest, rawTestLabels, labels).value.0;
      && ID in rawTrain.columns
      && KeysOf(train.records) == ColumnValues(rawTrain, ID)
      && forall i :: 0 <= i < |rawTrain.records| ==>
           forall c :: c in rawTrain.columns && c != ID ==>
             c in train.records[i].cells && train.records[i].cells[c] == rawTrain.records[i].cells[c]
  {
    PreprocessStages(rawTrain, rawTest, rawTestLabels, labels);
    SetIndexKeepsCells(rawTrain, ID);
  }

  /** Every preprocessed test row's key is the id of a raw test row. */
  lemma PreprocessTestKeysFromRawTest(rawTrain: Table, rawTest: Table, rawTestLabels: Table, labels: seq<string>)
    requires PreprocessData(rawTrain, rawTest, rawTestLabels, labels).Success?
    ensures ID in rawTest.columns
    ensures forall m :: m in PreprocessData(rawTrain, rawTest, rawTestLabels, labels).value.1.records ==>
      m.key in ColumnValues(rawTest, ID)
  {
    PreprocessStages(rawTrain, rawTest, rawTestLabels, labels);
    var test := SetIndex(rawTest, ID).value;
    var testLabels := SetIndex(rawTestLabels, ID).value;
    JoinKeysFromLeft(test.records, testLabels.records, testLabels.columns);
  }

  /**
   * When the label ids are unique, the join keeps the test rows one for one,
   * so the preprocessed test ids are the raw test ids with the unscored ones
   * left out, in their original order; and each joined row carries the labels
   * of the label row with its id, or missing values when there is none.
   */
  lemma PreprocessTestOrder(rawTrain: Table, rawTest: Table, rawTestLabels: Table, labels: seq<string>)
    requires PreprocessData(rawTrain, rawTest, rawTestLabels, labels).Success?
    requires ID in rawTestLabels.columns && UniqueKeys(SetIndex(rawTestLabels, ID).value.records)
    ensures ID in rawTest.columns
    ensures IsSubsequence(KeysOf(PreprocessData(rawTrain, rawTest, rawTestLabels, labels).value.1.records),
                          ColumnValues(rawTest, ID))
    ensures var test := SetIndex(rawTest, ID).value;
            var testLabels := SetIndex(rawTestLabels, ID).value;
            var joined := JoinRecords(test.records, testLabels.records, testLabels.columns);
      && |joined| == |rawTest.records|
      && forall i :: 0 <= i < |joined| ==>
           joined[i] == Record(rawTest.records[i].cells[ID],
                               test.records[i].cells + RightCells(testLabels.records, rawTest.records[i].cells[ID], testLabels.columns))
  {
    PreprocessStages(rawTrain, rawTest, rawTestLabels, labels);
    var test := SetIndex(rawTest, ID).value;
    var testLabels := SetIndex(rawTestLabels, ID).value;
    var joined := JoinRecords(test.records, testLabels.records, testLabels.columns);
    JoinUniqueKeys(test.records, testLabels.records, testLabels.columns);
    KeepScoredIsSubsequence(joined, labels);
    var kept := KeepScored(joined, labels);
    SubsequenceKeys(kept, joined);
    assert KeysOf(joined) == KeysOf(test.records);
  }

  // ---------------------------------------------------------------------
  // _preprocessed_data_is_valid
  // ---------------------------------------------------------------------

  predicate IsBinary(c: Cell) {
    c == Int(0) || c == Int(1)
  }

  /** Every label cell of every row is 0 or 1. */
  predicate LabelsBinary(t: Table, labels: seq<string>) {
    forall i, l :: 0 <= i < |t.records| && l in labels ==>
      l in t.records[i].cells && IsBinary(t.records[i].cells[l])
  }

  function ExpectedColumns(input: string, labels: seq<string>): set<string> {
    {input} + ColumnSet(labels)
  }

  /**
   * The validator: runs its checks in order and raises the error of the first
   * that fails; otherwise returns true. It never returns false. Selecting the
   * label columns of the test table raises a KeyError when one is missing.
   */
  function Validate(train: Table, test: Table, input: string, labels: seq<string>): (r: Result<bool, Error>)
    ensures r.Success? ==> r.value
    ensures r.Success? <==>
      && |train.records| > 0 && |test.records| > 0
      && train.indexName == Some(ID) && test.indexName == Some(ID)
      && input in train.columns
      && (forall l :: l in labels ==> l in train.columns)
      && LabelsBinary(train, labels)
      && LabelsBinary(test, labels)
      && ColumnSet(train.columns) == ExpectedColumns(input, labels)
  {
    if |train.records| == 0 then Failure(TrainEmpty)
    else if |test.records| == 0 then Failure(TestEmpty)
    else if train.indexName != Some(ID) then Failure(IndexNotId)
    else if test.indexName != Some(ID) then Failure(IndexNotId)
    else if input !in train.columns then Failure(InputNotColumn(input))
    else if Missing(train.columns, labels) != [] then Failure(LabelsNotColumns)
    else if !LabelsBinary(train, labels) then Failure(LabelsNotBinary)
    else if Missing(test.columns, labels) != [] then
      assert !LabelsBinary(test, labels) by {
        var l := Missing(test.columns, labels)[0];
        assert l in labels && l !in test.records[0].cells;
      }
      Failure(Pandas(KeyError(Missing(test.columns, labels))))
    else if !LabelsBinary(test, labels) then Failure(LabelsNotBinary)
    else if ColumnSet(train.columns) != ExpectedColumns(input, labels) then
      Failure(UnexpectedColumns(ExpectedColumns(input, labels), ColumnSet(train.columns)))
    else Success(true)
  }

  /** Every check the validator makes that the tables fail, in the
      validator's order: a report of all violations rather than the first. */
  function Violations(train: Table, test: Table, input: string, labels: seq<string>): seq<Error> {
    (if |train.records| == 0 then [TrainEmpty] else [])
    + (if |test.records| == 0 then [TestEmpty] else [])
    + (if train.indexName != Some(ID) || test.indexName != Some(ID) then [IndexNotId] else [])
    + (if input !in train.columns then [InputNotColumn(input)] else [])
    + (if exists l :: l in labels && l !in train.columns then [LabelsNotColumns] else [])
    + (if !LabelsBinary(train, labels) then [LabelsNotBinary] else [])
    + (if exists l :: l in labels && l !in test.columns then [Pandas(KeyError(Missing(test.columns, labels)))]
       else if !LabelsBinary(test, labels) then [LabelsNotBinary] else [])
    + (if ColumnSet(train.columns) != ExpectedColumns(input, labels)
       then [UnexpectedColumns(ExpectedColumns(input, labels), ColumnSet(train.columns))] else [])
  }

  /** The validator succeeds exactly when there is no violation, and
      otherwise raises the first one. */
  lemma ValidateReportsFirstViolation(train: Table, test: Table, input: string, labels: seq<string>)
    ensures var vs := Violations(train, test, input, labels);
      Validate(train, test, input, labels) == if vs == [] then Success(true) else Failure(vs[0])
  {
  }

  /**
   * A test row whose id has no label row survives the join with missing
   * label cells and is not dropped; it then fails the binary-label check,
   * so the validator never accepts such a preprocessing result.
   */
  lemma UnmatchedTestRowFailsValidation(rawTrain: Table, rawTest: Table, rawTestLabels: Table,
                                        input: string, labels: seq<string>, i: nat, l: string)
    requires ID in rawTest.columns && ID in rawTestLabels.columns
    requires i < |rawTest.records|
    requires forall j :: 0 <= j < |rawTestLabels.records| ==>
      rawTestLabels.records[j].cells[ID] != rawTest.records[i].cells[ID]
    requires l in labels && l in rawTestLabels.columns && l != ID
    requires PreprocessData(rawTrain, rawTest, rawTestLabels, labels).Success?
    ensures var r := PreprocessData(rawTrain, rawTest, rawTestLabels, labels).value;
      Validate(r.0, r.1, input, labels).Failure?
  {
    var r := PreprocessData(rawTrain, rawTest, rawTestLabels, labels).value;
    var rec := UnmatchedRowSurvives(rawTrain, rawTest, rawTestLabels, labels, i, l);
    NotBinaryRow(r.1, labels, rec, l);
  }

  /** The preprocessed test table keeps the joined row of such a test row,
      with a missing value under the label `l`. */
  lemma UnmatchedRowSurvives(rawTrain: Table, rawTest: Table, rawTestLabels: Table,
                             labels: seq<string>, i: nat, l: string) returns (rec: Record)
    requires ID in rawTest.columns && ID in rawTestLabels.columns
    requires i < |rawTest.records|
    requires forall j :: 0 <= j < |rawTestLabels.records| ==>
      rawTestLabels.records[j].cells[ID] != rawTest.records[i].cells[ID]
    requires l in labels && l in rawTestLabels.columns && l != ID
    requires PreprocessData(rawTrain, rawTest, rawTestLabels, labels).Success?
    ensures rec in PreprocessData(rawTrain, rawTest, rawTestLabels, labels).value.1.records
    ensures l in rec.cells && rec.cells[l] == NaN
  {
    PreprocessedTestRows(rawTrain, rawTest, rawTestLabels, labels);
    var test := SetIndex(rawTest, ID).value;
    var testLabels := SetIndex(rawTestLabels, ID).value;
    var joined := JoinRecords(test.records, testLabels.records, testLabels.columns);
    rec := UnmatchedRowJoined(rawTest, rawTestLabels, i);
    assert l in ColumnSet(testLabels.columns);
    assert rec.cells[l] == NaN;
    assert rec in KeepScored(joined, labels);
  }

  /** The joined row of a test row whose id has no label row. */
  lemma UnmatchedRowJoined(rawTest: Table, rawTestLabels: Table, i: nat) returns (rec: Record)
    requires ID in rawTest.columns && ID in rawTestLabels.columns
    requires i < |rawTest.records|
    requires forall j :: 0 <= j < |rawTestLabels.records| ==>
      rawTestLabels.records[j].cells[ID] != rawTest.records[i].cells[ID]
    ensures var test := SetIndex(rawTest, ID).value;
            var testLabels := SetIndex(rawTestLabels, ID).value;
      && rec in JoinRecords(test.records, testLabels.records, testLabels.columns)
      && rec.cells == test.records[i].cells + NaNRow(testLabels.columns)
  {
    var test := SetIndex(rawTest, ID).value;
    var testLabels := SetIndex(rawTestLabels, ID).value;
    var key := rawTest.records[i].cells[ID];
    assert test.records[i].key == key by {
      assert KeysOf(test.records)[i] == ColumnValues(rawTest, ID)[i];
    }
    forall m | m in testLabels.records ensures m.key != key {
      var j :| 0 <= j < |testLabels.records| && testLabels.records[j] == m;
      assert KeysOf(testLabels.records)[j] == ColumnValues(rawTestLabels, ID)[j];
    }
    JoinKeepsUnmatched(test.records, testLabels.records, testLabels.columns, i);
    rec := Record(key, test.records[i].cells + NaNRow(testLabels.columns));
  }

  lemma NotBinaryRow(t: Table, labels: seq<string>, rec: Record, l: string)
    requires rec in t.records && l in labels && l in rec.cells && !IsBinary(rec.cells[l])
    ensures !LabelsBinary(t, labels)
  {
    var k :| 0 <= k < |t.records| && t.records[k] == rec;
  }

  /** The preprocessing result always has `id` as both indexes, so the
      validator never rejects it for its index. */
  lemma PreprocessedIndexIsId(rawTrain: Table, rawTest: Table, rawTestLabels: Table,
                              input: string, labels: seq<string>)
    requires PreprocessData(rawTrain, rawTest, rawTestLabels, labels).Success?
    ensures var r := PreprocessData(rawTrain, rawTest, rawTestLabels, labels).value;
      Validate(r.0, r.1, input, labels) != Failure(IndexNotId)
  {
  }

  /** Every label cell of the row is 0 or 1. */
  predicate RowBinary(rec: Record, labels: seq<string>) {
    forall l :: l in labels ==> l in rec.cells && IsBinary(rec.cells[l])
  }

  /** A label row that is either entirely unscored or entirely 0 or 1. */
  predicate WellLabelled(rec: Record, labels: seq<string>) {
    Unscored(rec, labels) || RowBinary(rec, labels)
  }

  /** A joined row takes its label cells from the label row it was joined
      with, so it is unscored, or binary, when that label row is. */
  lemma JoinedRowVerdicts(rec: Record, left: map<string, Cell>, m: Record, labels: seq<string>)
    requires rec.cells == left + m.cells
    ensures Unscored(m, labels) ==> Unscored(rec, labels)
    ensures RowBinary(m, labels) ==> RowBinary(rec, labels)
  {
    forall l | l in labels && l in m.cells ensures l in rec.cells && rec.cells[l] == m.cells[l] {
    }
  }

  /** Re-keying a row leaves its label cells, and so its verdicts, as they were. */
  lemma RekeyedVerdicts(raw: Record, rec: Record, labels: seq<string>)
    requires ID !in labels && ID !in rec.cells && rec.cells[ID := rec.key] == raw.cells
    ensures Unscored(rec, labels) <==> Unscored(raw, labels)
    ensures RowBinary(rec, labels) <==> RowBinary(raw, labels)
  {
    forall l | l in labels
      ensures (l in rec.cells <==> l in raw.cells) && (l in rec.cells ==> rec.cells[l] == raw.cells[l])
    {
      assert l != ID;
    }
  }

  /**
   * When every left row has a label row with its key, no two label rows share
   * a key and every label row is well labelled, each row the filter keeps after
   * the join has 0 or 1 in every label.
   */
  lemma KeptRowsBinary(ts: seq<Record>, ls: seq<Record>, rightColumns: seq<string>, labels: seq<string>)
    requires UniqueKeys(ls)
    requires forall t :: t in ts ==> exists m :: m in ls && m.key == t.key
    requires forall m :: m in ls ==> WellLabelled(m, labels)
    ensures forall rec :: rec in KeepScored(JoinRecords(ts, ls, rightColumns), labels) ==> RowBinary(rec, labels)
  {
    var joined := JoinRecords(ts, ls, rightColumns);
    JoinUniqueKeys(ts, ls, rightColumns);
    forall rec | rec in KeepScored(joined, labels) ensures RowBinary(rec, labels) {
      var i :| 0 <= i < |joined| && joined[i] == rec;
      assert ts[i] in ts;
      var m := Lookup(ls, ts[i].key).value;
      assert rec.cells == ts[i].cells + m.cells;
      JoinedRowVerdicts(rec, ts[i].cells, m, labels);
    }
  }

  /** What the train side of the preprocessing result looks like to the
      validator, when the raw train table has the expected columns plus `id`
      and 0 or 1 in every label. */
  lemma PreprocessedTrainValid(rawTrain: Table, rawTest: Table, rawTestLabels: Table,
                               input: string, labels: seq<string>)
    requires PreprocessData(rawTrain, rawTest, rawTestLabels, labels).Success?
    requires ID !in ExpectedColumns(input, labels)
    requires ColumnSet(rawTrain.columns) == ExpectedColumns(input, labels) + {ID}
    requires forall i :: 0 <= i < |rawTrain.records| ==> RowBinary(rawTrain.records[i], labels)
    ensures var train := PreprocessData(rawTrain, rawTest, rawTestLabels, labels).value.0;
      && ColumnSet(train.columns) == ExpectedColumns(input, labels)
      && input in train.columns
      && (forall l :: l in labels ==> l in train.columns)
      && LabelsBinary(train, labels)
  {
    PreprocessStages(rawTrain, rawTest, rawTestLabels, labels);
    var train := SetIndex(rawTrain, ID).value;
    SetIndexKeepsCells(rawTrain, ID);
    forall i, l | 0 <= i < |train.records| && l in labels
      ensures l in train.records[i].cells && IsBinary(train.records[i].cells[l])
    {
      assert l in ColumnSet(rawTrain.columns) && l != ID;
    }
    assert input in ColumnSet(train.columns);
    forall l | l in labels ensures l in train.columns {
      assert l in ColumnSet(train.columns);
    }
  }

  /** Under the same conditions on the label table, every preprocessed test
      row has 0 or 1 in every label. */
  lemma PreprocessedTestBinary(rawTrain: Table, rawTest: Table, rawTestLabels: Table, labels: seq<string>)
    requires ID in rawTest.columns && ID in rawTestLabels.columns && ID !in labels
    requires PreprocessData(rawTrain, rawTest, rawTestLabels, labels).Success?
    requires forall i :: 0 <= i < |rawTest.records| ==>
      rawTest.records[i].cells[ID] in ColumnValues(rawTestLabels, ID)
    requires forall j, k :: 0 <= j < k < |rawTestLabels.records| ==>
      rawTestLabels.records[j].cells[ID] != rawTestLabels.records[k].cells[ID]
    requires forall j :: 0 <= j < |rawTestLabels.records| ==> WellLabelled(rawTestLabels.records[j], labels)
    ensures LabelsBinary(PreprocessData(rawTrain, rawTest, rawTestLabels, labels).value.1, labels)
  {
    var test := PreprocessData(rawTrain, rawTest, rawTestLabels, labels).value.1;
    assert forall rec :: rec in test.records ==> RowBinary(rec, labels) by {
      PreprocessedTestRows(rawTrain, rawTest, rawTestLabels, labels);
      RekeyedLabelRows(rawTestLabels, labels);
      RekeyedTestRowsMatched(rawTest, rawTestLabels);
      var testLabels := SetIndex(rawTestLabels, ID).value;
      KeptRowsBinary(SetIndex(rawTest, ID).value.records, testLabels.records, testLabels.columns, labels);
    }
    forall i, l | 0 <= i < |test.records| && l in labels
      ensures l in test.records[i].cells && IsBinary(test.records[i].cells[l])
    {
      assert test.records[i] in test.records;
    }
  }

  /** Re-keying a label table with distinct, well-labelled rows gives
      distinct keys and keeps every row well labelled. */
  lemma RekeyedLabelRows(rawTestLabels: Table, labels: seq<string>)
    requires ID in rawTestLabels.columns && ID !in labels
    requires forall j, k :: 0 <= j < k < |rawTestLabels.records| ==>
      rawTestLabels.records[j].cells[ID] != rawTestLabels.records[k].cells[ID]
    requires forall j :: 0 <= j < |rawTestLabels.records| ==> WellLabelled(rawTestLabels.records[j], labels)
    ensures var testLabels := SetIndex(rawTestLabels, ID).value;
      && UniqueKeys(testLabels.records)
      && forall m :: m in testLabels.records ==> WellLabelled(m, labels)
  {
    var testLabels := SetIndex(rawTestLabels, ID).value;
    forall j, k | 0 <= j < k < |testLabels.records| ensures testLabels.records[j].key != testLabels.records[k].key {
      assert KeysOf(testLabels.records)[j] == ColumnValues(rawTestLabels, ID)[j];
      assert KeysOf(testLabels.records)[k] == ColumnValues(rawTestLabels, ID)[k];
    }
    forall m | m in testLabels.records ensures WellLabelled(m, labels) {
      var j :| 0 <= j < |testLabels.records| && testLabels.records[j] == m;
      RekeyedVerdicts(rawTestLabels.records[j], m, labels);
    }
  }

  /** When every raw test id occurs in the label table, every re-keyed test
      row has a re-keyed label row with its key. */
  lemma RekeyedTestRowsMatched(rawTest: Table, rawTestLabels: Table)
    requires ID in rawTest.columns && ID in rawTestLabels.columns
    requires forall i :: 0 <= i < |rawTest.records| ==>
      rawTest.records[i].cells[ID] in ColumnValues(rawTestLabels, ID)
    ensures forall t :: t in SetIndex(rawTest, ID).value.records ==>
      exists m :: m in SetIndex(rawTestLabels, ID).value.records && m.key == t.key
  {
    var test := SetIndex(rawTest, ID).value;
    var testLabels := SetIndex(rawTestLabels, ID).value;
    forall t | t in test.records ensures exists m :: m in testLabels.records && m.key == t.key {
      var i :| 0 <= i < |test.records| && test.records[i] == t;
      assert KeysOf(test.records)[i] == ColumnValues(rawTest, ID)[i];
      var j :| 0 <= j < |rawTestLabels.records| && ColumnValues(rawTestLabels, ID)[j] == rawTest.records[i].cells[ID];
      assert KeysOf(testLabels.records)[j] == ColumnValues(rawTestLabels, ID)[j];
      assert testLabels.records[j] in testLabels.records;
    }
  }

  /**
   * The validator accepts what preprocessing makes of well-formed raw data:
   * a non-empty train table with exactly `id`, the input and the labels as
   * columns and 0 or 1 in every label, and a label table with one row per
   * test id, each row either unscored or binary. The only check left that
   * can fail is the one for an empty test table, when every test row was
   * unscored.
   */
  lemma PreprocessedDataValidates(rawTrain: Table, rawTest: Table, rawTestLabels: Table,
                                  input: string, labels: seq<string>)
    requires ID in rawTest.columns && ID in rawTestLabels.columns
    requires PreprocessData(rawTrain, rawTest, rawTestLabels, labels).Success?
    requires ID !in ExpectedColumns(input, labels)
    requires ColumnSet(rawTrain.columns) == ExpectedColumns(input, labels) + {ID}
    requires |rawTrain.records| > 0
    requires forall i :: 0 <= i < |rawTrain.records| ==> RowBinary(rawTrain.records[i], labels)
    requires forall i :: 0 <= i < |rawTest.records| ==>
      rawTest.records[i].cells[ID] in ColumnValues(rawTestLabels, ID)
    requires forall j, k :: 0 <= j < k < |rawTestLabels.records| ==>
      rawTestLabels.records[j].cells[ID] != rawTestLabels.records[k].cells[ID]
    requires forall j :: 0 <= j < |rawTestLabels.records| ==> WellLabelled(rawTestLabels.records[j], labels)
    ensures var r := PreprocessData(rawTrain, rawTest, rawTestLabels, labels).value;
      Validate(r.0, r.1, input, labels) == if |r.1.records| == 0 then Failure(TestEmpty) else Success(true)
  {
    var r := PreprocessData(rawTrain, rawTest, rawTestLabels, labels).value;
    PreprocessedTrainValid(rawTrain, rawTest, rawTestLabels, input, labels);
    assert ID !in labels by {
      assert ColumnSet(labels) <= ExpectedColumns(input, labels);
    }
    PreprocessedTestBinary(rawTrain, rawTest, rawTestLabels, labels);
  }
}
