/**
 * The mock tables of the test suite (five train rows, five test rows, five
 * test label rows of which ids 1, 3 and 5 carry -1 in every label), as read
 * into tables with a default positional index, and what preprocessing
 * makes of them.
 */
module MockData {
  import opened Wrappers
  import opened Frames
  import opened Preprocess

  const INPUT: string := "comment_text"

  const LABELS: seq<string> := ["toxic", "severe_toxic", "obscene", "threat", "insult", "identity_hate"]

  /** Row `i` of named columns: column `names[k]` holds `values[k][i]`. */
  function RowOf(names: seq<string>, values: seq<seq<Cell>>, i: nat): (m: map<string, Cell>)
    requires Distinct(names) && |values| == |names|
    requires forall k :: 0 <= k < |names| ==> i < |values[k]|
    ensures m.Keys == ColumnSet(names)
    ensures forall k :: 0 <= k < |names| ==> m[names[k]] == values[k][i]
  {
    map k | 0 <= k < |names| :: names[k] := values[k][i]
  }

  /**
   * A table built from named columns of `n` values each, as a data frame is
   * built from a dictionary of lists: no index name, rows keyed by position,
   * row `i` holding the `i`-th value of every column.
   */
  function FromColumns(names: seq<string>, values: seq<seq<Cell>>, n: nat): (f: Table)
    requires Distinct(names) && |values| == |names|
    requires forall k :: 0 <= k < |names| ==> |values[k]| == n
    ensures f.indexName == None && f.columns == names && |f.records| == n
    ensures forall i, k :: 0 <= i < n && 0 <= k < |names| ==>
      names[k] in f.records[i].cells && f.records[i].cells[names[k]] == values[k][i]
  {
    Frame(None, names, seq(n, i requires 0 <= i < n => Record(Int(i), RowOf(names, values, i))))
  }

  /** A row of a table built from columns is unscored for the columns after
      the first exactly when each of them holds -1 in that row. */
  lemma FromColumnsUnscored(names: seq<string>, values: seq<seq<Cell>>, n: nat, j: nat)
    requires Distinct(names) && |values| == |names| && 0 < |names|
    requires forall k :: 0 <= k < |names| ==> |values[k]| == n
    requires j < n
    ensures Unscored(FromColumns(names, values, n).records[j], names[1..])
      <==> forall k :: 1 <= k < |names| ==> values[k][j] == Int(SENTINEL)
  {
    var rec := FromColumns(names, values, n).records[j];
    if forall k :: 1 <= k < |names| ==> values[k][j] == Int(SENTINEL) {
      forall l | l in names[1..] ensures l in rec.cells && rec.cells[l] == Int(SENTINEL) {
        var k :| 0 <= k < |names[1..]| && names[1..][k] == l;
        assert names[k + 1] == l;
      }
    } else {
      var k :| 1 <= k < |names| && values[k][j] != Int(SENTINEL);
      assert names[k] in names[1..] by {
        assert names[1..][k - 1] == names[k];
      }
    }
  }

  /** A row of a table built from columns is binary for the columns from
      position `first` on when each of them holds 0 or 1 in that row. */
  lemma FromColumnsBinary(names: seq<string>, values: seq<seq<Cell>>, n: nat, j: nat, first: nat)
    requires Distinct(names) && |values| == |names| && first <= |names|
    requires forall k :: 0 <= k < |names| ==> |values[k]| == n
    requires j < n
    requires forall k :: first <= k < |names| ==> IsBinary(values[k][j])
    ensures RowBinary(FromColumns(names, values, n).records[j], names[first..])
  {
    var rec := FromColumns(names, values, n).records[j];
    forall l | l in names[first..] ensures l in rec.cells && IsBinary(rec.cells[l]) {
      var k :| 0 <= k < |names[first..]| && names[first..][k] == l;
      assert names[first + k] == l;
    }
  }

  lemma MockColumnsDistinct()
    ensures Distinct([ID, INPUT] + LABELS)
    ensures Distinct([ID] + LABELS)
  {
    assert [ID] + LABELS == ([ID, INPUT] + LABELS)[..1] + ([ID, INPUT] + LABELS)[2..];
  }

  /** The id column shared by the three mock tables. */
  function MockIds(): (ids: seq<Cell>)
    ensures |ids| == 5 && forall j :: 0 <= j < 5 ==> ids[j] == Int(j + 1)
  {
    [Int(1), Int(2), Int(3), Int(4), Int(5)]
  }

  /** The columns of the mock train table: the ids, the comments, then one
      list of values per label in the order of LABELS. */
  function MockTrainColumns(): (cs: seq<seq<Cell>>)
    ensures |cs| == 8 && cs[0] == MockIds() && forall k :: 0 <= k < 8 ==> |cs[k]| == 5
  {
    [MockIds(),
     [Str("This is a comment"), Str("This is another comment"), Str("Yet another comment"),
      Str("More comments here"), Str("Final comment")],
     [Int(0), Int(1), Int(0), Int(1), Int(0)],
     [Int(0), Int(0), Int(0), Int(0), Int(0)],
     [Int(0), Int(1), Int(0), Int(1), Int(0)],
     [Int(0), Int(0), Int(0), Int(0), Int(0)],
     [Int(0), Int(1), Int(0), Int(1), Int(0)],
     [Int(0), Int(0), Int(0), Int(0), Int(0)]]
  }

  function MockTrain(): Table {
    MockColumnsDistinct();
    FromColumns([ID, INPUT] + LABELS, MockTrainColumns(), 5)
  }

  function MockTest(): Table {
    FromColumns([ID, INPUT], [
      MockIds(),
      [Str("This is a test comment"), Str("This is another test comment"), Str("Yet another test comment"),
       Str("More test comments here"), Str("Final test comment")]], 5)
  }

  /** The columns of the mock test label table: the ids, then one list of
      values per label in the order of LABELS. */
  function MockTestLabelColumns(): (cs: seq<seq<Cell>>)
    ensures |cs| == 7 && cs[0] == MockIds() && forall k :: 0 <= k < 7 ==> |cs[k]| == 5
  {
    [MockIds(),
     [Int(-1), Int(0), Int(-1), Int(0), Int(-1)],
     [Int(-1), Int(1), Int(-1), Int(0), Int(-1)],
     [Int(-1), Int(0), Int(-1), Int(0), Int(-1)],
     [Int(-1), Int(0), Int(-1), Int(0), Int(-1)],
     [Int(-1), Int(1), Int(-1), Int(0), Int(-1)],
     [Int(-1), Int(0), Int(-1), Int(1), Int(-1)]]
  }

  function MockTestLabels(): Table {
    MockColumnsDistinct();
    FromColumns([ID] + LABELS, MockTestLabelColumns(), 5)
  }

  /** Row `j` of the mock label table carries the id and label values of
      row `j` of its columns. */
  lemma MockLabelCells(j: nat)
    requires j < 5
    ensures MockTestLabels().records[j].cells[ID] == MockTestLabelColumns()[0][j]
    ensures Unscored(MockTestLabels().records[j], LABELS)
      <==> forall k :: 1 <= k < 7 ==> MockTestLabelColumns()[k][j] == Int(SENTINEL)
  {
    MockColumnsDistinct();
    var names := [ID] + LABELS;
    assert names[1..] == LABELS && names[0] == ID;
    FromColumnsUnscored(names, MockTestLabelColumns(), 5, j);
  }

  /** The mock label row at position `j` has id j + 1 and is unscored
      exactly for ids 1, 3 and 5. */
  lemma MockLabelRow(j: nat)
    requires j < 5
    ensures MockTestLabels().records[j].cells[ID] == Int(j + 1)
    ensures Unscored(MockTestLabels().records[j], LABELS) <==> j % 2 == 0
  {
    MockLabelCells(j);
    MockLabelValues(j);
  }

  /** In the mock label columns, row `j` holds -1 under every label exactly
      when `j` is even. */
  lemma MockLabelValues(j: nat)
    requires j < 5
    ensures (forall k :: 1 <= k < 7 ==> MockTestLabelColumns()[k][j] == Int(SENTINEL)) <==> j % 2 == 0
  {
    var values := MockTestLabelColumns();
    if j == 1 {
      assert values[2][1] == Int(1);
    } else if j == 3 {
      assert values[6][3] == Int(1);
    } else {
      assert values[1][j] == Int(SENTINEL) && values[2][j] == Int(SENTINEL) && values[3][j] == Int(SENTINEL);
      assert values[4][j] == Int(SENTINEL) && values[5][j] == Int(SENTINEL) && values[6][j] == Int(SENTINEL);
    }
  }

  /** Two rows whose label cells agree are both unscored or both not. */
  lemma SameLabelsSameVerdict(a: Record, b: Record, labels: seq<string>)
    requires forall l :: l in labels ==> (l in a.cells <==> l in b.cells)
    requires forall l :: l in labels && l in a.cells ==> a.cells[l] == b.cells[l]
    ensures Unscored(a, labels) <==> Unscored(b, labels)
  {
  }

  /** The facts about the mock label table the scenario needs. */
  lemma MockLabelFacts()
    ensures MockTestLabels().columns == [ID] + LABELS
    ensures |MockTestLabels().records| == 5
    ensures forall j :: 0 <= j < 5 ==> MockTestLabels().records[j].cells[ID] == Int(j + 1)
    ensures forall j :: 0 <= j < 5 ==> (Unscored(MockTestLabels().records[j], LABELS) <==> j % 2 == 0)
  {
    forall j | 0 <= j < 5
      ensures MockTestLabels().records[j].cells[ID] == Int(j + 1)
      ensures Unscored(MockTestLabels().records[j], LABELS) <==> j % 2 == 0
    {
      MockLabelRow(j);
    }
  }

  /** The facts about the mock test table the scenario needs. */
  lemma MockTestFacts()
    ensures MockTest().columns == [ID, INPUT]
    ensures |MockTest().records| == 5
    ensures forall j :: 0 <= j < 5 ==> MockTest().records[j].cells[ID] == Int(j + 1)
  {
    forall j | 0 <= j < 5 ensures MockTest().records[j].cells[ID] == Int(j + 1) {
      assert [ID, INPUT][0] == ID && MockIds()[j] == Int(j + 1);
    }
  }

  /** Re-keying a table whose ids are 1..n gives keys 1..n, all distinct. */
  lemma IndexedByPosition(raw: Table)
    requires ID in raw.columns
    requires forall j :: 0 <= j < |raw.records| ==> raw.records[j].cells[ID] == Int(j + 1)
    ensures SetIndex(raw, ID).Success?
    ensures var t := SetIndex(raw, ID).value;
      && |t.records| == |raw.records|
      && UniqueKeys(t.records)
      && forall j :: 0 <= j < |raw.records| ==> t.records[j].key == Int(j + 1)
  {
    var t := SetIndex(raw, ID).value;
    forall j | 0 <= j < |raw.records| ensures t.records[j].key == Int(j + 1) {
      assert KeysOf(t.records)[j] == ColumnValues(raw, ID)[j];
    }
  }

  /** Re-keying does not change which rows are unscored when the key
      column is not a label. */
  lemma IndexedVerdict(raw: Table, labels: seq<string>, k: nat)
    requires ID in raw.columns && ID !in labels && k < |raw.records|
    ensures Unscored(SetIndex(raw, ID).value.records[k], labels) <==> Unscored(raw.records[k], labels)
  {
    var rec := SetIndex(raw, ID).value.records[k];
    assert rec.cells[ID := rec.key] == raw.records[k].cells;
    SameLabelsSameVerdict(rec, raw.records[k], labels);
  }

  /** When both keyed row sequences have keys 1..n, the joined row at
      position `j` has key j + 1 and is unscored exactly when label row `j` is. */
  lemma JoinedVerdict(ts: seq<Record>, ls: seq<Record>, rightColumns: seq<string>, labels: seq<string>, j: nat)
    requires |ts| == |ls| && j < |ts|
    requires forall k :: 0 <= k < |ts| ==> ts[k].key == Int(k + 1)
    requires forall k :: 0 <= k < |ls| ==> ls[k].key == Int(k + 1)
    requires forall l :: l in labels ==> l in ls[j].cells
    ensures var joined := JoinRecords(ts, ls, rightColumns);
      && |joined| == |ts|
      && joined[j].key == Int(j + 1)
      && (Unscored(joined[j], labels) <==> Unscored(ls[j], labels))
  {
    var joined := JoinRecords(ts, ls, rightColumns);
    assert UniqueKeys(ls);
    JoinUniqueKeys(ts, ls, rightColumns);
    var found := Lookup(ls, Int(j + 1));
    assert ls[j] in ls;
    assert found == Some(ls[j]) by {
      var k :| 0 <= k < |ls| && ls[k] == found.value;
    }
    assert joined[j].cells == ts[j].cells + ls[j].cells;
    SameLabelsSameVerdict(joined[j], ls[j], labels);
  }

  lemma KeepScoredStep(rs: seq<Record>, labels: seq<string>, k: nat)
    requires k < |rs|
    ensures KeepScored(rs[k..], labels)
      == (if Unscored(rs[k], labels) then [] else [rs[k]]) + KeepScored(rs[k + 1..], labels)
  {
    assert rs[k..][0] == rs[k] && rs[k..][1..] == rs[k + 1..];
  }

  lemma FiveRowsKeepSecondAndFourth(joined: seq<Record>, labels: seq<string>)
    requires |joined| == 5
    requires forall j :: 0 <= j < 5 ==> (Unscored(joined[j], labels) <==> j % 2 == 0)
    ensures KeepScored(joined, labels) == [joined[1], joined[3]]
  {
    assert KeepScored(joined[4..], labels) == [] by {
      KeepScoredStep(joined, labels, 4);
      assert joined[5..] == [];
    }
    assert KeepScored(joined[3..], labels) == [joined[3]] by {
      KeepScoredStep(joined, labels, 3);
    }
    assert KeepScored(joined[2..], labels) == [joined[3]] by {
      KeepScoredStep(joined, labels, 2);
    }
    assert KeepScored(joined[1..], labels) == [joined[1], joined[3]] by {
      KeepScoredStep(joined, labels, 1);
    }
    KeepScoredStep(joined, labels, 0);
    assert joined[0..] == joined;
  }

  /** The scored rows of the join of two five-row keyed sequences with
      keys 1..5, whose label rows are unscored at keys 1, 3 and 5, have keys
      2 and 4. */
  lemma FilteredJoinKeys(ts: seq<Record>, ls: seq<Record>, rightColumns: seq<string>, labels: seq<string>)
    requires |ts| == 5 && |ls| == 5
    requires forall k :: 0 <= k < 5 ==> ts[k].key == Int(k + 1)
    requires forall k :: 0 <= k < 5 ==> ls[k].key == Int(k + 1)
    requires forall k, l :: 0 <= k < 5 && l in labels ==> l in ls[k].cells
    requires forall k :: 0 <= k < 5 ==> (Unscored(ls[k], labels) <==> k % 2 == 0)
    ensures KeysOf(KeepScored(JoinRecords(ts, ls, rightColumns), labels)) == [Int(2), Int(4)]
  {
    var joined := JoinRecords(ts, ls, rightColumns);
    assert KeepScored(joined, labels) == [joined[1], joined[3]] by {
      forall j | 0 <= j < 5
        ensures |joined| == 5
        ensures Unscored(joined[j], labels) <==> j % 2 == 0
      {
        JoinedVerdict(ts, ls, rightColumns, labels, j);
      }
      JoinedVerdict(ts, ls, rightColumns, labels, 0);
      FiveRowsKeepSecondAndFourth(joined, labels);
    }
    assert joined[1].key == Int(2) && joined[3].key == Int(4) by {
      JoinedVerdict(ts, ls, rightColumns, labels, 1);
      JoinedVerdict(ts, ls, rightColumns, labels, 3);
    }
    assert KeysOf([joined[1], joined[3]]) == [Int(2), Int(4)];
  }

  /** The keyed versions of two tables shaped like the mock test tables. */
  lemma KeyedShape(rawTest: Table, rawLabels: Table, labels: seq<string>)
    requires ID in rawTest.columns && ID in rawLabels.columns
    requires forall l :: l in labels ==> l != ID && l in rawLabels.columns
    requires |rawTest.records| == 5 && |rawLabels.records| == 5
    requires forall k :: 0 <= k < 5 ==> rawTest.records[k].cells[ID] == Int(k + 1)
    requires forall k :: 0 <= k < 5 ==> rawLabels.records[k].cells[ID] == Int(k + 1)
    requires forall k :: 0 <= k < 5 ==> (Unscored(rawLabels.records[k], labels) <==> k % 2 == 0)
    ensures var ts := SetIndex(rawTest, ID).value.records;
            var ls := SetIndex(rawLabels, ID).value.records;
      && |ts| == 5 && |ls| == 5
      && (forall k :: 0 <= k < 5 ==> ts[k].key == Int(k + 1))
      && (forall k :: 0 <= k < 5 ==> ls[k].key == Int(k + 1))
      && (forall k, l :: 0 <= k < 5 && l in labels ==> l in ls[k].cells)
      && (forall k :: 0 <= k < 5 ==> (Unscored(ls[k], labels) <==> k % 2 == 0))
  {
    var lt := SetIndex(rawLabels, ID).value;
    IndexedByPosition(rawTest);
    IndexedByPosition(rawLabels);
    forall k | 0 <= k < 5 ensures Unscored(lt.records[k], labels) <==> k % 2 == 0 {
      IndexedVerdict(rawLabels, labels, k);
    }
    forall k, l | 0 <= k < 5 && l in labels ensures l in lt.records[k].cells {
      assert l in ColumnSet(lt.columns);
    }
  }

  /**
   * Any three tables shaped like the mock data: ids 1..5 in both test
   * tables, label rows unscored exactly at ids 1, 3 and 5, and columns that
   * let the join and the filter through. Preprocessing keeps ids 2 and 4.
   */
  lemma ScoredAtEvenIds(rawTrain: Table, rawTest: Table, rawLabels: Table, labels: seq<string>)
    requires ID in rawTrain.columns && ID in rawTest.columns && ID in rawLabels.columns
    requires forall c :: c in rawTest.columns && c in rawLabels.columns ==> c == ID
    requires forall l :: l in labels ==> l != ID && l in rawLabels.columns
    requires |rawTest.records| == 5 && |rawLabels.records| == 5
    requires forall k :: 0 <= k < 5 ==> rawTest.records[k].cells[ID] == Int(k + 1)
    requires forall k :: 0 <= k < 5 ==> rawLabels.records[k].cells[ID] == Int(k + 1)
    requires forall k :: 0 <= k < 5 ==> (Unscored(rawLabels.records[k], labels) <==> k % 2 == 0)
    ensures var r := PreprocessData(rawTrain, rawTest, rawLabels, labels);
      && r.Success?
      && |r.value.0.records| == |rawTrain.records|
      && KeysOf(r.value.1.records) == [Int(2), Int(4)]
  {
    PreprocessSucceedsIff(rawTrain, rawTest, rawLabels, labels);
    PreprocessedTestRows(rawTrain, rawTest, rawLabels, labels);
    var lt := SetIndex(rawLabels, ID).value;
    KeyedShape(rawTest, rawLabels, labels);
    FilteredJoinKeys(SetIndex(rawTest, ID).value.records, lt.records, lt.columns, labels);
  }

  /** The mock test and label tables share only `id`, and every label is a
      column of the label table. */
  lemma MockColumnsCompatible()
    ensures forall c :: c in MockTest().columns && c in MockTestLabels().columns ==> c == ID
    ensures forall l :: l in LABELS ==> l != ID && l in MockTestLabels().columns
  {
    assert MockTest().columns == [ID, INPUT];
    assert MockTestLabels().columns == [ID] + LABELS;
    KeyColumnsNotLabels();
  }

  /** Neither `id` nor the input is a label. */
  lemma KeyColumnsNotLabels()
    ensures ID !in LABELS && INPUT !in LABELS && ID != INPUT
  {
    MockColumnsDistinct();
    var columns := [ID, INPUT] + LABELS;
    forall k | 0 <= k < |LABELS| ensures LABELS[k] != ID && LABELS[k] != INPUT {
      assert columns[k + 2] == LABELS[k] && columns[0] == ID && columns[1] == INPUT;
    }
  }

  /** On the mock data the train table keeps its five rows and the test table
      keeps exactly ids 2 and 4, in that order. */
  lemma MockPreprocessKeepsIds2And4()
    ensures var r := PreprocessData(MockTrain(), MockTest(), MockTestLabels(), LABELS);
      && r.Success?
      && |r.value.0.records| == 5
      && KeysOf(r.value.1.records) == [Int(2), Int(4)]
  {
    MockTestFacts();
    MockLabelFacts();
    MockColumnsCompatible();
    assert ID in MockTrain().columns && |MockTrain().records| == 5;
    ScoredAtEvenIds(MockTrain(), MockTest(), MockTestLabels(), LABELS);
  }

  /** Every row of the mock train table has 0 or 1 in every label. */
  lemma MockTrainBinary()
    ensures MockTrain().columns == [ID, INPUT] + LABELS && |MockTrain().records| == 5
    ensures forall i :: 0 <= i < 5 ==> RowBinary(MockTrain().records[i], LABELS)
  {
    forall i | 0 <= i < 5 ensures RowBinary(MockTrain().records[i], LABELS) {
      MockColumnsDistinct();
      assert ([ID, INPUT] + LABELS)[2..] == LABELS;
      MockTrainValues(i);
      FromColumnsBinary([ID, INPUT] + LABELS, MockTrainColumns(), 5, i, 2);
    }
  }

  lemma MockTrainValues(i: nat)
    requires i < 5
    ensures forall k :: 2 <= k < 8 ==> IsBinary(MockTrainColumns()[k][i])
  {
    var values := MockTrainColumns();
    assert IsBinary(values[2][i]) && IsBinary(values[3][i]) && IsBinary(values[4][i]);
    assert IsBinary(values[5][i]) && IsBinary(values[6][i]) && IsBinary(values[7][i]);
  }

  /** Every mock label row is unscored or has 0 or 1 in every label. */
  lemma MockLabelsWellLabelled(j: nat)
    requires j < 5
    ensures WellLabelled(MockTestLabels().records[j], LABELS)
  {
    if j % 2 == 1 {
      var values := MockTestLabelColumns();
      assert forall k :: 1 <= k < 7 ==> IsBinary(values[k][j]) by {
        assert IsBinary(values[1][j]) && IsBinary(values[2][j]) && IsBinary(values[3][j]);
        assert IsBinary(values[4][j]) && IsBinary(values[5][j]) && IsBinary(values[6][j]);
      }
      MockColumnsDistinct();
      assert ([ID] + LABELS)[1..] == LABELS;
      FromColumnsBinary([ID] + LABELS, values, 5, j, 1);
    } else {
      MockLabelRow(j);
    }
  }

  /** The mock training table has exactly the expected columns plus the id,
      at least one row, and binary labels throughout. */
  lemma MockTrainFitForValidation()
    ensures ID !in ExpectedColumns(INPUT, LABELS)
    ensures ColumnSet(MockTrain().columns) == ExpectedColumns(INPUT, LABELS) + {ID}
    ensures |MockTrain().records| > 0
    ensures forall i :: 0 <= i < |MockTrain().records| ==> RowBinary(MockTrain().records[i], LABELS)
  {
    MockTrainBinary();
    KeyColumnsNotLabels();
  }

  /** Every mock test id has a label row. */
  lemma MockTestIdsMatched()
    ensures ID in MockTest().columns && ID in MockTestLabels().columns
    ensures forall i :: 0 <= i < |MockTest().records| ==>
      MockTest().records[i].cells[ID] in ColumnValues(MockTestLabels(), ID)
  {
    MockTestFacts();
    MockLabelFacts();
    forall i | 0 <= i < |MockTest().records|
      ensures MockTest().records[i].cells[ID] in ColumnValues(MockTestLabels(), ID)
    {
      assert ColumnValues(MockTestLabels(), ID)[i] == MockTest().records[i].cells[ID];
    }
  }

  /** The mock label ids are distinct, and every label row is unscored or binary. */
  lemma MockLabelRowsFit()
    ensures forall j, k :: 0 <= j < k < |MockTestLabels().records| ==>
      MockTestLabels().records[j].cells[ID] != MockTestLabels().records[k].cells[ID]
    ensures forall j :: 0 <= j < |MockTestLabels().records| ==> WellLabelled(MockTestLabels().records[j], LABELS)
  {
    MockLabelFacts();
    forall j | 0 <= j < 5 ensures WellLabelled(MockTestLabels().records[j], LABELS) {
      MockLabelsWellLabelled(j);
    }
  }

  /** The validator accepts what preprocessing makes of the mock data. */
  lemma MockPreprocessValidates()
    ensures var r := PreprocessData(MockTrain(), MockTest(), MockTestLabels(), LABELS);
      && r.Success?
      && Validate(r.value.0, r.value.1, INPUT, LABELS) == Success(true)
  {
    MockPreprocessKeepsIds2And4();
    var r := PreprocessData(MockTrain(), MockTest(), MockTestLabels(), LABELS).value;
    assert |r.1.records| == 2 by {
      assert |KeysOf(r.1.records)| == 2;
    }
    MockTrainFitForValidation();
    MockTestIdsMatched();
    MockLabelRowsFit();
    PreprocessedDataValidates(MockTrain(), MockTest(), MockTestLabels(), INPUT, LABELS);
  }
}
