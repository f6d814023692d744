/**
 * The tables the preprocessing stage works on, and the two table operations
 * it borrows from its dataframe library: re-keying a table by one of its
 * columns (`set_index`) and joining two tables on their keys (`join`, whose
 * default is a LEFT join).
 *
 * A table has an optional index name, an ordered list of distinct column
 * names, and a sequence of records. Each record carries its index value (its
 * key) and one cell per column.
 */
module Frames {
  import opened Wrappers

  /** A cell as read from CSV: text, an integer, or the missing value (NaN)
      that a left join writes where no label row matched. */
  datatype Cell = Str(text: string) | Int(value: int) | NaN

  /** One row: its index value and its cells, keyed by column name. */
  datatype Record = Record(key: Cell, cells: map<string, Cell>)

  datatype Frame = Frame(indexName: Option<string>, columns: seq<string>, records: seq<Record>)

  /** Errors the library raises inside the operations modelled here. */
  datatype FrameError =
    | KeyError(missing: seq<string>)        // a requested column is not in the table
    | ColumnsOverlap(overlap: seq<string>)  // `join` without suffixes on tables sharing a column

  predicate Distinct(s: seq<string>) {
    forall i, j :: 0 <= i < j < |s| ==> s[i] != s[j]
  }

  function ColumnSet(columns: seq<string>): set<string> {
    set c | c in columns
  }

  /** Every record has exactly one cell per column, and no column name repeats. */
  predicate WellFormed(f: Frame) {
    && Distinct(f.columns)
    && forall i :: 0 <= i < |f.records| ==> f.records[i].cells.Keys == ColumnSet(f.columns)
  }

  type Table = f: Frame | WellFormed(f) witness Frame(None, [], [])

  /** The index values of a sequence of records, in order. */
  function KeysOf(rs: seq<Record>): (ks: seq<Cell>)
    ensures |ks| == |rs|
    ensures forall i :: 0 <= i < |rs| ==> ks[i] == rs[i].key
  {
    seq(|rs|, i requires 0 <= i < |rs| => rs[i].key)
  }

  /** The values a table holds in one column, in row order. */
  function ColumnValues(f: Table, name: string): (vs: seq<Cell>)
    requires name in f.columns
    ensures |vs| == |f.records|
    ensures forall i :: 0 <= i < |f.records| ==> vs[i] == f.records[i].cells[name]
  {
    seq(|f.records|, i requires 0 <= i < |f.records| => f.records[i].cells[name])
  }

  /** `xs` is `ys` with some elements left out and the rest in their order. */
  predicate IsSubsequence<T(==)>(xs: seq<T>, ys: seq<T>)
    decreases |ys|
  {
    && |xs| <= |ys|
    && (|xs| == 0
        || (xs[0] == ys[0] && IsSubsequence(xs[1..], ys[1..]))
        || IsSubsequence(xs, ys[1..]))
  }

  /** The names among `names` that are not columns, in the order of `names`. */
  function Missing(columns: seq<string>, names: seq<string>): (r: seq<string>)
    ensures forall n :: n in r <==> n in names && n !in columns
    ensures r == [] <==> forall n :: n in names ==> n in columns
  {
    if names == [] then []
    else (if names[0] in columns then [] else [names[0]]) + Missing(columns, names[1..])
  }

  /** `columns` without `name`, the others kept in order. */
  function Without(columns: seq<string>, name: string): (r: seq<string>)
    ensures ColumnSet(r) == ColumnSet(columns) - {name}
    ensures Distinct(columns) ==> Distinct(r)
    ensures IsSubsequence(r, columns)
  {
    if columns == [] then []
    else if columns[0] == name then Without(columns[1..], name)
    else
      var rest := Without(columns[1..], name);
      assert ColumnSet(columns) == {columns[0]} + ColumnSet(columns[1..]);
      assert ColumnSet([columns[0]] + rest) == {columns[0]} + ColumnSet(rest);
      assert Distinct(columns) ==> columns[0] !in ColumnSet(columns[1..]);
      [columns[0]] + rest
  }

  /**
   * `set_index(name)`: the column `name` becomes the key of every row and
   * leaves the body; the index takes its name. Fails with a KeyError when the
   * table has no such column.
   */
  function SetIndex(f: Table, name: string): (r: Result<Table, FrameError>)
    ensures r.Failure? <==> name !in f.columns
    ensures r.Failure? ==> r.error == KeyError([name])
    ensures r.Success? ==>
      && r.value.indexName == Some(name)
      && name !in r.value.columns
      && ColumnSet(r.value.columns) == ColumnSet(f.columns) - {name}
      && IsSubsequence(r.value.columns, f.columns)
      && KeysOf(r.value.records) == ColumnValues(f, name)
    ensures r.Success? ==>
      forall i :: 0 <= i < |f.records| ==>
        && name !in r.value.records[i].cells
        && r.value.records[i].cells[name := r.value.records[i].key] == f.records[i].cells
  {
    if name !in f.columns then Failure(KeyError([name]))
    else
      var columns := Without(f.columns, name);
      var records := seq(|f.records|, i requires 0 <= i < |f.records| =>
        Record(f.records[i].cells[name], f.records[i].cells - {name}));
      assert forall i :: 0 <= i < |f.records| ==>
        records[i].cells[name := records[i].key] == f.records[i].cells;
      Success(Frame(Some(name), columns, records))
  }

  /** Re-keying moves the index column out of each row and leaves every
      other cell of the row, in the same position, as it was. */
  lemma SetIndexKeepsCells(f: Table, name: string)
    requires name in f.columns
    ensures SetIndex(f, name).Success?
    ensures var t := SetIndex(f, name).value;
      |t.records| == |f.records| &&
      forall i, c :: 0 <= i < |f.records| && c in f.columns && c != name ==>
        c in t.records[i].cells && t.records[i].cells[c] == f.records[i].cells[c]
  {
    var t := SetIndex(f, name).value;
    assert |KeysOf(t.records)| == |ColumnValues(f, name)|;
    forall i, c | 0 <= i < |f.records| && c in f.columns && c != name
      ensures c in t.records[i].cells && t.records[i].cells[c] == f.records[i].cells[c]
    {
      assert t.records[i].cells[name := t.records[i].key] == f.records[i].cells;
    }
  }

  /** The rows of `rs` whose key is `k`, in order. */
  function Matches(rs: seq<Record>, k: Cell): (r: seq<Record>)
    ensures forall m :: m in r <==> m in rs && m.key == k
    ensures r == [] <==> forall m :: m in rs ==> m.key != k
    ensures |r| <= |rs|
  {
    if rs == [] then []
    else (if rs[0].key == k then [rs[0]] else []) + Matches(rs[1..], k)
  }

  /** The first row of `rs` whose key is `k`, if there is one. */
  function Lookup(rs: seq<Record>, k: Cell): (r: Option<Record>)
    ensures r.Some? ==> r.value in rs && r.value.key == k
    ensures r.None? <==> forall m :: m in rs ==> m.key != k
  {
    if rs == [] then None
    else if rs[0].key == k then Some(rs[0])
    else Lookup(rs[1..], k)
  }

  predicate UniqueKeys(rs: seq<Record>) {
    forall i, j :: 0 <= i < j < |rs| ==> rs[i].key != rs[j].key
  }

  /** A body of missing values, one per column. */
  function NaNRow(columns: seq<string>): (m: map<string, Cell>)
    ensures m.Keys == ColumnSet(columns)
  {
    map c | c in ColumnSet(columns) :: NaN
  }

  /** The rows a left join produces for one left row: one per matching right
      row, or a single row with missing right-hand cells when none matches. */
  function JoinRow(l: Record, rs: seq<Record>, rightColumns: seq<string>): (r: seq<Record>)
    ensures |r| >= 1
  {
    var ms := Matches(rs, l.key);
    if ms == [] then [Record(l.key, l.cells + NaNRow(rightColumns))]
    else seq(|ms|, i requires 0 <= i < |ms| => Record(l.key, l.cells + ms[i].cells))
  }

  /** The rows of a left join, left rows in order, each followed by its matches. */
  function JoinRecords(ls: seq<Record>, rs: seq<Record>, rightColumns: seq<string>): (r: seq<Record>)
    ensures |r| >= |ls|
  {
    if ls == [] then []
    else JoinRow(ls[0], rs, rightColumns) + JoinRecords(ls[1..], rs, rightColumns)
  }

  /** The columns of `left` that `right` also has, in the order of `left`. */
  function Overlap(left: seq<string>, right: seq<string>): (r: seq<string>)
    ensures forall c :: c in r <==> c in left && c in right
  {
    if left == [] then []
    else (if left[0] in right then [left[0]] else []) + Overlap(left[1..], right)
  }

  lemma {:induction false} JoinRecordsShape(ls: seq<Record>, rs: seq<Record>, leftColumns: seq<string>, rightColumns: seq<string>)
    requires forall i :: 0 <= i < |ls| ==> ls[i].cells.Keys == ColumnSet(leftColumns)
    requires forall j :: 0 <= j < |rs| ==> rs[j].cells.Keys == ColumnSet(rightColumns)
    ensures forall i :: 0 <= i < |JoinRecords(ls, rs, rightColumns)| ==>
      JoinRecords(ls, rs, rightColumns)[i].cells.Keys == ColumnSet(leftColumns + rightColumns)
  {
    if ls != [] {
      JoinRecordsShape(ls[1..], rs, leftColumns, rightColumns);
      var l := ls[0];
      var ms := Matches(rs, l.key);
      var row := JoinRow(l, rs, rightColumns);
      forall k | 0 <= k < |row| ensures row[k].cells.Keys == ColumnSet(leftColumns + rightColumns) {
        if ms != [] {
          assert ms[k] in rs;
        }
      }
    }
  }

  lemma DistinctConcat(a: seq<string>, b: seq<string>)
    requires Distinct(a) && Distinct(b)
    requires forall c :: c in a ==> c !in b
    ensures Distinct(a + b)
  {
    forall i, j | 0 <= i < j < |a + b| ensures (a + b)[i] != (a + b)[j] {
      if i < |a| && j >= |a| {
        assert (a + b)[i] in a && (a + b)[j] in b;
      }
    }
  }

  /**
   * `left.join(right)`: a LEFT join on the index. Every left row is kept in
   * order; it is followed by one row per right row with the same key, or by a
   * single row whose right-hand cells are missing when there is none. Fails
   * when the two tables share a column name, since no suffix is given.
   */
  function Join(left: Table, right: Table): (r: Result<Table, FrameError>)
    ensures r.Failure? <==> exists c :: c in left.columns && c in right.columns
    ensures r.Failure? ==> r.error == ColumnsOverlap(Overlap(left.columns, right.columns))
    ensures r.Success? ==>
      && r.value.indexName == left.indexName
      && r.value.columns == left.columns + right.columns
      && |r.value.records| >= |left.records|
  {
    var overlap := Overlap(left.columns, right.columns);
    if overlap != [] then
      assert overlap[0] in left.columns && overlap[0] in right.columns;
      Failure(ColumnsOverlap(overlap))
    else
      var records := JoinRecords(left.records, right.records, right.columns);
      JoinRecordsShape(left.records, right.records, left.columns, right.columns);
      DistinctConcat(left.columns, right.columns);
      Success(Frame(left.indexName, left.columns + right.columns, records))
  }

  /** The right-hand cells a left join gives a row with key `k` when the right
      keys are unique: those of its match, or missing values. */
  function RightCells(rs: seq<Record>, k: Cell, rightColumns: seq<string>): map<string, Cell> {
    match Lookup(rs, k)
    case Some(m) => m.cells
    case None => NaNRow(rightColumns)
  }

  lemma {:induction false} MatchesUnique(rs: seq<Record>, k: Cell)
    requires UniqueKeys(rs)
    ensures Matches(rs, k) == (match Lookup(rs, k) case Some(m) => [m] case None => [])
  {
    if rs != [] {
      MatchesUnique(rs[1..], k);
      if rs[0].key == k {
        assert forall m :: m in rs[1..] ==> m.key != k by {
          forall m | m in rs[1..] ensures m.key != k {
            var j :| 0 <= j < |rs[1..]| && rs[1..][j] == m;
            assert rs[0].key != rs[j + 1].key;
          }
        }
      }
    }
  }

  lemma JoinRowUnique(l: Record, rs: seq<Record>, rightColumns: seq<string>)
    requires UniqueKeys(rs)
    ensures JoinRow(l, rs, rightColumns) == [Record(l.key, l.cells + RightCells(rs, l.key, rightColumns))]
  {
    MatchesUnique(rs, l.key);
  }

  /** With unique right keys the left join keeps the left rows one for one:
      same length, same keys in the same order, each row extended by the
      cells of its match or by missing values. */
  lemma {:induction false} JoinUniqueKeys(ls: seq<Record>, rs: seq<Record>, rightColumns: seq<string>)
    requires UniqueKeys(rs)
    ensures |JoinRecords(ls, rs, rightColumns)| == |ls|
    ensures forall i :: 0 <= i < |ls| ==>
      JoinRecords(ls, rs, rightColumns)[i] == Record(ls[i].key, ls[i].cells + RightCells(rs, ls[i].key, rightColumns))
  {
    if ls != [] {
      JoinUniqueKeys(ls[1..], rs, rightColumns);
      JoinRowUnique(ls[0], rs, rightColumns);
      var tail := JoinRecords(ls[1..], rs, rightColumns);
      var j := JoinRecords(ls, rs, rightColumns);
      assert j == [Record(ls[0].key, ls[0].cells + RightCells(rs, ls[0].key, rightColumns))] + tail;
      forall i | 0 <= i < |ls|
        ensures j[i] == Record(ls[i].key, ls[i].cells + RightCells(rs, ls[i].key, rightColumns))
      {
        if i > 0 {
          assert j[i] == tail[i - 1];
          assert ls[1..][i - 1] == ls[i];
        }
      }
    }
  }

  /** A left row with no matching right row survives the join, with missing
      values in every right-hand column, whatever the right keys are. */
  lemma {:induction false} JoinKeepsUnmatched(ls: seq<Record>, rs: seq<Record>, rightColumns: seq<string>, i: nat)
    requires i < |ls|
    requires forall m :: m in rs ==> m.key != ls[i].key
    ensures Record(ls[i].key, ls[i].cells + NaNRow(rightColumns)) in JoinRecords(ls, rs, rightColumns)
  {
    if i == 0 {
      assert Matches(rs, ls[0].key) == [];
      assert JoinRecords(ls, rs, rightColumns)[0] == Record(ls[0].key, ls[0].cells + NaNRow(rightColumns));
    } else {
      assert ls[1..][i - 1] == ls[i];
      JoinKeepsUnmatched(ls[1..], rs, rightColumns, i - 1);
    }
  }

  /** Every row of a left join comes from a left row: its key is a left key. */
  lemma {:induction false} JoinKeysFromLeft(ls: seq<Record>, rs: seq<Record>, rightColumns: seq<string>)
    ensures forall m :: m in JoinRecords(ls, rs, rightColumns) ==> m.key in KeysOf(ls)
  {
    if ls != [] {
      JoinKeysFromLeft(ls[1..], rs, rightColumns);
      assert KeysOf(ls) == [ls[0].key] + KeysOf(ls[1..]);
    }
  }
}
