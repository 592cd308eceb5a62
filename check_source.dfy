/**
 * The source check: a series published under several goals carries one row
 * set per indicator label, and only the rows of the first row's label are
 * kept. Missing time periods and repeated key tuples are only reported;
 * their rows stay.
 */
module SourceCheck {
  import opened Sequences
  import opened Tables
  import KeyColumns

  const IndicatorColumn := "Indicator"

  /** A checked table with the two diagnostics the check prints. */
  datatype Checked = Checked(table: Table, timeHasNaN: bool, duplicateKeys: bool)

  /** pandas' element-wise `==` against a label: NaN equals nothing, not even NaN. */
  predicate SameLabel(a: Cell, first: Cell) {
    first != Missing && a == first
  }

  /** `rows[rows[k] == first]`: the rows whose cell `k` equals `first`, in order. */
  function KeepLabel(rows: seq<Row>, k: nat, first: Cell): (r: seq<Row>)
    requires forall row :: row in rows ==> k < |row|
    ensures forall row :: row in r <==> row in rows && SameLabel(row[k], first)
  {
    if rows == [] then []
    else
      var init, last := rows[..|rows| - 1], rows[|rows| - 1];
      assert rows == init + [last];
      KeepLabel(init, k, first) + if SameLabel(last[k], first) then [last] else []
  }

  /** Filtering distributes over concatenation: relative order is kept. */
  lemma {:induction false} KeepLabelAppend(a: seq<Row>, b: seq<Row>, k: nat, first: Cell)
    requires forall row :: row in a + b ==> k < |row|
    ensures KeepLabel(a + b, k, first) == KeepLabel(a, k, first) + KeepLabel(b, k, first)
  {
    if b == [] {
      assert a + b == a;
    } else {
      var b' := b[..|b| - 1];
      assert (a + b)[..|a + b| - 1] == a + b';
      KeepLabelAppend(a, b', k, first);
    }
  }

  /** The key tuple of a row. */
  function KeyOf(row: Row, ks: seq<nat>): seq<Cell>
    requires forall j :: 0 <= j < |ks| ==> ks[j] < |row|
  {
    seq(|ks|, j requires 0 <= j < |ks| => row[ks[j]])
  }

  /** `df.duplicated(subset=key_columns).any()` */
  predicate HasDuplicateKeys(rows: seq<Row>, ks: seq<nat>)
    requires forall row, j :: row in rows && 0 <= j < |ks| ==> ks[j] < |row|
  {
    exists i, j :: 0 <= i < j < |rows| && KeyOf(rows[i], ks) == KeyOf(rows[j], ks)
  }

  /** `df[column].hasnans` */
  predicate HasMissing(rows: seq<Row>, k: nat)
    requires forall row :: row in rows ==> k < |row|
  {
    exists i :: 0 <= i < |rows| && rows[i][k] == Missing
  }

  /** More than one distinct label in column `k`. */
  predicate SeveralLabels(t: Table, k: nat)
    requires t.WellFormed() && k < |t.columns|
  {
    |t.rows| > 0 && |Unique(Column(t.rows, k))| > 1
  }

  /** `check_source`: keep the first indicator's rows, then compute the diagnostics. */
  function CheckSource(t: Table, keyColumns: seq<string>): (r: Result<Checked>)
    requires t.WellFormed()
    ensures r.Err? <==> IndicatorColumn !in t.columns || KeyColumns.TimeKey !in t.columns
                        || exists c :: c in keyColumns && c !in t.columns
    ensures r.Ok? ==> r.value.table.columns == t.columns && r.value.table.WellFormed()
    ensures r.Ok? ==>
      var ind := IndexOf(t.columns, IndicatorColumn).value;
      && (!SeveralLabels(t, ind) ==> r.value.table.rows == t.rows)
      && (SeveralLabels(t, ind) ==> r.value.table.rows == KeepLabel(t.rows, ind, t.rows[0][ind]))
    ensures r.Ok? ==>
      r.value.timeHasNaN == HasMissing(r.value.table.rows, IndexOf(t.columns, KeyColumns.TimeKey).value)
    ensures r.Ok? ==>
      r.value.duplicateKeys == HasDuplicateKeys(r.value.table.rows, Positions(t.columns, keyColumns).value)
  {
    match IndexOf(t.columns, IndicatorColumn)
    case None => Err(MissingColumn(IndicatorColumn))
    case Some(ind) =>
      var df := if SeveralLabels(t, ind) then Table(t.columns, KeepLabel(t.rows, ind, t.rows[0][ind])) else t;
      assert df.WellFormed();
      match IndexOf(t.columns, KeyColumns.TimeKey)
      case None => Err(MissingColumn(KeyColumns.TimeKey))
      case Some(time) =>
        match Positions(t.columns, keyColumns)
        case Err(e) => Err(e)
        case Ok(ks) =>
          assert forall row, j :: row in df.rows && 0 <= j < |ks| ==> ks[j] < |row|;
          Ok(Checked(df, HasMissing(df.rows, time), HasDuplicateKeys(df.rows, ks)))
  }

  /**
   * A row survives the check exactly when the table has a single indicator
   * label or the row carries the first row's label; its time and key cells
   * play no part.
   */
  lemma CheckSourceRetains(t: Table, keyColumns: seq<string>, row: Row)
    requires t.WellFormed() && CheckSource(t, keyColumns).Ok?
    ensures var ind := IndexOf(t.columns, IndicatorColumn).value;
      row in CheckSource(t, keyColumns).value.table.rows <==>
        row in t.rows && (!SeveralLabels(t, ind) || SameLabel(row[ind], t.rows[0][ind]))
  {
  }

  /** A row without a time period is kept (and reported) whenever its label is kept. */
  lemma MissingTimeIsReportedNotDropped(t: Table, keyColumns: seq<string>, row: Row)
    requires t.WellFormed() && CheckSource(t, keyColumns).Ok?
    requires row in t.rows && row[IndexOf(t.columns, KeyColumns.TimeKey).value] == Missing
    requires var ind := IndexOf(t.columns, IndicatorColumn).value;
      !SeveralLabels(t, ind) || SameLabel(row[ind], t.rows[0][ind])
    ensures row in CheckSource(t, keyColumns).value.table.rows
    ensures CheckSource(t, keyColumns).value.timeHasNaN
  {
    var c := CheckSource(t, keyColumns).value;
    var time := IndexOf(t.columns, KeyColumns.TimeKey).value;
    CheckSourceRetains(t, keyColumns, row);
    var i :| 0 <= i < |c.table.rows| && c.table.rows[i] == row;
    assert c.table.rows[i][time] == Missing;
  }

  /**
   * With one indicator label, duplicated key tuples are reported and every
   * row is returned.
   */
  lemma DuplicatesAreReportedNotDropped(t: Table, keyColumns: seq<string>)
    requires t.WellFormed() && CheckSource(t, keyColumns).Ok?
    requires !SeveralLabels(t, IndexOf(t.columns, IndicatorColumn).value)
    ensures CheckSource(t, keyColumns).value.table == t
    ensures CheckSource(t, keyColumns).value.duplicateKeys ==
      HasDuplicateKeys(t.rows, Positions(t.columns, keyColumns).value)
  {
  }

  /**
   * When the first row's label is NaN and the table holds other labels too,
   * pandas' NaN comparison keeps no row at all.
   */
  lemma NaNFirstLabelKeepsNothing(t: Table, keyColumns: seq<string>)
    requires t.WellFormed() && CheckSource(t, keyColumns).Ok?
    requires var ind := IndexOf(t.columns, IndicatorColumn).value;
      SeveralLabels(t, ind) && t.rows[0][ind] == Missing
    ensures CheckSource(t, keyColumns).value.table.rows == []
  {
    KeepNaNLabelIsEmpty(t.rows, IndexOf(t.columns, IndicatorColumn).value);
  }

  lemma {:induction false} KeepNaNLabelIsEmpty(rows: seq<Row>, k: nat)
    requires forall row :: row in rows ==> k < |row|
    ensures KeepLabel(rows, k, Missing) == []
  {
    if rows != [] {
      KeepNaNLabelIsEmpty(rows[..|rows| - 1], k);
    }
  }

  /** The example of a series under indicators "A", "A", "B": the two "A" rows remain, in order. */
  lemma KeepsFirstIndicatorExample()
    ensures CheckSource(ExampleTable(), [KeyColumns.GeoKey, KeyColumns.TimeKey])
      == Ok(Checked(Table(ExampleTable().columns, ExampleTable().rows[..2]), false, false))
  {
    var t := ExampleTable();
    ExampleLookups();
    ExampleFilter();
    ExampleDiagnostics();
    assert IndexOf(t.columns, IndicatorColumn) == Some(2);
  }

  lemma ExampleLookups()
    ensures IndexOf(ExampleTable().columns, IndicatorColumn) == Some(2)
    ensures IndexOf(ExampleTable().columns, KeyColumns.TimeKey) == Some(1)
    ensures Positions(ExampleTable().columns, [KeyColumns.GeoKey, KeyColumns.TimeKey]) == Ok([0, 1])
  {
    var cols := ExampleTable().columns;
    assert IndexOf(cols, IndicatorColumn) == Some(2);
    assert IndexOf(cols, KeyColumns.TimeKey) == Some(1);
    assert IndexOf(cols, KeyColumns.GeoKey) == Some(0);
    var keys := [KeyColumns.GeoKey, KeyColumns.TimeKey];
    assert keys[1..] == [KeyColumns.TimeKey] && keys[1..][1..] == [];
    assert Positions(cols, keys[1..][1..]) == Ok([]);
    var tail := Positions(cols, keys[1..]);
    assert tail.Ok? && tail.value == [1];
    var all := Positions(cols, keys);
    assert all.Ok? && all.value == [0, 1];
  }

  lemma ExampleFilter()
    ensures SeveralLabels(ExampleTable(), 2)
    ensures KeepLabel(ExampleTable().rows, 2, ExampleTable().rows[0][2]) == ExampleTable().rows[..2]
  {
    ExampleLabels();
    var t := ExampleTable();
    var a1, a2, b := t.rows[0], t.rows[1], t.rows[2];
    assert t.rows == [a1, a2, b];
    ExampleKeep(a1, a2, b);
  }

  lemma ExampleLabels()
    ensures SeveralLabels(ExampleTable(), 2)
  {
    var t := ExampleTable();
    var labels := Column(t.rows, 2);
    assert labels == [Text("A"), Text("A"), Text("B")];
    assert Text("A") in Unique(labels) && Text("B") in Unique(labels);
  }

  lemma ExampleKeep(a1: Row, a2: Row, b: Row)
    requires |a1| == |a2| == |b| == 4
    requires a1[2] == a2[2] == Text("A") && b[2] == Text("B")
    ensures KeepLabel([a1, a2, b], 2, a1[2]) == [a1, a2]
  {
    assert [a1, a2, b][..2] == [a1, a2] && [a1, a2][..1] == [a1] && [a1][..0] == [];
    assert KeepLabel([a1], 2, a1[2]) == [a1];
    assert KeepLabel([a1, a2], 2, a1[2]) == [a1, a2];
  }

  lemma ExampleDiagnostics()
    ensures !HasDuplicateKeys(ExampleTable().rows[..2], [0, 1])
    ensures !HasMissing(ExampleTable().rows[..2], 1)
  {
    var rows := ExampleTable().rows[..2];
    assert KeyOf(rows[0], [0, 1])[0] != KeyOf(rows[1], [0, 1])[0];
  }

  /** A series published under two indicators, "A" on two rows and "B" on one. */
  function ExampleTable(): (t: Table)
    ensures t.WellFormed()
  {
    Table([KeyColumns.GeoKey, KeyColumns.TimeKey, IndicatorColumn, "Value"],
          [[Int(4), Int(2015), Text("A"), Real(1.0)],
           [Int(8), Int(2015), Text("A"), Real(2.0)],
           [Int(4), Int(2015), Text("B"), Real(1.0)]])
  }
}
