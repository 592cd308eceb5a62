/**
 * Writing one datapoints table: the DDF file name built from the measure and
 * the key columns, and the coercion of `geo_area` and `year` to integers.
 */
module Datapoints {
  import opened Sequences
  import opened Tables

  const GeoArea := "geo_area"
  const Year := "year"

  /** One `ddf--datapoints--<measure>--by--<keys>.csv` file. */
  datatype DatapointsFile = DatapointsFile(name: string, table: Table)

  /** Python's `int(x)` of a float: truncation toward zero. */
  function Truncate(x: real): (n: int)
    ensures 0.0 <= x ==> 0 <= n && n as real <= x < n as real + 1.0
    ensures x < 0.0 ==> n <= 0 && n as real - 1.0 < x <= n as real
  {
    if x >= 0.0 then x.Floor else -((-x).Floor)
  }

  /** Python's `int(x)` of a cell; NaN and text have no value here. */
  function ToInt(c: Cell): Option<int>
  {
    match c
    case Int(i) => Some(i)
    case Real(x) => Some(Truncate(x))
    case _ => None
  }

  /** The column already has an integer dtype. */
  predicate IsIntColumn(rows: seq<Row>, k: nat)
    requires forall row :: row in rows ==> k < |row|
  {
    forall i :: 0 <= i < |rows| ==> rows[i][k].Int?
  }

  /** `rows[k].map(lambda x: int(x))`, failing on the first cell that has no integer value. */
  function ConvertColumn(rows: seq<Row>, k: nat, column: string): (r: Result<seq<Row>>)
    requires forall row :: row in rows ==> k < |row|
    ensures r.Ok? <==> forall i :: 0 <= i < |rows| ==> ToInt(rows[i][k]).Some?
    ensures r.Ok? ==> |r.value| == |rows|
    ensures r.Ok? ==> forall i :: 0 <= i < |rows| ==> r.value[i] == rows[i][k := Int(ToInt(rows[i][k]).value)]
    ensures r.Err? ==> r.failure.NotAnInteger? && r.failure.column == column && ToInt(r.failure.value).None?
  {
    if rows == [] then Ok([])
    else match ToInt(rows[0][k])
      case None => Err(NotAnInteger(column, rows[0][k]))
      case Some(n) =>
        match ConvertColumn(rows[1..], k, column)
        case Err(e) => Err(e)
        case Ok(rest) => Ok([rows[0][k := Int(n)]] + rest)
  }

  /** `if df[c].dtype != np.int: df[c] = df[c].map(lambda x: int(x))` */
  function CoerceColumn(rows: seq<Row>, k: nat, column: string): (r: Result<seq<Row>>)
    requires forall row :: row in rows ==> k < |row|
    ensures r.Ok? <==> forall i :: 0 <= i < |rows| ==> ToInt(rows[i][k]).Some?
    ensures r.Ok? ==> |r.value| == |rows|
    ensures r.Ok? ==> forall i :: 0 <= i < |rows| ==> r.value[i] == rows[i][k := Int(ToInt(rows[i][k]).value)]
    ensures r.Err? ==> r.failure.NotAnInteger? && r.failure.column == column && ToInt(r.failure.value).None?
  {
    if IsIntColumn(rows, k) then
      assert forall i :: 0 <= i < |rows| ==> rows[i] == rows[i][k := Int(ToInt(rows[i][k]).value)];
      Ok(rows)
    else ConvertColumn(rows, k, column)
  }

  /** `df[name]` as a single column: its position, or why there is none. */
  function Lookup(columns: seq<string>, name: string): (r: Result<nat>)
    ensures r.Ok? ==> r.value < |columns| && columns[r.value] == name
    ensures r.Ok? <==> name in columns && forall i, j :: 0 <= i < j < |columns| && columns[i] == name ==> columns[j] != name
    ensures r.Err? ==> r.failure == MissingColumn(name) || r.failure == AmbiguousColumn(name)
  {
    match IndexOf(columns, name)
    case None => Err(MissingColumn(name))
    case Some(k) =>
      if name in columns[k + 1..] then Err(AmbiguousColumn(name))
      else
        assert forall j :: k < j < |columns| ==> columns[j] == columns[k + 1..][j - k - 1];
        Ok(k)
  }

  /** `df.columns[:-1]`: every column but the last. */
  function AllButLast(columns: seq<string>): seq<string>
  {
    if columns == [] then [] else columns[..|columns| - 1]
  }

  /** The measure named in the file: the argument when it is non-empty, else the last column. */
  function MeasureOf(columns: seq<string>, concept: Option<string>): Option<string>
  {
    if concept.Some? && concept.value != "" then concept
    else if columns == [] then None
    else Some(columns[|columns| - 1])
  }

  function DatapointsFileName(concept: string, columns: seq<string>): string
  {
    "ddf--datapoints--" + concept + "--by--" + JoinWith("--", AllButLast(columns)) + ".csv"
  }

  /** `df[name] = df[name].map(int)` on the single column called `name`. */
  function CoerceNamed(columns: seq<string>, rows: seq<Row>, name: string): (r: Result<seq<Row>>)
    requires forall row :: row in rows ==> |row| == |columns|
    ensures r.Ok? <==> (Lookup(columns, name).Ok? &&
      forall i :: 0 <= i < |rows| ==> ToInt(rows[i][Lookup(columns, name).value]).Some?)
    ensures r.Ok? ==> |r.value| == |rows| && forall row :: row in r.value ==> |row| == |columns|
    ensures r.Ok? ==> forall i, j :: 0 <= i < |rows| && 0 <= j < |columns| ==>
      r.value[i][j] == if columns[j] == name then Int(ToInt(rows[i][j]).value) else rows[i][j]
  {
    match Lookup(columns, name)
    case Err(e) => Err(e)
    case Ok(k) =>
      match CoerceColumn(rows, k, name)
      case Err(e) => Err(e)
      case Ok(rows') =>
        assert forall i :: 0 <= i < |rows| ==> |rows'[i]| == |columns|;
        Ok(rows')
  }

  /** The table can be written: a measure name exists and both keys are single integer columns. */
  predicate Servable(t: Table, concept: Option<string>)
    requires t.WellFormed()
  {
    && MeasureOf(t.columns, concept).Some?
    && CoerceNamed(t.columns, t.rows, GeoArea).Ok?
    && CoerceNamed(t.columns, t.rows, Year).Ok?
  }

  /**
   * `serve_datapoints(df, concept)`: name the file after the measure and
   * every column but the last, and make `geo_area` and `year` integers.
   */
  function ServeDatapoints(t: Table, concept: Option<string>): (r: Result<DatapointsFile>)
    requires t.WellFormed()
    ensures r.Ok? <==> Servable(t, concept)
    ensures r.Ok? ==> r.value.name == DatapointsFileName(MeasureOf(t.columns, concept).value, t.columns)
    ensures r.Ok? ==> r.value.table.columns == t.columns && r.value.table.WellFormed()
    ensures r.Ok? ==> |r.value.table.rows| == |t.rows|
  {
    var measure := MeasureOf(t.columns, concept);
    if measure.None? then Err(NoColumns)
    else
      match CoerceNamed(t.columns, t.rows, GeoArea)
      case Err(e) => Err(e)
      case Ok(rows) =>
        YearUntouchedByGeo(t, rows);
        match CoerceNamed(t.columns, rows, Year)
        case Err(e) => Err(e)
        case Ok(rows') =>
          Ok(DatapointsFile(DatapointsFileName(measure.value, t.columns), Table(t.columns, rows')))
  }

  /** Written cells: `geo_area` and `year` as integers, every other cell as it was. */
  lemma ServedCells(t: Table, concept: Option<string>)
    requires t.WellFormed() && ServeDatapoints(t, concept).Ok?
    ensures forall i, j :: 0 <= i < |t.rows| && 0 <= j < |t.columns| ==>
      ServeDatapoints(t, concept).value.table.rows[i][j] ==
        if t.columns[j] in {GeoArea, Year} then Int(ToInt(t.rows[i][j]).value) else t.rows[i][j]
  {
    var rows := CoerceNamed(t.columns, t.rows, GeoArea).value;
    YearUntouchedByGeo(t, rows);
  }

  /** Coercing `geo_area` leaves the `year` column as it was. */
  lemma YearUntouchedByGeo(t: Table, rows: seq<Row>)
    requires t.WellFormed()
    requires CoerceNamed(t.columns, t.rows, GeoArea) == Ok(rows)
    ensures forall row :: row in rows ==> |row| == |t.columns|
    ensures CoerceNamed(t.columns, rows, Year).Ok? == CoerceNamed(t.columns, t.rows, Year).Ok?
  {
    if Lookup(t.columns, Year).Ok? {
      var y := Lookup(t.columns, Year).value;
      assert forall i :: 0 <= i < |rows| ==> rows[i][y] == t.rows[i][y];
    }
  }

  /** Without a measure argument the file is named after the last column. */
  lemma MeasureDefaultsToLastColumn(t: Table)
    requires t.WellFormed() && t.columns != []
    ensures ServeDatapoints(t, None) == ServeDatapoints(t, Some(t.columns[|t.columns| - 1]))
  {
    assert MeasureOf(t.columns, None) == MeasureOf(t.columns, Some(t.columns[|t.columns| - 1]));
  }

  /** After writing, both key columns hold integers, and integer cells keep their value. */
  lemma ServedKeysAreIntegers(t: Table, concept: Option<string>, i: nat, j: nat)
    requires t.WellFormed() && ServeDatapoints(t, concept).Ok?
    requires i < |t.rows| && j < |t.columns|
    ensures t.columns[j] in {GeoArea, Year} ==> ServeDatapoints(t, concept).value.table.rows[i][j].Int?
    ensures t.rows[i][j].Int? ==> ServeDatapoints(t, concept).value.table.rows[i][j] == t.rows[i][j]
    ensures t.rows[i][j].Real? && t.columns[j] in {GeoArea, Year} ==>
      ServeDatapoints(t, concept).value.table.rows[i][j] == Int(Truncate(t.rows[i][j].x))
  {
    ServedCells(t, concept);
  }

  /** A NaN in the time column stops the run when the table is written. */
  lemma MissingYearFails(t: Table, concept: Option<string>, i: nat)
    requires t.WellFormed() && Lookup(t.columns, Year).Ok?
    requires i < |t.rows| && t.rows[i][Lookup(t.columns, Year).value] == Missing
    ensures ServeDatapoints(t, concept).Err?
  {
    assert !CoerceNamed(t.columns, t.rows, Year).Ok?;
  }
}
