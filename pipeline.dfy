/**
 * The per-file loop of the ETL run and the writing steps after it. Each
 * source file whose name ends in ".csv" is checked, cut down to its key
 * and value columns, renamed, mined for dimension entities, and written as
 * one datapoints file. The entity files, the geo entities and both concept
 * catalogs follow. The first failure ends the run, and files written
 * before it stay written.
 */
module Pipeline {
  import opened Sequences
  import opened Tables
  import opened KeyColumns
  import opened SourceCheck
  import opened Entities
  import opened Datapoints
  import opened Concepts
  import opened Renaming

  /** One entry of the source directory: its name and its table as read. */
  datatype SourceFile = SourceFile(fileName: string, table: Table)

  predicate Readable(files: seq<SourceFile>) {
    forall f :: f in files ==> f.table.WellFormed()
  }

  /** Entity rows one file adds to one dimension. */
  datatype Update = Update(domain: string, rows: seq<Entity>)

  /** What one file yields: its entity updates in column order, and its datapoints file. */
  datatype Normalised = Normalised(updates: seq<Update>, datapoints: DatapointsFile)

  /** `check_source`, then `df[[*key_columns, 'Value']]`. */
  function Selected(t: Table, keys: seq<string>): (r: Result<Table>)
    requires t.WellFormed()
    ensures r.Ok? ==> r.value.columns == keys + [ValueColumn] && r.value.WellFormed()
  {
    match CheckSource(t, keys)
    case Err(e) => Err(e)
    case Ok(checked) => Project(checked.table, keys + [ValueColumn])
  }

  /** No other column has the name of column `j`, so `df_[c]` is one column. */
  predicate SingleAt(columns: seq<string>, j: nat)
    requires j < |columns|
  {
    forall k :: 0 <= k < |columns| && k != j ==> columns[k] != columns[j]
  }

  /** The first name among `columns[from..|columns|-1]` that labels several columns. */
  function FirstAmbiguous(columns: seq<string>, from: nat): (r: Option<string>)
    decreases |columns| - from
    ensures r.None? <==> forall j :: from <= j < |columns| - 1 ==> SingleAt(columns, j)
    ensures r.Some? ==> exists j :: from <= j < |columns| - 1 && columns[j] == r.value && !SingleAt(columns, j)
  {
    if from + 1 >= |columns| then None
    else if !SingleAt(columns, from) then Some(columns[from])
    else FirstAmbiguous(columns, from + 1)
  }

  /** The rows once the columns `2..n-1` hold the concept ids of their cells. */
  function IdsBefore(rows: seq<Row>, n: nat, toId: Cell -> string): (r: seq<Row>)
    ensures |r| == |rows|
    ensures forall i :: 0 <= i < |rows| ==> |r[i]| == |rows[i]|
    ensures forall i, k :: 0 <= i < |rows| && 0 <= k < |rows[i]| ==>
      r[i][k] == if 2 <= k < n then Text(toId(rows[i][k])) else rows[i][k]
  {
    seq(|rows|, i requires 0 <= i < |rows| =>
      seq(|rows[i]|, k requires 0 <= k < |rows[i]| =>
        if 2 <= k < n then Text(toId(rows[i][k])) else rows[i][k]))
  }

  /** One update per dimension column: the entities of its distinct values. */
  function DimensionUpdates(columns: seq<string>, rows: seq<Row>, toId: Cell -> string): (r: seq<Update>)
    requires |columns| >= 3 && forall row :: row in rows ==> |row| == |columns|
    ensures |r| == |columns| - 3
    ensures forall k :: 0 <= k < |r| ==>
      r[k] == Update(columns[k + 2], CreateEntity(columns[k + 2], Unique(Column(rows, k + 2)), toId))
  {
    seq(|columns| - 3, k requires 0 <= k < |columns| - 3 =>
      Update(columns[k + 2], CreateEntity(columns[k + 2], Unique(Column(rows, k + 2)), toId)))
  }

  /**
   * One source file, as the body of the loop in `main` handles it: the key
   * columns of its headers, the check, the selection, the renaming, the
   * entities of each dimension column, the conversion of those columns to
   * concept ids, and the datapoints file.
   */
  function NormaliseFile(f: SourceFile, toId: Cell -> string): Result<Normalised>
    requires f.table.WellFormed() && IsCsv(f.fileName)
  {
    var keys := KeyColumnsOf(f.table.columns);
    match Selected(f.table, keys)
    case Err(e) => Err(e)
    case Ok(df) => NormaliseSelected(df, keys, ConceptOf(f.fileName), toId)
  }

  /** The part of the loop body after the selection of the key and value columns. */
  function NormaliseSelected(df: Table, keys: seq<string>, concept: string, toId: Cell -> string): Result<Normalised>
    requires df.WellFormed() && df.columns == keys + [ValueColumn] && |keys| >= 2
  {
    var columns := RenamedColumns(keys, concept, toId);
    match FirstAmbiguous(columns, 2)
    case Some(c) => Err(AmbiguousColumn(c))
    case None =>
      match ServeDatapoints(Table(columns, IdsBefore(df.rows, |keys|, toId)), Some(concept))
      case Err(e) => Err(e)
      case Ok(file) => Ok(Normalised(DimensionUpdates(columns, df.rows, toId), file))
  }

  /** The rows that `us` files under `c`, in order. */
  function RowsFor(us: seq<Update>, c: string): seq<Entity>
  {
    if us == [] then []
    else RowsFor(us[..|us| - 1], c) + if us[|us| - 1].domain == c then us[|us| - 1].rows else []
  }

  /** The entity dictionary after recording `us` in order. */
  function ApplyUpdates(e: EntityMap, us: seq<Update>): (r: EntityMap)
    requires e.Valid()
    ensures r.Valid()
  {
    if us == [] then e
    else
      var last := us[|us| - 1];
      ApplyUpdates(e, us[..|us| - 1]).Record(last.domain, last.rows)
  }

  /** Each dimension receives, after what it had, exactly the rows `us` files under it, in order. */
  lemma {:induction false} ApplyUpdatesRows(e: EntityMap, us: seq<Update>, c: string)
    requires e.Valid()
    ensures ApplyUpdates(e, us).Rows(c) == e.Rows(c) + RowsFor(us, c)
  {
    if us != [] {
      var init := us[..|us| - 1];
      ApplyUpdatesRows(e, init, c);
    }
  }

  /**
   * The loop body of `main` on one ".csv" file, updating the entity
   * dictionary in place. A failure leaves the dictionary in whatever state
   * the loop reached; the run ends there and never writes it.
   */
  method ProcessFile(f: SourceFile, store: EntityStore, toId: Cell -> string) returns (r: Result<DatapointsFile>)
    requires f.table.WellFormed() && IsCsv(f.fileName) && store.Valid()
    modifies store
    ensures store.Valid()
    ensures NormaliseFile(f, toId).Err? ==> r == Err(NormaliseFile(f, toId).failure)
    ensures NormaliseFile(f, toId).Ok? ==>
      && r == Ok(NormaliseFile(f, toId).value.datapoints)
      && store.State() == ApplyUpdates(old(store.State()), NormaliseFile(f, toId).value.updates)
  {
    var keys, concept, selected, columns := SelectAndRename(f, toId);
    if selected.Err? {
      return Err(selected.failure);
    }
    r := WriteSelected(selected.value, keys, concept, columns, toId, store);
  }

  /**
   * The start of the loop body: the concept of the file name, the key
   * columns, the check, `df[[*key_columns, 'Value']]`, and the renamed
   * column names `[column_map[c] for c in df_.columns]`.
   */
  method SelectAndRename(f: SourceFile, toId: Cell -> string)
    returns (keys: seq<string>, concept: string, selected: Result<Table>, columns: seq<string>)
    requires f.table.WellFormed() && IsCsv(f.fileName)
    ensures keys == KeyColumnsOf(f.table.columns) && concept == ConceptOf(f.fileName)
    ensures selected == Selected(f.table, keys)
    ensures selected.Ok? ==> columns == RenamedColumns(keys, concept, toId)
  {
    var name := Stem(f.fileName);
    concept := Strings.Lower(name);
    keys := GetKeyColumns(f.table.columns);
    selected := SelectColumns(f.table, keys);
    if selected.Err? {
      return keys, concept, selected, [];
    }
    columns := RenameColumns(f.table.columns, keys, concept, toId);
  }

  /** The check of the source, then `df[[*key_columns, 'Value']]`. */
  method SelectColumns(t: Table, keys: seq<string>) returns (selected: Result<Table>)
    requires t.WellFormed()
    ensures selected == Selected(t, keys)
  {
    var checked := CheckSource(t, keys);
    if checked.Err? {
      return Err(checked.failure);
    }
    selected := Project(checked.value.table, keys + [ValueColumn]);
  }

  /** `column_map`, then `[column_map[c] for c in df_.columns]` over the selected columns. */
  method RenameColumns(headers: seq<string>, keys: seq<string>, concept: string, toId: Cell -> string)
    returns (columns: seq<string>)
    requires keys == KeyColumnsOf(headers)
    ensures |keys| >= 2 && columns == RenamedColumns(keys, concept, toId)
  {
    var columnMap := BuildColumnMap(keys, concept, toId);
    var names := keys + [ValueColumn];
    ColumnMapRenames(headers, concept, toId);
    columns := seq(|names|, j requires 0 <= j < |names| => columnMap[names[j]]);
  }

  /** The rest of the loop body: entities of the dimensions, then the datapoints file. */
  method WriteSelected(df: Table, keys: seq<string>, concept: string, columns: seq<string>,
                       toId: Cell -> string, store: EntityStore) returns (r: Result<DatapointsFile>)
    requires df.WellFormed() && df.columns == keys + [ValueColumn] && |keys| >= 2 && store.Valid()
    requires columns == RenamedColumns(keys, concept, toId)
    modifies store
    ensures store.Valid()
    ensures NormaliseSelected(df, keys, concept, toId).Err? ==>
      r == Err(NormaliseSelected(df, keys, concept, toId).failure)
    ensures NormaliseSelected(df, keys, concept, toId).Ok? ==>
      && r == Ok(NormaliseSelected(df, keys, concept, toId).value.datapoints)
      && store.State() == ApplyUpdates(old(store.State()), NormaliseSelected(df, keys, concept, toId).value.updates)
  {
    ghost var spec := NormaliseSelected(df, keys, concept, toId);
    ghost var t := Table(columns, IdsBefore(df.rows, |keys|, toId));
    NormaliseSelectedCases(df, keys, concept, toId);
    assert |columns| - 1 == |keys|;
    var rows, ambiguous := RecordDimensions(columns, df.rows, store, toId);
    if ambiguous.Some? {
      assert spec == Err(AmbiguousColumn(ambiguous.value));
      return Err(AmbiguousColumn(ambiguous.value));
    }
    assert rows == IdsBefore(df.rows, |keys|, toId);
    var served := ServeDatapoints(Table(columns, rows), Some(concept));
    if served.Err? {
      assert spec == Err(served.failure);
      return Err(served.failure);
    }
    assert spec == Ok(Normalised(DimensionUpdates(columns, df.rows, toId), served.value));
    return Ok(served.value);
  }

  /** How the rest of the loop body ends: at an ambiguous dimension, or as serving the converted table ends. */
  lemma NormaliseSelectedCases(df: Table, keys: seq<string>, concept: string, toId: Cell -> string)
    requires df.WellFormed() && df.columns == keys + [ValueColumn] && |keys| >= 2
    ensures var columns := RenamedColumns(keys, concept, toId);
      var t := Table(columns, IdsBefore(df.rows, |keys|, toId));
      && t.WellFormed()
      && NormaliseSelected(df, keys, concept, toId) ==
           if FirstAmbiguous(columns, 2).Some? then Err(AmbiguousColumn(FirstAmbiguous(columns, 2).value))
           else if ServeDatapoints(t, Some(concept)).Err? then Err(ServeDatapoints(t, Some(concept)).failure)
           else Ok(Normalised(DimensionUpdates(columns, df.rows, toId), ServeDatapoints(t, Some(concept)).value))
  {
    var t := Table(RenamedColumns(keys, concept, toId), IdsBefore(df.rows, |keys|, toId));
    assert t.WellFormed() by {
      assert forall i :: 0 <= i < |t.rows| ==> |t.rows[i]| == |t.columns|;
    }
  }

  /**
   * `for c in df_.columns[2:-1]`: record the entities of each dimension
   * column, then replace its cells by their concept ids. The loop stops at
   * the first column whose name labels several columns.
   */
  method RecordDimensions(columns: seq<string>, source: seq<Row>, store: EntityStore, toId: Cell -> string)
    returns (rows: seq<Row>, ambiguous: Option<string>)
    requires |columns| >= 3 && store.Valid()
    requires forall row :: row in source ==> |row| == |columns|
    modifies store
    ensures store.Valid()
    ensures ambiguous == FirstAmbiguous(columns, 2)
    ensures ambiguous.None? ==> rows == IdsBefore(source, |columns| - 1, toId)
    ensures ambiguous.None? ==>
      store.State() == ApplyUpdates(old(store.State()), DimensionUpdates(columns, source, toId))
  {
    ghost var updates := DimensionUpdates(columns, source, toId);
    rows := source;
    IdsBeforeStart(source, toId);
    var j := 2;
    while j < |columns| - 1
      invariant 2 <= j <= |columns| - 1
      invariant store.Valid()
      invariant FirstAmbiguous(columns, 2) == FirstAmbiguous(columns, j)
      invariant store.State() == ApplyUpdates(old(store.State()), updates[..j - 2])
      invariant rows == IdsBefore(source, j, toId)
    {
      var c := columns[j];
      if !SingleAt(columns, j) {
        return rows, Some(c);
      }
      RecordStep(old(store.State()), columns, source, toId, j);
      rows := RecordColumn(columns, source, store, toId, j, rows);
      j := j + 1;
    }
    assert updates[..j - 2] == updates;
    ambiguous := None;
  }

  /** `df_[c] = df_[c].map(to_concept_id)` for the column at `j`. */
  function ConvertToIds(rows: seq<Row>, j: nat, toId: Cell -> string): (r: seq<Row>)
    requires forall row :: row in rows ==> j < |row|
    ensures |r| == |rows|
    ensures forall i :: 0 <= i < |rows| ==> r[i] == rows[i][j := Text(toId(rows[i][j]))]
  {
    seq(|rows|, i requires 0 <= i < |rows| => rows[i][j := Text(toId(rows[i][j]))])
  }

  /**
   * One turn of the loop over the dimension columns: record the entities of
   * column `j`, then convert its cells to their concept ids.
   */
  method RecordColumn(columns: seq<string>, source: seq<Row>, store: EntityStore, toId: Cell -> string,
                      j: nat, rows: seq<Row>) returns (converted: seq<Row>)
    requires 2 <= j < |columns| - 1 && store.Valid()
    requires forall row :: row in source ==> |row| == |columns|
    requires rows == IdsBefore(source, j, toId)
    modifies store
    ensures store.Valid()
    ensures store.State() == old(store.State()).Record(columns[j], CreateEntity(columns[j], Unique(Column(source, j)), toId))
    ensures converted == IdsBefore(source, j + 1, toId)
  {
    ColumnNotYetConverted(source, j, toId);
    store.Record(columns[j], CreateEntity(columns[j], Unique(Column(rows, j)), toId));
    converted := ConvertToIds(rows, j, toId);
    IdsBeforeStep(source, j, toId);
  }

  /** Recording the update of dimension column `j` is one more `Record` of that column's entities. */
  lemma {:induction false} RecordStep(e: EntityMap, columns: seq<string>, source: seq<Row>, toId: Cell -> string, j: nat)
    requires e.Valid() && |columns| >= 3 && 2 <= j < |columns| - 1
    requires forall row :: row in source ==> |row| == |columns|
    ensures ApplyUpdates(e, DimensionUpdates(columns, source, toId)[..j - 1]) ==
      ApplyUpdates(e, DimensionUpdates(columns, source, toId)[..j - 2])
        .Record(columns[j], CreateEntity(columns[j], Unique(Column(source, j)), toId))
  {
    var us := DimensionUpdates(columns, source, toId);
    assert us[j - 2] == Update(columns[j], CreateEntity(columns[j], Unique(Column(source, j)), toId));
    ApplyUpdatesSnoc(e, us, j, columns[j], CreateEntity(columns[j], Unique(Column(source, j)), toId));
  }

  /** Recording the update at `j - 2` is one more `Record` of its rows. */
  lemma {:induction false} ApplyUpdatesSnoc(e: EntityMap, us: seq<Update>, j: nat, domain: string, rows: seq<Entity>)
    requires e.Valid() && 2 <= j && j - 1 <= |us| && us[j - 2] == Update(domain, rows)
    ensures ApplyUpdates(e, us[..j - 1]) == ApplyUpdates(e, us[..j - 2]).Record(domain, rows)
  {
    assert us[..j - 1][..j - 2] == us[..j - 2];
  }

  /** Column `j` is still as selected while the columns before it are converted. */
  lemma ColumnNotYetConverted(source: seq<Row>, j: nat, toId: Cell -> string)
    requires forall row :: row in source ==> j < |row|
    ensures Column(IdsBefore(source, j, toId), j) == Column(source, j)
  {
  }

  /** Before the first dimension column nothing is converted. */
  lemma IdsBeforeStart(source: seq<Row>, toId: Cell -> string)
    ensures IdsBefore(source, 2, toId) == source
  {
    var a := IdsBefore(source, 2, toId);
    forall i | 0 <= i < |source|
      ensures a[i] == source[i]
    {
      assert |a[i]| == |source[i]|;
    }
  }

  /** Converting column `j` extends the converted range by one column. */
  lemma IdsBeforeStep(source: seq<Row>, j: nat, toId: Cell -> string)
    requires 2 <= j && forall row :: row in source ==> j < |row|
    ensures ConvertToIds(IdsBefore(source, j, toId), j, toId) == IdsBefore(source, j + 1, toId)
  {
    var a, b := ConvertToIds(IdsBefore(source, j, toId), j, toId), IdsBefore(source, j + 1, toId);
    forall i | 0 <= i < |source|
      ensures a[i] == b[i]
    {
      assert |a[i]| == |b[i]|;
    }
  }

  /** The state carried from file to file: the entity dictionary and the datapoints files written. */
  datatype Progress = Progress(entities: EntityMap, written: seq<DatapointsFile>)

  /** The end of the loop over the source files: finished, or stopped by a failure. */
  datatype Outcome = Done(progress: Progress) | Aborted(written: seq<DatapointsFile>, failure: Failure)

  /** The loop state after a file went through: its updates recorded, its datapoints file written. */
  function Advance(p: Progress, n: Normalised): (r: Progress)
    requires p.entities.Valid()
    ensures r.entities.Valid()
  {
    Progress(ApplyUpdates(p.entities, n.updates), p.written + [n.datapoints])
  }

  /** The loop over the directory listing: skip what is not ".csv", stop at the first failure. */
  function Pass(files: seq<SourceFile>, p: Progress, toId: Cell -> string): (r: Outcome)
    requires Readable(files) && p.entities.Valid()
    ensures r.Done? ==> r.progress.entities.Valid()
  {
    if files == [] then Done(p)
    else if !IsCsv(files[0].fileName) then Pass(files[1..], p, toId)
    else match NormaliseFile(files[0], toId)
      case Err(e) => Aborted(p.written, e)
      case Ok(n) => Pass(files[1..], Advance(p, n), toId)
  }

  /** A file the run writes, in the order it writes them. */
  datatype OutFile =
    | DatapointsOut(datapoints: DatapointsFile)
    | EntitiesOut(entities: EntitiesFile)
    | GeoOut(geo: Table)                      // ddf--entities--geo_area.csv
    | ContinuousOut(measures: seq<MeasureConcept>)  // ddf--concepts--continuous.csv
    | DiscreteOut(concepts: seq<ConceptRow>)  // ddf--concepts--discrete.csv

  /** The files written, and the failure that ended the run early, if any. */
  datatype RunResult = RunResult(written: seq<OutFile>, failure: Option<Failure>)

  const GeoColumns := [GeoArea, "name"]

  function DatapointsOuts(ds: seq<DatapointsFile>): (r: seq<OutFile>)
    ensures |r| == |ds| && forall i :: 0 <= i < |ds| ==> r[i] == DatapointsOut(ds[i])
  {
    seq(|ds|, i requires 0 <= i < |ds| => DatapointsOut(ds[i]))
  }

  function EntitiesOuts(es: seq<EntitiesFile>): (r: seq<OutFile>)
    ensures |r| == |es| && forall i :: 0 <= i < |es| ==> r[i] == EntitiesOut(es[i])
  {
    seq(|es|, i requires 0 <= i < |es| => EntitiesOut(es[i]))
  }

  /**
   * After the loop: the entity files, the geo entities (whose two columns
   * are renamed `geo_area` and `name`), the measure concepts and the
   * discrete catalog. Renaming a geo table of another width fails before
   * the geo file; an empty series list fails after it, before either
   * catalog.
   */
  function Finish(p: Progress, geo: Table, series: seq<Series>, toId: Cell -> string): RunResult
    requires p.entities.Valid()
  {
    var written := DatapointsOuts(p.written) + EntitiesOuts(ServeEntities(p.entities));
    if |geo.columns| != |GeoColumns| then RunResult(written, Some(LengthMismatch(|GeoColumns|, |geo.columns|)))
    else
      var withGeo := written + [GeoOut(Table(GeoColumns, geo.rows))];
      match MeasureConcepts(series, toId)
      case Err(e) => RunResult(withGeo, Some(e))
      case Ok(measures) =>
        RunResult(withGeo + [ContinuousOut(measures), DiscreteOut(DiscreteCatalog(p.entities.order))], None)
  }

  /** What `main` writes, given the directory listing, the geo table and the series list. */
  function RunSpec(files: seq<SourceFile>, geo: Table, series: seq<Series>, toId: Cell -> string): RunResult
    requires Readable(files)
  {
    match Pass(files, Progress(NoEntities, []), toId)
    case Aborted(written, e) => RunResult(DatapointsOuts(written), Some(e))
    case Done(p) => Finish(p, geo, series, toId)
  }

  /** `main`: the loop over the source files, then the writing steps. */
  method Run(files: seq<SourceFile>, geo: Table, series: seq<Series>, toId: Cell -> string)
    returns (written: seq<OutFile>, failure: Option<Failure>)
    requires Readable(files)
    ensures RunResult(written, failure) == RunSpec(files, geo, series, toId)
  {
    var store := new EntityStore();
    var datapoints: seq<DatapointsFile> := [];
    for i := 0 to |files|
      invariant store.Valid()
      invariant Pass(files, Progress(NoEntities, []), toId) == Pass(files[i..], Progress(store.State(), datapoints), toId)
    {
      var f := files[i];
      assert files[i..][1..] == files[i + 1..];
      if !IsCsv(f.fileName) {
        continue;
      }
      var r := ProcessFile(f, store, toId);
      if r.Err? {
        return DatapointsOuts(datapoints), Some(r.failure);
      }
      datapoints := datapoints + [r.value];
    }
    written := DatapointsOuts(datapoints) + EntitiesOuts(ServeEntities(store.State()));
    if |geo.columns| != |GeoColumns| {
      return written, Some(LengthMismatch(|GeoColumns|, |geo.columns|));
    }
    written := written + [GeoOut(Table(GeoColumns, geo.rows))];
    var measures := MeasureConcepts(series, toId);
    if measures.Err? {
      return written, Some(measures.failure);
    }
    written := written + [ContinuousOut(measures.value), DiscreteOut(DiscreteCatalog(store.order))];
    failure := None;
  }
}
