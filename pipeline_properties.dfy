/**
 * What one source file that goes through yields: distinctly named columns,
 * a datapoints file named after its concept and key columns with integer
 * `geo_area` and `year` cells, and dimension cells that are identifiers of
 * the entities its own updates record.
 */
module PipelineProperties {
  import opened Sequences
  import opened Tables
  import opened KeyColumns
  import opened Entities
  import opened Datapoints
  import opened Concepts
  import opened Renaming
  import opened Pipeline

  // ---------------------------------------------------------------------
  // One file
  // ---------------------------------------------------------------------

  /** The datapoints table of a selected file before it is written. */
  function Prepared(df: Table, keys: seq<string>, concept: string, toId: Cell -> string): Table
    requires |keys| >= 2
  {
    Table(RenamedColumns(keys, concept, toId), IdsBefore(df.rows, |keys|, toId))
  }

  /** A file that goes through was selected, has no ambiguous dimension, and was servable. */
  lemma NormaliseFileOk(f: SourceFile, toId: Cell -> string)
    requires f.table.WellFormed() && IsCsv(f.fileName) && NormaliseFile(f, toId).Ok?
    ensures
      var keys := KeyColumnsOf(f.table.columns);
      var concept := ConceptOf(f.fileName);
      var columns := RenamedColumns(keys, concept, toId);
      && Selected(f.table, keys).Ok?
      && var df := Selected(f.table, keys).value;
      && FirstAmbiguous(columns, 2).None?
      && Prepared(df, keys, concept, toId).WellFormed()
      && ServeDatapoints(Prepared(df, keys, concept, toId), Some(concept)).Ok?
      && NormaliseFile(f, toId).value ==
           Normalised(DimensionUpdates(columns, df.rows, toId),
                      ServeDatapoints(Prepared(df, keys, concept, toId), Some(concept)).value)
  {
  }

  /**
   * Renamed columns are distinct when no dimension name is repeated and
   * `geo_area` and `year` each label one column.
   */
  lemma RenamedDistinct(columns: seq<string>)
    requires |columns| >= 3 && columns[0] == GeoArea && columns[1] == Year
    requires FirstAmbiguous(columns, 2).None?
    requires Lookup(columns, GeoArea).Ok? && Lookup(columns, Year).Ok?
    ensures Distinct(columns)
  {
    forall a, b | 0 <= a < b < |columns|
      ensures columns[a] != columns[b]
    {
      if 2 <= a < |columns| - 1 {
        assert SingleAt(columns, a);
      } else if 2 <= b < |columns| - 1 {
        assert SingleAt(columns, b);
      }
    }
  }

  /**
   * The prepared table has distinctly named columns `geo_area`, `year`, the
   * dimension ids and the concept, and once served it is named after the
   * concept and those columns and holds integer `geo_area` and `year` cells.
   */
  lemma PreparedShape(df: Table, keys: seq<string>, concept: string, toId: Cell -> string)
    requires |keys| >= 2
    requires FirstAmbiguous(RenamedColumns(keys, concept, toId), 2).None?
    requires Prepared(df, keys, concept, toId).WellFormed()
    requires ServeDatapoints(Prepared(df, keys, concept, toId), Some(concept)).Ok?
    ensures
      var columns := RenamedColumns(keys, concept, toId);
      var w := ServeDatapoints(Prepared(df, keys, concept, toId), Some(concept)).value;
      && Distinct(columns)
      && w.table.columns == columns
      && w.name == DatapointsFileName(concept, columns)
      && |w.table.rows| == |df.rows|
      && (forall i :: 0 <= i < |w.table.rows| ==>
            |w.table.rows[i]| == |columns| && w.table.rows[i][0].Int? && w.table.rows[i][1].Int?)
  {
    var columns := RenamedColumns(keys, concept, toId);
    var t := Prepared(df, keys, concept, toId);
    assert MeasureOf(columns, Some(concept)) == Some(concept);
    RenamedDistinct(columns);
    IntKeys(t, Some(concept));
  }

  lemma IntKeys(t: Table, concept: Option<string>)
    requires t.WellFormed() && |t.columns| >= 2 && t.columns[0] == GeoArea && t.columns[1] == Year
    requires ServeDatapoints(t, concept).Ok?
    ensures forall i :: 0 <= i < |t.rows| ==>
      ServeDatapoints(t, concept).value.table.rows[i][0].Int? && ServeDatapoints(t, concept).value.table.rows[i][1].Int?
  {
    forall i | 0 <= i < |t.rows|
      ensures ServeDatapoints(t, concept).value.table.rows[i][0].Int?
      ensures ServeDatapoints(t, concept).value.table.rows[i][1].Int?
    {
      ServedKeysAreIntegers(t, concept, i, 0);
      ServedKeysAreIntegers(t, concept, i, 1);
    }
  }

  /**
   * A file that goes through yields distinctly named columns `geo_area`,
   * `year`, the dimension ids and the concept; one entity update per
   * dimension and none without dimensions; a file named after the concept
   * and the key columns; and integer `geo_area` and `year` cells.
   */
  lemma NormalisedFileShape(f: SourceFile, toId: Cell -> string)
    requires f.table.WellFormed() && IsCsv(f.fileName) && NormaliseFile(f, toId).Ok?
    ensures
      var keys := KeyColumnsOf(f.table.columns);
      var concept := ConceptOf(f.fileName);
      var columns := RenamedColumns(keys, concept, toId);
      var n := NormaliseFile(f, toId).value;
      && Selected(f.table, keys).Ok?
      && n.datapoints.table.columns == columns
      && Distinct(columns)
      && |n.updates| == |keys| - 2
      && (forall k :: 0 <= k < |n.updates| ==> n.updates[k].domain == columns[k + 2])
      && n.datapoints.name == DatapointsFileName(concept, columns)
      && |n.datapoints.table.rows| == |Selected(f.table, keys).value.rows|
      && (forall i :: 0 <= i < |n.datapoints.table.rows| ==>
            |n.datapoints.table.rows[i]| == |columns|
            && n.datapoints.table.rows[i][0].Int? && n.datapoints.table.rows[i][1].Int?)
  {
    NormaliseFileOk(f, toId);
    var keys := KeyColumnsOf(f.table.columns);
    var concept := ConceptOf(f.fileName);
    var df := Selected(f.table, keys).value;
    var n := NormaliseFile(f, toId).value;
    assert n.datapoints == ServeDatapoints(Prepared(df, keys, concept, toId), Some(concept)).value;
    assert n.updates == DimensionUpdates(RenamedColumns(keys, concept, toId), df.rows, toId);
    PreparedShape(df, keys, concept, toId);
  }

  /**
   * A datapoints file over `geo_area`, `year`, dimensions and a measure is
   * named `ddf--datapoints--<concept>--by--geo_area--year` followed by
   * `--<dimension>` for each dimension, in column order.
   */
  lemma DatapointsFileNameSpelled(concept: string, columns: seq<string>)
    requires |columns| >= 3 && columns[0] == GeoArea && columns[1] == Year
    ensures
      var dims := columns[2..|columns| - 1];
      DatapointsFileName(concept, columns) ==
        "ddf--datapoints--" + concept + "--by--" + GeoArea + "--" + Year
        + (if dims == [] then "" else "--" + JoinWith("--", dims)) + ".csv"
  {
    var dims := columns[2..|columns| - 1];
    assert AllButLast(columns) == [GeoArea, Year] + dims;
    JoinWithPair("--", GeoArea, Year, dims);
  }

  /**
   * The datapoints file of a source file `<stem>.csv` is named
   * `ddf--datapoints--<stem lower-cased>--by--geo_area--year` followed by
   * `--<id>` for each dimension, in key order.
   */
  lemma DatapointsFileNamed(f: SourceFile, toId: Cell -> string)
    requires f.table.WellFormed() && IsCsv(f.fileName) && NormaliseFile(f, toId).Ok?
    ensures
      var keys := KeyColumnsOf(f.table.columns);
      var dims := RenamedColumns(keys, ConceptOf(f.fileName), toId)[2..|keys|];
      NormaliseFile(f, toId).value.datapoints.name ==
        "ddf--datapoints--" + ConceptOf(f.fileName) + "--by--" + GeoArea + "--" + Year
        + (if dims == [] then "" else "--" + JoinWith("--", dims)) + ".csv"
  {
    NormalisedFileShape(f, toId);
    var keys := KeyColumnsOf(f.table.columns);
    DatapointsFileNameSpelled(ConceptOf(f.fileName), RenamedColumns(keys, ConceptOf(f.fileName), toId));
  }

  /**
   * Every dimension cell of `w` is the identifier of an entity filed under
   * its column; a column named `name` is left out, since its entities carry
   * no identifier.
   */
  ghost predicate Refers(w: DatapointsFile, e: EntityMap)
  {
    forall i, j :: 0 <= i < |w.table.rows| && 2 <= j < |w.table.columns| - 1 && j < |w.table.rows[i]|
                   && w.table.columns[j] != NameColumn ==>
      IsEntityId(w.table.rows[i][j], e.Rows(w.table.columns[j]))
  }

  /** The cell is `Text` of the identifier of one of `rows`. */
  ghost predicate IsEntityId(cell: Cell, rows: seq<Entity>)
  {
    exists k :: 0 <= k < |rows| && rows[k].Entity? && cell == Text(rows[k].id)
  }

  /** `later` holds every row of `earlier`, as a prefix, under every dimension. */
  ghost predicate Extends(later: EntityMap, earlier: EntityMap)
  {
    forall c :: |earlier.Rows(c)| <= |later.Rows(c)| && later.Rows(c)[..|earlier.Rows(c)|] == earlier.Rows(c)
  }

  lemma ApplyUpdatesExtends(e: EntityMap, us: seq<Update>)
    requires e.Valid()
    ensures Extends(ApplyUpdates(e, us), e)
  {
    forall c
      ensures |e.Rows(c)| <= |ApplyUpdates(e, us).Rows(c)|
      ensures ApplyUpdates(e, us).Rows(c)[..|e.Rows(c)|] == e.Rows(c)
    {
      ApplyUpdatesRows(e, us, c);
    }
  }

  /** References stay valid as the dictionary grows. */
  lemma RefersGrows(w: DatapointsFile, e: EntityMap, later: EntityMap)
    requires Refers(w, e) && Extends(later, e)
    ensures Refers(w, later)
  {
    forall i, j | 0 <= i < |w.table.rows| && 2 <= j < |w.table.columns| - 1 && j < |w.table.rows[i]|
                  && w.table.columns[j] != NameColumn
      ensures IsEntityId(w.table.rows[i][j], later.Rows(w.table.columns[j]))
    {
      var c := w.table.columns[j];
      var k :| 0 <= k < |e.Rows(c)| && e.Rows(c)[k].Entity? && w.table.rows[i][j] == Text(e.Rows(c)[k].id);
      assert later.Rows(c)[..|e.Rows(c)|][k] == later.Rows(c)[k];
      assert later.Rows(c)[k] == e.Rows(c)[k];
    }
  }

  /** Rows of an update filed under `c` are among the rows `us` files under `c`. */
  lemma {:induction false} RowsForHas(us: seq<Update>, c: string, k: nat, x: Entity)
    requires k < |us| && us[k].domain == c && x in us[k].rows
    ensures x in RowsFor(us, c)
  {
    if k < |us| - 1 {
      RowsForHas(us[..|us| - 1], c, k, x);
    }
  }

  /** Serving leaves every column other than `geo_area` and `year` as it is. */
  lemma ServedOtherCell(t: Table, concept: Option<string>, i: nat, j: nat)
    requires t.WellFormed() && ServeDatapoints(t, concept).Ok?
    requires i < |t.rows| && j < |t.columns| && t.columns[j] != GeoArea && t.columns[j] != Year
    ensures ServeDatapoints(t, concept).value.table.rows[i][j] == t.rows[i][j]
  {
    ServedCells(t, concept);
  }

  /** Before serving, a dimension cell already holds the concept id of the selected cell. */
  lemma PreparedDimensionCell(df: Table, keys: seq<string>, concept: string, toId: Cell -> string, i: nat, j: nat)
    requires |keys| >= 2 && df.WellFormed() && |df.columns| == |keys| + 1
    requires i < |df.rows| && 2 <= j < |keys|
    ensures j < |Prepared(df, keys, concept, toId).rows[i]|
    ensures Prepared(df, keys, concept, toId).rows[i][j] == Text(toId(df.rows[i][j]))
  {
    assert df.rows[i] in df.rows;
  }

  /**
   * Each value of a column is named by one of the entities created from its
   * distinct values, identified by its concept id unless the column is `name`.
   */
  lemma CreatedFromColumn(concept: string, rows: seq<Row>, toId: Cell -> string, i: nat, j: nat)
    requires (forall row :: row in rows ==> j < |row|) && i < |rows| && concept != NameColumn
    ensures Entity(toId(rows[i][j]), rows[i][j]) in CreateEntity(concept, Unique(Column(rows, j)), toId)
  {
    var v := rows[i][j];
    var values := Unique(Column(rows, j));
    assert Column(rows, j)[i] == v;
    assert v in values;
    var m :| 0 <= m < |values| && values[m] == v;
    var created := CreateEntity(concept, values, toId);
    assert Names(created)[m] == v;
    assert created[m] in created;
    assert created[m] == Entity(toId(v), v);
  }

  /** A row with an identifier that an update files under a dimension is one of that dimension's rows afterwards. */
  lemma AppliedHas(e: EntityMap, us: seq<Update>, k: nat, c: string, x: Entity)
    requires e.Valid() && k < |us| && us[k].domain == c && x in us[k].rows && x.Entity?
    ensures IsEntityId(Text(x.id), ApplyUpdates(e, us).Rows(c))
  {
    var after := ApplyUpdates(e, us);
    RowsForHas(us, c, k, x);
    ApplyUpdatesRows(e, us, c);
    assert x in after.Rows(c);
    var n :| 0 <= n < |after.Rows(c)| && after.Rows(c)[n] == x;
  }

  /** The update of a dimension column other than `name` records an entity for each of its values. */
  lemma UpdateRecordsValue(columns: seq<string>, rows: seq<Row>, toId: Cell -> string, e: EntityMap, i: nat, j: nat)
    requires |columns| >= 3 && (forall row :: row in rows ==> |row| == |columns|) && e.Valid()
    requires i < |rows| && 2 <= j < |columns| - 1 && columns[j] != NameColumn
    ensures IsEntityId(Text(toId(rows[i][j])), ApplyUpdates(e, DimensionUpdates(columns, rows, toId)).Rows(columns[j]))
  {
    var us := DimensionUpdates(columns, rows, toId);
    DimensionUpdateAt(columns, rows, toId, us, j);
    var x := Entity(toId(rows[i][j]), rows[i][j]);
    CreatedFromColumn(columns[j], rows, toId, i, j);
    assert x in us[j - 2].rows;
    AppliedHas(e, us, j - 2, columns[j], x);
  }

  /** The update made for dimension column `j`. */
  lemma DimensionUpdateAt(columns: seq<string>, rows: seq<Row>, toId: Cell -> string, us: seq<Update>, j: nat)
    requires |columns| >= 3 && (forall row :: row in rows ==> |row| == |columns|) && 2 <= j < |columns| - 1
    requires us == DimensionUpdates(columns, rows, toId)
    ensures j - 2 < |us| && us[j - 2].domain == columns[j]
    ensures us[j - 2].rows == CreateEntity(columns[j], Unique(Column(rows, j)), toId)
  {
  }

  /**
   * In the prepared table, the cell in a dimension column is the identifier
   * of the entity that the column's update records for the selected value.
   */
  lemma PreparedRefersToUpdates(df: Table, keys: seq<string>, concept: string, toId: Cell -> string, e: EntityMap)
    requires |keys| >= 2 && df.WellFormed() && |df.columns| == |keys| + 1 && e.Valid()
    requires FirstAmbiguous(RenamedColumns(keys, concept, toId), 2).None?
    requires Prepared(df, keys, concept, toId).WellFormed()
    requires ServeDatapoints(Prepared(df, keys, concept, toId), Some(concept)).Ok?
    ensures Refers(ServeDatapoints(Prepared(df, keys, concept, toId), Some(concept)).value,
                   ApplyUpdates(e, DimensionUpdates(RenamedColumns(keys, concept, toId), df.rows, toId)))
  {
    var columns := RenamedColumns(keys, concept, toId);
    var w := ServeDatapoints(Prepared(df, keys, concept, toId), Some(concept)).value;
    var after := ApplyUpdates(e, DimensionUpdates(columns, df.rows, toId));
    PreparedShape(df, keys, concept, toId);
    forall i, j | 0 <= i < |w.table.rows| && 2 <= j < |w.table.columns| - 1 && j < |w.table.rows[i]|
                  && w.table.columns[j] != NameColumn
      ensures IsEntityId(w.table.rows[i][j], after.Rows(w.table.columns[j]))
    {
      var t := Prepared(df, keys, concept, toId);
      assert t.columns[j] != GeoArea && t.columns[j] != Year by {
        assert SingleAt(t.columns, j);
      }
      PreparedDimensionCell(df, keys, concept, toId, i, j);
      ServedOtherCell(t, Some(concept), i, j);
      UpdateRecordsValue(columns, df.rows, toId, e, i, j);
    }
  }

  /**
   * The cell a file writes in a dimension column is the identifier of the
   * entity that the same file records for that column's value.
   */
  lemma FileRefersToItsEntities(f: SourceFile, toId: Cell -> string, e: EntityMap)
    requires f.table.WellFormed() && IsCsv(f.fileName) && NormaliseFile(f, toId).Ok? && e.Valid()
    ensures Refers(NormaliseFile(f, toId).value.datapoints, ApplyUpdates(e, NormaliseFile(f, toId).value.updates))
  {
    NormaliseFileOk(f, toId);
    var keys := KeyColumnsOf(f.table.columns);
    PreparedRefersToUpdates(Selected(f.table, keys).value, keys, ConceptOf(f.fileName), toId, e);
  }
}
