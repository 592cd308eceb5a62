/**
 * What the loop over the directory listing guarantees as a whole: only
 * ".csv" names matter, the loop composes over a split of the listing, a
 * failure keeps exactly the datapoints files written before it, each
 * dimension's entity table is the concatenation of what each file
 * contributes, and every dimension cell written refers to an entity the
 * run writes for its dimension.
 */
module RunProperties {
  import opened Sequences
  import opened KeyColumns
  import opened Tables
  import opened Entities
  import opened Datapoints
  import opened Concepts
  import opened Renaming
  import opened Pipeline
  import opened PipelineProperties

  // ---------------------------------------------------------------------
  // The listing
  // ---------------------------------------------------------------------

  /** The ".csv" entries of a listing, in listing order. */
  function CsvOnly(files: seq<SourceFile>): (r: seq<SourceFile>)
    ensures forall f :: f in r ==> f in files && IsCsv(f.fileName)
    ensures forall f :: f in files && IsCsv(f.fileName) ==> f in r
    ensures |r| <= |files|
  {
    if files == [] then []
    else (if IsCsv(files[0].fileName) then [files[0]] else []) + CsvOnly(files[1..])
  }

  /** Entries whose names do not end in ".csv" play no part in the loop. */
  lemma {:induction false} OnlyCsvFilesCount(files: seq<SourceFile>, p: Progress, toId: Cell -> string)
    requires Readable(files) && p.entities.Valid()
    ensures Readable(CsvOnly(files))
    ensures Pass(files, p, toId) == Pass(CsvOnly(files), p, toId)
  {
    if files != [] {
      var rest := files[1..];
      assert Readable(rest) by {
        forall f | f in rest ensures f.table.WellFormed() {
          assert f in files;
        }
      }
      if !IsCsv(files[0].fileName) {
        OnlyCsvFilesCount(rest, p, toId);
        assert CsvOnly(files) == CsvOnly(rest);
      } else {
        var csv := CsvOnly(files);
        assert csv == [files[0]] + CsvOnly(rest);
        assert csv[1..] == CsvOnly(rest);
        match NormaliseFile(files[0], toId)
        case Err(e) =>
        case Ok(n) =>
          OnlyCsvFilesCount(rest, Advance(p, n), toId);
      }
    }
  }

  /** Both parts of a readable listing are readable. */
  lemma ReadableSplit(a: seq<SourceFile>, b: seq<SourceFile>)
    requires Readable(a + b)
    ensures Readable(a) && Readable(b)
  {
    forall f | f in a ensures f.table.WellFormed() {
      assert f in a + b;
    }
    forall f | f in b ensures f.table.WellFormed() {
      assert f in a + b;
    }
  }

  /** The loop over `a + b` is the loop over `a`, then, unless it failed, the loop over `b`. */
  lemma {:induction false} PassAppend(a: seq<SourceFile>, b: seq<SourceFile>, p: Progress, toId: Cell -> string)
    requires Readable(a + b) && p.entities.Valid()
    ensures Readable(a) && Readable(b)
    ensures Pass(a + b, p, toId) ==
      match Pass(a, p, toId)
      case Aborted(written, e) => Aborted(written, e)
      case Done(q) => Pass(b, q, toId)
  {
    ReadableSplit(a, b);
    if a != [] {
      assert (a + b)[0] == a[0];
      assert (a + b)[1..] == a[1..] + b;
      if !IsCsv(a[0].fileName) {
        PassAppend(a[1..], b, p, toId);
      } else {
        match NormaliseFile(a[0], toId)
        case Err(e) =>
        case Ok(n) =>
          PassAppend(a[1..], b, Advance(p, n), toId);
      }
    } else {
      assert a + b == b;
    }
  }

  /**
   * A ".csv" file that fails ends the run: the files written are the
   * datapoints files of the entries before it, nothing after it is read,
   * and nothing else is written.
   */
  lemma AbortKeepsEarlierFiles(before: seq<SourceFile>, f: SourceFile, after: seq<SourceFile>,
                               geo: Table, series: seq<Series>, toId: Cell -> string)
    requires Readable(before + [f] + after)
    requires IsCsv(f.fileName) && f.table.WellFormed() && NormaliseFile(f, toId).Err?
    requires Readable(before) && Pass(before, Progress(NoEntities, []), toId).Done?
    ensures RunSpec(before + [f] + after, geo, series, toId) ==
      RunResult(DatapointsOuts(Pass(before, Progress(NoEntities, []), toId).progress.written),
                Some(NormaliseFile(f, toId).failure))
  {
    var init := Progress(NoEntities, []);
    var rest := [f] + after;
    ConcatAssoc(before, [f], after);
    PassAppend(before, rest, init, toId);
    assert rest[0] == f && rest != [];
  }

  lemma DistinctAt<T>(s: seq<T>, i: nat, j: nat)
    requires Distinct(s) && i < |s| && j < |s| && i != j
    ensures s[i] != s[j]
  {
    if j < i {
      assert s[j] != s[i];
    }
  }

  lemma ConcatAssoc<T>(a: seq<T>, b: seq<T>, c: seq<T>)
    ensures a + b + c == a + (b + c)
  {
  }

  /**
   * An empty series list ends a run whose loop went through with KeyError
   * on `code`, after the entity files and the geo file are written and
   * before either concept catalog is.
   */
  lemma EmptySeriesStopsAfterGeo(files: seq<SourceFile>, geo: Table, toId: Cell -> string)
    requires Readable(files) && Pass(files, Progress(NoEntities, []), toId).Done?
    requires |geo.columns| == |GeoColumns|
    ensures var p := Pass(files, Progress(NoEntities, []), toId).progress;
      RunSpec(files, geo, [], toId) ==
        RunResult(DatapointsOuts(p.written) + EntitiesOuts(ServeEntities(p.entities))
                    + [GeoOut(Table(GeoColumns, geo.rows))],
                  Some(MissingColumn(CodeColumn)))
    ensures forall o :: o in RunSpec(files, geo, [], toId).written ==> !o.ContinuousOut? && !o.DiscreteOut?
  {
    var p := Pass(files, Progress(NoEntities, []), toId).progress;
    var ds := DatapointsOuts(p.written);
    var es := EntitiesOuts(ServeEntities(p.entities));
    var written := ds + es + [GeoOut(Table(GeoColumns, geo.rows))];
    assert RunSpec(files, geo, [], toId).written == written;
    forall o | o in written ensures !o.ContinuousOut? && !o.DiscreteOut? {
      if o in ds {
        var i :| 0 <= i < |ds| && ds[i] == o;
      } else if o in es {
        var i :| 0 <= i < |es| && es[i] == o;
      }
    }
  }

  // ---------------------------------------------------------------------
  // Entity accumulation
  // ---------------------------------------------------------------------

  /** Updates none of which is for `c` file nothing under it. */
  lemma {:induction false} RowsForAbsent(us: seq<Update>, c: string)
    requires forall k :: 0 <= k < |us| ==> us[k].domain != c
    ensures RowsFor(us, c) == []
  {
    if us != [] {
      RowsForAbsent(us[..|us| - 1], c);
    }
  }

  /** When exactly one update is for `c`, its rows are all that is filed under `c`. */
  lemma {:induction false} RowsForOnly(us: seq<Update>, c: string, k: nat)
    requires k < |us| && us[k].domain == c
    requires forall j :: 0 <= j < |us| && j != k ==> us[j].domain != c
    ensures RowsFor(us, c) == us[k].rows
  {
    var m := |us| - 1;
    var init := us[..m];
    if k == m {
      RowsForAbsent(init, c);
      assert RowsFor(us, c) == RowsFor(init, c) + us[m].rows;
    } else {
      RowsForOnly(init, c, k);
      assert RowsFor(us, c) == RowsFor(init, c) + [];
    }
  }

  /**
   * The dimension updates of a table with distinct column names file,
   * under `c`, the entities of the distinct values of the one dimension
   * column named `c`, and nothing when no dimension column has that name.
   */
  lemma DimensionContribution(columns: seq<string>, rows: seq<Row>, toId: Cell -> string, c: string)
    requires |columns| >= 3 && (forall row :: row in rows ==> |row| == |columns|) && Distinct(columns)
    ensures RowsFor(DimensionUpdates(columns, rows, toId), c) ==
      if IndexOf(columns, c).Some? && 2 <= IndexOf(columns, c).value < |columns| - 1
      then CreateEntity(c, Unique(Column(rows, IndexOf(columns, c).value)), toId)
      else []
  {
    var at := IndexOf(columns, c);
    if at.Some? && 2 <= at.value < |columns| - 1 {
      DimensionFound(columns, rows, toId, at.value);
    } else {
      DimensionNotFound(columns, rows, toId, c);
    }
  }

  /** The update of dimension column `j` is the only one filed under its name. */
  lemma DimensionFound(columns: seq<string>, rows: seq<Row>, toId: Cell -> string, j: nat)
    requires |columns| >= 3 && (forall row :: row in rows ==> |row| == |columns|) && Distinct(columns)
    requires 2 <= j < |columns| - 1
    ensures RowsFor(DimensionUpdates(columns, rows, toId), columns[j]) ==
      CreateEntity(columns[j], Unique(Column(rows, j)), toId)
  {
    var us := DimensionUpdates(columns, rows, toId);
    assert us[j - 2].rows == CreateEntity(columns[j], Unique(Column(rows, j)), toId);
    assert forall k :: 0 <= k < |us| ==> us[k].domain == columns[k + 2];
    OtherDomainsDiffer(columns, us, j);
    RowsForOnly(us, columns[j], j - 2);
  }

  /** With distinct column names, no other dimension update is filed under the name of column `j`. */
  lemma OtherDomainsDiffer(columns: seq<string>, us: seq<Update>, j: nat)
    requires Distinct(columns) && |us| + 3 == |columns| && 2 <= j < |columns| - 1
    requires forall k :: 0 <= k < |us| ==> us[k].domain == columns[k + 2]
    ensures forall k :: 0 <= k < |us| && k != j - 2 ==> us[k].domain != columns[j]
  {
    forall k | 0 <= k < |us| && k != j - 2 ensures us[k].domain != columns[j] {
      DistinctAt(columns, k + 2, j);
    }
  }

  /** No update is filed under a name that is not a dimension column. */
  lemma DimensionNotFound(columns: seq<string>, rows: seq<Row>, toId: Cell -> string, c: string)
    requires |columns| >= 3 && (forall row :: row in rows ==> |row| == |columns|) && Distinct(columns)
    requires !(IndexOf(columns, c).Some? && 2 <= IndexOf(columns, c).value < |columns| - 1)
    ensures RowsFor(DimensionUpdates(columns, rows, toId), c) == []
  {
    var us := DimensionUpdates(columns, rows, toId);
    assert forall k :: 0 <= k < |us| ==> us[k].domain != c by {
      forall k | 0 <= k < |us| ensures us[k].domain != c {
        assert us[k].domain == columns[k + 2];
      }
    }
    RowsForAbsent(us, c);
  }

  /**
   * What one file contributes to dimension `c`: the entities of the
   * distinct values of its key column renamed `c`, when it has one among
   * its dimensions, and nothing otherwise; in particular nothing at all
   * when it has no dimension columns.
   */
  lemma FileContribution(f: SourceFile, toId: Cell -> string, c: string)
    requires f.table.WellFormed() && IsCsv(f.fileName) && NormaliseFile(f, toId).Ok?
    ensures
      var keys := KeyColumnsOf(f.table.columns);
      var columns := RenamedColumns(keys, ConceptOf(f.fileName), toId);
      && Selected(f.table, keys).Ok?
      && RowsFor(NormaliseFile(f, toId).value.updates, c) ==
           if IndexOf(columns, c).Some? && 2 <= IndexOf(columns, c).value < |keys|
           then CreateEntity(c, Unique(Column(Selected(f.table, keys).value.rows, IndexOf(columns, c).value)), toId)
           else []
  {
    var keys := KeyColumnsOf(f.table.columns);
    var columns := RenamedColumns(keys, ConceptOf(f.fileName), toId);
    assert Selected(f.table, keys).Ok? && Distinct(columns) &&
           NormaliseFile(f, toId).value.updates == DimensionUpdates(columns, Selected(f.table, keys).value.rows, toId) by {
      NormaliseFileOk(f, toId);
      NormalisedFileShape(f, toId);
    }
    DimensionContribution(columns, Selected(f.table, keys).value.rows, toId, c);
  }

  /** The rows the ".csv" entries of `files` file under `c`, in listing order. */
  function Contributions(files: seq<SourceFile>, c: string, toId: Cell -> string): seq<Entity>
    requires Readable(files)
  {
    if files == [] then []
    else
      var f := files[0];
      (if IsCsv(f.fileName) && NormaliseFile(f, toId).Ok?
       then RowsFor(NormaliseFile(f, toId).value.updates, c) else [])
      + Contributions(files[1..], c, toId)
  }

  /** A listing without its first entry is still readable. */
  lemma ReadableTail(files: seq<SourceFile>)
    requires Readable(files) && files != []
    ensures Readable(files[1..])
  {
    forall g | g in files[1..] ensures g.table.WellFormed() {
      assert g in files;
    }
  }

  /** An entry that is not ".csv" is skipped and contributes nothing. */
  lemma SkipStep(files: seq<SourceFile>, p: Progress, c: string, toId: Cell -> string)
    requires Readable(files) && files != [] && Readable(files[1..]) && p.entities.Valid()
    requires !IsCsv(files[0].fileName)
    ensures Pass(files, p, toId) == Pass(files[1..], p, toId)
    ensures Contributions(files, c, toId) == Contributions(files[1..], c, toId)
  {
    assert Contributions(files, c, toId) == [] + Contributions(files[1..], c, toId);
  }

  /** A ".csv" entry that goes through advances the loop and contributes its updates' rows. */
  lemma CsvStep(files: seq<SourceFile>, p: Progress, c: string, toId: Cell -> string)
    requires Readable(files) && files != [] && Readable(files[1..]) && p.entities.Valid()
    requires IsCsv(files[0].fileName) && NormaliseFile(files[0], toId).Ok?
    ensures Pass(files, p, toId) == Pass(files[1..], Advance(p, NormaliseFile(files[0], toId).value), toId)
    ensures Contributions(files, c, toId) ==
      RowsFor(NormaliseFile(files[0], toId).value.updates, c) + Contributions(files[1..], c, toId)
  {
  }

  /**
   * When the loop goes through, each dimension's table is what it held
   * before followed by every file's contribution, in listing order.
   */
  lemma {:induction false} EntitiesAccumulate(files: seq<SourceFile>, p: Progress, c: string, toId: Cell -> string)
    requires Readable(files) && p.entities.Valid() && Pass(files, p, toId).Done?
    ensures Pass(files, p, toId).progress.entities.Rows(c) == p.entities.Rows(c) + Contributions(files, c, toId)
  {
    if files != [] {
      var rest := files[1..];
      ReadableTail(files);
      if !IsCsv(files[0].fileName) {
        SkipStep(files, p, c, toId);
        EntitiesAccumulate(rest, p, c, toId);
      } else {
        assert NormaliseFile(files[0], toId).Ok?;
        var n := NormaliseFile(files[0], toId).value;
        var q := Advance(p, n);
        CsvStep(files, p, c, toId);
        EntitiesAccumulate(rest, q, c, toId);
        ApplyUpdatesRows(p.entities, n.updates, c);
        Regroup(Pass(files, p, toId).progress.entities.Rows(c), q.entities.Rows(c), Contributions(files, c, toId),
                p.entities.Rows(c), RowsFor(n.updates, c), Contributions(rest, c, toId));
      }
    }
  }

  /** Whatever the files contribute to the dimension `name` carries no identifier. */
  lemma {:induction false} NameContributionsHaveNoIds(files: seq<SourceFile>, toId: Cell -> string)
    requires Readable(files)
    ensures forall x :: x in Contributions(files, NameColumn, toId) ==> x.NameOnly?
  {
    if files != [] {
      var f := files[0];
      ReadableTail(files);
      NameContributionsHaveNoIds(files[1..], toId);
      if IsCsv(f.fileName) && NormaliseFile(f, toId).Ok? {
        FileContribution(f, toId, NameColumn);
      }
    }
  }

  /**
   * A dimension whose concept id is `name` gets an entity file whose rows
   * hold the values alone: no row of it carries an identifier.
   */
  lemma NameDimensionHasNoIds(files: seq<SourceFile>, toId: Cell -> string)
    requires Readable(files) && Pass(files, Progress(NoEntities, []), toId).Done?
    ensures var e := Pass(files, Progress(NoEntities, []), toId).progress.entities;
      forall k, x ::
        0 <= k < |ServeEntities(e)| && ServeEntities(e)[k].domain == NameColumn && x in ServeEntities(e)[k].rows
        ==> x.NameOnly?
  {
    var e := Pass(files, Progress(NoEntities, []), toId).progress.entities;
    EntitiesAccumulate(files, Progress(NoEntities, []), NameColumn, toId);
    assert e.Rows(NameColumn) == Contributions(files, NameColumn, toId);
    NameContributionsHaveNoIds(files, toId);
  }

  // ---------------------------------------------------------------------
  // References from datapoints to entities
  // ---------------------------------------------------------------------

  /**
   * While the loop goes through, every datapoints file written so far
   * refers only to entities recorded so far.
   */
  lemma {:induction false} PassKeepsReferences(files: seq<SourceFile>, p: Progress, toId: Cell -> string)
    requires Readable(files) && p.entities.Valid() && Pass(files, p, toId).Done?
    requires forall w :: w in p.written ==> Refers(w, p.entities)
    ensures forall w :: w in Pass(files, p, toId).progress.written ==> Refers(w, Pass(files, p, toId).progress.entities)
  {
    if files != [] {
      var rest := files[1..];
      ReadableTail(files);
      if !IsCsv(files[0].fileName) {
        assert Pass(files, p, toId) == Pass(rest, p, toId);
        PassKeepsReferences(rest, p, toId);
      } else {
        assert NormaliseFile(files[0], toId).Ok?;
        var n := NormaliseFile(files[0], toId).value;
        var q := Advance(p, n);
        assert Pass(files, p, toId) == Pass(rest, q, toId);
        AdvanceKeepsReferences(p, files[0], toId);
        PassKeepsReferences(rest, q, toId);
      }
    }
  }

  /** Advancing past a file keeps the earlier references and adds the file's own. */
  lemma AdvanceKeepsReferences(p: Progress, f: SourceFile, toId: Cell -> string)
    requires p.entities.Valid() && f.table.WellFormed() && IsCsv(f.fileName) && NormaliseFile(f, toId).Ok?
    requires forall w :: w in p.written ==> Refers(w, p.entities)
    ensures var q := Advance(p, NormaliseFile(f, toId).value);
      forall w :: w in q.written ==> Refers(w, q.entities)
  {
    var n := NormaliseFile(f, toId).value;
    FileRefersToItsEntities(f, toId, p.entities);
    RecordingKeepsReferences(p.entities, n.updates, p.written, n.datapoints);
  }

  /**
   * Recording updates keeps every earlier reference valid, so a new file
   * that refers to the updated dictionary joins the others.
   */
  lemma RecordingKeepsReferences(e: EntityMap, us: seq<Update>, written: seq<DatapointsFile>, d: DatapointsFile)
    requires e.Valid() && Refers(d, ApplyUpdates(e, us))
    requires forall w :: w in written ==> Refers(w, e)
    ensures forall w :: w in written + [d] ==> Refers(w, ApplyUpdates(e, us))
  {
    ApplyUpdatesExtends(e, us);
    forall w | w in written + [d] ensures Refers(w, ApplyUpdates(e, us)) {
      if w in written {
        RefersGrows(w, e, ApplyUpdates(e, us));
      }
    }
  }

  /** A run that goes through writes datapoints files that refer only to entities it recorded. */
  lemma RunKeepsReferences(files: seq<SourceFile>, toId: Cell -> string)
    requires Readable(files) && Pass(files, Progress(NoEntities, []), toId).Done?
    ensures var p := Pass(files, Progress(NoEntities, []), toId).progress;
      forall w :: w in p.written ==> Refers(w, p.entities)
  {
    PassKeepsReferences(files, Progress(NoEntities, []), toId);
  }

  /**
   * A dimension cell outside a `name` column, in a file that refers to the
   * recorded entities, is the identifier of a row of the one entity file
   * written for its dimension, and that dimension has one `entity_domain`
   * row in the discrete catalog.
   */
  lemma ReferenceIsServed(e: EntityMap, w: DatapointsFile, i: nat, j: nat)
    requires e.Valid() && Refers(w, e)
    requires i < |w.table.rows| && 2 <= j < |w.table.columns| - 1 && j < |w.table.rows[i]|
    requires w.table.columns[j] != NameColumn
    ensures var c := w.table.columns[j];
      && (exists k :: 0 <= k < |ServeEntities(e)| && ServeEntities(e)[k].domain == c
            && exists x :: x in ServeEntities(e)[k].rows && x.Entity? && w.table.rows[i][j] == Text(x.id))
      && (exists k :: 0 <= k < |e.order| && DiscreteCatalog(e.order)[k].concept == c
            && DiscreteCatalog(e.order)[k].conceptType == "entity_domain")
  {
    var c := w.table.columns[j];
    var rows := e.Rows(c);
    var m :| 0 <= m < |rows| && rows[m].Entity? && w.table.rows[i][j] == Text(rows[m].id);
    assert c in e.tables;
    assert c in e.order;
    ServeEntitiesKeepsEveryRow(e, c, rows[m]);
    DiscreteCatalogCoversDomains(e.order, c);
    var k :| 0 <= k < |ServeEntities(e)| && ServeEntities(e)[k].domain == c;
    assert rows[m] in ServeEntities(e)[k].rows;
  }
}
