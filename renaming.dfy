/**
 * The column renaming of the per-file loop: the file name gives the value
 * column's concept, and a map from source headers to concept ids renames the
 * selected key and value columns.
 */
module Renaming {
  import opened Strings
  import opened Tables
  import opened KeyColumns
  import opened Datapoints

  const ValueColumn := "Value"
  const CsvSuffix := ".csv"

  /** Only names ending in ".csv" are read. */
  predicate IsCsv(fileName: string) {
    EndsWith(fileName, CsvSuffix)
  }

  /** `f[:-4]`: the name without its suffix. */
  function Stem(fileName: string): (r: string)
    requires IsCsv(fileName)
    ensures r + CsvSuffix == fileName
  {
    fileName[..|fileName| - 4]
  }

  /** `name.lower()`: the concept of the file's value column. */
  function ConceptOf(fileName: string): (r: string)
    requires IsCsv(fileName)
    ensures |r| + 4 == |fileName|
    ensures forall i :: 0 <= i < |r| ==> !IsUpper(r[i])
    ensures forall i :: 0 <= i < |r| ==> !IsUpper(fileName[i]) ==> r[i] == fileName[i]
    ensures forall i :: 0 <= i < |r| ==> IsUpper(fileName[i]) ==> IsLower(r[i]) && ToUpper(r[i]) == fileName[i]
  {
    Lower(Stem(fileName))
  }

  /** A file's concept does not depend on the case of its name. */
  lemma ConceptIgnoresCase(a: string, b: string)
    requires IsCsv(a) && IsCsv(b) && Lower(a) == Lower(b)
    ensures ConceptOf(a) == ConceptOf(b)
  {
    assert |a| == |Lower(a)| == |Lower(b)| == |b|;
    forall i | 0 <= i < |a| - 4
      ensures ConceptOf(a)[i] == ConceptOf(b)[i]
    {
      assert Lower(a)[i] == Lower(b)[i];
    }
  }

  /** The map after the fixed keys and the dimensions `keys[2..n]` are entered. */
  function DimensionMap(keys: seq<string>, n: nat, toId: Cell -> string): map<string, string>
    requires n <= |keys|
  {
    if n <= 2 then map[TimeKey := Year, GeoKey := GeoArea]
    else DimensionMap(keys, n - 1, toId)[keys[n - 1] := toId(Text(keys[n - 1]))]
  }

  /** `column_map` once the loop is over and the value column is entered. */
  function ColumnMapOf(keys: seq<string>, concept: string, toId: Cell -> string): map<string, string>
  {
    DimensionMap(keys, |keys|, toId)[ValueColumn := concept]
  }

  /** Building `column_map`: the two fixed keys, every dimension, then the value column. */
  method BuildColumnMap(keys: seq<string>, concept: string, toId: Cell -> string) returns (m: map<string, string>)
    ensures m == ColumnMapOf(keys, concept, toId)
  {
    m := map[TimeKey := Year, GeoKey := GeoArea];
    var i := 2;
    while i < |keys|
      invariant 2 <= i
      invariant i <= |keys| ==> m == DimensionMap(keys, i, toId)
      invariant i > |keys| ==> m == DimensionMap(keys, |keys|, toId)
    {
      var c := keys[i];
      m := m[c := toId(Text(c))];
      i := i + 1;
    }
    m := m[ValueColumn := concept];
  }

  /** The renamed columns: the two fixed keys, each dimension's concept id, the file's concept. */
  function RenamedColumns(keys: seq<string>, concept: string, toId: Cell -> string): (r: seq<string>)
    requires |keys| >= 2
    ensures |r| == |keys| + 1
    ensures r[0] == GeoArea && r[1] == Year && r[|keys|] == concept
    ensures forall j :: 2 <= j < |keys| ==> r[j] == toId(Text(keys[j]))
  {
    [GeoArea, Year] + seq(|keys| - 2, k requires 0 <= k < |keys| - 2 => toId(Text(keys[k + 2]))) + [concept]
  }

  /** Every dimension entered so far maps to its own concept id; the fixed keys keep theirs. */
  lemma {:induction false} DimensionMapEntries(headers: seq<string>, n: nat, toId: Cell -> string)
    requires n <= |KeyColumnsOf(headers)|
    ensures var keys := KeyColumnsOf(headers);
      var m := DimensionMap(keys, n, toId);
      && GeoKey in m && m[GeoKey] == GeoArea
      && TimeKey in m && m[TimeKey] == Year
      && (forall j :: 2 <= j < n ==> keys[j] in m && m[keys[j]] == toId(Text(keys[j])))
      && (forall c :: c in m ==> c == GeoKey || c == TimeKey || c in keys[2..n])
  {
    var keys := KeyColumnsOf(headers);
    if n > 2 {
      DimensionMapEntries(headers, n - 1, toId);
      var d := keys[n - 1];
      assert d != GeoKey && d != TimeKey by {
        KeyColumnsShape(headers);
        assert IsDimension(d);
      }
      assert keys[2..n] == keys[2..n - 1] + [d];
    }
  }

  /**
   * `[column_map[c] for c in df_.columns]` over the selected columns
   * `[*key_columns, 'Value']`: every name has an entry and the result is
   * the renamed column list, one name per selected column.
   */
  lemma ColumnMapRenames(headers: seq<string>, concept: string, toId: Cell -> string)
    ensures var keys := KeyColumnsOf(headers);
      var m := ColumnMapOf(keys, concept, toId);
      var names := keys + [ValueColumn];
      && (forall c :: c in names ==> c in m)
      && seq(|names|, j requires 0 <= j < |names| => m[names[j]]) == RenamedColumns(keys, concept, toId)
  {
    var keys := KeyColumnsOf(headers);
    var m := ColumnMapOf(keys, concept, toId);
    var names := keys + [ValueColumn];
    KeyColumnsShape(headers);
    DimensionMapEntries(headers, |keys|, toId);
    assert ValueColumn !in keys by {
      assert !IsDimension(ValueColumn);
    }
    forall j | 0 <= j < |names|
      ensures names[j] in m && m[names[j]] == RenamedColumns(keys, concept, toId)[j]
    {
      if j == |keys| {
        assert names[j] == ValueColumn;
      } else if j >= 2 {
        assert names[j] == keys[j] != ValueColumn;
      }
    }
    forall c | c in names
      ensures c in m
    {
      var j :| 0 <= j < |names| && names[j] == c;
    }
  }
}
