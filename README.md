# UN SDG indicators to DDF: a verified model of the ETL core

The ETL script turns the statistics files of the UN SDG API (one CSV per
series, with one row per geography, time and dimension combination) into
a DDF dataset. It produces:

- one `ddf--datapoints--<measure>--by--<keys>.csv` per series;
- one `ddf--entities--<dimension>.csv` per dimension;
- the geo entities;
- a continuous concept catalog and a discrete one.

This project models that script and proves what it guarantees. It also
models the URL helper `api_path` of the download script.

The model covers these parts of `etl/scripts/etl.py`:

- **Key columns** (`key_columns.dfy`). `get_key_columns` gives `GeoAreaCode`
  and `TimePeriod`, then every bracket-quoted header in header order. It
  skips `[Reporting Type]`.
- **Source check** (`check_source.dfy`). `check_source` keeps only the rows
  whose `Indicator` equals the first row's label. It does so only when the
  table holds several labels. It compares with pandas' NaN semantics. It
  only *reports* a missing time period or duplicated key tuples; those rows
  stay.
- **Renaming** (`renaming.dfy`). The file name gives the concept
  (`f[:-4].lower()`). `column_map` renames the selected
  `[*key_columns, 'Value']` columns to `geo_area`, `year`, one concept id
  per dimension, and the concept.
- **Entities** (`entities.dfy`). `create_entity` builds one row per value.
  For the dimension `name` the dict literal `{concept: ids, 'name': vec}`
  has one key, so those rows carry no identifier.
  The `entities` dictionary is a class whose `Record` appends or inserts in
  place. `serve_entities` writes one file per dimension, in insertion
  order, with exact duplicate rows dropped.
- **Datapoints** (`datapoints.dfy`). `serve_datapoints` names the file
  after the measure and every column but the last. It coerces `geo_area`
  and `year` with `int()`, which truncates toward zero.
- **Concepts** (`concepts.dfy`). `create_measure_concepts` flattens the list
  fields with `", "` and removes `'\r'` from descriptions. An empty series
  list gives a frame without columns, so reading `code` fails. The discrete
  catalog has one `entity_domain` row per recorded dimension, named by
  `replace('_', ' ').title()`, followed by the seven fixed rows.
- **The loop in `main`** (`pipeline.dfy`). The loop body and the whole run
  are methods. Each is proved equal to a specification function
  (`NormaliseFile`, `Pass`, `RunSpec`). `pipeline_properties.dfy` and
  `run_properties.dfy` prove what a file and a run guarantee:
  - only `.csv` names matter;
  - a failure keeps exactly the datapoints files written before it;
  - each dimension's entity table is the concatenation, in listing order,
    of what each file contributes;
  - every dimension cell written to a datapoints file, outside a column
    named `name`, is the identifier of a row of that dimension's entity
    file, and the dimension has an `entity_domain` row in the discrete
    catalog;
  - an empty series list ends the run after the geo file, before either
    catalog.

From `etl/scripts/update_source.py` the model covers `api_path`
(`api_path.dfy`). It is a loop that joins each segment onto the base with
POSIX `os.path.join` rules, after dropping one leading `/`.

Some things come from outside the script, so they are inputs:

- `to_concept_id` is an arbitrary function parameter `toId`; no property of
  it is assumed.
- The directory listing is a sequence of `SourceFile` values (name and
  table as read).
- The geo table and the series list fetched over HTTP are inputs of `Run`.

Exceptions the script does not catch become a `Failure` value:

- `KeyError` on a missing column is `MissingColumn`.
- A column name that labels several columns is `AmbiguousColumn`. Then
  `df_[c]` is a frame and `.unique()` fails.
- A `ValueError` from `int()` is `NotAnInteger`.
- An `IndexError` on `columns[-1]` is `NoColumns`.
- Assigning two names to a geo table of another width is `LengthMismatch`.

The first failure ends the run. Files already written stay written.

Other behaviour of the script that the model keeps:

- A row with a missing time period stays in the table; it is only reported.
- A missing cell stays missing; no placeholder value takes its place.
- Values are written as read, without rounding or number formatting.
- Nothing is sorted: rows, files and dimensions keep the order they are met in.
- An entity file drops only rows that repeat in every column; two rows with
  one identifier and different names both stay.
- A datapoints file name lists the key columns in column order, after the
  `ddf--datapoints--` prefix.
- The discrete catalog ends with seven fixed rows: `geo_area`, `year`,
  `name`, `description`, `goal`, `indicator` and `target`.
- The first source file that fails ends the whole run.

## Model

| member | source | states |
|---|---|---|
| KeyColumns.Dimensions | etl/scripts/etl.py:20-24 | defines the bracket-quoted headers other than `[Reporting Type]`, in header order |
| KeyColumns.KeyColumnsOf | etl/scripts/etl.py:18-26 | defines the key columns: `GeoAreaCode`, `TimePeriod`, then the dimensions |
| KeyColumns.GetKeyColumns | etl/scripts/etl.py:18-26 | the result is `GeoAreaCode`, `TimePeriod`, then the dimension headers in header order |
| KeyColumns.DimensionsMembership | etl/scripts/etl.py:20-24 | a header is kept iff it occurs in the headers, starts with `[` and is not `[Reporting Type]` |
| KeyColumns.DimensionsAppend | etl/scripts/etl.py:20-24 | filtering distributes over concatenation, so header order is kept |
| KeyColumns.DimensionsAreDimensions | etl/scripts/etl.py:23-24 | every kept header is a dimension header |
| KeyColumns.KeyColumnsShape | etl/scripts/etl.py:18-26 | the geo and time keys come first, the rest are exactly the dimension headers, and `[Reporting Type]` never appears |
| Tables.IndexOf | etl/scripts/etl.py:57 | the position of the first column with that name, or none iff the name is absent |
| Tables.Positions | etl/scripts/etl.py:42 | the positions of all names, or a `MissingColumn` naming an absent one, iff one is absent |
| Tables.Project | etl/scripts/etl.py:117 | `df[names]` has the named columns in order with the cells of the first such source column, or fails on an absent name |
| SourceCheck.KeepLabel | etl/scripts/etl.py:37 | a row is kept iff its label equals the first label under NaN-aware equality |
| SourceCheck.KeepLabelAppend | etl/scripts/etl.py:37 | the filter distributes over concatenation, so relative order is kept |
| SourceCheck.HasMissing | etl/scripts/etl.py:39 | defines `hasnans`: some row has a missing cell in the column |
| SourceCheck.HasDuplicateKeys | etl/scripts/etl.py:42 | defines `duplicated(subset=...).any()`: two rows agree on every key column |
| SourceCheck.CheckSource | etl/scripts/etl.py:34-46 | fails iff `Indicator`, `TimePeriod` or a key column is missing; otherwise filters only when several labels exist, and the two diagnostics equal NaN-in-time and duplicated key tuples of the result |
| SourceCheck.CheckSourceRetains | etl/scripts/etl.py:36-37 | a row survives iff the table has one label or the row has the first row's label |
| SourceCheck.MissingTimeIsReportedNotDropped | etl/scripts/etl.py:39-40 | a row without a time period is kept and the NaN diagnostic is raised |
| SourceCheck.DuplicatesAreReportedNotDropped | etl/scripts/etl.py:42-44 | with one label the table is returned unchanged and duplicates are only reported |
| SourceCheck.NaNFirstLabelKeepsNothing | etl/scripts/etl.py:36-37 | a NaN first label among several labels keeps no row |
| SourceCheck.KeepsFirstIndicatorExample | etl/scripts/etl.py:34-46 | labels A, A, B leave the two A rows in order, with no diagnostics |
| Strings.Lower | etl/scripts/etl.py:104 | same length; an upper-case letter becomes the lower-case letter of the same name, every other character is kept |
| Strings.LowerIdempotent | etl/scripts/etl.py:104 | lower-casing twice is lower-casing once |
| Strings.Title | etl/scripts/etl.py:145 | `title()`: defines each character's case from whether a cased character precedes it |
| Strings.TitleIdempotent | etl/scripts/etl.py:145 | title-casing twice is title-casing once |
| Strings.TitleKeepsLetters | etl/scripts/etl.py:145 | title-casing changes the case of a letter and nothing else |
| Strings.TitleCapitalisesWords | etl/scripts/etl.py:145 | each word starts with a non-lower-case letter and continues with no upper-case letter |
| Strings.ReplaceChar | etl/scripts/etl.py:145 | every `from` becomes `to`, everything else is kept in place |
| Strings.RemoveChar | etl/scripts/etl.py:83 | the removed character no longer occurs and the string does not grow |
| Strings.RemoveCharAppend | etl/scripts/etl.py:83 | removal works piece by piece: removing from `a + b` is removing from `a`, then from `b`, so kept characters keep their order |
| Strings.RemoveCharSingle | etl/scripts/etl.py:83 | on one character, the removed character gives the empty string and any other is kept |
| Strings.RemoveCharKeepsOthers | etl/scripts/etl.py:83 | every other character keeps its count |
| Strings.RemoveCharAbsent | etl/scripts/etl.py:83 | a string without the character is unchanged |
| Sequences.Unique | etl/scripts/etl.py:124 | distinct, holds exactly the input's elements, no longer than the input |
| Sequences.UniqueKeepsFirstOccurrenceOrder | etl/scripts/etl.py:124 | kept elements are in order of first occurrence |
| Sequences.UniqueSnoc | etl/scripts/etl.py:68 | a repeated element adds nothing; a new one is kept at the end |
| Sequences.UniqueOfDistinct | etl/scripts/etl.py:68 | a sequence without repetitions is unchanged |
| Sequences.UniqueIdempotent | etl/scripts/etl.py:68 | de-duplicating twice is de-duplicating once |
| Sequences.JoinWith | etl/scripts/etl.py:53 | `sep.join(parts)`: defines the parts with one separator between neighbours |
| Sequences.JoinWithLength | etl/scripts/etl.py:81 | the joined length is the parts' lengths plus one separator between neighbours |
| Sequences.JoinWithAppend | etl/scripts/etl.py:53 | joining two groups is joining each with one separator between |
| Renaming.Stem | etl/scripts/etl.py:103 | the stem followed by `.csv` is the file name |
| Renaming.ConceptOf | etl/scripts/etl.py:103-104 | the name without `.csv`, lower-cased: four characters shorter, each upper-case letter replaced by its lower-case form, every other character kept |
| Renaming.ConceptIgnoresCase | etl/scripts/etl.py:104 | names equal up to case give the same concept |
| Renaming.BuildColumnMap | etl/scripts/etl.py:112-115 | the loop builds the map of the fixed keys, each dimension and the value column |
| Renaming.RenamedColumns | etl/scripts/etl.py:117-118 | `geo_area`, `year`, the concept id of each dimension, then the concept |
| Renaming.DimensionMapEntries | etl/scripts/etl.py:112-114 | the fixed keys map to `geo_area` and `year`, each entered dimension to its concept id, and nothing else is a key |
| Renaming.ColumnMapRenames | etl/scripts/etl.py:117-118 | every selected column has an entry and the renaming gives the renamed column list |
| Entities.CreateEntity | etl/scripts/etl.py:29-31 | one row per value, named by the value; identified by its concept id, except for the concept `name`, whose rows carry no identifier |
| Entities.EntityMap.Record | etl/scripts/etl.py:123-126 | appends to an existing dimension or adds a new newest one; other dimensions unchanged |
| Entities.EntityStore.constructor | etl/scripts/etl.py:97 | the dictionary starts empty |
| Entities.EntityStore.Record | etl/scripts/etl.py:123-126 | the in-place update has the new state `old(State()).Record(domain, rows)` and stays valid |
| Entities.ServeEntities | etl/scripts/etl.py:66-68 | one file per dimension in insertion order, each holding its rows de-duplicated |
| Entities.ServeEntitiesKeepsEveryRow | etl/scripts/etl.py:66-68 | every recorded dimension has exactly one file, holding each recorded row once |
| Entities.SharedDimensionServed | etl/scripts/etl.py:121-126 | two files with values a, b and b, c on one dimension leave one entity file with the entities of a, b, c |
| Datapoints.ToInt | etl/scripts/etl.py:58 | defines `int()` of a cell: integers kept, floats truncated, NaN and text fail |
| Datapoints.Truncate | etl/scripts/etl.py:58 | `int()` of a float truncates toward zero |
| Datapoints.ConvertColumn | etl/scripts/etl.py:58 | succeeds iff every cell has an integer value, then replaces only that column; otherwise names the column and a bad cell |
| Datapoints.CoerceColumn | etl/scripts/etl.py:57-58 | an integer column is kept as it is, a float column converted: either way it succeeds iff every cell has an integer value and only that column changes |
| Datapoints.Lookup | etl/scripts/etl.py:57 | `df[name]` is one column iff the name occurs exactly once; otherwise missing or ambiguous |
| Datapoints.CoerceNamed | etl/scripts/etl.py:57-61 | succeeds iff the name is one column of integer-valued cells; only that column changes |
| Datapoints.MeasureOf | etl/scripts/etl.py:54-55 | defines the measure: the concept when non-empty, else the last column |
| Datapoints.DatapointsFileName | etl/scripts/etl.py:53-63 | defines the name `ddf--datapoints--<concept>--by--<keys>.csv`, keys joined with `--` |
| Datapoints.ServeDatapoints | etl/scripts/etl.py:49-63 | succeeds iff a measure exists and both keys coerce; the file is named after the measure and all but the last column, with the columns kept |
| Datapoints.ServedCells | etl/scripts/etl.py:57-61 | written cells are integers in `geo_area` and `year` and unchanged elsewhere |
| Datapoints.YearUntouchedByGeo | etl/scripts/etl.py:57-61 | coercing `geo_area` does not change whether `year` coerces |
| Datapoints.MeasureDefaultsToLastColumn | etl/scripts/etl.py:54-55 | without a concept the measure is the last column |
| Datapoints.ServedKeysAreIntegers | etl/scripts/etl.py:57-61 | key cells are integers, integer cells keep their value, floats are truncated |
| Datapoints.MissingYearFails | etl/scripts/etl.py:60-61 | a NaN year makes writing fail |
| Concepts.MeasureConceptOf | etl/scripts/etl.py:71-85 | concept id of the code, named by the code, type `measure`, lists joined with `, `, description equal to the text with every `\r` removed, so no `\r` and every other character's count kept |
| Concepts.MeasureConcepts | etl/scripts/etl.py:71-85 | fails with a missing `code` column iff the series list is empty; otherwise one measure concept per series, in order |
| Concepts.CleanDescriptionUnchanged | etl/scripts/etl.py:83 | a description without `\r` passes through unchanged |
| Concepts.DomainName | etl/scripts/etl.py:145 | defines a dimension's display name: underscores to spaces, then `title()` |
| Concepts.DomainNameShape | etl/scripts/etl.py:145 | the display name has the same length, no underscore, capitalised words, and is stable under `title()` |
| Concepts.DiscreteCatalog | etl/scripts/etl.py:143-152 | one `entity_domain` row per dimension in order, then the seven fixed rows |
| Concepts.DiscreteCatalogCoversDomains | etl/scripts/etl.py:143-144 | every recorded dimension has exactly one `entity_domain` row |
| Concepts.GeoAreaName | etl/scripts/etl.py:145-150 | `geo_area` is displayed as "Geo Area", the name its fixed row carries |
| Pipeline.Selected | etl/scripts/etl.py:109-117 | the selection has the key columns then `Value`, rectangular |
| Pipeline.FirstAmbiguous | etl/scripts/etl.py:122-124 | none iff every dimension column's name is unique; otherwise a repeated dimension name |
| Pipeline.IdsBefore | etl/scripts/etl.py:128 | the dimension cells before `n` hold concept ids and all other cells are unchanged |
| Pipeline.DimensionUpdates | etl/scripts/etl.py:121-126 | one update per dimension column: its name and the entities of its distinct values |
| Pipeline.ConvertToIds | etl/scripts/etl.py:128 | only column `j` is replaced by its concept ids |
| Pipeline.ApplyUpdatesRows | etl/scripts/etl.py:123-126 | each dimension holds its old rows followed by the rows the updates file under it |
| Pipeline.ProcessFile | etl/scripts/etl.py:100-130 | the loop body returns the file's datapoints file and applies its updates in place, or returns its failure |
| Pipeline.SelectAndRename | etl/scripts/etl.py:103-118 | concept, key columns, selection and renamed columns as specified |
| Pipeline.SelectColumns | etl/scripts/etl.py:108-117 | the check followed by the selection |
| Pipeline.RenameColumns | etl/scripts/etl.py:112-118 | the column map applied to the selected columns gives the renamed columns |
| Pipeline.WriteSelected | etl/scripts/etl.py:120-130 | records the entities and writes the datapoints, or fails, as the specification does |
| Pipeline.NormaliseSelectedCases | etl/scripts/etl.py:120-130 | the rest of the body ends at an ambiguous dimension, at a failed write, or with the updates and the written file |
| Pipeline.RecordDimensions | etl/scripts/etl.py:121-128 | the loop over dimension columns stops at the first ambiguous one, or records every update and converts every dimension |
| Pipeline.RecordColumn | etl/scripts/etl.py:123-128 | one turn records the column's entities in place and converts it |
| Pipeline.RecordStep | etl/scripts/etl.py:123-126 | recording one more dimension is one more `Record` of its entities |
| Pipeline.ApplyUpdates | etl/scripts/etl.py:123-126 | defines the dictionary after recording a file's updates in order; it stays valid |
| Pipeline.NormaliseFile | etl/scripts/etl.py:103-130 | defines the loop body on one `.csv` file: key columns, check, selection, renaming, entities, id conversion, datapoints file |
| Pipeline.Pass | etl/scripts/etl.py:99-130 | defines the loop: skip names not ending in `.csv`, stop at the first failing file; the dictionary stays valid |
| Pipeline.Finish | etl/scripts/etl.py:132-153 | defines the writing after the loop: entity files, geo file (failing on a width other than two), then both catalogs unless the series list is empty |
| Pipeline.RunSpec | etl/scripts/etl.py:96-153 | defines `main`: the loop, then the writing steps unless a file failed |
| Pipeline.Run | etl/scripts/etl.py:96-153 | `main` writes exactly what `RunSpec` says, in order, and reports the same failure |
| PipelineProperties.NormaliseFileOk | etl/scripts/etl.py:107-130 | a file that goes through was selected, had no ambiguous dimension and was servable |
| PipelineProperties.RenamedDistinct | etl/scripts/etl.py:118-128 | unique dimension names and one `geo_area` and `year` make all column names distinct |
| PipelineProperties.PreparedShape | etl/scripts/etl.py:117-130 | the written table has the renamed columns and a name from the concept and those columns, and its key cells are integers |
| PipelineProperties.NormalisedFileShape | etl/scripts/etl.py:107-130 | a file yields one update per dimension and none without dimensions, and a file over distinct renamed columns with integer keys |
| PipelineProperties.DatapointsFileNameSpelled | etl/scripts/etl.py:53-63 | the name is `ddf--datapoints--<concept>--by--geo_area--year`, then `--<dimension>` per dimension, then `.csv` |
| PipelineProperties.DatapointsFileNamed | etl/scripts/etl.py:53-130 | a source file's datapoints file is named after its lower-cased stem and its dimension ids, in key order |
| PipelineProperties.ApplyUpdatesExtends | etl/scripts/etl.py:123-126 | recording only appends; earlier rows stay a prefix |
| PipelineProperties.RefersGrows | etl/scripts/etl.py:123-126 | a reference stays valid as the dictionary grows |
| PipelineProperties.ServedOtherCell | etl/scripts/etl.py:57-61 | writing leaves every non-key cell as it is |
| PipelineProperties.PreparedDimensionCell | etl/scripts/etl.py:128 | after the rewrite a dimension cell is the concept id of the selected cell |
| PipelineProperties.CreatedFromColumn | etl/scripts/etl.py:124 | every value of a column has an entity among those created from its distinct values |
| PipelineProperties.AppliedHas | etl/scripts/etl.py:123-126 | a row an update files under a dimension is in that dimension afterwards |
| PipelineProperties.UpdateRecordsValue | etl/scripts/etl.py:121-126 | the update of a dimension column records an entity for each of its values |
| PipelineProperties.PreparedRefersToUpdates | etl/scripts/etl.py:121-130 | every written dimension cell is the id of an entity the file's updates record |
| PipelineProperties.FileRefersToItsEntities | etl/scripts/etl.py:107-130 | a file that goes through refers only to entities in the dictionary after its updates |
| RunProperties.CsvOnly | etl/scripts/etl.py:99-101 | keeps exactly the `.csv` entries |
| RunProperties.OnlyCsvFilesCount | etl/scripts/etl.py:99-101 | the loop over the listing equals the loop over its `.csv` entries |
| RunProperties.PassAppend | etl/scripts/etl.py:99-130 | the loop over `a + b` is the loop over `a`, then over `b` unless it failed |
| RunProperties.AbortKeepsEarlierFiles | etl/scripts/etl.py:99-130 | a failing file ends the run with exactly the earlier datapoints files and its failure |
| RunProperties.DimensionContribution | etl/scripts/etl.py:121-126 | a file files under `c` the entities of its dimension column named `c`, or nothing |
| RunProperties.DimensionFound | etl/scripts/etl.py:121-126 | the update of dimension column `j` is all that is filed under its name |
| RunProperties.DimensionNotFound | etl/scripts/etl.py:121-126 | nothing is filed under a name that is not a dimension column |
| RunProperties.FileContribution | etl/scripts/etl.py:107-126 | a source file contributes to `c` the entities of its key column renamed `c`, or nothing |
| RunProperties.SkipStep | etl/scripts/etl.py:100-101 | an entry not ending in `.csv` is skipped and contributes nothing |
| RunProperties.CsvStep | etl/scripts/etl.py:107-130 | a `.csv` entry that goes through advances the loop and contributes its updates |
| RunProperties.EntitiesAccumulate | etl/scripts/etl.py:97-126 | each dimension's final table is its start followed by every file's contribution, in listing order |
| RunProperties.PassKeepsReferences | etl/scripts/etl.py:99-130 | every datapoints file written refers only to entities recorded by the end of the loop |
| RunProperties.AdvanceKeepsReferences | etl/scripts/etl.py:121-130 | one more file keeps earlier references valid and adds its own |
| RunProperties.RecordingKeepsReferences | etl/scripts/etl.py:123-130 | recording updates keeps every earlier reference valid |
| RunProperties.RunKeepsReferences | etl/scripts/etl.py:96-130 | a run that goes through writes datapoints whose dimension cells, outside a `name` column, refer only to recorded entities |
| RunProperties.ReferenceIsServed | etl/scripts/etl.py:132-145 | a referring cell is the id of a row of its dimension's entity file, and the dimension has an `entity_domain` row |
| RunProperties.NameContributionsHaveNoIds | etl/scripts/etl.py:29-31 | every entity any file contributes to the dimension `name` carries no identifier |
| RunProperties.NameDimensionHasNoIds | etl/scripts/etl.py:29-31 | no row of a served `name` entity file carries an identifier |
| RunProperties.EmptySeriesStopsAfterGeo | etl/scripts/etl.py:72-74 | with no series the run writes the datapoints, entity and geo files, then fails on the missing `code` column, writing neither catalog |
| ApiPath.Join | etl/scripts/update_source.py:23-25 | defines `os.path.join` of two parts: an absolute part replaces, otherwise one `/` between |
| ApiPath.JoinEnds | etl/scripts/update_source.py:23-25 | the join ends with the segment and starts with the path unless the segment is absolute |
| ApiPath.Strip | etl/scripts/update_source.py:22-25 | exactly one leading `/` is removed, otherwise the segment is kept |
| ApiPath.ApiPathOf | etl/scripts/update_source.py:19-26 | defines the URL `res` holds after the loop has consumed the segments |
| ApiPath.ApiPathOfSnoc | etl/scripts/update_source.py:21-25 | one more segment joins its stripped form onto the path so far |
| ApiPath.ApiPath | etl/scripts/update_source.py:19-26 | the loop computes the fold; no segments gives the base; the result ends with the last stripped segment |
| ApiPath.LeadingSlashDropped | etl/scripts/update_source.py:22-25 | a segment with one leading `/` gives the same URL as without it |
| ApiPath.FoldsLeft | etl/scripts/update_source.py:20-26 | joining more segments onto a result continues the fold |
| ApiPath.DoubleSlashRestarts | etl/scripts/update_source.py:22-25 | a segment starting with `//` discards everything before it |
| ApiPath.KeepsBase | etl/scripts/update_source.py:20-26 | the base stays at the front while no stripped segment is absolute |
| ApiPath.JoinsWithSlashes | etl/scripts/update_source.py:20-26 | with plain segments the URL is the base and the segments with one `/` between each |
| ApiPath.TwoRootedSegments | etl/scripts/update_source.py:30 | two `/`-rooted plain segments give base, `/`, first, `/`, second |
| ApiPath.SeriesListPath | etl/scripts/update_source.py:30 | the series-list endpoint is the base, `SDGAPI` and `v1/sdg/Series/List`, one `/` apart |

## Left out

- Reading and writing CSV files, `dropna(how='all')` and the `../source` and `../../` directories. Tables are values, and file names carry no directory.
- The HTTP calls `get_all_series` and `create_geo_entity`, `cleanup_source`, the download `Pool` and `main` of the download script. They are I/O; their results are inputs of `Pipeline.Run`.
- `to_concept_id`. It is a library function outside the repository, so it is a parameter with no assumed property.
- The order of `os.listdir`. The listing is an input sequence, so every order is covered.
- `int()` of numeric strings. Text cells fail the coercion in the model.
- Unicode case mapping. `lower()` and `title()` are modelled for ASCII letters only.
- Printed diagnostics. They are the `timeHasNaN` and `duplicateKeys` flags of the check.
- Updates of DataFrames in place within one file. They are modelled on values. The entity dictionary is a class updated in place.
- Entities.CreateEntity: the identifier column's header is not kept in a row, because the rows are filed under that header in the dictionary.
- RunProperties.ReferenceIsServed: a column named `name` is excluded, because the script writes its entities without identifiers, so its cells refer to nothing.
- Pipeline.ProcessFile: on a failure the contract leaves the dictionary unconstrained, because the run ends there and never writes it.
- Pipeline.RecordDimensions: at an ambiguous dimension the contract leaves the dictionary and rows unconstrained, for the same reason.
- The discrete catalog's fixed rows are a constant. Only the `geo_area` display name is proved equal to what title-casing gives.
