/**
 * Entities of the dimensions: the rows derived from one column's distinct
 * values, the dictionary that accumulates them per dimension across all
 * source files, and the entity files written from it at the end.
 */
module Entities {
  import opened Sequences
  import opened Tables

  /**
   * One entity row: the identifier and the original value it was derived
   * from, or, for the dimension whose concept id is `name`, the value alone.
   */
  datatype Entity = Entity(id: string, name: Cell) | NameOnly(name: Cell)

  /** The column of `create_entity`'s frame that holds the values. */
  const NameColumn := "name"

  /** The name column of a list of entity rows. */
  function Names(es: seq<Entity>): seq<Cell>
  {
    seq(|es|, i requires 0 <= i < |es| => es[i].name)
  }

  /** Every row has an identifier, and it is `to_concept_id` of its own name. */
  predicate IdsFromNames(es: seq<Entity>, toId: Cell -> string) {
    forall e :: e in es ==> e.Entity? && e.id == toId(e.name)
  }

  /**
   * `create_entity(concept, vec)`: one row per value, named by the value and
   * identified by its concept id under the column `concept`. When `concept`
   * is `name`, the frame literal `{concept: ids, 'name': vec}` has one key,
   * whose second entry wins, so the rows hold the values and no identifier.
   * Otherwise the label `concept` is the dictionary key the rows are filed
   * under.
   */
  function CreateEntity(concept: string, values: seq<Cell>, toId: Cell -> string): (r: seq<Entity>)
    ensures Names(r) == values
    ensures concept != NameColumn ==> IdsFromNames(r, toId)
    ensures concept == NameColumn ==> forall e :: e in r ==> e.NameOnly?
  {
    seq(|values|, i requires 0 <= i < |values| =>
      if concept == NameColumn then NameOnly(values[i]) else Entity(toId(values[i]), values[i]))
  }

  /** The entity dictionary: dimension names in insertion order, and their rows. */
  datatype EntityMap = EntityMap(order: seq<string>, tables: map<string, seq<Entity>>) {

    /** The order lists each key of the dictionary once. */
    predicate Valid() {
      Distinct(order) && tables.Keys == set c | c in order
    }

    /** The rows filed under `domain` so far. */
    function Rows(domain: string): seq<Entity> {
      if domain in tables then tables[domain] else []
    }

    /**
     * `entities[c] = entities[c].append(rows)` when `c` is a key, otherwise
     * `entities[c] = rows`, which makes `c` the newest key.
     */
    function Record(domain: string, rows: seq<Entity>): (r: EntityMap)
      requires Valid()
      ensures r.Valid()
      ensures r.order == if domain in tables then order else order + [domain]
      ensures r.Rows(domain) == Rows(domain) + rows
      ensures forall c :: c != domain ==> r.Rows(c) == Rows(c)
    {
      if domain in tables then EntityMap(order, tables[domain := tables[domain] + rows])
      else EntityMap(order + [domain], tables[domain := rows])
    }
  }

  const NoEntities := EntityMap([], map[])

  /** The `entities` dictionary of the main loop, updated in place. */
  class EntityStore {
    var order: seq<string>
    var tables: map<string, seq<Entity>>

    function State(): EntityMap
      reads this
    {
      EntityMap(order, tables)
    }

    predicate Valid()
      reads this
    {
      State().Valid()
    }

    constructor ()
      ensures Valid() && State() == NoEntities
    {
      order := [];
      tables := map[];
    }

    /** Append `rows` to the table of `domain`, creating it when absent. */
    method Record(domain: string, rows: seq<Entity>)
      requires Valid()
      modifies this
      ensures Valid()
      ensures State() == old(State()).Record(domain, rows)
    {
      if domain in tables {
        tables := tables[domain := tables[domain] + rows];
      } else {
        tables := tables[domain := rows];
        order := order + [domain];
      }
    }
  }

  /** One `ddf--entities--<dimension>.csv` file. */
  datatype EntitiesFile = EntitiesFile(name: string, domain: string, rows: seq<Entity>)

  function EntitiesFileName(domain: string): string {
    "ddf--entities--" + domain + ".csv"
  }

  /** `serve_entities`: one file per dimension, in insertion order, exact duplicate rows dropped. */
  function ServeEntities(e: EntityMap): (r: seq<EntitiesFile>)
    requires e.Valid()
    ensures |r| == |e.order|
    ensures forall i :: 0 <= i < |r| ==>
      r[i].domain == e.order[i] && r[i].name == EntitiesFileName(e.order[i])
      && r[i].rows == Unique(e.Rows(e.order[i]))
  {
    seq(|e.order|, i requires 0 <= i < |e.order| =>
      EntitiesFile(EntitiesFileName(e.order[i]), e.order[i], Unique(e.Rows(e.order[i]))))
  }

  /**
   * Every recorded dimension gets exactly one file; it holds every recorded
   * row of that dimension once, first occurrences first.
   */
  lemma ServeEntitiesKeepsEveryRow(e: EntityMap, domain: string, x: Entity)
    requires e.Valid() && domain in e.tables
    ensures exists i :: 0 <= i < |ServeEntities(e)| && ServeEntities(e)[i].domain == domain
    ensures forall i :: 0 <= i < |ServeEntities(e)| && ServeEntities(e)[i].domain == domain ==>
      && (x in ServeEntities(e)[i].rows <==> x in e.Rows(domain))
      && Distinct(ServeEntities(e)[i].rows)
    ensures forall i, j :: 0 <= i < j < |ServeEntities(e)| ==> ServeEntities(e)[i].domain != ServeEntities(e)[j].domain
  {
    var files := ServeEntities(e);
    var k :| 0 <= k < |e.order| && e.order[k] == domain;
    assert files[k].domain == domain;
    forall i | 0 <= i < |files| && files[i].domain == domain
      ensures x in files[i].rows <==> x in e.Rows(domain)
    {
      var rows := e.Rows(domain);
      if x in rows {
        var j :| 0 <= j < |rows| && rows[j] == x;
        assert Unique(rows)[..] == files[i].rows;
      }
    }
  }

  /**
   * Two files that both use one dimension, with values a, b and b, c, leave
   * one entity file for it of three rows: those of a, b, c.
   */
  lemma SharedDimensionServed(toId: Cell -> string, domain: string, a: Cell, b: Cell, c: Cell)
    requires a != b && a != c && b != c
    ensures
      var e := NoEntities.Record(domain, CreateEntity(domain, [a, b], toId))
                         .Record(domain, CreateEntity(domain, [b, c], toId));
      ServeEntities(e) == [EntitiesFile(EntitiesFileName(domain), domain, CreateEntity(domain, [a, b, c], toId))]
  {
    var abc := CreateEntity(domain, [a, b, c], toId);
    var ab, bc := CreateEntity(domain, [a, b], toId), CreateEntity(domain, [b, c], toId);
    var x, y, z := abc[0], abc[1], abc[2];
    assert x.name == a && y.name == b && z.name == c by {
      assert Names(abc) == [a, b, c];
    }
    assert ab == [x, y] by {
      assert ab[0] == x && ab[1] == y;
    }
    assert bc == [y, z] by {
      assert bc[0] == y && bc[1] == z;
    }
    var e1 := NoEntities.Record(domain, ab);
    assert e1.order == [domain] && e1.Rows(domain) == [x, y];
    var e := e1.Record(domain, bc);
    assert e.order == [domain] && e.Rows(domain) == [x, y, y, z] by {
      OverlappingPairs(x, y, z);
    }
    assert Unique(e.Rows(domain)) == [x, y, z] by {
      UniqueOfRepeatedMiddle(x, y, z);
    }
    ThreeElements(abc);
  }

  lemma OverlappingPairs<T>(x: T, y: T, z: T)
    ensures [x, y] + [y, z] == [x, y, y, z]
  {
  }

  lemma ThreeElements<T>(s: seq<T>)
    requires |s| == 3
    ensures s == [s[0], s[1], s[2]]
  {
  }

  lemma UniqueOfRepeatedMiddle<T(!new)>(a: T, b: T, c: T)
    requires a != b && a != c && b != c
    ensures Unique([a, b, b, c]) == [a, b, c]
  {
    assert Unique([a, b]) == [a, b] by {
      UniqueOfDistinct([a, b]);
    }
    assert Unique([a, b, b]) == [a, b] by {
      UniqueSnoc([a, b], b);
      assert [a, b] + [b] == [a, b, b];
    }
    UniqueSnoc([a, b, b], c);
    assert [a, b, b] + [c] == [a, b, b, c];
  }
}
