/**
 * The two concept catalogs: the continuous one, one measure per series of
 * the series list with its list fields flattened and its description freed
 * of carriage returns; and the discrete one, one entity domain per recorded
 * dimension followed by the fixed structural concepts.
 */
module Concepts {
  import opened Sequences
  import opened Strings
  import opened Tables

  /** The fields of one series record that the catalog keeps. */
  datatype Series = Series(code: string, description: string, goal: seq<string>,
                           target: seq<string>, indicator: seq<string>)

  /** A row of `ddf--concepts--continuous.csv`, columns in file order. */
  datatype MeasureConcept = MeasureConcept(concept: string, name: string, conceptType: string,
                                           description: string, target: string, goal: string,
                                           indicator: string)

  /** A row of `ddf--concepts--discrete.csv`, columns in file order. */
  datatype ConceptRow = ConceptRow(concept: string, conceptType: string, name: string)

  const ListSeparator := ", "

  /**
   * One series as a measure concept: identified by the concept id of its
   * code, named by the code, list fields joined with ", ", and every '\r'
   * removed from the description.
   */
  function MeasureConceptOf(s: Series, toId: Cell -> string): (r: MeasureConcept)
    ensures r.concept == toId(Text(s.code)) && r.name == s.code && r.conceptType == "measure"
    ensures '\r' !in r.description
    ensures forall c :: c != '\r' ==> multiset(r.description)[c] == multiset(s.description)[c]
    ensures r.goal == JoinWith(ListSeparator, s.goal)
    ensures r.target == JoinWith(ListSeparator, s.target)
    ensures r.indicator == JoinWith(ListSeparator, s.indicator)
    ensures r.description == RemoveChar(s.description, '\r')
  {
    var description := RemoveChar(s.description, '\r');
    assert forall c :: c != '\r' ==> multiset(description)[c] == multiset(s.description)[c] by {
      forall c | c != '\r' {
        RemoveCharKeepsOthers(s.description, '\r', c);
      }
    }
    MeasureConcept(toId(Text(s.code)), s.code, "measure", description,
                   JoinWith(ListSeparator, s.target), JoinWith(ListSeparator, s.goal),
                   JoinWith(ListSeparator, s.indicator))
  }

  /** The series-list field `create_measure_concepts` reads first. */
  const CodeColumn := "code"

  /**
   * `create_measure_concepts`: one measure concept per series, in list
   * order. An empty series list makes a frame without columns, so reading
   * its `code` column raises KeyError.
   */
  function MeasureConcepts(series: seq<Series>, toId: Cell -> string): (r: Result<seq<MeasureConcept>>)
    ensures r.Err? <==> series == []
    ensures r.Err? ==> r.failure == MissingColumn(CodeColumn)
    ensures r.Ok? ==> |r.value| == |series|
    ensures r.Ok? ==> forall i :: 0 <= i < |series| ==> r.value[i] == MeasureConceptOf(series[i], toId)
  {
    if series == [] then Err(MissingColumn(CodeColumn))
    else Ok(seq(|series|, i requires 0 <= i < |series| => MeasureConceptOf(series[i], toId)))
  }

  /** A description without carriage returns passes through unchanged. */
  lemma CleanDescriptionUnchanged(s: Series, toId: Cell -> string)
    requires '\r' !in s.description
    ensures MeasureConceptOf(s, toId).description == s.description
  {
    RemoveCharAbsent(s.description, '\r');
  }

  /** `x.replace('_', ' ').title()`: the display name of a dimension. */
  function DomainName(c: string): string
  {
    Title(ReplaceChar(c, '_', ' '))
  }

  /**
   * A display name has the identifier's length, no underscore, and each word
   * capitalised; naming is stable under a second title-casing.
   */
  lemma DomainNameShape(c: string)
    ensures |DomainName(c)| == |c|
    ensures '_' !in DomainName(c)
    ensures Title(DomainName(c)) == DomainName(c)
    ensures forall i :: 0 <= i < |c| && (i == 0 || c[i - 1] in {'_', ' '}) ==> !IsLower(DomainName(c)[i])
  {
    var spaced := ReplaceChar(c, '_', ' ');
    TitleIdempotent(spaced);
    forall i | 0 <= i < |c|
      ensures DomainName(c)[i] != '_'
    {
      TitleFromKeepsCasedness(spaced, false, i);
    }
    forall i | 0 <= i < |c| && (i == 0 || c[i - 1] in {'_', ' '})
      ensures !IsLower(DomainName(c)[i])
    {
      TitleCapitalisesWords(spaced, i);
    }
  }

  /** The structural concepts that follow the entity domains. */
  const FixedConcepts: seq<ConceptRow> := [
    ConceptRow("geo_area", "entity_domain", "Geo Area"),
    ConceptRow("year", "time", "Year"),
    ConceptRow("name", "string", "Name"),
    ConceptRow("description", "string", "Description"),
    ConceptRow("goal", "string", "Goal"),
    ConceptRow("indicator", "string", "Indicator"),
    ConceptRow("target", "string", "Target")
  ]

  /**
   * The discrete catalog: one entity domain per dimension, in the order the
   * dimensions were first recorded, then the fixed concepts.
   */
  function DiscreteCatalog(domains: seq<string>): (r: seq<ConceptRow>)
    ensures |r| == |domains| + |FixedConcepts|
    ensures forall i :: 0 <= i < |domains| ==>
      r[i] == ConceptRow(domains[i], "entity_domain", DomainName(domains[i]))
    ensures r[|domains|..] == FixedConcepts
  {
    seq(|domains|, i requires 0 <= i < |domains| =>
      ConceptRow(domains[i], "entity_domain", DomainName(domains[i]))) + FixedConcepts
  }

  /**
   * Every recorded dimension has an entity-domain concept; with distinct
   * dimensions it has exactly one among the entity domains derived from them.
   */
  lemma DiscreteCatalogCoversDomains(domains: seq<string>, c: string)
    requires Distinct(domains) && c in domains
    ensures exists i :: 0 <= i < |domains| && DiscreteCatalog(domains)[i].concept == c
                      && DiscreteCatalog(domains)[i].conceptType == "entity_domain"
    ensures forall i, j :: 0 <= i < j < |domains| && DiscreteCatalog(domains)[i].concept == c ==>
      DiscreteCatalog(domains)[j].concept != c
  {
    var k :| 0 <= k < |domains| && domains[k] == c;
    assert DiscreteCatalog(domains)[k].concept == c;
  }

  /** `geo_area` is displayed as "Geo Area", the name its fixed row carries. */
  lemma GeoAreaName()
    ensures DomainName("geo_area") == "Geo Area"
  {
    assert ReplaceChar("geo_area", '_', ' ') == "geo" + " area";
    assert Title("geo") == "Geo" by {
      TitleOfWord("geo");
    }
    assert TitleFrom(" area", true) == " Area" by {
      assert TitleFrom(" area", true) == " " + TitleFrom("area", false);
      TitleOfWord("area");
    }
    TitleFromConcat("geo", " area", false);
  }
}
