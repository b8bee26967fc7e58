/**
 * The region classifier: a fixed, ordered table from continent names to
 * member countries, searched front to back; a country listed nowhere (or a
 * missing one) falls through to "Other".
 */
module Continents {
  import opened Wrappers
  import opened Records

  const OTHER := "Other"
  const ANTARCTICA := "Antarctica"

  /** The continent table, in the order in which it is searched. */
  const CONTINENT_MAP: seq<(string, seq<string>)> := [
    ("Africa", ["Nigeria", "Kenya", "South Africa", "Egypt", "Morocco"]),
    ("Asia", ["India", "China", "Japan", "South Korea", "Indonesia", "Singapore", "Israel"]),
    ("Europe", ["Finland", "Norway", "Denmark", "Germany", "France", "Italy", "Netherlands",
                "Sweden", "Switzerland", "Ireland", "United Kingdom"]),
    ("North America", ["United States", "Canada", "Mexico"]),
    ("South America", ["Brazil", "Argentina", "Colombia", "Chile"]),
    ("Oceania", ["Australia", "New Zealand"]),
    (ANTARCTICA, [])
  ]

  /** The closed set of labels a row can carry. */
  const LABELS: set<string> := {
    "Africa", "Asia", "Europe", "North America", "South America", "Oceania", ANTARCTICA, OTHER
  }

  /** `country in countries`: a missing country equals no listed name. */
  predicate Listed(country: Option<string>, members: seq<string>)
  {
    country.Some? && country.value in members
  }

  /** Entry `k` is the first entry of `table` that lists `country`. */
  ghost predicate FirstListed(table: seq<(string, seq<string>)>, country: Option<string>, k: int)
  {
    && 0 <= k < |table|
    && Listed(country, table[k].1)
    && forall j :: 0 <= j < k ==> !Listed(country, table[j].1)
  }

  /** The linear search: the name of the first entry listing `country`, else "Other". */
  function Search(table: seq<(string, seq<string>)>, country: Option<string>): string
  {
    if table == [] then OTHER
    else if Listed(country, table[0].1) then table[0].0
    else Search(table[1..], country)
  }

  /**
   * The search answers with the first entry that lists the country, and
   * with "Other" exactly when no entry does.
   */
  lemma {:induction false} SearchFacts(table: seq<(string, seq<string>)>, country: Option<string>)
    ensures forall k :: FirstListed(table, country, k) ==> Search(table, country) == table[k].0
    ensures (forall k :: 0 <= k < |table| ==> !Listed(country, table[k].1)) ==>
              Search(table, country) == OTHER
    ensures Search(table, country) == OTHER ||
              exists k :: FirstListed(table, country, k) && Search(table, country) == table[k].0
  {
    if table != [] && !Listed(country, table[0].1) {
      SearchFacts(table[1..], country);
      forall k | FirstListed(table, country, k)
        ensures FirstListed(table[1..], country, k - 1)
      {
      }
      if (forall k :: 0 <= k < |table| ==> !Listed(country, table[k].1)) {
        forall k | 0 <= k < |table[1..]|
          ensures !Listed(country, table[1..][k].1)
        {
          assert table[1..][k] == table[k + 1];
        }
      }
      if Search(table, country) != OTHER {
        var k :| FirstListed(table[1..], country, k) && Search(table, country) == table[1..][k].0;
        assert FirstListed(table, country, k + 1);
      }
    } else if table != [] {
      assert FirstListed(table, country, 0);
    }
  }

  /** No country is listed under two continents. */
  lemma ContinentMapDisjoint()
    ensures forall i, j, c :: 0 <= i < j < |CONTINENT_MAP| && c in CONTINENT_MAP[i].1 ==>
              c !in CONTINENT_MAP[j].1
  {
  }

  /**
   * get_continent: the continent whose list contains the country, otherwise
   * "Other". Every answer lies in the closed label set, is never "Antarctica"
   * (whose list is empty), and is "Other" exactly for unlisted and missing
   * countries.
   */
  function GetContinent(country: Option<string>): (continent: string)
    ensures continent in LABELS && continent != ANTARCTICA
    ensures continent == OTHER <==>
              forall k :: 0 <= k < |CONTINENT_MAP| ==> !Listed(country, CONTINENT_MAP[k].1)
  {
    SearchFacts(CONTINENT_MAP, country);
    Search(CONTINENT_MAP, country)
  }

  /** A country listed under a continent is classified to that continent. */
  lemma ClassifiesListed(country: string, k: nat)
    requires k < |CONTINENT_MAP| && country in CONTINENT_MAP[k].1
    ensures GetContinent(Some(country)) == CONTINENT_MAP[k].0
  {
    ContinentMapDisjoint();
    SearchFacts(CONTINENT_MAP, Some(country));
    assert FirstListed(CONTINENT_MAP, Some(country), k);
  }

  /** Classification to a table continent happens exactly for the countries it lists. */
  lemma ClassifiesExactly(country: Option<string>, k: nat)
    requires k < |CONTINENT_MAP|
    ensures GetContinent(country) == CONTINENT_MAP[k].0 <==> Listed(country, CONTINENT_MAP[k].1)
  {
    if Listed(country, CONTINENT_MAP[k].1) {
      ClassifiesListed(country.value, k);
    } else if GetContinent(country) == CONTINENT_MAP[k].0 {
      SearchFacts(CONTINENT_MAP, country);
      var j :| FirstListed(CONTINENT_MAP, country, j) && GetContinent(country) == CONTINENT_MAP[j].0;
    }
  }

  lemma ClassificationExamples()
    ensures GetContinent(Some("Finland")) == "Europe"
    ensures GetContinent(Some("Wakanda")) == OTHER
    ensures GetContinent(None) == OTHER
  {
    ClassifiesListed("Finland", 2);
  }

  /** Adds the Region column: each record keeps its fields and gains its continent. */
  function AddRegions(records: seq<Record>): (rows: seq<Row>)
    ensures |rows| == |records|
    ensures forall i :: 0 <= i < |rows| ==>
              rows[i].rec == records[i] && rows[i].region == GetContinent(records[i].country)
    ensures forall g :: g in Regions(rows) ==> g in LABELS && g != ANTARCTICA
  {
    seq(|records|, i requires 0 <= i < |records| => Row(records[i], GetContinent(records[i].country)))
  }
}
