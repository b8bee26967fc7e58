/**
 * The sidebar's choices: the key-indicator alias, and the option lists of the
 * two multi-selects, each headed by the wildcard "All".
 */
module Sidebar {
  import opened Wrappers
  import opened Records
  import opened Seqs
  import opened Ordering
  import opened Filters

  /** The entries of the "Select Key Indicator" box, in display order. */
  const INDICATOR_OPTIONS: seq<string> := [
    "None", "All", "GDP_per_Capita", "Life_Expectancy", "Freedom", "Social_support",
    "Corruption_Perception", "Generosity", "Family"
  ]

  /** The data columns an indicator can name. */
  const INDICATOR_COLUMNS: set<string> := {
    "GDP_per_Capita", "Life_Expectancy", "Freedom", "Social_support",
    "Corruption_Perception", "Generosity", "Family"
  }

  /** The column the "All" entry stands for. */
  const DEFAULT_INDICATOR := "GDP_per_Capita"

  /**
   * The chosen indicator: "All" stands for GDP per capita, "None" for no
   * indicator, anything else for itself. Only "None" yields no indicator,
   * and every entry of the box resolves to a data column or to nothing.
   */
  function ResolveIndicator(choice: string): (indicator: Option<string>)
    ensures indicator.None? <==> choice == "None"
    ensures choice == ALL ==> indicator == Some(DEFAULT_INDICATOR)
    ensures choice != ALL && choice != "None" ==> indicator == Some(choice)
    ensures choice in INDICATOR_OPTIONS ==> indicator.None? || indicator.value in INDICATOR_COLUMNS
  {
    if choice == ALL then Some(DEFAULT_INDICATOR)
    else if choice == "None" then None
    else Some(choice)
  }

  /** Every data column can be chosen, and "All" chooses the same column as its own entry. */
  lemma IndicatorCoverage()
    ensures forall c :: c in INDICATOR_COLUMNS ==>
              c in INDICATOR_OPTIONS && ResolveIndicator(c) == Some(c)
    ensures ResolveIndicator(ALL) == ResolveIndicator(DEFAULT_INDICATOR)
  {
  }

  /** `dropna`: the present names, in order. */
  function DropMissing(names: seq<Option<string>>): seq<string>
  {
    if names == [] then []
    else
      var init := DropMissing(names[..|names| - 1]);
      var last := names[|names| - 1];
      if last.Some? then init + [last.value] else init
  }

  lemma {:induction false} DropMissingElements(names: seq<Option<string>>)
    ensures forall c :: c in DropMissing(names) <==> Some(c) in names
  {
    if names != [] {
      DropMissingElements(names[..|names| - 1]);
      assert names == names[..|names| - 1] + [names[|names| - 1]];
    }
  }

  /**
   * The country options: "All", then every distinct country name present in
   * the table, strictly ascending (so without repeats).
   */
  method CountryOptions(rows: seq<Row>) returns (countries: seq<string>)
    ensures |countries| >= 1 && countries[0] == ALL
    ensures StrictlyAscending(countries[1..])
    ensures forall c :: c in countries[1..] <==> Some(c) in Countries(rows)
  {
    var present := DropMissing(Countries(rows));
    var distinct := Unique(present);
    countries := Sort(distinct);
    UniqueElements(present);
    DropMissingElements(Countries(rows));
    SortFacts(distinct);
    SortElements(distinct);
    countries := [ALL] + countries;
    assert countries[1..] == Sort(distinct);
  }

  /**
   * The region options: "All", then every region present in the table once,
   * in order of first appearance.
   */
  method RegionOptions(rows: seq<Row>) returns (regions: seq<string>)
    ensures |regions| >= 1 && regions[0] == ALL
    ensures NoDuplicates(regions[1..])
    ensures forall g :: g in regions[1..] <==> g in Regions(rows)
    ensures forall i, j :: 1 <= i < j < |regions| ==>
              regions[i] in Regions(rows) && regions[j] in Regions(rows) &&
              FirstIndex(Regions(rows), regions[i]) < FirstIndex(Regions(rows), regions[j])
  {
    regions := Unique(Regions(rows));
    UniqueElements(Regions(rows));
    UniqueOrder(Regions(rows));
    regions := [ALL] + regions;
    assert regions[1..] == Unique(Regions(rows));
  }
}
