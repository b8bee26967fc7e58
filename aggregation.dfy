/**
 * The keys of the "Average Happiness by Region" bar chart: grouping the
 * filtered view by Region yields one group per region present, in sorted
 * order. The means themselves are floating-point and are not modelled.
 */
module Aggregation {
  import opened Records
  import opened Seqs
  import opened Ordering
  import opened Filters

  /** The group keys: each region of the view once, strictly ascending. */
  function GroupKeys(view: seq<Row>): (keys: seq<string>)
    ensures StrictlyAscending(keys)
    ensures forall g :: g in keys <==> g in Regions(view)
  {
    UniqueElements(Regions(view));
    SortFacts(Unique(Regions(view)));
    SortElements(Unique(Regions(view)));
    Sort(Unique(Regions(view)))
  }

  /** A strictly ascending list whose entries are all `g` is `[g]` or empty. */
  lemma AscendingConstant(keys: seq<string>, g: string)
    requires StrictlyAscending(keys)
    requires forall k :: 0 <= k < |keys| ==> keys[k] == g
    ensures |keys| <= 1
  {
    if |keys| > 1 {
      assert Below(keys[0], keys[1]);
      BelowIrreflexive(g);
      assert false;
    }
  }

  /**
   * Grouping a view filtered to a single region (other than the wildcard)
   * yields exactly that key when some row survives. An empty view yields no
   * key; the dashboard shows a warning instead of grouping it.
   */
  lemma SingleRegionGroups(rows: seq<Row>, countries: seq<string>, region: string)
    requires region != ALL
    ensures var view := Admitted(rows, countries, [region]);
            GroupKeys(view) == if view == [] then [] else [region]
  {
    var view := Admitted(rows, countries, [region]);
    assert forall i :: 0 <= i < |view| ==> Admits(countries, [region], view[i]);
    assert forall i :: 0 <= i < |view| ==> view[i].region == region;
    var keys := GroupKeys(view);
    assert forall k :: 0 <= k < |keys| ==> keys[k] == region by {
      forall k | 0 <= k < |keys|
        ensures keys[k] == region
      {
        assert keys[k] in Regions(view);
      }
    }
    AscendingConstant(keys, region);
    if view != [] {
      assert Regions(view)[0] in Regions(view);
    }
  }
}
