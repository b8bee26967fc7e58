/**
 * The filter engine: the sidebar's country and region selections narrow the
 * table. A selection that is empty or holds the wildcard "All" imposes no
 * restriction; otherwise only rows whose value is selected are kept.
 */
module Filters {
  import opened Wrappers
  import opened Records
  import opened Seqs

  /** The wildcard entry of both selections. */
  const ALL := "All"

  /** A selection that leaves its column unrestricted. */
  predicate Unrestricted(selection: seq<string>)
  {
    |selection| == 0 || ALL in selection
  }

  datatype Column = CountryColumn | RegionColumn

  /** `isin`: the row's value in `column` is one of the selected names; a missing country never is. */
  predicate IsIn(row: Row, column: Column, selection: seq<string>)
  {
    match column
    case CountryColumn => row.rec.country.Some? && row.rec.country.value in selection
    case RegionColumn => row.region in selection
  }

  /** One filter step: keep the rows whose `column` value is selected, unless the selection is unrestricted. */
  function Restrict(view: seq<Row>, column: Column, selection: seq<string>): seq<Row>
  {
    if Unrestricted(selection) then view
    else Select(view, row => IsIn(row, column, selection))
  }

  /** Reference definition: a row belongs to the filtered view when it passes every active test. */
  predicate Admits(countries: seq<string>, regions: seq<string>, row: Row)
  {
    && (Unrestricted(countries) || IsIn(row, CountryColumn, countries))
    && (Unrestricted(regions) || IsIn(row, RegionColumn, regions))
  }

  /** The rows of `rows` admitted by the two selections, in their original order. */
  function Admitted(rows: seq<Row>, countries: seq<string>, regions: seq<string>): seq<Row>
  {
    Select(rows, row => Admits(countries, regions, row))
  }

  /** The admitted rows form an order-preserving subsequence that keeps exactly the admitted rows. */
  lemma AdmittedFacts(rows: seq<Row>, countries: seq<string>, regions: seq<string>)
    ensures SubseqOf(Admitted(rows, countries, regions), rows)
    ensures forall row :: multiset(Admitted(rows, countries, regions))[row] ==
              if Admits(countries, regions, row) then multiset(rows)[row] else 0
    ensures forall row :: row in Admitted(rows, countries, regions) <==>
              row in rows && Admits(countries, regions, row)
  {
    SelectIsSubseq(rows, row => Admits(countries, regions, row));
    SelectCounts(rows, row => Admits(countries, regions, row));
  }

  /** Applying the region step after the country step yields exactly the admitted rows. */
  lemma {:induction false} RestrictTwice(rows: seq<Row>, first: Column, second: Column,
                                         countries: seq<string>, regions: seq<string>)
    requires first != second
    ensures Restrict(Restrict(rows, first, if first == CountryColumn then countries else regions),
                     second, if second == CountryColumn then countries else regions)
            == Admitted(rows, countries, regions)
  {
    var s1 := if first == CountryColumn then countries else regions;
    var s2 := if second == CountryColumn then countries else regions;
    var p := row => IsIn(row, first, s1);
    var q := row => IsIn(row, second, s2);
    var admits := row => Admits(countries, regions, row);
    if Unrestricted(s1) && Unrestricted(s2) {
      SelectEverything(rows, admits);
    } else if Unrestricted(s1) {
      SelectAgree(rows, q, admits);
    } else if Unrestricted(s2) {
      SelectAgree(rows, p, admits);
    } else {
      SelectTwice(rows, p, q, admits);
    }
  }

  /**
   * The filter block: copy the table, then restrict it by country and then
   * by region. The result is an order-preserving subsequence of the table
   * that keeps a row exactly when it passes the country test (if active)
   * and the region test (if active).
   */
  method FilterView(rows: seq<Row>, countries: seq<string>, regions: seq<string>)
    returns (view: seq<Row>)
    ensures view == Admitted(rows, countries, regions)
    ensures SubseqOf(view, rows)
    ensures forall row :: multiset(view)[row] ==
              if Admits(countries, regions, row) then multiset(rows)[row] else 0
  {
    view := rows;
    if ALL !in countries && |countries| > 0 {
      view := Select(view, row => IsIn(row, CountryColumn, countries));
    }
    if ALL !in regions && |regions| > 0 {
      view := Select(view, row => IsIn(row, RegionColumn, regions));
    }
    assert view == Restrict(Restrict(rows, CountryColumn, countries), RegionColumn, regions);
    RestrictTwice(rows, CountryColumn, RegionColumn, countries, regions);
    AdmittedFacts(rows, countries, regions);
  }

  /** With both selections unrestricted the view is the whole table, rows and order unchanged. */
  lemma WildcardIdentity(rows: seq<Row>, countries: seq<string>, regions: seq<string>)
    requires Unrestricted(countries) && Unrestricted(regions)
    ensures Admitted(rows, countries, regions) == rows
  {
    SelectEverything(rows, row => Admits(countries, regions, row));
  }

  /** An unrestricted selection contributes nothing: only the other column's step applies. */
  lemma UnrestrictedDimension(rows: seq<Row>, countries: seq<string>, regions: seq<string>)
    ensures Unrestricted(countries) ==>
              Admitted(rows, countries, regions) == Restrict(rows, RegionColumn, regions)
    ensures Unrestricted(regions) ==>
              Admitted(rows, countries, regions) == Restrict(rows, CountryColumn, countries)
  {
    RestrictTwice(rows, CountryColumn, RegionColumn, countries, regions);
  }

  /** The order of the two steps does not matter. */
  lemma StepsCommute(rows: seq<Row>, countries: seq<string>, regions: seq<string>)
    ensures Restrict(Restrict(rows, RegionColumn, regions), CountryColumn, countries)
            == Restrict(Restrict(rows, CountryColumn, countries), RegionColumn, regions)
  {
    RestrictTwice(rows, CountryColumn, RegionColumn, countries, regions);
    RestrictTwice(rows, RegionColumn, CountryColumn, countries, regions);
  }

  /** A row is in the filtered view exactly when it is in both single-column views. */
  lemma Intersection(rows: seq<Row>, countries: seq<string>, regions: seq<string>, row: Row)
    ensures row in Admitted(rows, countries, regions) <==>
              row in Admitted(rows, countries, []) && row in Admitted(rows, [], regions)
  {
    AdmittedFacts(rows, countries, regions);
    AdmittedFacts(rows, countries, []);
    AdmittedFacts(rows, [], regions);
  }
}
