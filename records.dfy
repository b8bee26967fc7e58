/** The rows of the uploaded happiness table. */
module Records {
  import opened Wrappers

  /**
   * One row of the uploaded CSV file. `None` is a missing cell; the country
   * name may be missing too. Columns the core never reads (Generosity,
   * Family, Life_Expectancy, Year) are not carried.
   */
  datatype Record = Record(
    country: Option<string>,     // Country
    score: Option<real>,         // Happiness_Score
    gdp: Option<real>,           // GDP_per_Capita
    social: Option<real>,        // Social_support
    freedom: Option<real>,       // Freedom
    corruption: Option<real>)    // Corruption_Perception

  /** A record together with its derived Region column. */
  datatype Row = Row(rec: Record, region: string)

  /** The Country column. */
  function Countries(rows: seq<Row>): seq<Option<string>>
  {
    seq(|rows|, i requires 0 <= i < |rows| => rows[i].rec.country)
  }

  /** The Region column. */
  function Regions(rows: seq<Row>): seq<string>
  {
    seq(|rows|, i requires 0 <= i < |rows| => rows[i].region)
  }
}
