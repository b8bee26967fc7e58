/**
 * The input selection and the eligibility gate of the "Predicting Happiness
 * Score" tab. The fit and its metrics are left to the regression library.
 */
module Regression {
  import opened Wrappers
  import opened Records
  import opened Seqs

  /** The four predictors of one row, all present. */
  datatype Features = Features(gdp: real, social: real, freedom: real, corruption: real)

  /** The tab either fits on the selected rows or shows the "not enough data" warning. */
  datatype ModelStep = Fit(x: seq<Features>, y: seq<Option<real>>) | NotEnoughData

  /** The row has a value in each of the four predictor columns. */
  predicate Complete(row: Row)
  {
    row.rec.gdp.Some? && row.rec.social.Some? && row.rec.freedom.Some? && row.rec.corruption.Some?
  }

  function FeaturesOf(row: Row): Features
    requires Complete(row)
  {
    Features(row.rec.gdp.value, row.rec.social.value, row.rec.freedom.value, row.rec.corruption.value)
  }

  /** `df_filtered[features].dropna()`: the rows with all four predictors, in order. */
  function TrainingRows(view: seq<Row>): seq<Row>
  {
    Select(view, Complete)
  }

  /** Reference count of the rows with all four predictors. */
  function CountComplete(view: seq<Row>): nat
  {
    if view == [] then 0
    else (if Complete(view[0]) then 1 else 0) + CountComplete(view[1..])
  }

  lemma {:induction false} CountCompleteSnoc(view: seq<Row>, row: Row)
    ensures CountComplete(view + [row]) == CountComplete(view) + if Complete(row) then 1 else 0
  {
    if view != [] {
      assert (view + [row])[1..] == view[1..] + [row];
      CountCompleteSnoc(view[1..], row);
    }
  }

  /** There are as many training rows as the reference count says. */
  lemma {:induction false} TrainingRowsCount(view: seq<Row>)
    ensures |TrainingRows(view)| == CountComplete(view)
  {
    if view != [] {
      var init, last := view[..|view| - 1], view[|view| - 1];
      TrainingRowsCount(init);
      assert view == init + [last];
      CountCompleteSnoc(init, last);
    }
  }

  /**
   * The training rows are an order-preserving subsequence of the view, keep
   * every row with all four predictors and no other, and number as many as
   * the reference count says.
   */
  lemma TrainingRowsFacts(view: seq<Row>)
    ensures SubseqOf(TrainingRows(view), view)
    ensures forall row :: multiset(TrainingRows(view))[row] ==
              if Complete(row) then multiset(view)[row] else 0
    ensures |TrainingRows(view)| == CountComplete(view)
  {
    SelectIsSubseq(view, Complete);
    SelectCounts(view, Complete);
    TrainingRowsCount(view);
  }

  /**
   * The modelling step: the design matrix holds the predictors of the
   * training rows and the targets are the scores of those same rows, one
   * per row; a fit happens exactly when at least six complete rows exist.
   */
  function ModelingStep(view: seq<Row>): (step: ModelStep)
    ensures step.Fit? <==> CountComplete(view) >= 6
    ensures step.Fit? ==>
              && |step.x| == |step.y| == |TrainingRows(view)|
              && forall k :: 0 <= k < |step.x| ==>
                   Complete(TrainingRows(view)[k]) &&
                   step.x[k] == FeaturesOf(TrainingRows(view)[k]) &&
                   step.y[k] == TrainingRows(view)[k].rec.score
  {
    TrainingRowsFacts(view);
    var rows := TrainingRows(view);
    var x := seq(|rows|, k requires 0 <= k < |rows| => FeaturesOf(rows[k]));
    var y := seq(|rows|, k requires 0 <= k < |rows| => rows[k].rec.score);
    if |x| != 0 && |x| > 5 then Fit(x, y) else NotEnoughData
  }

  /** A view of fewer than six rows never reaches the fit, whatever its contents. */
  lemma SmallViewsNeverFit(view: seq<Row>)
    requires |view| < 6
    ensures ModelingStep(view) == NotEnoughData
  {
    TrainingRowsFacts(view);
  }
}
