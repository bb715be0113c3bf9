/** The tabularity test: a region is judged tabular when the rows and columns
    its rulings define agree, on average, with the rows and columns its text
    layout suggests, to within a factor of 1/0.65.

    The ratio is a float in the source; here it is a real number or one of
    the two special float values the source can produce from non-negative
    counts: positive infinity (a positive count over zero) and NaN (zero over
    zero, or no spreadsheet at all). Every ordered comparison with NaN is
    false. */
module Tabularity {
  import opened Geometry

  /** The heuristic's threshold, and its reciprocal as the upper bound. */
  const Threshold: real := 0.65

  /** A non-negative float as the source can compute it. */
  datatype Ratio = Finite(value: real) | Infinity | NaN

  /** Row and column counts of a table. */
  datatype Counts = Counts(rows: nat, cols: nat)

  /** n.to_f / d for counts. */
  function Divide(n: nat, d: nat): (r: Ratio)
    ensures r.Finite? <==> d != 0
    ensures r.NaN? <==> d == 0 && n == 0
    ensures r.Finite? ==> r.value * (d as real) == n as real
  {
    if d != 0 then Finite(n as real / d as real)
    else if n == 0 then NaN
    else Infinity
  }

  /** Float addition of two non-negative ratios. */
  function Add(a: Ratio, b: Ratio): (r: Ratio)
    ensures r.NaN? <==> a.NaN? || b.NaN?
    ensures r.Finite? <==> a.Finite? && b.Finite?
    ensures r.Finite? ==> r.value == a.value + b.value
  {
    match (a, b)
    case (Finite(x), Finite(y)) => Finite(x + y)
    case (NaN, _) => NaN
    case (_, NaN) => NaN
    case _ => Infinity
  }

  /** Float division by two. */
  function Half(a: Ratio): (r: Ratio)
    ensures r.Finite? <==> a.Finite?
    ensures r.NaN? <==> a.NaN?
    ensures r.Finite? ==> r.value == a.value / 2.0
  {
    match a
    case Finite(x) => Finite(x / 2.0)
    case Infinity => Infinity
    case NaN => NaN
  }

  /** Float comparisons: NaN is neither above nor below anything, infinity
      is above every finite value. */
  predicate Above(a: Ratio, bound: real) {
    match a
    case Finite(x) => x > bound
    case Infinity => true
    case NaN => false
  }

  predicate Below(a: Ratio, bound: real) {
    match a
    case Finite(x) => x < bound
    case Infinity => false
    case NaN => false
  }

  /** heuristic_ratio: the mean of the column ratio and the row ratio (counts
      defined by the rulings over counts found without them); NaN when the
      region holds no spreadsheet or either ratio is 0/0. The ratio is an
      ordinary number exactly when there is a spreadsheet and the table has
      rows and columns, and infinite in the remaining cases. */
  function HeuristicRatio(spreadsheet: Option<Counts>, table: Counts): (r: Ratio)
    ensures r.NaN? <==> spreadsheet.None?
                        || (spreadsheet.value.cols == 0 && table.cols == 0)
                        || (spreadsheet.value.rows == 0 && table.rows == 0)
    ensures r.Finite? <==> spreadsheet.Some? && table.rows != 0 && table.cols != 0
    ensures r.Finite? ==> r.value == (spreadsheet.value.cols as real / table.cols as real
                                      + spreadsheet.value.rows as real / table.rows as real) / 2.0
    ensures r.Finite? ==> r.value >= 0.0
  {
    match spreadsheet
    case None => NaN
    case Some(lined) => Half(Add(Divide(lined.cols, table.cols), Divide(lined.rows, table.rows)))
  }

  /** is_tabular?: the ratio lies strictly between the threshold and its
      reciprocal, that is an ordinary number strictly inside (0.65, 1/0.65).
      Infinity and NaN never do. */
  predicate IsTabular(ratio: Ratio)
    ensures IsTabular(ratio) <==> ratio.Finite? && 13.0 / 20.0 < ratio.value < 20.0 / 13.0
  {
    Above(ratio, Threshold) && Below(ratio, 1.0 / Threshold)
  }

  /** The band is closed under reciprocals: a ratio and its inverse are
      judged alike. */
  lemma TabularReciprocal(x: real)
    requires x > 0.0
    ensures IsTabular(Finite(x)) <==> IsTabular(Finite(1.0 / x))
  {
    if IsTabular(Finite(x)) {
      ReciprocalBelow(x, 20.0 / 13.0);
      ReciprocalAbove(x, 13.0 / 20.0);
    }
    if IsTabular(Finite(1.0 / x)) {
      ReciprocalBelow(1.0 / x, 20.0 / 13.0);
      ReciprocalAbove(1.0 / x, 13.0 / 20.0);
    }
  }

  lemma ReciprocalBelow(x: real, b: real)
    requires 0.0 < x < b
    ensures 1.0 / x > 1.0 / b
  {
    assert 1.0 / x - 1.0 / b == (b - x) / (x * b);
  }

  lemma ReciprocalAbove(x: real, b: real)
    requires 0.0 < b < x
    ensures 1.0 / x < 1.0 / b
  {
    assert 1.0 / b - 1.0 / x == (x - b) / (x * b);
  }

  /** A region with no spreadsheet is never tabular. */
  lemma NoSpreadsheetNotTabular(table: Counts)
    ensures !IsTabular(HeuristicRatio(None, table))
  {
  }

  /** A table without rows or without columns is never tabular: its ratio is
      infinite or NaN. */
  lemma EmptyTableNotTabular(lined: Counts, table: Counts)
    requires table.rows == 0 || table.cols == 0
    ensures !IsTabular(HeuristicRatio(Some(lined), table))
  {
  }

  /** When the rulings define exactly the rows and columns the layout
      suggests, the ratio is 1 and the region is tabular. */
  lemma AgreeingCountsTabular(counts: Counts)
    requires counts.rows != 0 && counts.cols != 0
    ensures HeuristicRatio(Some(counts), counts) == Finite(1.0)
    ensures IsTabular(HeuristicRatio(Some(counts), counts))
  {
    Multiple(1, counts.rows);
    Multiple(1, counts.cols);
  }

  /** Twice as many ruled rows and columns as the layout suggests is a ratio
      of 2, outside the band. */
  lemma DoubledCountsNotTabular(counts: Counts)
    requires counts.rows != 0 && counts.cols != 0
    ensures HeuristicRatio(Some(Counts(2 * counts.rows, 2 * counts.cols)), counts) == Finite(2.0)
    ensures !IsTabular(HeuristicRatio(Some(Counts(2 * counts.rows, 2 * counts.cols)), counts))
  {
    Multiple(2, counts.rows);
    Multiple(2, counts.cols);
  }

  lemma Multiple(k: nat, d: nat)
    requires d != 0
    ensures (k * d) as real / d as real == k as real
  {
    assert (k * d) as real == k as real * d as real;
  }
}
