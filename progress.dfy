/** The percentage the worker reports after each position, computed in PdfHelper.cs as
    `Math.Round((decimal)i / order * 100, MidpointRounding.AwayFromZero)`. For the
    non-negative values that occur, rounding half away from zero is `floor(x + 1/2)`,
    which is written here on naturals. */
module WorkerProgress {

  /** Percentage reported after position i of order positions. */
  function Progress(i: int, order: int): (p: int)
    requires 0 < order && 0 <= i <= order
    ensures 0 <= p <= 100
    // p is 100*i/order rounded to nearest, halves upward: p - 1/2 <= 100*i/order < p + 1/2
    ensures 2 * order * p - order <= 200 * i < 2 * order * p + order
  {
    ProgressBounds(i, order);
    (200 * i + order) / (2 * order)
  }

  lemma ProgressBounds(i: int, order: int)
    requires 0 < order && 0 <= i <= order
    ensures var p := (200 * i + order) / (2 * order);
            0 <= p <= 100 && 2 * order * p - order <= 200 * i < 2 * order * p + order
  {
    var n, d := 200 * i + order, 2 * order;
    var q := n / d;
    assert d * q + n % d == n && 0 <= n % d < d;
    if q < 0 {
      ScaleMonotone(d, q, -1);
    }
    if q > 100 {
      ScaleMonotone(d, 101, q);
    }
  }

  /** Reports never go down as positions advance. */
  lemma ProgressMonotone(i: int, j: int, order: int)
    requires 0 < order && 0 <= i <= j <= order
    ensures Progress(i, order) <= Progress(j, order)
  {
    var p, q := Progress(i, order), Progress(j, order);
    if q < p {
      ScaleMonotone(2 * order, q, p - 1);
    }
  }

  lemma ScaleMonotone(a: int, b: int, c: int)
    requires 0 <= a && b <= c
    ensures a * b <= a * c
  {
  }

  /** The report after the last position is exactly 100. */
  lemma ProgressComplete(order: int)
    requires 0 < order
    ensures Progress(order, order) == 100
  {
    var p := Progress(order, order);
    if p < 100 {
      ScaleMonotone(2 * order, p, 99);
    } else if p > 100 {
      ScaleMonotone(2 * order, 101, p);
    }
  }

  /** The sequence of reports after positions 1..n. */
  function ProgressReports(n: nat, order: int): (r: seq<int>)
    requires n <= order
    ensures |r| == n
    ensures forall k :: 0 <= k < n ==> 0 <= r[k] <= 100
  {
    seq(n, k requires 0 <= k < n => Progress(k + 1, order))
  }

  /** Finishing position n+1 adds its report at the end. */
  lemma ProgressReportsSnoc(n: nat, order: int)
    requires n < order
    ensures ProgressReports(n + 1, order) == ProgressReports(n, order) + [Progress(n + 1, order)]
  {
  }

  /** A full run reports a non-decreasing sequence ending in 100. */
  lemma ReportsOfFullRun(order: int)
    requires 0 < order
    ensures var r := ProgressReports(order, order);
            r[order - 1] == 100 &&
            forall a, b :: 0 <= a <= b < order ==> r[a] <= r[b]
  {
    ProgressComplete(order);
    forall a, b | 0 <= a <= b < order
      ensures ProgressReports(order, order)[a] <= ProgressReports(order, order)[b]
    {
      ProgressMonotone(a + 1, b + 1, order);
    }
  }
}
