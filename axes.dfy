/** The y-axis limits of `plot_n_seq`, the graph of sequence counts per continent, and the
    checks on its arguments that run before any plotting. */
module Axes {
  import opened Outcomes

  /** The lowest upper limit of the linear axis. */
  const Floor: int := 7500

  /** The step the limit is rounded to. */
  const Step: int := 500

  /** The automatic upper limit of the linear axis from the largest weekly count. A table without
      any count has a maximum of NaN, which is not above the floor. */
  function LinearYMax(maxValue: Option<int>): (ymax: int)
    ensures ymax % Step == 0 && ymax >= Floor
    ensures maxValue.None? || maxValue.value <= Floor ==> ymax == Floor
    ensures maxValue.Some? && maxValue.value > Floor ==>
      ymax >= maxValue.value + Step / 2 && ymax - Step < maxValue.value + Step / 2
  {
    match maxValue
    case None => Floor
    case Some(m) =>
      if m > Floor then
        if m % Step > Step / 2 then ((m / Step) + 2) * Step else ((m / Step) + 1) * Step
      else Floor
  }

  /** The automatic limit does not decrease as the maximum grows. */
  lemma LinearYMaxMonotone(m: int, n: int)
    requires m <= n
    ensures LinearYMax(Some(m)) <= LinearYMax(Some(n))
  {
    var x, y := LinearYMax(Some(m)), LinearYMax(Some(n));
    if n > Floor && m > Floor {
      assert x - Step < m + Step / 2 <= n + Step / 2 <= y;
    }
  }

  /** Arguments that `plot_n_seq` refuses. */
  datatype AxisError = YMaxWithLog | NegativeRemoveEnd

  /** The y limit of the graph: `Some` upper limit on a linear axis, `None` on a log axis (its
      limit is computed in floating point). A user `y_max` counts only when truthy (non-zero). */
  function YLimit(maxValue: Option<int>, yMax: Option<int>, log: bool, removeEnd: int): (r: Result<Option<int>, AxisError>)
    ensures r == Failure(YMaxWithLog) <==> yMax.Some? && yMax.value != 0 && log
    ensures r == Failure(NegativeRemoveEnd) <==> !(yMax.Some? && yMax.value != 0 && log) && removeEnd < 0
    ensures r.Success? && log ==> r.value.None?
    ensures r.Success? && !log && yMax.Some? && yMax.value != 0 ==> r.value == yMax
    ensures r.Success? && !log && (yMax.None? || yMax.value == 0) ==> r.value == Some(LinearYMax(maxValue))
  {
    var given := yMax.Some? && yMax.value != 0;
    if given && log then Failure(YMaxWithLog)
    else if removeEnd < 0 then Failure(NegativeRemoveEnd)
    else if log then Success(None)
    else if given then Success(yMax)
    else Success(Some(LinearYMax(maxValue)))
  }
}
