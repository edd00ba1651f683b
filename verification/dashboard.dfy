/**
 * The dashboard's goal-progress figure: the share of the distance from the
 * initial weight to the goal weight that the current weight has covered,
 * clamped into [0, 1]. A goal below the initial weight is a loss goal, one
 * above it a gain goal, and a goal equal to it leaves the figure at 0.
 * Weights are exact reals.
 */
module Dashboard {

  /** `x` clamped into [0, 1] (`max(0.0, min(x, 1.0))`). */
  function Clamp01(x: real): (c: real)
    ensures 0.0 <= c <= 1.0
    ensures x <= 0.0 ==> c == 0.0
    ensures 1.0 <= x ==> c == 1.0
    ensures 0.0 <= x <= 1.0 ==> c == x
  {
    if x < 0.0 then 0.0 else if x > 1.0 then 1.0 else x
  }

  /** The goal progress for initial weight `iw`, current weight `cw` and goal weight `gw`. */
  function ProgressPct(iw: real, cw: real, gw: real): (p: real)
    ensures 0.0 <= p <= 1.0
    ensures iw == gw ==> p == 0.0
  {
    if iw == gw then 0.0
    else if iw > gw then Clamp01((iw - cw) / (iw - gw))
    else Clamp01((cw - iw) / (gw - iw))
  }

  /** Scaling by a positive factor keeps order, both ways. */
  lemma ScaleOrder(x: real, y: real, b: real)
    requires b > 0.0
    ensures x <= y <==> x * b <= y * b
    ensures x < y <==> x * b < y * b
  {
    assert (y - x) * b == y * b - x * b;
  }

  /** A fraction `a / b` with `b > 0` compares with 0 and 1 as `a` compares with 0 and `b`. */
  lemma FractionBounds(a: real, b: real)
    requires b > 0.0
    ensures a / b * b == a
    ensures 0.0 <= a / b <==> 0.0 <= a
    ensures 0.0 < a / b <==> 0.0 < a
    ensures a / b <= 1.0 <==> a <= b
    ensures a / b < 1.0 <==> a < b
  {
    var q := a / b;
    assert q * b == a;
    ScaleOrder(0.0, q, b);
    ScaleOrder(q, 1.0, b);
    assert q < 1.0 <==> q * b < 1.0 * b;
  }

  /**
   * For a loss goal: at or below the goal the progress is 1, at or above the
   * initial weight it is 0, and in between it is the share of `iw - gw`
   * already lost.
   */
  lemma LossProgress(iw: real, cw: real, gw: real)
    requires gw < iw
    ensures cw <= gw ==> ProgressPct(iw, cw, gw) == 1.0
    ensures iw <= cw ==> ProgressPct(iw, cw, gw) == 0.0
    ensures gw < cw < iw ==> 0.0 < ProgressPct(iw, cw, gw) < 1.0
    ensures gw <= cw <= iw ==> ProgressPct(iw, cw, gw) * (iw - gw) == iw - cw
  {
    FractionBounds(iw - cw, iw - gw);
  }

  /**
   * For a gain goal: at or above the goal the progress is 1, at or below the
   * initial weight it is 0, and in between it is the share of `gw - iw`
   * already gained.
   */
  lemma GainProgress(iw: real, cw: real, gw: real)
    requires iw < gw
    ensures gw <= cw ==> ProgressPct(iw, cw, gw) == 1.0
    ensures cw <= iw ==> ProgressPct(iw, cw, gw) == 0.0
    ensures iw < cw < gw ==> 0.0 < ProgressPct(iw, cw, gw) < 1.0
    ensures iw <= cw <= gw ==> ProgressPct(iw, cw, gw) * (gw - iw) == cw - iw
  {
    FractionBounds(cw - iw, gw - iw);
  }

  /** A gain goal is a loss goal seen in a mirror: negating every weight keeps the progress. */
  lemma ProgressMirror(iw: real, cw: real, gw: real)
    ensures ProgressPct(-iw, -cw, -gw) == ProgressPct(iw, cw, gw)
  {
    if iw < gw {
      assert (-iw - -cw) / (-iw - -gw) == (cw - iw) / (gw - iw);
    } else if iw > gw {
      assert (-cw - -iw) / (-gw - -iw) == (iw - cw) / (iw - gw);
    }
  }

  /** For a loss goal, a lower current weight never shows less progress. */
  lemma LossProgressMonotone(iw: real, gw: real, c1: real, c2: real)
    requires gw < iw && c1 <= c2
    ensures ProgressPct(iw, c2, gw) <= ProgressPct(iw, c1, gw)
  {
    var d := iw - gw;
    FractionBounds(iw - c1, d);
    FractionBounds(iw - c2, d);
    var q1, q2 := (iw - c1) / d, (iw - c2) / d;
    ScaleOrder(q2, q1, d);
    assert q2 <= q1;
    assert ProgressPct(iw, c1, gw) == Clamp01(q1) && ProgressPct(iw, c2, gw) == Clamp01(q2);
  }
}
