/**
 * Properties of the rows the solver produces, stated on the reference
 * definition `RowAt` that `Solve` is proved to follow.
 */
module SolverProperties {
  import opened Optional
  import opened Schemes
  import opened Solver

  /** In every row, the two end cells hold the two boundary values. */
  lemma BoundariesHold(p: Parameters, scheme: Scheme, t: nat)
    requires p.spacePoints >= 2 && (t > 0 ==> SteppingDefined(p))
    ensures RowAt(p, scheme, t)[0] == p.boundaryCondition0
    ensures RowAt(p, scheme, t)[p.spacePoints - 1] == p.boundaryCondition1
  {
    var row := RowAt(p, scheme, t);
    if t == 0 {
      assert row[0] == InitialCell(p, 0);
      assert row[p.spacePoints - 1] == InitialCell(p, p.spacePoints - 1);
    } else {
      var prev := RowAt(p, scheme, t - 1);
      assert row[0] == NextCell(p, scheme, prev, 0);
      assert row[p.spacePoints - 1] == NextCell(p, scheme, prev, p.spacePoints - 1);
    }
  }

  /** On a one-point row the right boundary value, written second, is the only value. */
  lemma OnePointRow(p: Parameters, scheme: Scheme, t: nat)
    requires p.spacePoints == 1 && (t > 0 ==> SteppingDefined(p))
    ensures RowAt(p, scheme, t) == [p.boundaryCondition1]
  {
    var row := RowAt(p, scheme, t);
    if t == 0 {
      assert row[0] == InitialCell(p, 0);
    } else {
      assert row[0] == NextCell(p, scheme, RowAt(p, scheme, t - 1), 0);
    }
  }

  /**
   * Interior cells of row 0 sample the initial condition at the abscissae
   * that `lerp` spreads evenly from 0 (point 0) to `space_max` (the last point).
   */
  lemma InitialRowSamples(p: Parameters, scheme: Scheme, i: nat)
    requires p.spacePoints >= 3 && 0 < i < p.spacePoints - 1
    ensures RowAt(p, scheme, 0)[i]
         == p.initialCondition(Lerp(i as real, 0.0, (p.spacePoints - 1) as real, 0.0, p.spaceMax))
    ensures Lerp(0.0, 0.0, (p.spacePoints - 1) as real, 0.0, p.spaceMax) == 0.0
    ensures Lerp((p.spacePoints - 1) as real, 0.0, (p.spacePoints - 1) as real, 0.0, p.spaceMax) == p.spaceMax
    ensures Lerp(i as real + 1.0, 0.0, (p.spacePoints - 1) as real, 0.0, p.spaceMax)
          - Lerp(i as real, 0.0, (p.spacePoints - 1) as real, 0.0, p.spaceMax)
         == p.spaceMax / (p.spacePoints - 1) as real
  {
    assert RowAt(p, scheme, 0)[i] == InitialCell(p, i);
    LerpEndpoints(0.0, (p.spacePoints - 1) as real, 0.0, p.spaceMax);
    LerpStride(i as real, 0.0, (p.spacePoints - 1) as real, 0.0, p.spaceMax);
  }

  /**
   * The space step used by the update is `space_max / space_points`, while
   * the initial samples are `space_max / (space_points - 1)` apart: for a
   * non-empty domain the two never agree.
   */
  lemma SpaceStepDiffersFromSampleSpacing(p: Parameters)
    requires p.spacePoints >= 2 && p.spaceMax != 0.0
    ensures SpaceStep(p) != p.spaceMax / (p.spacePoints - 1) as real
  {
    var n := p.spacePoints as real;
    SpacingsDiffer(p.spaceMax, n, SpaceStep(p), p.spaceMax / (n - 1.0));
  }

  lemma SpacingsDiffer(length: real, n: real, h: real, g: real)
    requires n >= 2.0 && length != 0.0
    requires h * n == length && g * (n - 1.0) == length
    ensures h != g
  {
    assert h != 0.0;
    assert (g - h) * (n - 1.0) == h;
  }

  /**
   * A uniform state stays uniform: with both boundary values and the
   * initial condition equal to `c`, every cell of every row is `c`, under
   * either scheme.
   */
  lemma {:induction false} SteadyState(p: Parameters, scheme: Scheme, c: real, t: nat)
    requires p.spacePoints > 0 && (t > 0 ==> SteppingDefined(p))
    requires p.boundaryCondition0 == c && p.boundaryCondition1 == c
    requires forall x :: p.initialCondition(x) == c
    ensures forall i :: 0 <= i < p.spacePoints ==> RowAt(p, scheme, t)[i] == c
  {
    if t == 0 {
      forall i | 0 <= i < p.spacePoints
        ensures RowAt(p, scheme, 0)[i] == c
      {
        assert RowAt(p, scheme, 0)[i] == InitialCell(p, i);
      }
    } else {
      var prev := RowAt(p, scheme, t - 1);
      SteadyState(p, scheme, c, t - 1);
      forall i | 0 <= i < p.spacePoints
        ensures RowAt(p, scheme, t)[i] == c
      {
        assert RowAt(p, scheme, t)[i] == NextCell(p, scheme, prev, i);
        if 0 < i < p.spacePoints - 1 {
          AdvanceFlat(scheme, SpaceStep(p), TimeStep(p), p.diffusivity, c);
        }
      }
    }
  }

  /**
   * Discrete maximum principle: when `0 <= r <= 1/2` (the upper bound is the
   * one the Euler build asserts), every value stays within any range that
   * holds the initial row and both boundary values, under either scheme.
   */
  lemma {:induction false} MaximumPrinciple(p: Parameters, scheme: Scheme, lo: real, hi: real, t: nat)
    requires SteppingDefined(p) && p.spaceMax != 0.0
    requires 0.0 <= Ratio(SpaceStep(p), TimeStep(p), p.diffusivity) <= 0.5
    requires lo <= p.boundaryCondition0 <= hi && lo <= p.boundaryCondition1 <= hi
    requires forall i :: 0 <= i < p.spacePoints ==> lo <= InitialRow(p)[i] <= hi
    ensures forall i :: 0 <= i < p.spacePoints ==> lo <= RowAt(p, scheme, t)[i] <= hi
  {
    if t > 0 {
      var prev := RowAt(p, scheme, t - 1);
      MaximumPrinciple(p, scheme, lo, hi, t - 1);
      forall i | 0 <= i < p.spacePoints
        ensures lo <= RowAt(p, scheme, t)[i] <= hi
      {
        assert RowAt(p, scheme, t)[i] == NextCell(p, scheme, prev, i);
        if 0 < i < p.spacePoints - 1 {
          AdvanceBounded(scheme, SpaceStep(p), TimeStep(p), p.diffusivity,
                         prev[i - 1], prev[i], prev[i + 1], lo, hi);
        }
      }
    }
  }

  /**
   * The Runge-Kutta build computes exactly the rows of the Euler build,
   * because each of its stages shifts all three neighbours alike.
   */
  lemma {:induction false} Rk4RowsAreEulerRows(p: Parameters, t: nat)
    requires p.spacePoints > 0 && (t > 0 ==> SteppingDefined(p))
    ensures RowAt(p, RK4, t) == RowAt(p, Euler, t)
  {
    if t > 0 {
      Rk4RowsAreEulerRows(p, t - 1);
      NextRowSchemesAgree(p, RowAt(p, Euler, t - 1));
    }
  }

  /** From the same previous row, both schemes compute the same next row. */
  lemma NextRowSchemesAgree(p: Parameters, prev: seq<real>)
    requires SteppingDefined(p) && |prev| == p.spacePoints
    ensures NextRow(p, RK4, prev) == NextRow(p, Euler, prev)
  {
    forall i | 0 <= i < p.spacePoints
      ensures NextCell(p, RK4, prev, i) == NextCell(p, Euler, prev, i)
    {
      if 0 < i < p.spacePoints - 1 {
        Rk4StepIsEulerStep(SpaceStep(p), TimeStep(p), p.diffusivity, prev[i - 1], prev[i], prev[i + 1]);
      }
    }
  }

  /**
   * `solve` returns 0 exactly when the observer never stopped the run, and
   * then every row was produced (a run stopped at the last row also
   * produced every row, but returns the observer's status).
   */
  lemma ZeroStatusMeansComplete(p: Parameters, onSolution: Option<nat -> int>)
    ensures FinalStatus(p, onSolution) == 0 <==> StopIndex(p, onSolution) == RowCount(p)
    ensures FinalStatus(p, onSolution) == 0 ==> Produced(p, onSolution) == RowCount(p)
  {
  }

  /** The observer is consulted in time order and the run stops at its first non-zero status. */
  lemma StopIsFirstNonZero(p: Parameters, status: nat -> int)
    ensures var stop := StopIndex(p, Some(status));
            (forall k :: 0 <= k < stop ==> status(k) == 0) &&
            (stop < RowCount(p) ==> status(stop) != 0 && FinalStatus(p, Some(status)) == status(stop))
  {
  }
}
