/**
 * `solve`: fills a two-row rolling mesh with the initial row and then, one
 * time index after another, with the next row of the explicit scheme,
 * handing each row to an optional observer that may stop the run.
 *
 * The rows the solver produces are specified by the functions `InitialRow`,
 * `NextRow` and `RowAt`; the method `Solve` is proved to produce exactly
 * those rows, in order, and to stop as the observer asks.
 */
module Solver {
  import opened Optional
  import opened Schemes
  import opened Meshes

  /** `struct Parameters`: the physical problem and its discretisation. */
  datatype Parameters = Parameters(
    boundaryCondition0: real,
    boundaryCondition1: real,
    diffusivity: real,
    initialCondition: real -> real,
    spaceMax: real,
    spacePoints: nat,
    timeMax: real,
    timePoints: nat)

  /** The time step `time_max / time_points`. */
  function TimeStep(p: Parameters): (dt: real)
    requires p.timePoints > 0
    ensures dt * (p.timePoints as real) == p.timeMax
  {
    p.timeMax / (p.timePoints as real)
  }

  /**
   * The space step `space_max / space_points`: the domain divided by the
   * number of points, not by the number of intervals between them.
   */
  function SpaceStep(p: Parameters): (h: real)
    requires p.spacePoints > 0
    ensures h * (p.spacePoints as real) == p.spaceMax
    ensures h != 0.0 <==> p.spaceMax != 0.0
  {
    p.spaceMax / (p.spacePoints as real)
  }

  /**
   * What computing a step needs: a time step (at least one time point) and,
   * when the row has interior points, a non-zero space step to divide by.
   */
  predicate SteppingDefined(p: Parameters)
  {
    p.spacePoints > 0 && p.timePoints > 0 &&
    (p.spacePoints > 2 ==> p.spaceMax != 0.0)
  }

  /**
   * The inputs on which `solve` runs to completion: `mesh_Construct` asserts
   * at least one space point; the Euler build asserts `r <= 0.5` (which needs
   * a finite ratio); the RK4 build divides by the squared space step only
   * when it computes an interior point of a later row.
   */
  predicate Runnable(p: Parameters, scheme: Scheme)
  {
    p.spacePoints > 0 &&
    (scheme == Euler ==>
       p.timePoints > 0 && p.spaceMax != 0.0 &&
       Ratio(SpaceStep(p), TimeStep(p), p.diffusivity) <= 0.5) &&
    (scheme == RK4 && p.timePoints > 1 && p.spacePoints > 2 ==> p.spaceMax != 0.0)
  }

  /** A run that computes any row after the first has its steps defined. */
  lemma RunnableStepping(p: Parameters, scheme: Scheme)
    requires Runnable(p, scheme) && p.timePoints > 1
    ensures SteppingDefined(p)
  {
  }

  /**
   * Cell `i` of row 0: the left boundary value, the right boundary value
   * (written last, so it wins when the row has one point), or the initial
   * condition at the interpolated abscissa of point `i`.
   */
  function InitialCell(p: Parameters, i: nat): (u: real)
    requires i < p.spacePoints
  {
    if i == p.spacePoints - 1 then p.boundaryCondition1
    else if i == 0 then p.boundaryCondition0
    else p.initialCondition(Lerp(i as real, 0.0, (p.spacePoints - 1) as real, 0.0, p.spaceMax))
  }

  function InitialRow(p: Parameters): (row: seq<real>)
  {
    seq(p.spacePoints, i requires 0 <= i < p.spacePoints => InitialCell(p, i))
  }

  /**
   * Cell `i` of the row after `prev`: boundary values at both ends (the right
   * one winning on a one-point row), the scheme's update in between.
   */
  function NextCell(p: Parameters, scheme: Scheme, prev: seq<real>, i: nat): (u: real)
    requires SteppingDefined(p) && |prev| == p.spacePoints && i < p.spacePoints
  {
    if i == p.spacePoints - 1 then p.boundaryCondition1
    else if i == 0 then p.boundaryCondition0
    else Advance(scheme, SpaceStep(p), TimeStep(p), p.diffusivity, prev[i - 1], prev[i], prev[i + 1])
  }

  function NextRow(p: Parameters, scheme: Scheme, prev: seq<real>): (row: seq<real>)
    requires SteppingDefined(p) && |prev| == p.spacePoints
  {
    seq(p.spacePoints, i requires 0 <= i < p.spacePoints => NextCell(p, scheme, prev, i))
  }

  /** The row the solver computes for time index `t`. */
  function RowAt(p: Parameters, scheme: Scheme, t: nat): (row: seq<real>)
    requires p.spacePoints > 0 && (t > 0 ==> SteppingDefined(p))
    ensures |row| == p.spacePoints
  {
    if t == 0 then InitialRow(p)
    else NextRow(p, scheme, RowAt(p, scheme, t - 1))
  }

  /**
   * The first time index in `[from, n)` at which the observer returns a
   * non-zero status, or `n` when there is none.
   */
  function FirstNonZero(status: nat -> int, from: nat, n: nat): (k: nat)
    requires from <= n
    ensures from <= k <= n
    ensures k < n ==> status(k) != 0
    ensures forall j :: from <= j < k ==> status(j) == 0
    decreases n - from
  {
    if from == n then n
    else if status(from) != 0 then from
    else FirstNonZero(status, from + 1, n)
  }

  /**
   * The first non-zero status is determined by the two facts that define it:
   * every earlier status is zero, and the one found (if any) is not.
   */
  lemma FirstNonZeroUnique(status: nat -> int, n: nat, k: nat)
    requires k <= n
    requires forall j :: 0 <= j < k ==> status(j) == 0
    requires k < n ==> status(k) != 0
    ensures FirstNonZero(status, 0, n) == k
  {
  }

  /**
   * How many rows a complete run produces: the initial row is always
   * produced and shown, even when `time_points` is 0.
   */
  function RowCount(p: Parameters): (n: nat)
    ensures n >= 1 && n >= p.timePoints
  {
    if p.timePoints == 0 then 1 else p.timePoints
  }

  /** The time index at which the observer stops the run, or `RowCount(p)`. */
  function StopIndex(p: Parameters, onSolution: Option<nat -> int>): (k: nat)
    ensures k <= RowCount(p)
  {
    match onSolution
    case None => RowCount(p)
    case Some(status) => FirstNonZero(status, 0, RowCount(p))
  }

  /**
   * How many rows a run produces: up to and including the one at which the
   * observer stops it, or all of them.
   */
  function Produced(p: Parameters, onSolution: Option<nat -> int>): (n: nat)
    ensures 1 <= n <= RowCount(p)
    ensures n > 1 ==> p.timePoints > 1
    ensures onSolution.Some? && onSolution.value(0) != 0 ==> n == 1
  {
    var stop := StopIndex(p, onSolution);
    if stop < RowCount(p) then stop + 1 else RowCount(p)
  }

  /** The status `solve` returns once the mesh exists: the observer's first non-zero status, or 0. */
  function FinalStatus(p: Parameters, onSolution: Option<nat -> int>): (status: int)
  {
    match onSolution
    case None => 0
    case Some(status) =>
      var stop := FirstNonZero(status, 0, RowCount(p));
      if stop < RowCount(p) then status(stop) else 0
  }

  /** An observer that returns zero before `t` and non-zero at `t` stops the run at `t`. */
  lemma StopsAt(p: Parameters, onSolution: Option<nat -> int>, t: nat)
    requires onSolution.Some? && t < RowCount(p)
    requires forall k :: 0 <= k < t ==> onSolution.value(k) == 0
    requires onSolution.value(t) != 0
    ensures StopIndex(p, onSolution) == t && Produced(p, onSolution) == t + 1
    ensures FinalStatus(p, onSolution) == onSolution.value(t)
  {
    FirstNonZeroUnique(onSolution.value, RowCount(p), t);
  }

  /** Without a non-zero status before `RowCount(p)` the run goes to the end and returns 0. */
  lemma RunsToEnd(p: Parameters, onSolution: Option<nat -> int>)
    requires onSolution.Some? ==> forall k :: 0 <= k < RowCount(p) ==> onSolution.value(k) == 0
    ensures StopIndex(p, onSolution) == RowCount(p) && Produced(p, onSolution) == RowCount(p)
    ensures FinalStatus(p, onSolution) == 0
  {
    if onSolution.Some? {
      FirstNonZeroUnique(onSolution.value, RowCount(p), RowCount(p));
    }
  }

  /** Rows 0 to n - 1. */
  function RowsUpTo(p: Parameters, scheme: Scheme, n: nat): (rows: seq<seq<real>>)
    requires p.spacePoints > 0 && (n > 1 ==> SteppingDefined(p))
    ensures |rows| == n
  {
    seq(n, t requires 0 <= t < n => RowAt(p, scheme, t))
  }

  lemma RowsUpToNext(p: Parameters, scheme: Scheme, n: nat)
    requires p.spacePoints > 0 && (n > 0 ==> SteppingDefined(p))
    ensures RowsUpTo(p, scheme, n + 1) == RowsUpTo(p, scheme, n) + [RowAt(p, scheme, n)]
  {
  }

  /** What the observer was shown: a time index and the row it names. */
  datatype Observation = Observation(time: nat, row: seq<real>)

  /** Each row shown with its own time index, in order. */
  function Trace(rows: seq<seq<real>>): (shown: seq<Observation>)
    ensures |shown| == |rows|
  {
    seq(|rows|, t requires 0 <= t < |rows| => Observation(t, rows[t]))
  }

  lemma TraceNext(rows: seq<seq<real>>, row: seq<real>)
    ensures Trace(rows + [row]) == Trace(rows) + [Observation(|rows|, row)]
  {
  }

  /** The observer sees every row it is given, or nothing when there is none. */
  function Shown(onSolution: Option<nat -> int>, rows: seq<seq<real>>): (shown: seq<Observation>)
  {
    if onSolution.None? then [] else Trace(rows)
  }

  /**
   * The first block of `solve`: row 0 of the mesh receives both boundary
   * values and, at each interior point, the initial condition sampled at
   * the interpolated abscissa. The other slot is left as it was.
   */
  method WriteInitialRow(mesh: Mesh, p: Parameters)
    requires mesh.Valid() && mesh.timePoints == 2 && mesh.spacePoints == p.spacePoints
    modifies mesh, mesh.points
    ensures mesh.Valid()
    ensures mesh.Rows == old(mesh.Rows)[0 := InitialRow(p)]
  {
    var sp := p.spacePoints;
    mesh.Set(0, 0, p.boundaryCondition0);
    mesh.Set(0, sp - 1, p.boundaryCondition1);
    var s := 1;
    while s + 1 < sp
      invariant mesh.Valid() && mesh.timePoints == 2 && mesh.spacePoints == sp
      invariant 1 <= s <= sp && (sp > 1 ==> s <= sp - 1)
      invariant mesh.Rows[1] == old(mesh.Rows)[1] && |mesh.Rows| == 2
      invariant forall i :: 0 <= i < sp && (i < s || i == sp - 1) ==> mesh.Rows[0][i] == InitialCell(p, i)
      decreases sp - s
    {
      var space := Lerp(s as real, 0.0, (sp - 1) as real, 0.0, p.spaceMax);
      mesh.Set(0, s, p.initialCondition(space));
      s := s + 1;
    }
    assert mesh.Rows[0] == InitialRow(p);
  }

  /**
   * The body of the inner loop of `solve`: the new value of interior point
   * `s` at time `t`, from the three neighbouring values of row `t - 1` read
   * from the mesh, by the Euler update with the precomputed ratio or by the
   * four Runge-Kutta stages.
   */
  method InteriorValue(mesh: Mesh, p: Parameters, scheme: Scheme, t: nat, s: nat,
                       ratio: real, spaceStep: real, timeStep: real) returns (temperature: real)
    requires mesh.Valid() && mesh.timePoints == 2 && mesh.spacePoints == p.spacePoints
    requires SteppingDefined(p) && t >= 1 && 0 < s < p.spacePoints - 1
    requires spaceStep == SpaceStep(p) && timeStep == TimeStep(p)
    requires scheme == Euler ==> ratio == Ratio(spaceStep, timeStep, p.diffusivity)
    ensures temperature == NextCell(p, scheme, mesh.Rows[(t - 1) % 2], s)
  {
    var uLeft := mesh.Get(t - 1, s - 1);
    var uMid := mesh.Get(t - 1, s);
    var uRight := mesh.Get(t - 1, s + 1);
    if scheme == Euler {
      temperature := EulerStep(ratio, uLeft, uMid, uRight);
    } else {
      temperature := Rk4Step(spaceStep, timeStep, p.diffusivity, uLeft, uMid, uRight);
    }
  }

  /**
   * One iteration of the time loop of `solve`: the slot of time index `t`
   * receives both boundary values and, at each interior point, the scheme's
   * update of the three neighbouring values of row `t - 1`, which is read
   * from the other slot and left as it was. `ratio` is the Euler ratio
   * computed once before the loop (unused by RK4).
   */
  method WriteNextRow(mesh: Mesh, p: Parameters, scheme: Scheme, t: nat,
                      ratio: real, spaceStep: real, timeStep: real)
    requires mesh.Valid() && mesh.timePoints == 2 && mesh.spacePoints == p.spacePoints
    requires SteppingDefined(p) && t >= 1
    requires spaceStep == SpaceStep(p) && timeStep == TimeStep(p)
    requires scheme == Euler ==> p.spaceMax != 0.0 && ratio == Ratio(spaceStep, timeStep, p.diffusivity)
    modifies mesh, mesh.points
    ensures mesh.Valid()
    ensures mesh.Rows == old(mesh.Rows)[t % 2 := NextRow(p, scheme, old(mesh.Rows)[(t - 1) % 2])]
  {
    var sp := p.spacePoints;
    ghost var prev := mesh.Rows[(t - 1) % 2];
    mesh.Set(t, 0, p.boundaryCondition0);
    mesh.Set(t, sp - 1, p.boundaryCondition1);
    var s := 1;
    while s + 1 < sp
      invariant mesh.Valid() && mesh.timePoints == 2 && mesh.spacePoints == sp
      invariant 1 <= s <= sp && (sp > 1 ==> s <= sp - 1)
      invariant mesh.Rows[(t - 1) % 2] == prev && |mesh.Rows| == 2
      invariant forall i :: 0 <= i < sp && (i < s || i == sp - 1) ==>
                  mesh.Rows[t % 2][i] == NextCell(p, scheme, prev, i)
      decreases sp - s
    {
      var temperature := InteriorValue(mesh, p, scheme, t, s, ratio, spaceStep, timeStep);
      mesh.Set(t, s, temperature);
      s := s + 1;
    }
    assert mesh.Rows[t % 2] == NextRow(p, scheme, prev);
  }

  /**
   * `solve`. `beforeSolution` is the status returned by the optional
   * `before_solution` callback, `onSolution` the optional `on_solution`
   * callback as a function of the time index, and `meshAllocated` whether
   * `mesh_Construct` obtains its memory. The ghost outputs record the rows
   * produced, what the observer was shown, in order, and whether the mesh
   * was released.
   */
  method Solve(p: Parameters, scheme: Scheme, beforeSolution: Option<int>,
               onSolution: Option<nat -> int>, meshAllocated: bool)
    returns (status: int, ghost rows: seq<seq<real>>, ghost shown: seq<Observation>, ghost released: bool)
    // `mesh_Construct` asserts at least one point, once `before_solution` has let the run go on.
    requires (beforeSolution.None? || beforeSolution.value == 0) ==> p.spacePoints > 0
    // The time step, and the Euler stability assert, are reached only past the observer's row 0.
    requires ((beforeSolution.None? || beforeSolution.value == 0) && meshAllocated &&
              (onSolution.None? || onSolution.value(0) == 0)) ==> Runnable(p, scheme)
    // A non-zero `before_solution` status is returned before anything is allocated.
    ensures beforeSolution.Some? && beforeSolution.value != 0 ==> status == beforeSolution.value
    ensures beforeSolution.Some? && beforeSolution.value != 0 ==> rows == [] && shown == [] && !released
    // A failed allocation is reported as -1.
    ensures (beforeSolution.None? || beforeSolution.value == 0) && !meshAllocated ==> status == -1
    ensures (beforeSolution.None? || beforeSolution.value == 0) && !meshAllocated ==>
              rows == [] && shown == [] && !released
    // Otherwise the status is the observer's first non-zero status, or 0, and
    // rows 0, 1, ... are produced up to and including the one at which the
    // observer stops the run (or all of them), each shown in order right
    // after it is produced; the mesh is released exactly when the run is stopped.
    ensures (beforeSolution.None? || beforeSolution.value == 0) && meshAllocated ==>
              status == FinalStatus(p, onSolution)
    ensures (beforeSolution.None? || beforeSolution.value == 0) && meshAllocated ==>
              rows == RowsUpTo(p, scheme, Produced(p, onSolution)) &&
              shown == Shown(onSolution, rows) &&
              released == (StopIndex(p, onSolution) < RowCount(p))
  {
    rows, shown, released := [], [], false;
    if beforeSolution.Some? && beforeSolution.value != 0 {
      status := beforeSolution.value;
      return;
    }
    if !meshAllocated {
      status := -1;
      return;
    }
    status, rows, shown, released := SolveOnMesh(p, scheme, onSolution);
  }

  /**
   * The part of `solve` after `mesh_Construct` has succeeded: a two-row mesh,
   * row 0, then the time loop, with the observer consulted after each row.
   */
  method SolveOnMesh(p: Parameters, scheme: Scheme, onSolution: Option<nat -> int>)
    returns (status: int, ghost rows: seq<seq<real>>, ghost shown: seq<Observation>, ghost released: bool)
    requires p.spacePoints > 0
    requires (onSolution.None? || onSolution.value(0) == 0) ==> Runnable(p, scheme)
    // An observer that stops the run at row 0 is shown row 0 only, and its status is returned.
    ensures onSolution.Some? && onSolution.value(0) != 0 ==>
              status == onSolution.value(0) && shown == [Observation(0, InitialRow(p))] && released
    ensures rows == RowsUpTo(p, scheme, Produced(p, onSolution))
    ensures shown == Shown(onSolution, rows)
    ensures status == FinalStatus(p, onSolution)
    ensures released == (StopIndex(p, onSolution) < RowCount(p))
  {
    rows, shown, released := [], [], false;
    var sp := p.spacePoints;
    var mesh := new Mesh(2, sp);
    WriteInitialRow(mesh, p);
    rows := [mesh.Rows[0]];
    assert rows == RowsUpTo(p, scheme, 1);
    if onSolution.Some? {
      shown := [Observation(0, mesh.Rows[0])];
      assert shown == Trace(rows);
      var visited := onSolution.value(0);
      if visited != 0 {
        StopsAt(p, onSolution, 0);
        released := true;
        status := visited;
        return;
      }
    }

    // `time_points == 0` makes the C time step a division by zero whose
    // value is never used; only a defined time step is modelled.
    var timeStep := 0.0;
    if p.timePoints > 0 {
      timeStep := TimeStep(p);
    }
    var spaceStep := SpaceStep(p);
    var ratio := 0.0;
    if scheme == Euler {
      ratio := Ratio(spaceStep, timeStep, p.diffusivity);
      assert ratio <= 0.5;
    }

    status, rows, shown, released := March(mesh, p, scheme, onSolution, ratio, spaceStep, timeStep, rows, shown);
  }

  /**
   * One pass of the time loop of `solve`: row `t` is computed into the mesh
   * from row `t - 1`, which stays in the other slot, recorded, and the mesh is
   * handed to the observer (if any), whose status is returned (0 without an
   * observer).
   */
  method Step(mesh: Mesh, p: Parameters, scheme: Scheme, onSolution: Option<nat -> int>, t: nat,
              ratio: real, spaceStep: real, timeStep: real,
              ghost rows0: seq<seq<real>>, ghost shown0: seq<Observation>)
    returns (visited: int, ghost rows: seq<seq<real>>, ghost shown: seq<Observation>)
    requires Runnable(p, scheme) && 1 <= t < p.timePoints
    requires mesh.Valid() && mesh.timePoints == 2 && mesh.spacePoints == p.spacePoints
    requires SteppingDefined(p)
    requires rows0 == RowsUpTo(p, scheme, t) && shown0 == Shown(onSolution, rows0)
    requires mesh.Rows[(t - 1) % 2] == RowAt(p, scheme, t - 1)
    requires spaceStep == SpaceStep(p) && timeStep == TimeStep(p)
    requires scheme == Euler ==> ratio == Ratio(spaceStep, timeStep, p.diffusivity)
    modifies mesh, mesh.points
    ensures mesh.Valid() && mesh.Rows == old(mesh.Rows)[t % 2 := RowAt(p, scheme, t)]
    // The mesh the observer receives holds row `t` and, in its other slot, row `t - 1`.
    ensures mesh.Rows[t % 2] == RowAt(p, scheme, t) && mesh.Rows[(t - 1) % 2] == RowAt(p, scheme, t - 1)
    ensures rows == RowsUpTo(p, scheme, t + 1) && shown == Shown(onSolution, rows)
    ensures visited == (if onSolution.Some? then onSolution.value(t) else 0)
  {
    ghost var prev := mesh.Rows[(t - 1) % 2];
    WriteNextRow(mesh, p, scheme, t, ratio, spaceStep, timeStep);
    assert mesh.Rows[t % 2] == NextRow(p, scheme, prev) == RowAt(p, scheme, t);
    rows, shown := rows0 + [mesh.Rows[t % 2]], shown0;
    RowsUpToNext(p, scheme, t);
    visited := 0;
    if onSolution.Some? {
      TraceNext(rows0, mesh.Rows[t % 2]);
      shown := shown + [Observation(t, mesh.Rows[t % 2])];
      visited := onSolution.value(t);
    }
  }

  /**
   * The time loop of `solve`: rows 1, 2, ... are computed from their
   * predecessors, each handed to the observer, until the last time index or
   * until the observer returns a non-zero status.
   */
  method March(mesh: Mesh, p: Parameters, scheme: Scheme, onSolution: Option<nat -> int>,
               ratio: real, spaceStep: real, timeStep: real,
               ghost rows0: seq<seq<real>>, ghost shown0: seq<Observation>)
    returns (status: int, ghost rows: seq<seq<real>>, ghost shown: seq<Observation>, ghost released: bool)
    requires Runnable(p, scheme)
    requires mesh.Valid() && mesh.timePoints == 2 && mesh.spacePoints == p.spacePoints
    requires mesh.Rows[0] == RowAt(p, scheme, 0)
    requires rows0 == RowsUpTo(p, scheme, 1) && shown0 == Shown(onSolution, rows0)
    requires onSolution.Some? ==> onSolution.value(0) == 0
    requires spaceStep == SpaceStep(p) && (p.timePoints > 0 ==> timeStep == TimeStep(p))
    requires scheme == Euler ==> ratio == Ratio(spaceStep, timeStep, p.diffusivity)
    modifies mesh, mesh.points
    ensures rows == RowsUpTo(p, scheme, Produced(p, onSolution))
    ensures shown == Shown(onSolution, rows)
    ensures status == FinalStatus(p, onSolution)
    ensures released == (StopIndex(p, onSolution) < RowCount(p))
  {
    var sp := p.spacePoints;
    rows, shown, released := rows0, shown0, false;
    if p.timePoints > 1 {
      RunnableStepping(p, scheme);
    }
    var t := 1;
    while t < p.timePoints
      invariant 1 <= t <= RowCount(p)
      invariant mesh.Valid() && mesh.timePoints == 2 && mesh.spacePoints == sp
      invariant p.timePoints > 1 ==> SteppingDefined(p)
      invariant mesh.Rows[(t - 1) % 2] == RowAt(p, scheme, t - 1)
      invariant rows == RowsUpTo(p, scheme, t)
      invariant shown == Shown(onSolution, rows)
      invariant onSolution.Some? ==> forall k :: 0 <= k < t ==> onSolution.value(k) == 0
      invariant !released
      decreases p.timePoints - t
    {
      var visited;
      visited, rows, shown := Step(mesh, p, scheme, onSolution, t, ratio, spaceStep, timeStep, rows, shown);
      if visited != 0 {
        StopsAt(p, onSolution, t);
        released := true;
        status := visited;
        return;
      }
      t := t + 1;
    }
    RunsToEnd(p, onSolution);
    status := 0;
  }
}
