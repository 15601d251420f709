# Heat-diffusion solver core, modelled in Dafny

This project models the numerical core of `sources/main.c`. That program solves the one-dimensional
heat equation `u_t = alpha * u_xx` on `[0, space_max]` with fixed boundary values, by an explicit
finite-difference scheme. The model covers four pieces:

- **Rolling mesh** (`mesh.dfy`, module `Meshes`). `struct Mesh` is a class `Mesh` over an `array<real>`
  of `time_points * space_points` values. The ghost view `Rows` gives the row stored in each of the
  `time_points` slots. Time index `t` lives in slot `t % time_points`. `mesh_PointIndex`,
  `mesh_Get` and `mesh_Set` are proved against that view.
- **Stepping rules** (`schemes.dfy`, module `Schemes`). These cover `lerp`, the increment `f`, the
  forward-Euler update `(1 - 2r) u_mid + r u_left + r u_right` and the Runge-Kutta update exactly as
  written, where each stage adds the same `k/2` or `k` to all three neighbours. The build-time `METHOD`
  macro becomes `datatype Scheme = Euler | RK4`. Values are exact reals.
- **Reference rows** (`solver.dfy`, module `Solver`). `RowAt(p, scheme, t)` defines the row of time
  index `t`. Row 0 holds both boundary values and the initial condition sampled at the `lerp`
  abscissae. Every later row keeps both boundary values and applies the scheme to the three
  neighbours of each interior point in the previous row.
- **`solve`** (`Solver.Solve` and the methods it calls). This works imperatively on a two-row `Mesh`.
  `Solve` is proved to:
  - produce exactly the rows `RowAt(p, scheme, 0), RowAt(p, scheme, 1), ...`;
  - hand each row to the observer in time order;
  - stop at the observer's first non-zero status;
  - return that status, 0, `-1` when the mesh cannot be allocated, or a non-zero `before_solution`
    status before anything is allocated.

  `Solve` asks of its parameters only what the code reaches. A non-zero `before_solution` status is
  returned for any parameters. A failed allocation returns `-1` for any parameters with at least one
  space point; `mesh_Construct` asserts that before it allocates (`sources/main.c:47-49`). The
  stability bound and the steps are needed only once the observer has let row 0 pass.

  The ghost outputs record the rows produced, the observer's trace of `(time, row)` pairs, and whether
  `mesh_Destroy` ran. It runs only when the observer stops the run; the successful path returns
  without releasing the mesh, as the code does.

`solver_properties.dfy` (module `SolverProperties`) proves properties of the reference rows:

- boundary values hold in every row;
- a uniform state is a steady state under both schemes;
- the discrete maximum principle holds when the ratio `r` satisfies `0 <= r <= 1/2`;
- in exact arithmetic, the Runge-Kutta rows as written are exactly the Euler rows (`f` is blind to a
  common shift of its arguments, so all four stages are equal);
- when `space_max` is non-zero, the space step `space_max / space_points` never equals the spacing
  `space_max / (space_points - 1)` of the initial samples.

Behaviour of the code that the model keeps:

- `solve` rejects neither `time_points <= 1` nor a one-point row (`sources/main.c:384-433`). Only
  `mesh_Construct` asserts `space_points > 0` (`sources/main.c:47`). A one-point row holds `boundary_condition_1`, because it is written after
  `boundary_condition_0`. With `time_points == 0`, row 0 is still produced and shown.
- The Euler stability bound `r <= 0.5` is an `assert` (`sources/main.c:431`). It is therefore a
  precondition here, not an error result. It is required only of runs that reach it, past the
  observer's row 0.
- When the observer stops the run, `solve` returns only the observer's status
  (`sources/main.c:541-553`).
- In exact arithmetic the two schemes do not merely agree closely: as written they compute identical
  rows. In C doubles the two forms round differently.

## Model

| member | source | states |
|---|---|---|
| Meshes.CellIndex | sources/main.c:85-91 | the flat offset of (slot, point) lies inside the buffer, and division and remainder by the row width recover the slot and the point |
| Meshes.CellIndexInjective | sources/main.c:85-91 | distinct (slot, point) pairs never share a cell of the buffer |
| Meshes.Mesh.constructor | sources/main.c:44-70 | `mesh_Construct` (asserting at least two rows and one point) yields a fresh buffer of `time_points * space_points` values with the requested dimensions |
| Meshes.Mesh.PointIndex | sources/main.c:85-91 | the index of time `t` and point `s` is in bounds, its quotient by `space_points` is `t mod time_points` and its remainder is `s` |
| Meshes.Mesh.Get | sources/main.c:94-99 | reads the value of point `s` in the row stored for time `t mod time_points` |
| Meshes.Mesh.Set | sources/main.c:103-108 | overwrites exactly that one value, and every other slot and point keeps its value |
| Meshes.AdjacentRowsDisjoint | sources/main.c:85-91 | with the two-row window `solve` allocates, no cell of row `t` shares storage with a cell of row `t - 1` |
| Schemes.LerpEndpoints | sources/main.c:349-353 | `lerp` maps `x0` to `y0` and `x1` to `y1` |
| Schemes.LerpBetween | sources/main.c:349-353 | for increasing end values (the orientation `solve` uses for the sample abscissae), `lerp` stays between them on the interval between its end points |
| Schemes.LerpStride | sources/main.c:349-353 | consecutive abscissae are mapped `(y1 - y0) / (x1 - x0)` apart, so samples are evenly spaced |
| Schemes.SquarePositive | sources/main.c:363-374 | the square of a non-zero space step (`pow(space_step, 2.0)`) is positive, so `f` and `r` never divide by zero |
| Schemes.FFlat | sources/main.c:363-374 | `f` is zero on a flat neighbourhood |
| Schemes.FShift | sources/main.c:363-374 | adding the same amount to all three arguments of `f` leaves it unchanged |
| Schemes.FIsRatioTimesDifference | sources/main.c:363-374 | `f` equals the stability ratio `r` times the second difference `u0 - 2 u1 + u2` |
| Schemes.RatioNonNegative | sources/main.c:430-431 | a non-negative diffusivity and time step give a non-negative ratio `r` |
| Schemes.EulerFlat | sources/main.c:458-462 | the Euler update leaves a flat neighbourhood unchanged |
| Schemes.EulerStepBounded | sources/main.c:458-462 | for `0 <= r <= 1/2`, the Euler update lies within any range that holds its three inputs |
| Schemes.Rk4StepIsEulerStep | sources/main.c:504-537 | in exact arithmetic, the Runge-Kutta update as written equals the Euler update with the same ratio |
| Schemes.Rk4Flat | sources/main.c:504-537 | the Runge-Kutta update leaves a flat neighbourhood unchanged |
| Schemes.AdvanceFlat | sources/main.c:440-537 | under either scheme, a flat neighbourhood keeps its value |
| Schemes.AdvanceBounded | sources/main.c:440-537 | under either scheme, with `0 <= r <= 1/2`, the new value stays within the range of its three inputs |
| Solver.TimeStep | sources/main.c:427 | the time step times `time_points` is `time_max` |
| Solver.SpaceStep | sources/main.c:428 | the space step times `space_points` is `space_max`, and it is non-zero exactly when `space_max` is |
| Solver.RowAt | sources/main.c:403-537 | every row has `space_points` values |
| Solver.FirstNonZero | sources/main.c:414-553 | the observer stop index lies in range, the status there is non-zero, and every earlier status is zero |
| Solver.FirstNonZeroUnique | sources/main.c:543-553 | those two facts determine the stop index |
| Solver.RowCount | sources/main.c:414-433 | a run that is not stopped produces at least one row (row 0 always) and at least `time_points` rows |
| Solver.StopsAt | sources/main.c:543-553 | an observer that is zero before `t` and non-zero at `t` stops the run there, and its status is returned |
| Solver.RunsToEnd | sources/main.c:433-557 | an observer that is zero throughout lets every row be produced, and 0 is returned |
| Solver.WriteInitialRow | sources/main.c:403-412 | slot 0 receives the initial row (both boundary values and the sampled initial condition), and the other slot is untouched |
| Solver.InteriorValue | sources/main.c:456-537 | the value computed for interior point `s` of row `t` from three values read from the mesh is the scheme's update of the neighbours in row `t - 1` |
| Solver.WriteNextRow | sources/main.c:435-537 | the slot of time `t` receives the next row computed from the slot of `t - 1`, which is left untouched |
| Solver.Step | sources/main.c:433-553 | one pass of the time loop stores row `t` as `RowAt` in its slot while the other slot keeps row `t - 1` (so the observer receives both), changes nothing else, adds it to the rows produced and to the observer's trace, and yields the observer's status for `t` |
| Solver.March | sources/main.c:433-557 | the time loop produces rows 1, 2, ... as `RowAt`, shows each in order, stops at the first non-zero status and returns it (releasing the mesh), or returns 0 |
| Solver.SolveOnMesh | sources/main.c:395-557 | after allocation, the rows produced are `RowAt` up to the stop index, each shown with its time index, and the status is the first non-zero observer status or 0; an observer that stops at row 0 is shown row 0 only and its status is returned, before the stability assert is reached |
| Solver.Solve | sources/main.c:377-558 | returns a non-zero `before_solution` status before allocating, for any parameters; returns `-1` when allocation fails, for any parameters with at least one space point (which `mesh_Construct` asserts before allocating); otherwise it behaves as `SolveOnMesh` |
| SolverProperties.BoundariesHold | sources/main.c:403-404 | the first and last values of every row are `boundary_condition_0` and `boundary_condition_1` |
| SolverProperties.OnePointRow | sources/main.c:403-404 | with a single point per row, every row is `[boundary_condition_1]` |
| SolverProperties.InitialRowSamples | sources/main.c:405-412 | interior values of row 0 are the initial condition at evenly spaced abscissae running from 0 to `space_max` |
| SolverProperties.SpaceStepDiffersFromSampleSpacing | sources/main.c:405-428 | the space step used by the update differs from the spacing of the initial samples whenever `space_max` is non-zero |
| SolverProperties.SteadyState | sources/main.c:403-537 | with both boundary values and the initial condition equal to `c`, every value of every row is `c` |
| SolverProperties.MaximumPrinciple | sources/main.c:430-537 | when the ratio satisfies `0 <= r <= 1/2`, every value of every row stays within any range that holds row 0 and both boundary values |
| SolverProperties.Rk4RowsAreEulerRows | sources/main.c:458-537 | in exact arithmetic, the Runge-Kutta build computes the same rows as the Euler build |
| SolverProperties.ZeroStatusMeansComplete | sources/main.c:541-557 | the returned status is 0 exactly when the observer never stopped the run, and then every row was produced |
| SolverProperties.StopIsFirstNonZero | sources/main.c:414-553 | the run stops at the first time index whose observer status is non-zero, and that status is returned |

## Left out

- Parameter handling (`parameters_Construct`, `parameters_Read_File`, `parameters_Destroy`), the mesh and
  row writers (`mesh_Write_File` and the `on_solution` printers), `run` and `main` are not part of this
  model. They are I/O around the core.
- `malloc` and `free` are not modelled. Allocation failure in `mesh_Construct` is the Boolean parameter
  `meshAllocated` of `Solve`. `mesh_Destroy` is the ghost flag `released`. The error messages written to
  `stderr` are left out.
- The callbacks receive the parameters and a pointer to the mesh. Here `before_solution` is reduced to
  the status it returns. `on_solution` is reduced to a function from the time index to a status. The
  ghost trace records row `t` for each call. The observer can read both slots of the mesh: `Step`
  states that at time `t >= 1` the other slot still holds row `t - 1`. At time 0 the other slot holds
  the uninitialised contents of the new buffer, which the model leaves unspecified.
- The OpenMP `parallel for` over interior points is modelled sequentially. Each iteration reads only row
  `t - 1` and writes a distinct cell of row `t`, so the order does not change the result.
- IEEE double arithmetic, `pow` and `sin` are not modelled. Values are exact reals, `pow(h, 2.0)` is
  `h * h`, and infinities and NaN do not exist. The equality of the Runge-Kutta and Euler rows, and the
  exact bounds of the maximum principle, hold for these exact values. In doubles, the rounding of the
  two update forms differs.
- Solver.Runnable: this is required only of runs that get past `before_solution`, the allocation and
  the observer's row 0. For those runs it excludes the C `assert`s and the divisions by zero in a value
  the code uses.
  - It always requires at least one space point, which `mesh_Construct` asserts.
  - Under Euler it requires `time_points > 0`, `space_max != 0` and `r <= 1/2`, which is the `assert`.
  - Under RK4 it requires `space_max != 0` when an interior point of a later row is computed.
  - With `time_points == 0` the C time step is an unused division by zero, and the model does not
    compute it.
- `size_t` wrap-around is not modelled. `space_points == 0` would make `space_points - 1` wrap, and it
  is excluded because `mesh_Construct` asserts at least one point.
