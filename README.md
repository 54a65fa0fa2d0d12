# Heat equation by finite differences — a verified model

This project models the numerical core of a small C++ heat-equation solver.

The solver marches the heat equation `u_t = alpha * u_xx + q / (rho * c)` forward in time with the implicit (backward Euler) finite-difference scheme:

- **1D case:** a bar of length L.
- **2D case:** a square plate, with one implicit solve along x and then one along y per step.

Every implicit solve is a tridiagonal system with `-r` off the diagonal and `1 + 2r` on it, where `r = alpha * dt / dx^2`. The Thomas algorithm solves it.

Arithmetic is over Dafny's `real`, which is exact.

| module | file | source |
|---|---|---|
| `Thomas` | thomas.dfy | `solveTridiagonal` (shared by both solvers) |
| `Materials` | materials.dfy | `Material`, the diffusivity and the four stock materials |
| `Discretization` | grid.dfy | the `Grid` value and the diffusion number r |
| `Source1D`, `Source2D` | source1d.dfy, source2d.dfy | the piecewise heat sources |
| `Solver1D` | solver1d.dfy | `HeatEquationSolver1D`: an `array2` history buffer |
| `Solver2D` | solver2d.dfy | `HeatEquationSolver2D`: an `array3` history buffer |

## Structure of the proofs

**Each solver splits into two layers.**
- **Imperative layer.** The solver is a class whose methods update the buffer in place, loop by loop, as the C++ does.
- **Value layer.** Predicates (`Step`, `StepOf`, `Run`) say what one time step and a whole run are.

The methods are proved against the value layer. `Solve` ends with every stored row or grid being one step from the one before. Lemmas about the value layer then show what those steps guarantee:
- boundary values;
- a unique solution of every system, so the march is deterministic;
- for Thomas, that the pivots are at least 1 + r.

**Thomas is specified relationally.** `Thomas.Solve` promises that the vector it leaves in `d` satisfies every row of the system. `Thomas.UniqueSolution` shows that this vector is the only one that does.

**Where the C++ and its comments part ways, the model follows the code:**
- The 1D solver uses `dx = L / N` and `dt = tmax / M`, as its header's constructor does (src/HeatEquationSolver1D.h:39). The 2D solver and `Grid` use `L / (N - 1)`.
- In the 2D step, the "Neumann" call copies row 1 onto row 0 of grid t, the grid being read, not the grid being written. Only the x = 0 edge is touched.
- In the 2D step, the Dirichlet value `u0` on row N - 1 of grid t + 1 is only read by the y-solves. The last y-solve then overwrites that row with its own solution. `EdgePinnedIff` shows that the stored edge holds `u0` exactly when the previous row's solution ends at `(1 + r) * u0` at both ends, so in general it does not.
- In the 2D step, the scratch vector `d` keeps its end entries from the previous solve, zeros before the first one. `XRhs` and `YRhs` take them as a `carry` argument.
- A uniform field with no source is not a fixed point of a step: the end rows of the system are ordinary `1 + 2r` rows. `UniformNotSteady` exhibits this on three points: for r > 0 and u0 != 0, the step from the all-u0 row moves the first two points away from u0.

## Model

| member | source | states |
|---|---|---|
| Thomas.Solve | src/HeatEquationSolver1D.cpp:30-51 | for a strictly diagonally dominant system, the forward sweep and back substitution leave in `d` a vector satisfying every row of the system for the original `d`; only `d` is modified |
| Thomas.ForwardSweep | src/HeatEquationSolver1D.cpp:34-41 | every row of the forward sweep has a nonzero pivot `b[i] - a[i-1]*c*[i-1]`, `c*[i]` times the pivot is `c[i]`, and `d*[i]` times the pivot is `d[i] - a[i-1]*d*[i-1]` |
| Thomas.EliminateRow | src/HeatEquationSolver1D.cpp:37-41 | one eliminated row: the pivot is nonzero, `c*` stays below 1 in magnitude, and `c*`, `d*` are the row divided by the pivot |
| Thomas.BackExtends | src/HeatEquationSolver1D.cpp:44-47 | each back-substitution step `x[i] = d*[i] - c*[i]*x[i+1]` extends the solved suffix by one |
| Thomas.SweepsSolve | src/HeatEquationSolver1D.cpp:30-51 | whenever every pivot is nonzero, forward elimination followed by back substitution yields a vector that satisfies the tridiagonal system |
| Thomas.RowHolds | src/HeatEquationSolver1D.cpp:38-46 | row i of the original system holds for the back-substituted vector |
| Thomas.PivotStep | src/HeatEquationSolver1D.cpp:38-39 | in a dominant row with `abs(c*[i-1]) < 1`, the pivot is nonzero and the new `c*[i]` stays below 1 in magnitude |
| Thomas.HeatMatrixDominant | src/HeatEquationSolver1D.cpp:68-74 | the matrix with `-r` off and `1 + 2r` on the diagonal is strictly diagonally dominant for `r >= 0` |
| Thomas.FilledHeatMatrix | src/HeatEquationSolver2D.cpp:43 | the coefficient vectors both solvers build are well shaped and dominant for `r >= 0` |
| Thomas.HeatPivotsAtLeast | src/HeatEquationSolver1D.cpp:35-38 | for that matrix every forward-sweep pivot is at least `1 + r`, so every division is by a number at least 1 |
| Thomas.HeatPivot | src/HeatEquationSolver1D.cpp:38-39 | by induction over the rows, pivot k is at least `1 + r` and `c*[k]` lies in [-1, 0] |
| Thomas.UniqueSolution | src/HeatEquationSolver1D.cpp:30-51 | a strictly diagonally dominant tridiagonal system has at most one solution, so the vector `solveTridiagonal` returns is the solution |
| Thomas.LargestVanishes | src/HeatEquationSolver1D.cpp:30-51 | in a dominant homogeneous row, an entry of largest magnitude is 0 (the core of uniqueness) |
| Materials.Material.ThermalDiffusivity | src/Material.cpp:3-5 | alpha times rho*c equals the conductivity (alpha = lambda / (rho*c)); alpha > 0 when all three properties are positive |
| Materials.PresetsPhysical | src/Material.cpp:16-19 | copper, iron, glass and polystyrene have strictly positive properties and diffusivity |
| Materials.PresetDiffusivitiesDecreasing | src/Material.cpp:16-19 | diffusivity strictly decreases: copper > iron > glass > polystyrene |
| Discretization.MakeGrid | src/Grid.h:23-26 | stores Nx, Nt, L, t_max; `(Nx-1)*dx == L`, `Nt*dt == t_max`; dx > 0 for L > 0 and Nx >= 2, dt > 0 for t_max > 0 and Nt >= 1 |
| Discretization.DiffusionNumber | src/HeatEquationSolver1D.cpp:60 | `r * dx^2 == alpha * dt` |
| Discretization.DiffusionNumberNonnegative | src/HeatEquationSolver2D.cpp:40-41 | r >= 0 whenever alpha >= 0 and dt >= 0 |
| Source1D.Heatsource1D.F | src/Heatsource1D.cpp:5-19 | the result is one of 0, `t_max*f^2`, `0.75*t_max*f^2`; it is >= 0 when t_max >= 0; it is nonzero only inside a heated stretch |
| Source1D.Characterization | src/Heatsource1D.cpp:7-18 | F is `t_max*f^2` on [L/10, 2L/10], `0.75*t_max*f^2` on [5L/10, 6L/10], 0 elsewhere |
| Source1D.RegionsDisjoint | src/Heatsource1D.cpp:7-12 | for L > 0 the two stretches do not overlap |
| Source1D.TestOrderIrrelevant | src/Heatsource1D.cpp:7-18 | testing the second stretch first gives the same function |
| Source1D.EndpointsHeated | src/Heatsource1D.cpp:7-14 | the bounds of both stretches are included |
| Source1D.ColdOutsideRegions | src/Heatsource1D.cpp:16-18 | F is 0 outside both stretches |
| Source2D.Heatsource2D.F | src/Heatsource2D.cpp:5-17 | the result is 0 or `t_max*f^2`, and it is >= 0 when t_max >= 0 |
| Source2D.Characterization | src/Heatsource2D.cpp:6-16 | F is `t_max*f^2` exactly when both coordinates lie in [L/6, 2L/6] or [4L/6, 5L/6], and 0 elsewhere |
| Source2D.Symmetric | src/Heatsource2D.cpp:6-13 | `F(x, y) == F(y, x)` |
| Source2D.ColdOnEdges | src/Heatsource2D.cpp:6-16 | for L > 0, F is 0 on the four edges x = 0, x = L, y = 0, y = L |
| Solver1D.NeumannRow | src/HeatEquationSolver1D.cpp:22-24 | the first point takes the second's value and every other point is unchanged |
| Solver1D.DirichletRow | src/HeatEquationSolver1D.cpp:26-28 | the last point becomes u0 and every other point is unchanged |
| Solver1D.FixupsEnforceBoundaries | src/HeatEquationSolver1D.cpp:96-98 | after both fix-ups the last point is u0; with three or more points the first two are equal and the interior is the solve's; with two points the row is `[sol[1], u0]` |
| Solver1D.HeatEquationSolver1D.constructor | src/HeatEquationSolver1D.h:38-39 | stores the parameters; `dx = L/N`, `dt = tmax/M`; there is no buffer yet |
| Solver1D.HeatEquationSolver1D.Rhs | src/HeatEquationSolver1D.cpp:79-86 | the right-hand side has N entries: the interior is the previous row plus the source term, `d[0]` is the previous `T[n][0]`, and `d[N-1]` is u0 |
| Solver1D.HeatEquationSolver1D.PhysicalIsWellPosed | src/HeatEquationSolver1D.cpp:59-60 | a physical material, L > 0, tmax >= 0, N >= 2, M >= 1 give finite steps and r >= 0 |
| Solver1D.HeatEquationSolver1D.StepOfSolve | src/HeatEquationSolver1D.cpp:89-98 | a solve of the step's system followed by the two fix-ups is a step |
| Solver1D.HeatEquationSolver1D.StepBoundaries | src/HeatEquationSolver1D.cpp:96-98 | whatever the solve produced, the next row ends at u0 and, with N >= 3, starts flat |
| Solver1D.HeatEquationSolver1D.UniformNotSteady | src/HeatEquationSolver1D.cpp:78-98 | on three points with r > 0, u0 != 0 and no source at the middle point, the step from the all-u0 row does not give back the all-u0 row |
| Solver1D.HeatEquationSolver1D.RunExtends | src/HeatEquationSolver1D.cpp:77-99 | appending a step to a run gives a run |
| Solver1D.HeatEquationSolver1D.StepDeterministic | src/HeatEquationSolver1D.cpp:88-98 | the step from a row is unique: equal solve results and equal next rows |
| Solver1D.HeatEquationSolver1D.RunDeterministic | src/HeatEquationSolver1D.cpp:77-99 | two runs of equal length from the same first row are identical |
| Solver1D.HeatEquationSolver1D.RowsAgree | src/HeatEquationSolver1D.cpp:77-99 | by induction over time, such runs agree on row t |
| Solver1D.HeatEquationSolver1D.InitializeMatrix | src/HeatEquationSolver1D.cpp:5-13 | a fresh M x N buffer with every entry u0 |
| Solver1D.HeatEquationSolver1D.ApplyNeumannBoundary | src/HeatEquationSolver1D.cpp:22-24 | `T[row][0]` becomes the old `T[row][1]`; no other entry changes |
| Solver1D.HeatEquationSolver1D.ApplyDirichletBoundary | src/HeatEquationSolver1D.cpp:26-28 | `T[row][N-1]` becomes u0; no other entry changes |
| Solver1D.HeatEquationSolver1D.BuildRightHandSide | src/HeatEquationSolver1D.cpp:79-86 | d holds `Rhs` of row n |
| Solver1D.HeatEquationSolver1D.StoreStep | src/HeatEquationSolver1D.cpp:91-98 | row n+1 becomes the solve's result after the Neumann and Dirichlet fix-ups; no other row changes |
| Solver1D.HeatEquationSolver1D.TimeStep | src/HeatEquationSolver1D.cpp:78-98 | one iteration of the time loop extends the run by one step, and rows other than n+1 are unchanged |
| Solver1D.HeatEquationSolver1D.BuildCoefficients | src/HeatEquationSolver1D.cpp:62-74 | `a = c = [-r]*(N-1)` and `b = [1+2r]*N` |
| Solver1D.HeatEquationSolver1D.RunInBuffer | src/HeatEquationSolver1D.cpp:77-99 | a run recorded in the buffer makes each stored row one step from the previous; rows 1..M-1 end at u0 and, with N >= 3, start flat |
| Solver1D.HeatEquationSolver1D.Solve | src/HeatEquationSolver1D.cpp:54-106 | fresh buffer; row 0 is uniformly u0; every row n+1 is the step from row n; rows 1..M-1 end at u0 and, with N >= 3, are flat at x = 0 |
| Solver1D.HeatEquationSolver1D.TemperatureAtTime | src/HeatEquationSolver1D.cpp:119-124 | returns row t exactly when `0 <= t < M`, and nothing otherwise |
| Solver2D.HeatEquationSolver2D.constructor | src/HeatEquationSolver2D.cpp:5-8 | stores the parameters; `dx = L/(N-1)`, `dt = tmax/(M-1)`; M grids of N x N, every cell u0 |
| Solver2D.HeatEquationSolver2D.PhysicalIsWellPosed | src/HeatEquationSolver2D.cpp:40-41 | a physical material, L > 0, tmax >= 0, N >= 2, M >= 2 give finite steps and r >= 0 |
| Solver2D.HeatEquationSolver2D.NeumannGrid | src/HeatEquationSolver2D.cpp:10-14 | row 0 becomes row 1 and rows 1..N-1 are unchanged |
| Solver2D.HeatEquationSolver2D.XRhs | src/HeatEquationSolver2D.cpp:48-51 | the x-solve right-hand side: interior is grid value plus source term; both ends are the carry |
| Solver2D.HeatEquationSolver2D.YRhs | src/HeatEquationSolver2D.cpp:62-64 | the y-solve right-hand side: interior is the x-sweep's value, or u0 on row N-1; both ends are the carry |
| Solver2D.HeatEquationSolver2D.EdgePinnedIff | src/HeatEquationSolver2D.cpp:61-71 | for r >= 0, the x = L row of the new grid is all u0 if and only if the row solved before it ends at `(1 + r) * u0` at both ends |
| Solver2D.HeatEquationSolver2D.XRhsIgnoresEdge | src/HeatEquationSolver2D.cpp:48-52 | the x = 0 copy does not change any x-solve's right-hand side |
| Solver2D.HeatEquationSolver2D.StepIgnoresEdge | src/HeatEquationSolver2D.cpp:47-58 | a step from g is also a step from g with its x = 0 edge copied |
| Solver2D.HeatEquationSolver2D.CarryIn | src/HeatEquationSolver2D.cpp:43 | d's end entries at the start of step t: zeros for t = 0, else the last row solved |
| Solver2D.HeatEquationSolver2D.RunExtends | src/HeatEquationSolver2D.cpp:45-72 | appending a step to a run gives a run |
| Solver2D.HeatEquationSolver2D.HeatSystemUnique | src/HeatEquationSolver2D.cpp:22-37 | for r >= 0 each solve's system has exactly one solution |
| Solver2D.HeatEquationSolver2D.XSweepsAgree | src/HeatEquationSolver2D.cpp:47-58 | two x-sweeps from the same grid and carry agree column by column |
| Solver2D.HeatEquationSolver2D.YSweepsAgree | src/HeatEquationSolver2D.cpp:61-71 | two y-sweeps over the same x-sweep agree row by row |
| Solver2D.HeatEquationSolver2D.StepDeterministic | src/HeatEquationSolver2D.cpp:46-71 | a step is determined by its starting grid and carry |
| Solver2D.HeatEquationSolver2D.RunDeterministic | src/HeatEquationSolver2D.cpp:45-72 | two runs of equal length from the same first grid are identical |
| Solver2D.HeatEquationSolver2D.RunsAgree | src/HeatEquationSolver2D.cpp:45-72 | by induction over time, such runs agree on grid t and step t |
| Solver2D.HeatEquationSolver2D.Uniform | src/HeatEquationSolver2D.cpp:7 | an N x N grid with every cell v |
| Solver2D.HeatEquationSolver2D.UniformNeumann | src/HeatEquationSolver2D.cpp:52 | copying the x = 0 edge leaves a uniform grid unchanged |
| Solver2D.HeatEquationSolver2D.Grid | src/HeatEquationSolver2D.cpp:75-77 | grid t of the buffer, entry by entry |
| Solver2D.HeatEquationSolver2D.AllTemperatureGrids | src/HeatEquationSolver2D.cpp:75-77 | the M grids of the buffer, unchanged |
| Solver2D.HeatEquationSolver2D.ApplyNeumannBoundary | src/HeatEquationSolver2D.cpp:10-14 | `grid[t][0][y]` becomes the old `grid[t][1][y]` for every y; nothing else changes |
| Solver2D.HeatEquationSolver2D.ApplyDirichletBoundary | src/HeatEquationSolver2D.cpp:16-20 | `grid[t][N-1][y]` becomes u0 for every y; nothing else changes |
| Solver2D.HeatEquationSolver2D.XSweptExtends | src/HeatEquationSolver2D.cpp:47-58 | one more column solve extends the x-sweep |
| Solver2D.HeatEquationSolver2D.YSweptExtends | src/HeatEquationSolver2D.cpp:61-71 | one more row solve extends the y-sweep |
| Solver2D.HeatEquationSolver2D.BuildXRhs | src/HeatEquationSolver2D.cpp:48-51 | d becomes `XRhs` with the old d's ends as carry |
| Solver2D.HeatEquationSolver2D.BuildYRhs | src/HeatEquationSolver2D.cpp:62-64 | d becomes `YRhs` with the old d's ends as carry |
| Solver2D.HeatEquationSolver2D.StoreColumn | src/HeatEquationSolver2D.cpp:55-57 | column j of grid t+1 becomes d; nothing else changes |
| Solver2D.HeatEquationSolver2D.StoreRow | src/HeatEquationSolver2D.cpp:68-70 | row i of grid t+1 becomes d; nothing else changes |
| Solver2D.HeatEquationSolver2D.SolveColumn | src/HeatEquationSolver2D.cpp:48-57 | column j of grid t+1 solves its heat system; grid t's x = 0 edge is copied; nothing else changes |
| Solver2D.HeatEquationSolver2D.SolveRow | src/HeatEquationSolver2D.cpp:62-70 | row i of grid t+1 solves its heat system, reading u0 on row N-1; nothing else changes |
| Solver2D.HeatEquationSolver2D.XSweep | src/HeatEquationSolver2D.cpp:47-58 | grid t+1 holds a full x-sweep from grid t; grid t's x = 0 edge is copied; other grids are unchanged |
| Solver2D.HeatEquationSolver2D.YSweep | src/HeatEquationSolver2D.cpp:61-71 | grid t+1 holds a full y-sweep over the x-sweep; other grids are unchanged |
| Solver2D.HeatEquationSolver2D.TimeStep | src/HeatEquationSolver2D.cpp:46-71 | one iteration of the time loop extends the run by one step; it writes only grid t+1 and the x = 0 edge of grid t |
| Solver2D.HeatEquationSolver2D.Carry | src/HeatEquationSolver2D.cpp:43 | d's ends at the start of step t, as read from the finished buffer |
| Solver2D.HeatEquationSolver2D.RunInBuffer | src/HeatEquationSolver2D.cpp:45-72 | a run recorded in the buffer makes every stored step `Marched`, and grids 0..M-2 have equal x = 0 and x = dx rows |
| Solver2D.HeatEquationSolver2D.March | src/HeatEquationSolver2D.cpp:45-72 | the time loop leaves a run of M-1 steps: grids before the last hold their start with the x = 0 edge copied, and the last grid is the final y-sweep |
| Solver2D.HeatEquationSolver2D.Solve | src/HeatEquationSolver2D.cpp:39-73 | grid 0 only has its x = 0 edge copied, so a uniform u0 start stays uniform; every grid t+1 is the step from grid t; grids 0..M-2 satisfy the x = 0 Neumann condition |

## Left out

- IEEE-754 behaviour (rounding, NaN and infinity, stability, accuracy against the PDE): all arithmetic is over exact reals.
- Memory management: the buffer is a Dafny array. Not modelled: the leak when `solve` re-runs `initializeMatrix`, `deallocateMatrix`, and the scratch arrays `c_star`/`d_star` being freed.
- Printing (`printTemperatureMatrix`, `operator<<`), the SDL visualisers, the `Result1D`/`Result2D` wiring, `main`, and the draft `HeatEquationSolver.h`. These are I/O or have no implementation.
- Thomas.Solve: requires `n >= 2` and `c` of length `n - 1`. The C++ computes `c*[n-1]` from `c[n-1]`, one entry past the end of `c`; back substitution never uses that value. The model computes `c*` only for the rows that need it and does not model the out-of-bounds read.
- Thomas.Solve: requires strict diagonal dominance rather than only nonzero pivots. The general nonzero-pivot claim is `Thomas.SweepsSolve`.
- Solver1D.HeatEquationSolver1D.Solve and Solver2D.HeatEquationSolver2D.Solve: require `WellPosed()`, meaning N >= 2, `rho * c != 0`, `dx != 0` and `r >= 0`.
  - N >= 2, `rho * c != 0` and `dx != 0` exclude the inputs on which the C++ divides by zero (`rho * c = 0`, or `dx = 0` from L = 0) or indexes out of bounds (N = 1: the 1D Neumann copy reads `T[n][1]`; N = 0: `d[N - 1]`). Those results are infinities or undefined behaviour, which `real` cannot represent.
  - `r >= 0` is not a guard of the C++. It holds whenever the diffusivity and the time step are non-negative (`PhysicalIsWellPosed`), and it is what makes the heat matrix strictly diagonally dominant, as `Thomas.Solve` requires. For -1/4 < r < 0 the matrix is still dominant and the C++ returns finite rows; the model does not cover that range, which needs a negative diffusivity or a negative `tmax`.
- The two constructors divide by the sizes: the 1D one by N and M (`dx = L / N`, `dt = tmax / M`), so it requires `N != 0, M != 0`; the 2D one by N - 1 and M - 1, so it requires `N != 1, M != 1`. With M = 1 the 2D time loop would not run, but the division by zero in `dt` has already happened.
- Negative sizes: `Solver1D.HeatEquationSolver1D.InitializeMatrix` requires `M >= 0 && N >= 0` and the 2D constructor requires `N >= 0 && M >= 0`. For negative sizes the C++ throws from `new double*[M]`, `new double[N]` and the `std::vector` constructor inside `resize`; exceptions are not modelled.
- Rows and grids are passed by index into the buffer rather than by pointer or reference. The boundary methods therefore cannot be applied to memory outside the buffer.
- Solver1D.HeatEquationSolver1D.TemperatureAtTime: returns the row's values rather than a pointer into the buffer, so aliasing through that pointer is not modelled.
- The body of each `solve` is split into helper methods, one per loop of the C++. The loops and their order are the C++'s.
- The heat source and material used by each solver are the `Source1D`/`Source2D`/`Materials` models. The 1D/2D header fields and the inline constructor of `HeatEquationSolver2D.h` follow the .cpp files.
