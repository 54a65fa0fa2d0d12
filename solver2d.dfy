/** Two-sweep implicit march for the heat equation on a square plate:
    M grids of N x N points, indexed [t, i, j] with i along x and j along y.
    Each step solves one tridiagonal system per column (the x-sweep, into
    grid t + 1), then one per row of grid t + 1 (the y-sweep), with the
    x = 0 edge copied from its neighbour and the x = L edge pinned to u0
    in between.  One scratch vector d serves every solve: only its interior
    entries are refreshed, so its two end entries carry over from the
    previous solve (zeros before the first one). */
module Solver2D {
  import Thomas
  import Materials
  import Source2D
  import Discretization

  /** The solves of one time step: xs[j] solved column j, ys[i] row i. */
  datatype Sweep = Sweep(xs: seq<seq<real>>, ys: seq<seq<real>>)

  class HeatEquationSolver2D {
    const material: Materials.Material
    const source: Source2D.Heatsource2D
    const L: real
    const tmax: real
    const u0: real
    /** Points along each axis. */
    const N: int
    /** Stored grids (time levels). */
    const M: int
    const dx: real
    const dt: real

    /** temperatureGrids[t, i, j]: temperature at (i * dx, j * dx) at time t * dt. */
    const temperatureGrids: array3<real>
    /** The solves of each step of the last run of Solve. */
    ghost var sweeps: seq<Sweep>

    /** M grids of N x N points, every one at u0; the N points split the side
        into N - 1 cells and the M grids the time into M - 1 steps. */
    constructor (material: Materials.Material, source: Source2D.Heatsource2D,
                 L: real, tmax: real, u0: real, N: int, M: int)
      requires N >= 0 && M >= 0 && N != 1 && M != 1
      ensures this.material == material && this.source == source
      ensures this.L == L && this.tmax == tmax && this.u0 == u0 && this.N == N && this.M == M
      ensures dx == L / (N - 1) as real && dt == tmax / (M - 1) as real
      ensures Valid() && fresh(temperatureGrids) && sweeps == []
      ensures forall t, i, j :: 0 <= t < M && 0 <= i < N && 0 <= j < N ==> temperatureGrids[t, i, j] == u0
    {
      this.material := material;
      this.source := source;
      this.L := L;
      this.tmax := tmax;
      this.u0 := u0;
      this.N := N;
      this.M := M;
      this.dx := L / (N - 1) as real;
      this.dt := tmax / (M - 1) as real;
      temperatureGrids := new real[M, N, N]((t, i, j) => u0);
      sweeps := [];
    }

    /** The buffer holds M grids of N x N points. */
    predicate Valid() {
      temperatureGrids.Length0 == M && temperatureGrids.Length1 == N && temperatureGrids.Length2 == N
    }

    /** The diffusion number r = alpha * dt / dx^2 of the plate's material. */
    function R(): real
      requires material.HeatCapacity() != 0.0 && dx != 0.0
    {
      Discretization.DiffusionNumber(material.ThermalDiffusivity(), dt, dx)
    }

    /** What solve needs: at least two points per axis, finite step sizes and r >= 0. */
    predicate WellPosed() {
      Valid() && N >= 2 && material.HeatCapacity() != 0.0 && dx != 0.0 && R() >= 0.0
    }

    /** A physical material on a plate of positive side, simulated for a
        non-negative time over at least two points per axis and two grids,
        is well posed. */
    lemma PhysicalIsWellPosed()
      requires Valid() && material.Physical() && L > 0.0 && tmax >= 0.0 && N >= 2 && M >= 2
      requires dx == L / (N - 1) as real && dt == tmax / (M - 1) as real
      ensures WellPosed()
    {
      Discretization.QuotientSign(L, N - 1);
      Discretization.QuotientSign(tmax, M - 1);
      Discretization.DiffusionNumberNonnegative(material.ThermalDiffusivity(), dt, dx);
    }

    /** Temperature added at grid point (i, j) in one step by the heat source. */
    function SourceTerm(i: int, j: int): real
      requires material.HeatCapacity() != 0.0
    {
      dt * source.F(i as real * dx, j as real * dx) / (material.density * material.specificHeat)
    }

    /** g is an N x N grid, row index first. */
    predicate Square(g: seq<seq<real>>) {
      |g| == N && forall i :: 0 <= i < N ==> |g[i]| == N
    }

    /** The x = 0 edge of g copied from its neighbour row. */
    function NeumannGrid(g: seq<seq<real>>): (fixed: seq<seq<real>>)
      requires N >= 2 && Square(g)
      ensures Square(fixed) && fixed[0] == g[1]
      ensures forall i :: 1 <= i < N ==> fixed[i] == g[i]
    {
      g[0 := g[1]]
    }

    /** x solves the heat system of diffusion number r (-r off the diagonal,
        1 + 2r on it) with right-hand side rhs. */
    predicate HeatSystem(r: real, rhs: seq<real>, x: seq<real>)
      requires N >= 1 && |rhs| == N
    {
      Thomas.Satisfies(Thomas.Filled(N - 1, -r), Thomas.Filled(N, 1.0 + 2.0 * r),
                       Thomas.Filled(N - 1, -r), rhs, x)
    }

    /** Right-hand side of the x-solve of column j of grid g: the previous
        temperature plus the source term inside, the previous solve's end
        values (carry) at both ends. */
    function XRhs(g: seq<seq<real>>, j: int, carry: seq<real>): (d: seq<real>)
      requires WellPosed() && Square(g) && |carry| == N && 0 <= j < N
      ensures |d| == N
    {
      seq(N, i requires 0 <= i < N =>
        if i == 0 then carry[0] else if i == N - 1 then carry[N - 1] else g[i][j] + SourceTerm(i, j))
    }

    /** What the y-solve of row i reads inside: the x-sweep's value in that
        row or, in the x = L row, the Dirichlet value u0. */
    function YInput(xs: seq<seq<real>>, i: int, j: int): real
      requires Square(xs) && 0 <= i < N && 0 <= j < N
    {
      if i < N - 1 then xs[j][i] else u0
    }

    /** Right-hand side of the y-solve of row i: YInput inside, the previous
        solve's end values at both ends. */
    function YRhs(xs: seq<seq<real>>, i: int, carry: seq<real>): (d: seq<real>)
      requires Square(xs) && |carry| == N && 0 <= i < N
      ensures |d| == N
    {
      seq(N, j requires 0 <= j < N =>
        if j == 0 then carry[0] else if j == N - 1 then carry[N - 1] else YInput(xs, i, j))
    }

    /** Every entry of vs has N points. */
    predicate Vectors(vs: seq<seq<real>>) {
      forall k :: 0 <= k < |vs| ==> |vs[k]| == N
    }

    /** Column j's solve: the carry is the previous column's solution, or
        carry for the first column. */
    predicate XSolvedAt(r: real, g: seq<seq<real>>, carry: seq<real>, xs: seq<seq<real>>, j: nat)
      requires WellPosed() && Square(g) && |carry| == N && Vectors(xs) && j < |xs| && j < N
    {
      HeatSystem(r, XRhs(g, j, if j == 0 then carry else xs[j - 1]), xs[j])
    }

    /** The first |xs| columns of the x-sweep from grid g, entered with carry. */
    predicate XSwept(r: real, g: seq<seq<real>>, carry: seq<real>, xs: seq<seq<real>>)
      requires WellPosed() && Square(g) && |carry| == N
    {
      Vectors(xs) && |xs| <= N && forall j :: 0 <= j < |xs| ==> XSolvedAt(r, g, carry, xs, j)
    }

    /** Row i's solve: the carry is the previous row's solution, or the last
        column's solution for the first row. */
    predicate YSolvedAt(r: real, xs: seq<seq<real>>, ys: seq<seq<real>>, i: nat)
      requires WellPosed() && Square(xs) && Vectors(ys) && i < |ys| && i < N
    {
      HeatSystem(r, YRhs(xs, i, if i == 0 then xs[N - 1] else ys[i - 1]), ys[i])
    }

    /** The first |ys| rows of the y-sweep over the x-sweep's result xs. */
    predicate YSwept(r: real, xs: seq<seq<real>>, ys: seq<seq<real>>)
      requires WellPosed() && Square(xs)
    {
      Vectors(ys) && |ys| <= N && forall i :: 0 <= i < |ys| ==> YSolvedAt(r, xs, ys, i)
    }

    /** One time step from grid g, entered with carry in d's ends: N column
        solves, then N row solves; sw.ys is the new grid. */
    predicate StepOf(r: real, g: seq<seq<real>>, carry: seq<real>, sw: Sweep)
      requires WellPosed() && Square(g) && |carry| == N
    {
      |sw.xs| == N && |sw.ys| == N && XSwept(r, g, carry, sw.xs) && YSwept(r, sw.xs, sw.ys)
    }

    /** The Neumann copy on grid g does not change any x-solve: the x-sweep
        reads only the interior rows of g. */
    lemma XRhsIgnoresEdge(g: seq<seq<real>>, j: int, carry: seq<real>)
      requires WellPosed() && Square(g) && |carry| == N && 0 <= j < N
      ensures XRhs(NeumannGrid(g), j, carry) == XRhs(g, j, carry)
    {
    }

    /** Hence a step from g is also a step from g with its x = 0 edge fixed up. */
    lemma {:induction false} StepIgnoresEdge(r: real, g: seq<seq<real>>, carry: seq<real>, sw: Sweep)
      requires WellPosed() && Square(g) && |carry| == N && StepOf(r, g, carry, sw)
      ensures StepOf(r, NeumannGrid(g), carry, sw)
    {
      forall j | 0 <= j < N ensures XSolvedAt(r, NeumannGrid(g), carry, sw.xs, j) {
        assert XSolvedAt(r, g, carry, sw.xs, j);
        XRhsIgnoresEdge(g, j, if j == 0 then carry else sw.xs[j - 1]);
      }
    }

    /** The y-solve of the x = L row reads u0 inside but the previous row's
        solution at its two ends, and the solve's result is what the new grid
        keeps on that edge. So the edge holds u0 exactly when those two
        carried ends are (1 + r) * u0: for any other carry the Dirichlet
        value does not survive the step. */
    lemma EdgePinnedIff(r: real, g: seq<seq<real>>, carry: seq<real>, sw: Sweep)
      requires WellPosed() && r >= 0.0 && Square(g) && |carry| == N && StepOf(r, g, carry, sw)
      ensures sw.ys[N - 1] == Thomas.Filled(N, u0)
              <==> sw.ys[N - 2][0] == (1.0 + r) * u0 && sw.ys[N - 2][N - 1] == (1.0 + r) * u0
    {
      var a, b := Thomas.Filled(N - 1, -r), Thomas.Filled(N, 1.0 + 2.0 * r);
      var rhs := YRhs(sw.xs, N - 1, sw.ys[N - 2]);
      var pinned := Thomas.Filled(N, u0);
      assert YSolvedAt(r, sw.xs, sw.ys, N - 1);
      assert Thomas.RowValue(a, b, a, pinned, 0) == (1.0 + r) * u0;
      assert Thomas.RowValue(a, b, a, pinned, N - 1) == (1.0 + r) * u0;
      if sw.ys[N - 1] == pinned {
        assert Thomas.RowValue(a, b, a, pinned, 0) == rhs[0];
        assert Thomas.RowValue(a, b, a, pinned, N - 1) == rhs[N - 1];
      }
      if sw.ys[N - 2][0] == (1.0 + r) * u0 && sw.ys[N - 2][N - 1] == (1.0 + r) * u0 {
        forall i | 0 <= i < N ensures Thomas.RowValue(a, b, a, pinned, i) == rhs[i] {
          if 0 < i < N - 1 {
            assert YInput(sw.xs, N - 1, i) == u0;
            assert Thomas.RowValue(a, b, a, pinned, i) == u0;
          }
        }
        assert HeatSystem(r, rhs, pinned);
        HeatSystemUnique(r, rhs, sw.ys[N - 1], pinned);
      }
    }

    /** What d holds when step t begins: zeros before the first step, and
        afterwards the last row solved in the step before, which is row N - 1
        of grid t. Carry reads the same value off the buffer. */
    function CarryIn(grids: seq<seq<seq<real>>>, t: nat): (carry: seq<real>)
      requires N >= 2 && t < |grids| && Square(grids[t])
      ensures |carry| == N
    {
      if t == 0 then Thomas.Filled(N, 0.0) else grids[t][N - 1]
    }

    /** Step t of a run over grids as they stood when their step began. */
    predicate MarchAt(r: real, grids: seq<seq<seq<real>>>, sws: seq<Sweep>, t: nat)
      requires WellPosed() && t + 1 < |grids| && forall k :: 0 <= k < |grids| ==> Square(grids[k])
      requires t < |sws|
    {
      StepOf(r, grids[t], CarryIn(grids, t), sws[t]) && grids[t + 1] == sws[t].ys
    }

    /** grids is a run of the march: each grid is one step from the one before. */
    predicate Run(r: real, grids: seq<seq<seq<real>>>, sws: seq<Sweep>)
      requires WellPosed()
    {
      |grids| == |sws| + 1 && (forall k :: 0 <= k < |grids| ==> Square(grids[k]))
      && forall t :: 0 <= t < |sws| ==> MarchAt(r, grids, sws, t)
    }

    /** Appending one more step to a run gives a run. */
    lemma RunExtends(r: real, grids: seq<seq<seq<real>>>, sws: seq<Sweep>, sw: Sweep)
      requires WellPosed() && Run(r, grids, sws)
      requires StepOf(r, grids[|sws|], CarryIn(grids, |sws|), sw) && Square(sw.ys)
      ensures Run(r, grids + [sw.ys], sws + [sw])
    {
      var grids', sws' := grids + [sw.ys], sws + [sw];
      forall t | 0 <= t < |sws'| ensures MarchAt(r, grids', sws', t) {
        assert grids'[t] == grids[t] && sws'[t] == (if t < |sws| then sws[t] else sw);
        if t < |sws| {
          assert MarchAt(r, grids, sws, t);
          assert grids'[t + 1] == grids[t + 1];
        }
      }
    }

    /** For r >= 0 the heat system has exactly one solution. */
    lemma HeatSystemUnique(r: real, rhs: seq<real>, x: seq<real>, y: seq<real>)
      requires N >= 1 && |rhs| == N && r >= 0.0
      requires HeatSystem(r, rhs, x) && HeatSystem(r, rhs, y)
      ensures x == y
    {
      Thomas.FilledHeatMatrix(N, r);
      Thomas.UniqueSolution(Thomas.Filled(N - 1, -r), Thomas.Filled(N, 1.0 + 2.0 * r),
                            Thomas.Filled(N - 1, -r), rhs, x, y);
    }

    /** Two x-sweeps from the same grid and carry agree column by column. */
    lemma {:induction false} XSweepsAgree(r: real, g: seq<seq<real>>, carry: seq<real>,
                                          xs: seq<seq<real>>, xs': seq<seq<real>>, j: nat)
      requires WellPosed() && Square(g) && |carry| == N && r >= 0.0
      requires XSwept(r, g, carry, xs) && XSwept(r, g, carry, xs') && j < |xs| && j < |xs'|
      ensures xs[j] == xs'[j]
      decreases j
    {
      if j > 0 {
        XSweepsAgree(r, g, carry, xs, xs', j - 1);
      }
      assert XSolvedAt(r, g, carry, xs, j) && XSolvedAt(r, g, carry, xs', j);
      HeatSystemUnique(r, XRhs(g, j, if j == 0 then carry else xs[j - 1]), xs[j], xs'[j]);
    }

    /** Two y-sweeps over the same x-sweep agree row by row. */
    lemma {:induction false} YSweepsAgree(r: real, xs: seq<seq<real>>, ys: seq<seq<real>>, ys': seq<seq<real>>, i: nat)
      requires WellPosed() && Square(xs) && r >= 0.0
      requires YSwept(r, xs, ys) && YSwept(r, xs, ys') && i < |ys| && i < |ys'|
      ensures ys[i] == ys'[i]
      decreases i
    {
      if i > 0 {
        YSweepsAgree(r, xs, ys, ys', i - 1);
      }
      assert YSolvedAt(r, xs, ys, i) && YSolvedAt(r, xs, ys', i);
      HeatSystemUnique(r, YRhs(xs, i, if i == 0 then xs[N - 1] else ys[i - 1]), ys[i], ys'[i]);
    }

    /** A step is determined by the grid and the carry it starts from. */
    lemma StepDeterministic(r: real, g: seq<seq<real>>, carry: seq<real>, sw: Sweep, sw': Sweep)
      requires WellPosed() && Square(g) && |carry| == N && r >= 0.0
      requires StepOf(r, g, carry, sw) && StepOf(r, g, carry, sw')
      ensures sw == sw'
    {
      forall j | 0 <= j < N ensures sw.xs[j] == sw'.xs[j] {
        XSweepsAgree(r, g, carry, sw.xs, sw'.xs, j);
      }
      assert sw.xs == sw'.xs;
      forall i | 0 <= i < N ensures sw.ys[i] == sw'.ys[i] {
        YSweepsAgree(r, sw.xs, sw.ys, sw'.ys, i);
      }
    }

    /** The march is deterministic: two runs of the same length from the same
        first grid are the same run. */
    lemma RunDeterministic(r: real, grids: seq<seq<seq<real>>>, sws: seq<Sweep>,
                           grids': seq<seq<seq<real>>>, sws': seq<Sweep>)
      requires WellPosed() && r >= 0.0 && Run(r, grids, sws) && Run(r, grids', sws')
      requires |sws| == |sws'| && grids[0] == grids'[0]
      ensures grids == grids' && sws == sws'
    {
      forall t | 0 <= t < |sws| ensures sws[t] == sws'[t] && grids[t + 1] == grids'[t + 1] {
        RunsAgree(r, grids, sws, grids', sws', t);
        assert MarchAt(r, grids, sws, t) && MarchAt(r, grids', sws', t);
      }
      forall k | 0 <= k < |grids| ensures grids[k] == grids'[k] {
        if k > 0 {
          assert sws[k - 1] == sws'[k - 1];
        }
      }
    }

    lemma {:induction false} RunsAgree(r: real, grids: seq<seq<seq<real>>>, sws: seq<Sweep>,
                                       grids': seq<seq<seq<real>>>, sws': seq<Sweep>, t: nat)
      requires WellPosed() && r >= 0.0 && Run(r, grids, sws) && Run(r, grids', sws')
      requires |sws| == |sws'| && grids[0] == grids'[0] && t < |sws|
      ensures grids[t] == grids'[t] && sws[t] == sws'[t]
      decreases t
    {
      if t > 0 {
        RunsAgree(r, grids, sws, grids', sws', t - 1);
        assert MarchAt(r, grids, sws, t - 1) && MarchAt(r, grids', sws', t - 1);
      }
      assert MarchAt(r, grids, sws, t) && MarchAt(r, grids', sws', t);
      StepDeterministic(r, grids[t], CarryIn(grids, t), sws[t], sws'[t]);
    }

    /** The grid uniformly at v. */
    function Uniform(v: real): (g: seq<seq<real>>)
      requires N >= 0
      ensures Square(g) && forall i, j :: 0 <= i < N && 0 <= j < N ==> g[i][j] == v
    {
      var row := Thomas.Filled(N, v);
      seq(N, _ => row)
    }

    /** Grid t of the buffer, row index first. */
    function Grid(t: int): (g: seq<seq<real>>)
      reads temperatureGrids
      requires Valid() && 0 <= t < M
      ensures Square(g)
      ensures forall i, j :: 0 <= i < N && 0 <= j < N ==> g[i][j] == temperatureGrids[t, i, j]
    {
      var G := temperatureGrids;
      seq(N, i requires 0 <= i < N reads G =>
        seq(N, j requires 0 <= j < N reads G => G[t, i, j]))
    }

    /** The whole history buffer: M grids of N x N points, entry for entry. */
    function AllTemperatureGrids(): (grids: seq<seq<seq<real>>>)
      reads temperatureGrids
      requires Valid()
      ensures |grids| == M
      ensures forall t :: 0 <= t < M ==> grids[t] == Grid(t)
    {
      seq(M, t requires 0 <= t < M reads temperatureGrids => Grid(t))
    }

    /** The x = L edge of grid s is at u0. */
    predicate EdgePinned(s: int)
      reads temperatureGrids
      requires Valid() && 0 <= s < M
    {
      forall i, y :: i == N - 1 && 0 <= y < N ==> temperatureGrids[s, i, y] == u0
    }

    /** Neumann condition on grid t: for every y the x = 0 point copies the
        point beside it; no other entry changes. */
    method ApplyNeumannBoundary(t: int)
      requires Valid() && N >= 2 && 0 <= t < M
      modifies temperatureGrids
      ensures forall y :: 0 <= y < N ==> temperatureGrids[t, 0, y] == old(temperatureGrids[t, 1, y])
      ensures forall s, i, y :: 0 <= s < M && 0 <= i < N && 0 <= y < N && !(s == t && i == 0) ==>
        temperatureGrids[s, i, y] == old(temperatureGrids[s, i, y])
    {
      for y := 0 to N
        invariant forall y' :: 0 <= y' < y ==> temperatureGrids[t, 0, y'] == old(temperatureGrids[t, 1, y'])
        invariant forall y' :: y <= y' < N ==> temperatureGrids[t, 0, y'] == old(temperatureGrids[t, 0, y'])
        invariant forall s, i, y' :: 0 <= s < M && 0 <= i < N && 0 <= y' < N && !(s == t && i == 0) ==>
          temperatureGrids[s, i, y'] == old(temperatureGrids[s, i, y'])
      {
        temperatureGrids[t, 0, y] := temperatureGrids[t, 1, y];
      }
    }

    /** Dirichlet condition on grid t: for every y the x = L point becomes u0;
        no other entry changes. */
    method ApplyDirichletBoundary(t: int)
      requires Valid() && N >= 1 && 0 <= t < M
      modifies temperatureGrids
      ensures forall i, y :: i == N - 1 && 0 <= y < N ==> temperatureGrids[t, i, y] == u0
      ensures forall s, i, y :: 0 <= s < M && 0 <= i < N && 0 <= y < N && !(s == t && i == N - 1) ==>
        temperatureGrids[s, i, y] == old(temperatureGrids[s, i, y])
    {
      for y := 0 to N
        invariant forall i, y' :: i == N - 1 && 0 <= y' < y ==> temperatureGrids[t, i, y'] == u0
        invariant forall s, i, y' :: 0 <= s < M && 0 <= i < N && 0 <= y' < N && !(s == t && i == N - 1) ==>
          temperatureGrids[s, i, y'] == old(temperatureGrids[s, i, y'])
      {
        temperatureGrids[t, N - 1, y] := u0;
      }
    }

    /** Extending an x-sweep by the solve of its next column. */
    lemma XSweptExtends(r: real, g: seq<seq<real>>, carry: seq<real>, xs: seq<seq<real>>, x: seq<real>)
      requires WellPosed() && Square(g) && |carry| == N && XSwept(r, g, carry, xs) && |xs| < N
      requires HeatSystem(r, XRhs(g, |xs|, if |xs| == 0 then carry else xs[|xs| - 1]), x)
      ensures XSwept(r, g, carry, xs + [x])
    {
      var xs' := xs + [x];
      forall j | 0 <= j < |xs'| ensures XSolvedAt(r, g, carry, xs', j) {
        if j < |xs| {
          assert XSolvedAt(r, g, carry, xs, j);
          assert xs'[j] == xs[j] && (j > 0 ==> xs'[j - 1] == xs[j - 1]);
        } else if j > 0 {
          assert xs'[j - 1] == xs[j - 1];
        }
      }
    }

    /** Extending a y-sweep by the solve of its next row. */
    lemma YSweptExtends(r: real, xs: seq<seq<real>>, ys: seq<seq<real>>, y: seq<real>)
      requires WellPosed() && Square(xs) && YSwept(r, xs, ys) && |ys| < N
      requires HeatSystem(r, YRhs(xs, |ys|, if |ys| == 0 then xs[N - 1] else ys[|ys| - 1]), y)
      ensures YSwept(r, xs, ys + [y])
    {
      var ys' := ys + [y];
      forall i | 0 <= i < |ys'| ensures YSolvedAt(r, xs, ys', i) {
        if i < |ys| {
          assert YSolvedAt(r, xs, ys, i);
          assert ys'[i] == ys[i] && (i > 0 ==> ys'[i - 1] == ys[i - 1]);
        } else if i > 0 {
          assert ys'[i - 1] == ys[i - 1];
        }
      }
    }

    /** Right-hand side of column j's x-solve, written into d: the interior
        entries from grid t plus the source term; d's two ends are kept. */
    method BuildXRhs(t: int, j: int, d: array<real>, ghost g: seq<seq<real>>)
      requires WellPosed() && 0 <= t < M && 0 <= j < N && d.Length == N
      requires Square(g) && forall i, y :: 1 <= i < N && 0 <= y < N ==> temperatureGrids[t, i, y] == g[i][y]
      modifies d
      ensures d[..] == XRhs(g, j, old(d[..]))
    {
      ghost var carry := d[..];
      for i := 1 to N - 1
        invariant d[0] == carry[0] && d[N - 1] == carry[N - 1]
        invariant forall k :: 1 <= k < i ==> d[k] == g[k][j] + SourceTerm(k, j)
      {
        d[i] := temperatureGrids[t, i, j] + SourceTerm(i, j);
      }
      assert forall k :: 0 <= k < N ==> d[k] == XRhs(g, j, carry)[k];
    }

    /** Right-hand side of row i's y-solve, written into d: the interior
        entries from row i of grid t + 1; d's two ends are kept. */
    method BuildYRhs(t: int, i: int, d: array<real>, ghost xs: seq<seq<real>>)
      requires WellPosed() && 0 <= t < M - 1 && 0 <= i < N && d.Length == N
      requires Square(xs) && forall y :: 1 <= y < N - 1 ==> temperatureGrids[t + 1, i, y] == YInput(xs, i, y)
      modifies d
      ensures d[..] == YRhs(xs, i, old(d[..]))
    {
      ghost var carry := d[..];
      for y := 1 to N - 1
        invariant d[0] == carry[0] && d[N - 1] == carry[N - 1]
        invariant forall k :: 1 <= k < y ==> d[k] == YInput(xs, i, k)
      {
        d[y] := temperatureGrids[t + 1, i, y];
      }
      assert forall k :: 0 <= k < N ==> d[k] == YRhs(xs, i, carry)[k];
    }

    /** Writes d into column j of grid t + 1; no other entry changes. */
    method StoreColumn(t: int, j: int, d: array<real>)
      requires Valid() && 0 <= t < M - 1 && 0 <= j < N && d.Length == N
      modifies temperatureGrids
      ensures forall i :: 0 <= i < N ==> temperatureGrids[t + 1, i, j] == d[i]
      ensures forall s, i, y :: 0 <= s < M && 0 <= i < N && 0 <= y < N && !(s == t + 1 && y == j) ==>
        temperatureGrids[s, i, y] == old(temperatureGrids[s, i, y])
    {
      for i := 0 to N
        invariant forall k :: 0 <= k < i ==> temperatureGrids[t + 1, k, j] == d[k]
        invariant forall s, k, y :: 0 <= s < M && 0 <= k < N && 0 <= y < N && !(s == t + 1 && y == j) ==>
          temperatureGrids[s, k, y] == old(temperatureGrids[s, k, y])
      {
        temperatureGrids[t + 1, i, j] := d[i];
      }
    }

    /** Writes d into row i of grid t + 1; no other entry changes. */
    method StoreRow(t: int, i: int, d: array<real>)
      requires Valid() && 0 <= t < M - 1 && 0 <= i < N && d.Length == N
      modifies temperatureGrids
      ensures forall y :: 0 <= y < N ==> temperatureGrids[t + 1, i, y] == d[y]
      ensures forall s, k, y :: 0 <= s < M && 0 <= k < N && 0 <= y < N && !(s == t + 1 && k == i) ==>
        temperatureGrids[s, k, y] == old(temperatureGrids[s, k, y])
    {
      for y := 0 to N
        invariant forall y' :: 0 <= y' < y ==> temperatureGrids[t + 1, i, y'] == d[y']
        invariant forall s, k, y' :: 0 <= s < M && 0 <= k < N && 0 <= y' < N && !(s == t + 1 && k == i) ==>
          temperatureGrids[s, k, y'] == old(temperatureGrids[s, k, y'])
      {
        temperatureGrids[t + 1, i, y] := d[y];
      }
    }

    /** The x-solve of column j in step t: builds the right-hand side from
        grid t, applies the Neumann condition to grid t, solves, and stores
        the solution x as column j of grid t + 1. */
    method SolveColumn(t: int, j: int, a: array<real>, b: array<real>, c: array<real>, d: array<real>,
                       ghost r: real, ghost g: seq<seq<real>>)
      returns (ghost x: seq<real>)
      requires WellPosed() && 0 <= t < M - 1 && 0 <= j < N && r >= 0.0
      requires a.Length == N - 1 && c.Length == N - 1 && b.Length == N && d.Length == N
      requires d != a && d != b && d != c
      requires a[..] == Thomas.Filled(N - 1, -r) && c[..] == Thomas.Filled(N - 1, -r)
      requires b[..] == Thomas.Filled(N, 1.0 + 2.0 * r)
      requires Square(g) && forall i, y :: 1 <= i < N && 0 <= y < N ==> temperatureGrids[t, i, y] == g[i][y]
      modifies temperatureGrids, d
      ensures d[..] == x && HeatSystem(r, XRhs(g, j, old(d[..])), x)
      ensures forall i :: 0 <= i < N ==> temperatureGrids[t + 1, i, j] == x[i]
      ensures forall y :: 0 <= y < N ==> temperatureGrids[t, 0, y] == old(temperatureGrids[t, 1, y])
      ensures forall s, i, y | 0 <= s < M && 0 <= i < N && 0 <= y < N &&
        !(s == t && i == 0) && !(s == t + 1 && y == j) ::
        temperatureGrids[s, i, y] == old(temperatureGrids[s, i, y])
    {
      BuildXRhs(t, j, d, g);
      ghost var rhs := d[..];
      ApplyNeumannBoundary(t);
      assert d[..] == rhs;
      Thomas.FilledHeatMatrix(N, r);
      Thomas.Solve(a, b, c, d, N);
      x := d[..];
      assert HeatSystem(r, rhs, x);
      StoreColumn(t, j, d);
      assert d[..] == x;
    }

    /** The y-solve of row i in step t: builds the right-hand side from row i
        of grid t + 1, applies the Dirichlet condition to grid t + 1, solves,
        and stores the solution y as row i of grid t + 1. */
    method SolveRow(t: int, i: int, a: array<real>, b: array<real>, c: array<real>, d: array<real>,
                    ghost r: real, ghost xs: seq<seq<real>>)
      returns (ghost y: seq<real>)
      requires WellPosed() && 0 <= t < M - 1 && 0 <= i < N && r >= 0.0
      requires a.Length == N - 1 && c.Length == N - 1 && b.Length == N && d.Length == N
      requires d != a && d != b && d != c
      requires a[..] == Thomas.Filled(N - 1, -r) && c[..] == Thomas.Filled(N - 1, -r)
      requires b[..] == Thomas.Filled(N, 1.0 + 2.0 * r)
      requires Square(xs) && forall y' :: 1 <= y' < N - 1 ==> temperatureGrids[t + 1, i, y'] == YInput(xs, i, y')
      modifies temperatureGrids, d
      ensures d[..] == y && HeatSystem(r, YRhs(xs, i, old(d[..])), y)
      ensures forall y' :: 0 <= y' < N ==> temperatureGrids[t + 1, i, y'] == y[y']
      ensures i != N - 1 ==> EdgePinned(t + 1)
      ensures forall s, k, y' | 0 <= s < M && 0 <= k < N && 0 <= y' < N &&
        !(s == t + 1 && (k == i || k == N - 1)) ::
        temperatureGrids[s, k, y'] == old(temperatureGrids[s, k, y'])
    {
      BuildYRhs(t, i, d, xs);
      ghost var rhs := d[..];
      ApplyDirichletBoundary(t + 1);
      assert d[..] == rhs;
      Thomas.FilledHeatMatrix(N, r);
      Thomas.Solve(a, b, c, d, N);
      y := d[..];
      assert HeatSystem(r, rhs, y);
      StoreRow(t, i, d);
      assert d[..] == y;
    }

    /** The x-sweep of step t: one solve per column j, in order, each entered
        with d as the previous solve left it.  Grid t ends with its x = 0 edge
        copied from its neighbour, column j of grid t + 1 holds xs[j], and no
        other grid changes. */
    method XSweep(t: int, a: array<real>, b: array<real>, c: array<real>, d: array<real>,
                  ghost r: real, ghost g: seq<seq<real>>)
      returns (ghost xs: seq<seq<real>>)
      requires WellPosed() && 0 <= t < M - 1 && r >= 0.0
      requires a.Length == N - 1 && c.Length == N - 1 && b.Length == N && d.Length == N
      requires d != a && d != b && d != c
      requires a[..] == Thomas.Filled(N - 1, -r) && c[..] == Thomas.Filled(N - 1, -r)
      requires b[..] == Thomas.Filled(N, 1.0 + 2.0 * r)
      requires Square(g) && forall i, y :: 0 <= i < N && 0 <= y < N ==> temperatureGrids[t, i, y] == g[i][y]
      modifies temperatureGrids, d
      ensures |xs| == N && XSwept(r, g, old(d[..]), xs) && d[..] == xs[N - 1]
      ensures forall i, y :: 0 <= i < N && 0 <= y < N ==> temperatureGrids[t, i, y] == NeumannGrid(g)[i][y]
      ensures forall i, y :: 0 <= i < N && 0 <= y < N ==> temperatureGrids[t + 1, i, y] == xs[y][i]
      ensures forall s, i, y | 0 <= s < M && 0 <= i < N && 0 <= y < N && s != t && s != t + 1 ::
        temperatureGrids[s, i, y] == old(temperatureGrids[s, i, y])
    {
      ghost var carry := d[..];
      xs := [];
      for j := 0 to N
        invariant |xs| == j && XSwept(r, g, carry, xs)
        invariant d[..] == if j == 0 then carry else xs[j - 1]
        invariant forall i, y :: 1 <= i < N && 0 <= y < N ==> temperatureGrids[t, i, y] == g[i][y]
        invariant forall y :: 0 <= y < N ==> temperatureGrids[t, 0, y] == if j == 0 then g[0][y] else g[1][y]
        invariant forall i, y :: 0 <= i < N && 0 <= y < j ==> temperatureGrids[t + 1, i, y] == xs[y][i]
        invariant forall s, i, y | 0 <= s < M && 0 <= i < N && 0 <= y < N && s != t && s != t + 1 ::
          temperatureGrids[s, i, y] == old(temperatureGrids[s, i, y])
      {
        ghost var x := SolveColumn(t, j, a, b, c, d, r, g);
        XSweptExtends(r, g, carry, xs, x);
        xs := xs + [x];
      }
    }

    /** The y-sweep of step t: one solve per row i of grid t + 1, in order,
        each entered with d as the previous solve left it.  Row i of grid
        t + 1 ends as ys[i] and no other grid changes. */
    method YSweep(t: int, a: array<real>, b: array<real>, c: array<real>, d: array<real>,
                  ghost r: real, ghost xs: seq<seq<real>>)
      returns (ghost ys: seq<seq<real>>)
      requires WellPosed() && 0 <= t < M - 1 && r >= 0.0
      requires a.Length == N - 1 && c.Length == N - 1 && b.Length == N && d.Length == N
      requires d != a && d != b && d != c
      requires a[..] == Thomas.Filled(N - 1, -r) && c[..] == Thomas.Filled(N - 1, -r)
      requires b[..] == Thomas.Filled(N, 1.0 + 2.0 * r)
      requires Square(xs) && d[..] == xs[N - 1]
      requires forall i, y :: 0 <= i < N && 0 <= y < N ==> temperatureGrids[t + 1, i, y] == xs[y][i]
      modifies temperatureGrids, d
      ensures |ys| == N && YSwept(r, xs, ys) && d[..] == ys[N - 1]
      ensures forall i, y :: 0 <= i < N && 0 <= y < N ==> temperatureGrids[t + 1, i, y] == ys[i][y]
      ensures forall s, i, y | 0 <= s < M && 0 <= i < N && 0 <= y < N && s != t + 1 ::
        temperatureGrids[s, i, y] == old(temperatureGrids[s, i, y])
    {
      ys := [];
      for i := 0 to N
        invariant |ys| == i && YSwept(r, xs, ys)
        invariant d[..] == if i == 0 then xs[N - 1] else ys[i - 1]
        invariant forall k, y :: 0 <= k < i && 0 <= y < N ==> temperatureGrids[t + 1, k, y] == ys[k][y]
        invariant forall k, y :: i <= k < N && (k < N - 1 || i == 0) && 0 <= y < N ==>
          temperatureGrids[t + 1, k, y] == xs[y][k]
        invariant 0 < i < N ==> EdgePinned(t + 1)
        invariant forall s, k, y | 0 <= s < M && 0 <= k < N && 0 <= y < N && s != t + 1 ::
          temperatureGrids[s, k, y] == old(temperatureGrids[s, k, y])
      {
        ghost var y := SolveRow(t, i, a, b, c, d, r, xs);
        YSweptExtends(r, xs, ys, y);
        ys := ys + [y];
      }
    }

    /** One pass of the time loop: the x-sweep from grid t into grid t + 1,
        then the y-sweep over grid t + 1.  In terms of the grids so far, the
        run grows by one step; only grid t + 1 and the x = 0 edge of grid t
        are written, and d leaves holding the last row solved. */
    method TimeStep(t: int, a: array<real>, b: array<real>, c: array<real>, d: array<real>,
                    ghost r: real, ghost grids: seq<seq<seq<real>>>, ghost sws: seq<Sweep>)
      returns (ghost sw: Sweep)
      requires WellPosed() && 0 <= t < M - 1 && r >= 0.0
      requires a.Length == N - 1 && c.Length == N - 1 && b.Length == N && d.Length == N
      requires d != a && d != b && d != c
      requires a[..] == Thomas.Filled(N - 1, -r) && c[..] == Thomas.Filled(N - 1, -r)
      requires b[..] == Thomas.Filled(N, 1.0 + 2.0 * r)
      requires Run(r, grids, sws) && |sws| == t && d[..] == CarryIn(grids, t)
      requires forall i, y :: 0 <= i < N && 0 <= y < N ==> temperatureGrids[t, i, y] == grids[t][i][y]
      modifies temperatureGrids, d
      ensures Run(r, grids + [sw.ys], sws + [sw]) && d[..] == CarryIn(grids + [sw.ys], t + 1)
      ensures forall i, y :: 0 <= i < N && 0 <= y < N ==> temperatureGrids[t, i, y] == NeumannGrid(grids[t])[i][y]
      ensures forall i, y :: 0 <= i < N && 0 <= y < N ==> temperatureGrids[t + 1, i, y] == sw.ys[i][y]
      ensures forall s, i, y | 0 <= s < M && 0 <= i < N && 0 <= y < N && s != t && s != t + 1 ::
        temperatureGrids[s, i, y] == old(temperatureGrids[s, i, y])
    {
      ghost var xs := XSweep(t, a, b, c, d, r, grids[t]);
      ghost var ys := YSweep(t, a, b, c, d, r, xs);
      sw := Sweep(xs, ys);
      assert StepOf(r, grids[t], CarryIn(grids, t), sw);
      RunExtends(r, grids, sws, sw);
    }

    /** What d held when step t began, read off the finished buffer: zeros
        before the first step, else the x = L row of grid t. This is CarryIn
        applied to the buffer's grids; RunInBuffer states the two agree. */
    function Carry(t: int): (carry: seq<real>)
      reads temperatureGrids
      requires Valid() && N >= 2 && 0 <= t < M
      ensures |carry| == N
    {
      if t == 0 then Thomas.Filled(N, 0.0) else Grid(t)[N - 1]
    }

    /** Step t as the finished buffer records it: sweeps[t] is a step from
        grid t entered with Carry(t), and grid t + 1 holds its y-sweep, with
        the x = 0 edge copied from its neighbour when a later step used it. */
    ghost predicate Marched(t: int)
      reads this, temperatureGrids
      requires WellPosed() && 0 <= t < M - 1 && t < |sweeps|
    {
      StepOf(R(), Grid(t), Carry(t), sweeps[t])
      && Grid(t + 1) == if t + 1 < M - 1 then NeumannGrid(sweeps[t].ys) else sweeps[t].ys
    }

    /** A grid read off the buffer entry for entry is that grid. */
    lemma GridIs(t: int, g: seq<seq<real>>)
      requires Valid() && 0 <= t < M && Square(g)
      requires forall i, y :: 0 <= i < N && 0 <= y < N ==> temperatureGrids[t, i, y] == g[i][y]
      ensures Grid(t) == g
    {
      forall i | 0 <= i < N ensures Grid(t)[i] == g[i] {
        assert forall y :: 0 <= y < N ==> Grid(t)[i][y] == g[i][y];
      }
    }

    /** A run recorded grid by grid in the buffer gives Solve's account of
        every step. */
    lemma RunInBuffer(r: real, grids: seq<seq<seq<real>>>)
      requires WellPosed() && r == R() && M >= 1
      requires Run(r, grids, sweeps) && |sweeps| == M - 1
      requires forall s, i, y :: 0 <= s < M - 1 && 0 <= i < N && 0 <= y < N ==>
        temperatureGrids[s, i, y] == NeumannGrid(grids[s])[i][y]
      requires Grid(M - 1) == grids[M - 1]
      ensures forall t :: 0 <= t < M - 1 ==> Marched(t)
      ensures forall t :: 0 <= t < M - 1 ==> Grid(t)[0] == Grid(t)[1]
    {
      forall t | 0 <= t < M - 1 ensures Grid(t) == NeumannGrid(grids[t]) {
        GridIs(t, NeumannGrid(grids[t]));
      }
      forall t | 0 <= t < M - 1 ensures Marched(t) {
        assert MarchAt(r, grids, sweeps, t);
        StepIgnoresEdge(r, grids[t], CarryIn(grids, t), sweeps[t]);
        assert Carry(t) == CarryIn(grids, t);
      }
    }

    /** The x = 0 edge copy leaves a uniform grid as it is. */
    lemma UniformNeumann(v: real)
      requires N >= 2
      ensures NeumannGrid(Uniform(v)) == Uniform(v)
    {
    }

    /** The time loop: steps 0 .. M - 2 in turn, from grid 0 holding start
        and d holding zeros.  Every grid but the last ends up as the grid its
        step began from with the x = 0 edge copied; the last is the final
        y-sweep. */
    method March(a: array<real>, b: array<real>, c: array<real>, d: array<real>,
                 ghost r: real, ghost start: seq<seq<real>>)
      returns (ghost grids: seq<seq<seq<real>>>)
      requires WellPosed() && M >= 1 && r >= 0.0
      requires a.Length == N - 1 && c.Length == N - 1 && b.Length == N && d.Length == N
      requires d != a && d != b && d != c
      requires a[..] == Thomas.Filled(N - 1, -r) && c[..] == Thomas.Filled(N - 1, -r)
      requires b[..] == Thomas.Filled(N, 1.0 + 2.0 * r) && d[..] == Thomas.Filled(N, 0.0)
      requires Square(start)
      requires forall i, y :: 0 <= i < N && 0 <= y < N ==> temperatureGrids[0, i, y] == start[i][y]
      modifies this, temperatureGrids, d
      ensures |sweeps| == M - 1 && |grids| == M && Run(r, grids, sweeps) && grids[0] == start
      ensures forall s, i, y :: 0 <= s < M - 1 && 0 <= i < N && 0 <= y < N ==>
        temperatureGrids[s, i, y] == NeumannGrid(grids[s])[i][y]
      ensures Grid(M - 1) == grids[M - 1]
    {
      sweeps := [];
      grids := [start];
      var t := 0;
      while t < M - 1
        modifies this, temperatureGrids, d
        invariant 0 <= t <= M - 1
        invariant |sweeps| == t && |grids| == t + 1 && Run(r, grids, sweeps) && grids[0] == start
        invariant d[..] == CarryIn(grids, t)
        invariant forall s, i, y :: 0 <= s < t && 0 <= i < N && 0 <= y < N ==>
          temperatureGrids[s, i, y] == NeumannGrid(grids[s])[i][y]
        invariant forall i, y :: 0 <= i < N && 0 <= y < N ==> temperatureGrids[t, i, y] == grids[t][i][y]
      {
        ghost var sw := TimeStep(t, a, b, c, d, r, grids, sweeps);
        sweeps := sweeps + [sw];
        grids := grids + [sw.ys];
        t := t + 1;
      }
      GridIs(t, grids[t]);
    }

    /** Runs the whole march.  Every step is recorded in sweeps: grid 0 only
        has its x = 0 edge copied from its neighbour (so a uniform start stays
        uniform), and each later grid is the y-sweep of the step before it. */
    method Solve()
      requires WellPosed()
      modifies this, temperatureGrids
      ensures |sweeps| == if M >= 1 then M - 1 else 0
      ensures M >= 1 ==> Grid(0) == if M >= 2 then NeumannGrid(old(Grid(0))) else old(Grid(0))
      ensures M >= 1 && old(Grid(0)) == Uniform(u0) ==> Grid(0) == Uniform(u0)
      ensures forall t :: 0 <= t < M - 1 ==> Marched(t)
      ensures forall t :: 0 <= t < M - 1 ==> Grid(t)[0] == Grid(t)[1]
    {
      var alpha := material.ThermalDiffusivity();
      var r := Discretization.DiffusionNumber(alpha, dt, dx);
      var a := new real[N - 1](_ => -r);
      var b := new real[N](_ => 1.0 + 2.0 * r);
      var c := new real[N - 1](_ => -r);
      var d := new real[N](_ => 0.0);
      assert a[..] == Thomas.Filled(N - 1, -r) && c[..] == Thomas.Filled(N - 1, -r);
      assert b[..] == Thomas.Filled(N, 1.0 + 2.0 * r) && d[..] == Thomas.Filled(N, 0.0);

      if M < 1 {
        sweeps := [];
        return;
      }
      ghost var start := Grid(0);
      ghost var grids := March(a, b, c, d, r, start);
      if M >= 2 {
        GridIs(0, NeumannGrid(start));
        UniformNeumann(u0);
      } else {
        GridIs(0, start);
      }
      RunInBuffer(r, grids);
    }
  }
}
