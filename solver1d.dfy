/** Implicit (backward Euler) finite-difference march for the heat equation
    on a bar: N points, M stored time rows, a Neumann condition at x = 0 and
    a Dirichlet condition u0 at x = L. */
module Solver1D {
  import Thomas
  import Materials
  import Source1D
  import Discretization

  datatype Option<T> = None | Some(value: T)

  /** Neumann fix-up: the first point takes the value of its neighbour. */
  function NeumannRow(row: seq<real>): (fixed: seq<real>)
    requires |row| >= 2
    ensures |fixed| == |row| && fixed[0] == row[1]
    ensures forall x :: 1 <= x < |row| ==> fixed[x] == row[x]
  {
    row[0 := row[1]]
  }

  /** Dirichlet fix-up: the last point is pinned to u0. */
  function DirichletRow(row: seq<real>, u0: real): (fixed: seq<real>)
    requires |row| >= 1
    ensures |fixed| == |row| && fixed[|row| - 1] == u0
    ensures forall x :: 0 <= x < |row| - 1 ==> fixed[x] == row[x]
  {
    row[|row| - 1 := u0]
  }

  /** After both fix-ups the boundary conditions hold exactly; with at least
      three points the interior is the solve's own, and with two points the
      Dirichlet pin overrides the value the Neumann copy put beside it. */
  lemma FixupsEnforceBoundaries(sol: seq<real>, u0: real)
    requires |sol| >= 2
    ensures DirichletRow(NeumannRow(sol), u0)[|sol| - 1] == u0
    ensures |sol| >= 3 ==> DirichletRow(NeumannRow(sol), u0)[0] == DirichletRow(NeumannRow(sol), u0)[1]
    ensures |sol| >= 3 ==> forall x :: 1 <= x < |sol| - 1 ==> DirichletRow(NeumannRow(sol), u0)[x] == sol[x]
    ensures |sol| == 2 ==> DirichletRow(NeumannRow(sol), u0) == [sol[1], u0]
  {
  }

  /** On three points, with rows (1+2r)s0 - r s1 = u, -r s0 + (1+2r)s1 - r s2 = u
      and -r s1 + (1+2r)s2 = u, the middle value is not u when r > 0 and u != 0. */
  lemma ThreePointMiddle(r: real, s0: real, s1: real, s2: real, u: real)
    requires r > 0.0 && u != 0.0
    requires (1.0 + 2.0 * r) * s0 - r * s1 == u
    requires -r * s0 + (1.0 + 2.0 * r) * s1 - r * s2 == u
    requires -r * s1 + (1.0 + 2.0 * r) * s2 == u
    ensures s1 != u
  {
    if s1 == u {
      ThreePointPinned(r, s0, s2, u);
      assert false;
    }
  }

  /** Were the middle value u, the middle row would make the two ends
      average to u while the end rows make each of them (1 + r)u / (1 + 2r),
      so r * u = 0 and, for r > 0, u = 0. */
  lemma ThreePointPinned(r: real, s0: real, s2: real, u: real)
    requires r > 0.0
    requires (1.0 + 2.0 * r) * s0 - r * u == u
    requires -r * s0 + (1.0 + 2.0 * r) * u - r * s2 == u
    requires -r * u + (1.0 + 2.0 * r) * s2 == u
    ensures u == 0.0
  {
    assert r * (s0 + s2 - 2.0 * u) == 0.0;
    assert s0 + s2 == 2.0 * u;
    assert (1.0 + 2.0 * r) * (s0 + s2) == 2.0 * (1.0 + r) * u;
    assert r * u == 0.0;
  }

  class HeatEquationSolver1D {
    const material: Materials.Material
    const source: Source1D.Heatsource1D
    const L: real
    const tmax: real
    const u0: real
    /** Spatial points of a row. */
    const N: int
    /** Stored time rows. */
    const M: int
    const dx: real
    const dt: real

    /** Row t holds the temperatures at time t * dt; absent until the first solve. */
    var temperatureMatrix: array2?<real>
    /** The vector each step's tridiagonal solve produced, before the fix-ups. */
    ghost var solutions: seq<seq<real>>

    constructor (material: Materials.Material, source: Source1D.Heatsource1D,
                 L: real, tmax: real, u0: real, N: int, M: int)
      requires N != 0 && M != 0
      ensures this.material == material && this.source == source
      ensures this.L == L && this.tmax == tmax && this.u0 == u0 && this.N == N && this.M == M
      ensures dx == L / N as real && dt == tmax / M as real
      ensures temperatureMatrix == null && solutions == []
    {
      this.material := material;
      this.source := source;
      this.L := L;
      this.tmax := tmax;
      this.u0 := u0;
      this.N := N;
      this.M := M;
      this.dx := L / N as real;
      this.dt := tmax / M as real;
      temperatureMatrix := null;
      solutions := [];
    }

    /** The buffer exists and has M rows of N points. */
    predicate Valid()
      reads this
    {
      temperatureMatrix != null && temperatureMatrix.Length0 == M && temperatureMatrix.Length1 == N
    }

    /** The diffusion number r = alpha * dt / dx^2 of the bar's material. */
    function R(): real
      requires material.HeatCapacity() != 0.0 && dx != 0.0
    {
      Discretization.DiffusionNumber(material.ThermalDiffusivity(), dt, dx)
    }

    /** What solve needs: a non-trivial bar, finite step sizes and r >= 0. */
    predicate WellPosed() {
      N >= 2 && M >= 0 && material.HeatCapacity() != 0.0 && dx != 0.0 && R() >= 0.0
    }

    /** Temperature added at point x in one step by the heat source. */
    function SourceTerm(x: int): real
      requires material.HeatCapacity() != 0.0
    {
      dt * source.F(x as real * dx) / (material.density * material.specificHeat)
    }

    /** Right-hand side of the step from row prev: the previous temperature
        plus the source term inside, the previous value at x = 0 and u0 at x = L. */
    function Rhs(prev: seq<real>): (d: seq<real>)
      requires |prev| == N && N >= 2 && material.HeatCapacity() != 0.0
      ensures |d| == N
    {
      seq(N, x requires 0 <= x < N =>
        if x == 0 then prev[0] else if x == N - 1 then u0 else prev[x] + SourceTerm(x))
    }

    /** One time step: sol solves the heat system for prev's right-hand side
        and next is sol after the Neumann and Dirichlet fix-ups. */
    predicate Step(prev: seq<real>, sol: seq<real>, next: seq<real>)
      requires WellPosed()
    {
      |prev| == N
      && Thomas.Satisfies(Thomas.Filled(N - 1, -R()), Thomas.Filled(N, 1.0 + 2.0 * R()),
                          Thomas.Filled(N - 1, -R()), Rhs(prev), sol)
      && next == DirichletRow(NeumannRow(sol), u0)
    }

    /** A physical material on a bar of positive length, simulated for a
        non-negative time over at least two points and one row, is well posed:
        the steps are finite and r >= 0. */
    lemma PhysicalIsWellPosed()
      requires material.Physical() && L > 0.0 && tmax >= 0.0 && N >= 2 && M >= 1
      requires dx == L / N as real && dt == tmax / M as real
      ensures WellPosed()
    {
      Discretization.QuotientSign(L, N);
      Discretization.QuotientSign(tmax, M);
      Discretization.DiffusionNumberNonnegative(material.ThermalDiffusivity(), dt, dx);
    }

    /** A solve for prev's right-hand side followed by the two fix-ups is a step. */
    lemma StepOfSolve(prev: seq<real>, rhs: seq<real>, sol: seq<real>, r: real)
      requires WellPosed() && r == R() && |prev| == N && rhs == Rhs(prev)
      requires Thomas.Satisfies(Thomas.Filled(N - 1, -r), Thomas.Filled(N, 1.0 + 2.0 * r),
                                Thomas.Filled(N - 1, -r), rhs, sol)
      ensures Step(prev, sol, DirichletRow(NeumannRow(sol), u0))
    {
    }

    /** Whatever the solve produced, a step ends with the Dirichlet value at
        x = L and, on three or more points, a flat profile at x = 0. */
    lemma StepBoundaries(prev: seq<real>, sol: seq<real>, next: seq<real>)
      requires WellPosed() && Step(prev, sol, next)
      ensures |next| == N && next[N - 1] == u0
      ensures N >= 3 ==> next[0] == next[1]
    {
      FixupsEnforceBoundaries(sol, u0);
    }

    /** A uniform bar with no heat inside does not stay put: on three points
        with r > 0 and u0 != 0, the step from the all-u0 row changes it. The
        end rows of the system are ordinary 1 + 2r rows, so the solve pulls
        the middle point away from u0 and the Neumann copy carries that to x = 0. */
    lemma UniformNotSteady(sol: seq<real>, next: seq<real>)
      requires WellPosed() && N == 3 && R() > 0.0 && u0 != 0.0 && SourceTerm(1) == 0.0
      requires Step(Thomas.Filled(3, u0), sol, next)
      ensures next != Thomas.Filled(3, u0)
    {
      var r := R();
      var a, b := Thomas.Filled(2, -r), Thomas.Filled(3, 1.0 + 2.0 * r);
      var rhs := Rhs(Thomas.Filled(3, u0));
      assert rhs[0] == u0 && rhs[1] == u0 && rhs[2] == u0;
      assert Thomas.RowValue(a, b, a, sol, 0) == rhs[0];
      assert Thomas.RowValue(a, b, a, sol, 1) == rhs[1];
      assert Thomas.RowValue(a, b, a, sol, 2) == rhs[2];
      ThreePointMiddle(r, sol[0], sol[1], sol[2], u0);
      assert next[0] == sol[1];
    }

    /** rows is a run of the march: each row is one step from the row
        before, sols[t] being the solve of step t. */
    predicate Run(rows: seq<seq<real>>, sols: seq<seq<real>>)
      requires WellPosed()
    {
      |rows| == |sols| + 1 && forall t :: 0 <= t < |sols| ==> StepAt(rows, sols, t)
    }

    predicate StepAt(rows: seq<seq<real>>, sols: seq<seq<real>>, t: nat)
      requires WellPosed() && t < |sols| && |rows| == |sols| + 1
    {
      Step(rows[t], sols[t], rows[t + 1])
    }

    /** Appending one more step to a run gives a run. */
    lemma RunExtends(rows: seq<seq<real>>, sols: seq<seq<real>>, sol: seq<real>, next: seq<real>)
      requires WellPosed() && Run(rows, sols)
      requires Step(rows[|sols|], sol, next)
      ensures Run(rows + [next], sols + [sol])
    {
      forall t | 0 <= t < |sols| + 1
        ensures StepAt(rows + [next], sols + [sol], t)
      {
        if t < |sols| {
          assert StepAt(rows, sols, t);
          assert (rows + [next])[t] == rows[t] && (rows + [next])[t + 1] == rows[t + 1];
          assert (sols + [sol])[t] == sols[t];
        }
      }
    }

    /** The heat system has one solution for r >= 0, so a step from a row
        is determined by that row. */
    lemma StepDeterministic(prev: seq<real>, sol: seq<real>, next: seq<real>, sol': seq<real>, next': seq<real>)
      requires WellPosed() && Step(prev, sol, next) && Step(prev, sol', next')
      ensures sol == sol' && next == next'
    {
      var r := R();
      Thomas.FilledHeatMatrix(N, r);
      Thomas.UniqueSolution(Thomas.Filled(N - 1, -r), Thomas.Filled(N, 1.0 + 2.0 * r),
                            Thomas.Filled(N - 1, -r), Rhs(prev), sol, sol');
    }

    /** The march is deterministic: two runs of the same length from the
        same first row are the same run. */
    lemma RunDeterministic(rows: seq<seq<real>>, sols: seq<seq<real>>, rows': seq<seq<real>>, sols': seq<seq<real>>)
      requires WellPosed() && Run(rows, sols) && Run(rows', sols')
      requires |sols| == |sols'| && rows[0] == rows'[0]
      ensures rows == rows' && sols == sols'
    {
      forall t | 0 <= t < |rows| ensures rows[t] == rows'[t] {
        RowsAgree(rows, sols, rows', sols', t);
      }
      forall t | 0 <= t < |sols| ensures sols[t] == sols'[t] {
        assert rows[t] == rows'[t];
        assert StepAt(rows, sols, t) && StepAt(rows', sols', t);
        StepDeterministic(rows[t], sols[t], rows[t + 1], sols'[t], rows'[t + 1]);
      }
    }

    lemma {:induction false} RowsAgree(rows: seq<seq<real>>, sols: seq<seq<real>>,
                                       rows': seq<seq<real>>, sols': seq<seq<real>>, t: nat)
      requires WellPosed() && Run(rows, sols) && Run(rows', sols')
      requires |sols| == |sols'| && rows[0] == rows'[0] && t < |rows|
      ensures rows[t] == rows'[t]
      decreases t
    {
      if t > 0 {
        RowsAgree(rows, sols, rows', sols', t - 1);
        assert StepAt(rows, sols, t - 1) && StepAt(rows', sols', t - 1);
        StepDeterministic(rows[t - 1], sols[t - 1], rows[t], sols'[t - 1], rows'[t]);
      }
    }

    function Row(t: int): (row: seq<real>)
      reads this, temperatureMatrix
      requires temperatureMatrix != null && 0 <= t < temperatureMatrix.Length0
      ensures |row| == temperatureMatrix.Length1
      ensures forall x :: 0 <= x < temperatureMatrix.Length1 ==> row[x] == temperatureMatrix[t, x]
    {
      var m := temperatureMatrix;
      seq(m.Length1, x requires 0 <= x < m.Length1 reads m => m[t, x])
    }

    /** Allocates the M x N buffer with every entry u0. */
    method InitializeMatrix()
      requires M >= 0 && N >= 0
      modifies this
      ensures Valid() && fresh(temperatureMatrix)
      ensures forall t, x :: 0 <= t < M && 0 <= x < N ==> temperatureMatrix[t, x] == u0
      ensures solutions == old(solutions)
    {
      var m := new real[M, N];
      for t := 0 to M
        modifies m
        invariant forall t', x :: 0 <= t' < t && 0 <= x < N ==> m[t', x] == u0
      {
        for x := 0 to N
          modifies m
          invariant forall t', x' :: 0 <= t' < t && 0 <= x' < N ==> m[t', x'] == u0
          invariant forall x' :: 0 <= x' < x ==> m[t, x'] == u0
        {
          m[t, x] := u0;
        }
      }
      temperatureMatrix := m;
    }

    /** Neumann condition on row `row`: its first point copies the second,
        nothing else changes. */
    method ApplyNeumannBoundary(row: int)
      requires Valid() && N >= 2 && 0 <= row < M
      modifies temperatureMatrix
      ensures temperatureMatrix[row, 0] == old(temperatureMatrix[row, 1])
      ensures forall t, x :: 0 <= t < M && 0 <= x < N && !(t == row && x == 0) ==>
        temperatureMatrix[t, x] == old(temperatureMatrix[t, x])
    {
      temperatureMatrix[row, 0] := temperatureMatrix[row, 1];
    }

    /** Dirichlet condition on row `row`: its last point becomes u0,
        nothing else changes. */
    method ApplyDirichletBoundary(row: int)
      requires Valid() && N >= 1 && 0 <= row < M
      modifies temperatureMatrix
      ensures temperatureMatrix[row, N - 1] == u0
      ensures forall t, x :: 0 <= t < M && 0 <= x < N && !(t == row && x == N - 1) ==>
        temperatureMatrix[t, x] == old(temperatureMatrix[t, x])
    {
      temperatureMatrix[row, N - 1] := u0;
    }

    /** Right-hand side of the step from row n, written into d: the previous
        temperature plus the source term inside, the previous value at x = 0
        and u0 at x = L. */
    method BuildRightHandSide(n: int, d: array<real>, ghost prev: seq<real>)
      requires Valid() && WellPosed() && 0 <= n < M && d.Length == N
      requires |prev| == N && forall x :: 0 <= x < N ==> temperatureMatrix[n, x] == prev[x]
      modifies d
      ensures d[..] == Rhs(prev)
    {
      for x := 1 to N - 1
        invariant forall k :: 1 <= k < x ==> d[k] == temperatureMatrix[n, k] + SourceTerm(k)
      {
        d[x] := temperatureMatrix[n, x] + SourceTerm(x);
      }
      d[0] := temperatureMatrix[n, 0];
      d[N - 1] := u0;
      assert forall k :: 0 <= k < N ==> d[k] == Rhs(prev)[k];
    }

    /** Copies the solve's result d into row n + 1 and applies the Neumann and
        then the Dirichlet fix-up to that row; no other row changes. */
    method StoreStep(n: int, d: array<real>)
      requires Valid() && N >= 2 && 0 <= n < M - 1 && d.Length == N
      modifies temperatureMatrix
      ensures forall t, x :: 0 <= t < M && t != n + 1 && 0 <= x < N ==>
        temperatureMatrix[t, x] == old(temperatureMatrix[t, x])
      ensures forall x :: 0 <= x < N ==>
        temperatureMatrix[n + 1, x] == DirichletRow(NeumannRow(d[..]), u0)[x]
    {
      for x := 0 to N
        invariant forall k :: 0 <= k < x ==> temperatureMatrix[n + 1, k] == d[k]
        invariant forall t, k :: 0 <= t < M && t != n + 1 && 0 <= k < N ==>
          temperatureMatrix[t, k] == old(temperatureMatrix[t, k])
      {
        temperatureMatrix[n + 1, x] := d[x];
      }
      ApplyNeumannBoundary(n + 1);
      ApplyDirichletBoundary(n + 1);
    }

    /** One pass of the time loop: builds the right-hand side from row n,
        solves, and stores the fixed-up result as row n + 1.  In terms of the
        rows so far, the run grows by one step and no other row changes. */
    method TimeStep(n: int, a: array<real>, b: array<real>, c: array<real>, d: array<real>,
                    ghost r: real, ghost rows: seq<seq<real>>, ghost sols: seq<seq<real>>)
      returns (ghost sol: seq<real>, ghost next: seq<real>)
      requires Valid() && WellPosed() && 0 <= n < M - 1 && r == R()
      requires a.Length == N - 1 && c.Length == N - 1 && b.Length == N && d.Length == N
      requires d != a && d != b && d != c
      requires a[..] == Thomas.Filled(N - 1, -r) && c[..] == Thomas.Filled(N - 1, -r)
      requires b[..] == Thomas.Filled(N, 1.0 + 2.0 * r)
      requires Run(rows, sols) && |sols| == n && |rows[n]| == N
      requires forall x :: 0 <= x < N ==> temperatureMatrix[n, x] == rows[n][x]
      modifies temperatureMatrix, d
      ensures Run(rows + [next], sols + [sol]) && |next| == N
      ensures forall x :: 0 <= x < N ==> temperatureMatrix[n + 1, x] == next[x]
      ensures forall t, x :: 0 <= t < M && t != n + 1 && 0 <= x < N ==>
        temperatureMatrix[t, x] == old(temperatureMatrix[t, x])
    {
      BuildRightHandSide(n, d, rows[n]);
      ghost var rhs := d[..];
      Thomas.FilledHeatMatrix(N, r);
      Thomas.Solve(a, b, c, d, N);
      sol := d[..];
      StepOfSolve(rows[n], rhs, sol, r);
      next := DirichletRow(NeumannRow(sol), u0);
      RunExtends(rows, sols, sol, next);
      StoreStep(n, d);
      assert d[..] == sol;
    }

    /** The coefficient vectors of the implicit step: -r below and above
        the diagonal, 1 + 2r on it. */
    method BuildCoefficients(r: real) returns (a: array<real>, b: array<real>, c: array<real>)
      requires N >= 2
      ensures fresh(a) && fresh(b) && fresh(c)
      ensures a[..] == Thomas.Filled(N - 1, -r) && c[..] == Thomas.Filled(N - 1, -r)
      ensures b[..] == Thomas.Filled(N, 1.0 + 2.0 * r)
    {
      a := new real[N - 1];
      b := new real[N];
      c := new real[N - 1];
      for i := 0 to N - 1
        modifies a, c
        invariant forall k :: 0 <= k < i ==> a[k] == -r && c[k] == -r
      {
        a[i] := -r;
        c[i] := -r;
      }
      for i := 0 to N
        modifies b
        invariant forall k :: 0 <= k < i ==> b[k] == 1.0 + 2.0 * r
      {
        b[i] := 1.0 + 2.0 * r;
      }
      assert a[..] == Thomas.Filled(N - 1, -r) && c[..] == Thomas.Filled(N - 1, -r);
    }

    /** A run recorded row by row in the buffer gives Solve's account of
        every row. */
    lemma RunInBuffer(rows: seq<seq<real>>)
      requires Valid() && WellPosed() && M >= 1
      requires Run(rows, solutions) && |solutions| == M - 1
      requires forall t :: 0 <= t < M ==> |rows[t]| == N
      requires forall t, x :: 0 <= t < M && 0 <= x < N ==> temperatureMatrix[t, x] == rows[t][x]
      ensures forall n {:trigger solutions[n]} :: 0 <= n < M - 1 ==> Step(Row(n), solutions[n], Row(n + 1))
      ensures forall n :: 1 <= n < M ==> Row(n)[N - 1] == u0 && (N >= 3 ==> Row(n)[0] == Row(n)[1])
    {
      forall t | 0 <= t < M
        ensures Row(t) == rows[t]
      {
      }
      forall t | 0 <= t < M - 1
        ensures Step(Row(t), solutions[t], Row(t + 1))
      {
        assert StepAt(rows, solutions, t);
      }
      forall t | 1 <= t < M
        ensures Row(t)[N - 1] == u0 && (N >= 3 ==> Row(t)[0] == Row(t)[1])
      {
        assert StepAt(rows, solutions, t - 1);
        StepBoundaries(rows[t - 1], solutions[t - 1], rows[t]);
      }
    }

    /** Runs the whole march: row 0 is the uniform start and each later row
        is one implicit step from the row before. */
    method Solve()
      requires WellPosed()
      modifies this
      ensures Valid() && fresh(temperatureMatrix)
      ensures M >= 1 ==> |solutions| == M - 1
      ensures forall x :: M >= 1 && 0 <= x < N ==> temperatureMatrix[0, x] == u0
      ensures forall n {:trigger solutions[n]} :: 0 <= n < M - 1 ==> Step(Row(n), solutions[n], Row(n + 1))
      ensures forall n :: 1 <= n < M ==> Row(n)[N - 1] == u0 && (N >= 3 ==> Row(n)[0] == Row(n)[1])
    {
      InitializeMatrix();
      solutions := [];
      var T := temperatureMatrix;

      var alpha := material.ThermalDiffusivity();
      var r := Discretization.DiffusionNumber(alpha, dt, dx);

      var a, b, c := BuildCoefficients(r);
      var d := new real[N];
      ghost var A, B := Thomas.Filled(N - 1, -r), Thomas.Filled(N, 1.0 + 2.0 * r);

      // rows[t] is the content row t was given; rows 0..n are final.
      ghost var rows: seq<seq<real>> := [Thomas.Filled(N, u0)];
      var n := 0;
      while n < M - 1
        invariant 0 <= n && (M >= 1 ==> n <= M - 1) && (M < 1 ==> n == 0)
        invariant temperatureMatrix == T && Valid()
        invariant a[..] == A && c[..] == A && b[..] == B
        invariant |solutions| == n && |rows| == n + 1
        invariant forall t :: 0 <= t <= n ==> |rows[t]| == N
        invariant forall t, x :: 0 <= t <= n && t < M && 0 <= x < N ==> T[t, x] == rows[t][x]
        invariant forall x :: 0 <= x < N ==> rows[0][x] == u0
        invariant Run(rows, solutions)
      {
        ghost var sol, next := TimeStep(n, a, b, c, d, r, rows, solutions);
        solutions := solutions + [sol];
        forall t, x | 0 <= t <= n + 1 && 0 <= x < N
          ensures T[t, x] == (rows + [next])[t][x]
        {
          if t <= n {
            assert (rows + [next])[t] == rows[t];
          } else {
            assert (rows + [next])[t] == next;
          }
        }
        rows := rows + [next];
        n := n + 1;
      }

      if M >= 1 {
        RunInBuffer(rows);
      }
    }

    /** The row stored for time step t, or nothing when t is out of range. */
    function TemperatureAtTime(timeStep: int): (r: Option<seq<real>>)
      reads this, temperatureMatrix
      requires Valid()
      ensures r.Some? <==> 0 <= timeStep < M
      ensures r.Some? ==> r.value == Row(timeStep)
    {
      if timeStep >= 0 && timeStep < M then Some(Row(timeStep)) else None
    }
  }
}
