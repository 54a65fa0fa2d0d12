/** Spatial and temporal discretization of a bar of length L simulated up to t_max. */
module Discretization {

  /** nx spatial points, nt time steps, and the step sizes derived from them. */
  datatype Grid = Grid(nx: int, nt: int, dx: real, dt: real, length: real, tMax: real)

  /** Builds the grid: the nx points split the bar into nx - 1 cells and the
      simulated time into nt steps. */
  function MakeGrid(nx: int, nt: int, length: real, tMax: real): (g: Grid)
    requires nx != 1 && nt != 0
    ensures g.nx == nx && g.nt == nt && g.length == length && g.tMax == tMax
    ensures (nx - 1) as real * g.dx == length
    ensures nt as real * g.dt == tMax
    ensures length > 0.0 && nx >= 2 ==> g.dx > 0.0
    ensures tMax > 0.0 && nt >= 1 ==> g.dt > 0.0
  {
    Grid(nx, nt, length / (nx - 1) as real, tMax / nt as real, length, tMax)
  }

  /** The diffusion number r = alpha * dt / dx^2 of an implicit step. */
  function DiffusionNumber(alpha: real, dt: real, dx: real): (r: real)
    requires dx != 0.0
    ensures r * (dx * dx) == alpha * dt
  {
    alpha * dt / (dx * dx)
  }

  /** A non-negative diffusivity and time step give a non-negative r. */
  lemma DiffusionNumberNonnegative(alpha: real, dt: real, dx: real)
    requires dx != 0.0 && alpha >= 0.0 && dt >= 0.0
    ensures DiffusionNumber(alpha, dt, dx) >= 0.0
  {
    ProductNonnegative(alpha, dt);
    QuotientBySquareNonnegative(alpha * dt, dx);
  }

  lemma ProductNonnegative(u: real, v: real)
    requires u >= 0.0 && v >= 0.0
    ensures u * v >= 0.0
  {
  }

  lemma ReciprocalOfSquare(v: real)
    requires v != 0.0
    ensures 1.0 / (v * v) == (1.0 / v) * (1.0 / v)
  {
  }

  lemma QuotientBySquareNonnegative(x: real, v: real)
    requires x >= 0.0 && v != 0.0
    ensures x / (v * v) >= 0.0
  {
    ReciprocalOfSquare(v);
    var w := 1.0 / v;
    assert x / (v * v) == x * (w * w);
    assert w * w > 0.0;
  }

  /** Dividing by a positive count keeps the sign of the dividend. */
  lemma QuotientSign(x: real, n: int)
    requires n >= 1
    ensures x > 0.0 ==> x / n as real > 0.0
    ensures x >= 0.0 ==> x / n as real >= 0.0
  {
  }
}
