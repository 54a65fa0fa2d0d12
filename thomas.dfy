/** The Thomas algorithm: Gaussian elimination without pivoting for a
    tridiagonal system.  Row i of the system reads

      a[i-1] * x[i-1] + b[i] * x[i] + c[i] * x[i+1] == d[i]

    where the a-term is absent in row 0 and the c-term in row n-1, so that
    a and c hold n-1 entries and b and d hold n.  Arithmetic is exact.

    Several lemmas below (SweepExtends, RowAlgebra, MagnitudesVanish and
    their neighbours) take each coefficient and each product as a separate
    real parameter.  That is for the solver's sake, not the algorithm's: a
    product passed in as a plain value is one the nonlinear arithmetic does
    not have to rediscover, which keeps each proof small. */
module Thomas {

  function Abs(x: real): real {
    if x < 0.0 then -x else x
  }

  /** Sub- and super-diagonal one shorter than the main diagonal. */
  predicate Shaped(a: seq<real>, b: seq<real>, c: seq<real>) {
    |b| >= 1 && |a| == |b| - 1 && |c| == |b| - 1
  }

  /** Left-hand side of row i of the system applied to x. */
  function RowValue(a: seq<real>, b: seq<real>, c: seq<real>, x: seq<real>, i: nat): real
    requires Shaped(a, b, c) && |x| == |b| && i < |b|
  {
    (if i > 0 then a[i - 1] * x[i - 1] else 0.0)
    + b[i] * x[i]
    + (if i < |b| - 1 then c[i] * x[i + 1] else 0.0)
  }

  /** x solves the system with right-hand side d. */
  predicate Satisfies(a: seq<real>, b: seq<real>, c: seq<real>, d: seq<real>, x: seq<real>)
    requires Shaped(a, b, c) && |d| == |b|
  {
    |x| == |b| && forall i :: 0 <= i < |b| ==> RowValue(a, b, c, x, i) == d[i]
  }

  /** Sum of the magnitudes of the off-diagonal entries of row i. */
  function OffDiagonal(a: seq<real>, b: seq<real>, c: seq<real>, i: nat): real
    requires Shaped(a, b, c) && i < |b|
  {
    (if i > 0 then Abs(a[i - 1]) else 0.0) + (if i < |b| - 1 then Abs(c[i]) else 0.0)
  }

  /** Strict diagonal dominance: every diagonal entry outweighs the rest of its row.
      It keeps every pivot of the forward sweep away from zero. */
  predicate Dominant(a: seq<real>, b: seq<real>, c: seq<real>)
    requires Shaped(a, b, c)
  {
    forall i :: 0 <= i < |b| ==> Abs(b[i]) > OffDiagonal(a, b, c, i)
  }

  /** Row k of the forward sweep: it was divided by the pivot
      p[k] = b[k] - a[k-1] * cs[k-1] after subtracting a[k-1] times row k-1,
      leaving cs[k] as its super-diagonal and ds[k] as its right-hand side. */
  predicate SweptRow(a: seq<real>, b: seq<real>, c: seq<real>, d: seq<real>,
                     p: seq<real>, cs: seq<real>, ds: seq<real>, k: nat)
    requires Shaped(a, b, c) && |d| == |b| && |cs| == |b| && |ds| == |b| && k < |p| <= |b|
  {
    p[k] != 0.0
    && p[k] == b[k] - (if k > 0 then a[k - 1] * cs[k - 1] else 0.0)
    && (k < |b| - 1 ==> p[k] * cs[k] == c[k])
    && p[k] * ds[k] == d[k] - (if k > 0 then a[k - 1] * ds[k - 1] else 0.0)
  }

  /** The first m rows of the forward sweep: p holds the pivots, cs the scaled
      super-diagonal and ds the scaled right-hand side. */
  predicate SweptUpTo(a: seq<real>, b: seq<real>, c: seq<real>, d: seq<real>,
                      p: seq<real>, cs: seq<real>, ds: seq<real>, m: nat)
    requires Shaped(a, b, c) && |d| == |b|
  {
    m <= |b| && |p| == m && |cs| == |b| && |ds| == |b|
    && forall k :: 0 <= k < m ==> SweptRow(a, b, c, d, p, cs, ds, k)
  }

  /** Step k of back substitution. */
  predicate BackStep(cs: seq<real>, ds: seq<real>, x: seq<real>, k: nat)
    requires k < |x| - 1 && |cs| == |x| && |ds| == |x|
  {
    x[k] == ds[k] - cs[k] * x[k + 1]
  }

  /** Back substitution has produced x[j..]: x[n-1] = ds[n-1] and
      x[k] = ds[k] - cs[k] * x[k+1] for j <= k < n-1. */
  predicate BackFrom(cs: seq<real>, ds: seq<real>, x: seq<real>, j: nat) {
    |x| == |ds| && |cs| == |ds| && |x| >= 1
    && x[|x| - 1] == ds[|x| - 1]
    && forall k :: j <= k < |x| - 1 ==> BackStep(cs, ds, x, k)
  }

  /** Back substitution is complete. */
  predicate BackSubstituted(cs: seq<real>, ds: seq<real>, x: seq<real>) {
    BackFrom(cs, ds, x, 0)
  }

  /** One more step of back substitution, at row j; the value it writes comes in as xj. */
  lemma BackExtends(cs: seq<real>, ds: seq<real>, x: seq<real>, x': seq<real>, j: nat,
                    csj: real, dsj: real, next: real, xj: real)
    requires BackFrom(cs, ds, x, j + 1) && j + 1 < |x| && |x'| == |x|
    requires forall k :: j < k < |x| ==> x'[k] == x[k]
    requires csj == cs[j] && dsj == ds[j] && next == x[j + 1] && x'[j] == xj
    requires xj == dsj - csj * next
    ensures BackFrom(cs, ds, x', j)
  {
    forall k | j <= k < |x| - 1 ensures BackStep(cs, ds, x', k) {
      if k > j {
        assert BackStep(cs, ds, x, k);
      }
    }
  }

  // Real-arithmetic steps, kept apart so that each proof sees one identity.

  lemma DivCancels(x: real, p: real)
    requires p != 0.0
    ensures p * (x / p) == x
  {
  }

  lemma ReciprocalCancels(x: real, p: real, m: real)
    requires p != 0.0 && m == 1.0 / p
    ensures p * (x * m) == x
  {
    assert p * m == 1.0;
    calc {
      p * (x * m);
      x * (p * m);
      x;
    }
  }

  lemma AbsMul(x: real, y: real)
    ensures Abs(x * y) == Abs(x) * Abs(y)
  {
    if x < 0.0 {
      if y < 0.0 { assert x * y == (-x) * (-y); } else { assert -(x * y) == (-x) * y; }
    } else {
      if y < 0.0 { assert -(x * y) == x * (-y); }
    }
  }

  /** A quotient whose numerator is smaller in magnitude than its divisor has magnitude below 1. */
  lemma QuotientBelowOne(x: real, p: real, q: real)
    requires Abs(p) > Abs(x) && p * q == x
    ensures Abs(q) < 1.0
  {
    AbsMul(p, q);
    calc {
      Abs(p) * (1.0 - Abs(q));
      Abs(p) - Abs(p) * Abs(q);
      Abs(p) - Abs(x);
    }
    PositiveFactor(Abs(p), 1.0 - Abs(q));
  }

  lemma PositiveFactor(u: real, v: real)
    requires u > 0.0 && u * v > 0.0
    ensures v > 0.0
  {
  }

  /** The pivot of a dominant row stays larger than the row's super-diagonal. */
  lemma PivotBound(bi: real, ai: real, cs: real, rest: real)
    requires Abs(cs) <= 1.0 && rest >= 0.0 && Abs(bi) > Abs(ai) + rest
    ensures Abs(bi - ai * cs) > rest
  {
    var t := ai * cs;
    AbsMul(ai, cs);
    ScaleAtMostOne(Abs(ai), Abs(cs));
    ReverseTriangle(bi, t);
  }

  lemma ScaleAtMostOne(u: real, v: real)
    requires u >= 0.0 && 0.0 <= v <= 1.0
    ensures u * v <= u
  {
    assert u * (1.0 - v) >= 0.0;
  }

  lemma ReverseTriangle(x: real, y: real)
    ensures Abs(x - y) >= Abs(x) - Abs(y)
  {
  }

  lemma EliminationAlgebra(p: real, xi: real, ds: real, cs: real, x1: real, e: real, ci: real)
    requires xi == ds - cs * x1 && p * ds == e && p * cs == ci
    ensures p * xi + ci * x1 == e
  {
    calc {
      p * xi + ci * x1;
      p * (ds - cs * x1) + ci * x1;
      p * ds - (p * cs) * x1 + ci * x1;
      e;
    }
  }

  /** Substituting x[i-1] = ds[i-1] - cs[i-1] * x[i] and b[i] = p[i] + a[i-1] * cs[i-1]
      into row i turns it into the eliminated row. */
  lemma RowAlgebra(ai: real, bi: real, p: real, cs: real, ds: real, xPrev: real, xi: real, tail: real, di: real)
    requires xPrev == ds - cs * xi && bi == p + ai * cs && p * xi + tail == di - ai * ds
    ensures ai * xPrev + bi * xi + tail == di
  {
    calc {
      ai * xPrev + bi * xi + tail;
      ai * (ds - cs * xi) + (p + ai * cs) * xi + tail;
      ai * ds + (p * xi + tail);
      di;
    }
  }

  /** Row i after elimination: p[i] * x[i] + c[i] * x[i+1] == d[i] - a[i-1] * ds[i-1]. */
  lemma EliminatedRowHolds(a: seq<real>, b: seq<real>, c: seq<real>, d: seq<real>,
                           p: seq<real>, cs: seq<real>, ds: seq<real>, x: seq<real>, i: nat)
    requires Shaped(a, b, c) && |d| == |b| && SweptUpTo(a, b, c, d, p, cs, ds, |b|)
    requires BackSubstituted(cs, ds, x) && i < |b|
    ensures p[i] * x[i] + (if i < |b| - 1 then c[i] * x[i + 1] else 0.0)
            == d[i] - (if i > 0 then a[i - 1] * ds[i - 1] else 0.0)
  {
    var e := d[i] - (if i > 0 then a[i - 1] * ds[i - 1] else 0.0);
    assert SweptRow(a, b, c, d, p, cs, ds, i);
    if i < |b| - 1 {
      assert BackStep(cs, ds, x, i);
      EliminationAlgebra(p[i], x[i], ds[i], cs[i], x[i + 1], e, c[i]);
    }
  }

  /** Row i of the system holds once both sweeps are done. */
  lemma RowHolds(a: seq<real>, b: seq<real>, c: seq<real>, d: seq<real>,
                 p: seq<real>, cs: seq<real>, ds: seq<real>, x: seq<real>, i: nat)
    requires Shaped(a, b, c) && |d| == |b| && SweptUpTo(a, b, c, d, p, cs, ds, |b|)
    requires BackSubstituted(cs, ds, x) && i < |b|
    ensures RowValue(a, b, c, x, i) == d[i]
  {
    EliminatedRowHolds(a, b, c, d, p, cs, ds, x, i);
    assert SweptRow(a, b, c, d, p, cs, ds, i);
    var tail := if i < |b| - 1 then c[i] * x[i + 1] else 0.0;
    if i > 0 {
      assert BackStep(cs, ds, x, i - 1);
      RowAlgebra(a[i - 1], b[i], p[i], cs[i - 1], ds[i - 1], x[i - 1], x[i], tail, d[i]);
    }
  }

  /** Forward elimination followed by back substitution solves the system. */
  lemma SweepsSolve(a: seq<real>, b: seq<real>, c: seq<real>, d: seq<real>,
                    p: seq<real>, cs: seq<real>, ds: seq<real>, x: seq<real>)
    requires Shaped(a, b, c) && |d| == |b| && SweptUpTo(a, b, c, d, p, cs, ds, |b|)
    requires BackSubstituted(cs, ds, x)
    ensures Satisfies(a, b, c, d, x)
  {
    forall i | 0 <= i < |b|
      ensures RowValue(a, b, c, x, i) == d[i]
    {
      RowHolds(a, b, c, d, p, cs, ds, x, i);
    }
  }

  /** Row 0 of a dominant system: b[0] is a safe divisor and |c[0] / b[0]| < 1. */
  lemma FirstPivot(a: seq<real>, b: seq<real>, c: seq<real>)
    requires Shaped(a, b, c) && |b| >= 2 && Dominant(a, b, c)
    ensures b[0] != 0.0 && Abs(c[0] / b[0]) < 1.0
  {
    assert OffDiagonal(a, b, c, 0) == Abs(c[0]);
    DivCancels(c[0], b[0]);
    QuotientBelowOne(c[0], b[0], c[0] / b[0]);
  }

  /** One step of the forward sweep in a dominant row: with |cs| < 1 from the
      previous row, the pivot bi - ai * cs is nonzero and, when the row has a
      super-diagonal entry ci, the new c* = ci / pivot stays below 1 in magnitude. */
  lemma PivotStep(bi: real, ai: real, ci: real, cs: real, hasC: bool)
    requires Abs(cs) < 1.0 && Abs(bi) > Abs(ai) + (if hasC then Abs(ci) else 0.0)
    ensures bi - ai * cs != 0.0
    ensures hasC ==> Abs(ci * (1.0 / (bi - ai * cs))) < 1.0
  {
    var rest := if hasC then Abs(ci) else 0.0;
    PivotBound(bi, ai, cs, rest);
    var pivot := bi - ai * cs;
    var m := 1.0 / pivot;
    if hasC {
      ReciprocalCancels(ci, pivot, m);
      QuotientBelowOne(ci, pivot, ci * m);
    }
  }

  /** Appending a correctly eliminated row i to a forward sweep of i rows.
      The row's entries and results come in as plain values; entries of cs
      and ds below i are kept. */
  lemma SweepExtends(a: seq<real>, b: seq<real>, c: seq<real>, d: seq<real>, p: seq<real>,
                     cs: seq<real>, ds: seq<real>, cs': seq<real>, ds': seq<real>, i: nat,
                     ai: real, bi: real, ci: real, di: real, csPrev: real, dsPrev: real,
                     csNew: real, dsNew: real, pivot: real)
    requires Shaped(a, b, c) && |d| == |b| && SweptUpTo(a, b, c, d, p, cs, ds, i) && 0 < i < |b|
    requires |cs'| == |b| && |ds'| == |b|
    requires forall k :: 0 <= k < i ==> cs'[k] == cs[k] && ds'[k] == ds[k]
    requires ai == a[i - 1] && bi == b[i] && di == d[i] && (i < |b| - 1 ==> ci == c[i])
    requires (i < |b| - 1 ==> cs'[i] == csNew) && ds'[i] == dsNew
    requires csPrev == cs[i - 1] && dsPrev == ds[i - 1]
    requires pivot == bi - ai * csPrev && pivot != 0.0
    requires i < |b| - 1 ==> pivot * csNew == ci
    requires pivot * dsNew == di - ai * dsPrev
    ensures SweptUpTo(a, b, c, d, p + [pivot], cs', ds', i + 1)
  {
    var p' := p + [pivot];
    forall k | 0 <= k < i + 1 ensures SweptRow(a, b, c, d, p', cs', ds', k) {
      if k < i {
        assert SweptRow(a, b, c, d, p, cs, ds, k);
        assert p'[k] == p[k];
        if k > 0 {
          assert cs'[k - 1] == cs[k - 1] && ds'[k - 1] == ds[k - 1];
        }
      } else {
        assert cs'[i - 1] == cs[i - 1] && ds'[i - 1] == ds[i - 1];
      }
    }
  }

  /** The arithmetic of one row of the forward sweep: m = 1 / (b[i] - a[i-1] * c*[i-1]),
      c*[i] = c[i] * m and d*[i] = (d[i] - a[i-1] * d*[i-1]) * m. */
  method EliminateRow(ai: real, bi: real, ci: real, di: real, csPrev: real, dsPrev: real, hasC: bool)
    returns (csNew: real, dsNew: real, pivot: real)
    requires Abs(csPrev) < 1.0 && Abs(bi) > Abs(ai) + (if hasC then Abs(ci) else 0.0)
    ensures pivot == bi - ai * csPrev && pivot != 0.0
    ensures hasC ==> pivot * csNew == ci && Abs(csNew) < 1.0
    ensures pivot * dsNew == di - ai * dsPrev
  {
    PivotStep(bi, ai, ci, csPrev, hasC);
    var m := 1.0 / (bi - ai * csPrev);
    csNew := ci * m;
    dsNew := (di - ai * dsPrev) * m;
    pivot := bi - ai * csPrev;
    ReciprocalCancels(ci, pivot, m);
    ReciprocalCancels(di - ai * dsPrev, pivot, m);
  }

  /** Row i > 0 of a dominant system outweighs its off-diagonal entries. */
  lemma DominantRow(a: seq<real>, b: seq<real>, c: seq<real>, i: nat)
    requires Shaped(a, b, c) && Dominant(a, b, c) && 0 < i < |b|
    ensures Abs(b[i]) > Abs(a[i - 1]) + (if i < |b| - 1 then Abs(c[i]) else 0.0)
  {
    assert OffDiagonal(a, b, c, i) == Abs(a[i - 1]) + (if i < |b| - 1 then Abs(c[i]) else 0.0);
  }

  /** The forward sweep into fresh scratch arrays c* and d*.  c* is computed
      for the first n-1 rows only, the ones back substitution reads. */
  method ForwardSweep(a: array<real>, b: array<real>, c: array<real>, d: array<real>, n: nat)
    returns (cStar: array<real>, dStar: array<real>, ghost p: seq<real>)
    requires n >= 2 && b.Length == n && d.Length == n && a.Length == n - 1 && c.Length == n - 1
    requires Dominant(a[..], b[..], c[..])
    ensures fresh(cStar) && fresh(dStar)
    ensures SweptUpTo(a[..], b[..], c[..], d[..], p, cStar[..], dStar[..], n)
  {
    ghost var A, B, C, D := a[..], b[..], c[..], d[..];
    cStar := new real[n];
    dStar := new real[n];
    FirstPivot(A, B, C);
    DivCancels(c[0], b[0]);
    DivCancels(d[0], b[0]);
    cStar[0] := c[0] / b[0];
    dStar[0] := d[0] / b[0];
    p := [b[0]];
    assert SweptRow(A, B, C, D, p, cStar[..], dStar[..], 0);
    var i := 1;
    while i < n
      invariant 1 <= i <= n
      invariant SweptUpTo(A, B, C, D, p, cStar[..], dStar[..], i)
      invariant i < n ==> Abs(cStar[i - 1]) < 1.0
    {
      var ai, bi, ci, di := a[i - 1], b[i], if i < n - 1 then c[i] else 0.0, d[i];
      DominantRow(A, B, C, i);
      assert ai == A[i - 1] && bi == B[i] && di == D[i] && (i < n - 1 ==> ci == C[i]);
      var csPrev, dsPrev := cStar[i - 1], dStar[i - 1];
      var csNew, dsNew, pivot := EliminateRow(ai, bi, ci, di, csPrev, dsPrev, i < n - 1);
      ghost var cs0, ds0 := cStar[..], dStar[..];
      if i < n - 1 {
        cStar[i] := csNew;
      }
      dStar[i] := dsNew;
      assert cs0[i - 1] == csPrev && ds0[i - 1] == dsPrev;
      ghost var cs1, ds1 := cStar[..], dStar[..];
      assert forall k :: 0 <= k < i ==> cs1[k] == cs0[k] && ds1[k] == ds0[k];
      assert i < n - 1 ==> cs1[i] == csNew;
      assert ds1[i] == dsNew;
      SweepExtends(A, B, C, D, p, cs0, ds0, cs1, ds1, i, ai, bi, ci, di, csPrev, dsPrev, csNew, dsNew, pivot);
      p := p + [pivot];
      i := i + 1;
    }
  }

  /** Solves the system in place: on return d holds x. */
  method Solve(a: array<real>, b: array<real>, c: array<real>, d: array<real>, n: nat)
    requires n >= 2 && b.Length == n && d.Length == n && a.Length == n - 1 && c.Length == n - 1
    requires d != a && d != b && d != c
    requires Dominant(a[..], b[..], c[..])
    modifies d
    ensures Satisfies(a[..], b[..], c[..], old(d[..]), d[..])
  {
    ghost var A, B, C, D := a[..], b[..], c[..], d[..];
    var cStar, dStar, p := ForwardSweep(a, b, c, d, n);
    ghost var CS, DS := cStar[..], dStar[..];

    // Back substitution, overwriting d with the solution.
    d[n - 1] := dStar[n - 1];
    var j := n - 1;
    while j > 0
      invariant 0 <= j <= n - 1
      invariant cStar[..] == CS && dStar[..] == DS
      invariant BackFrom(CS, DS, d[..], j)
    {
      j := j - 1;
      var csj, dsj, next := cStar[j], dStar[j], d[j + 1];
      assert csj == CS[j] && dsj == DS[j];
      var xj := dsj - csj * next;
      ghost var x0 := d[..];
      d[j] := xj;
      BackExtends(CS, DS, x0, d[..], j, csj, dsj, next, xj);
    }
    assert a[..] == A && b[..] == B && c[..] == C;
    SweepsSolve(A, B, C, D, p, CS, DS, d[..]);
  }

  /** The matrix both solvers build: -r off the diagonal, 1 + 2r on it. */
  predicate HeatMatrix(a: seq<real>, b: seq<real>, c: seq<real>, r: real) {
    (forall k :: 0 <= k < |a| ==> a[k] == -r)
    && (forall k :: 0 <= k < |b| ==> b[k] == 1.0 + 2.0 * r)
    && (forall k :: 0 <= k < |c| ==> c[k] == -r)
  }

  /** For r >= 0 the heat matrix is strictly diagonally dominant, so the
      solvers' calls meet Solve's precondition. */
  lemma HeatMatrixDominant(a: seq<real>, b: seq<real>, c: seq<real>, r: real)
    requires Shaped(a, b, c) && HeatMatrix(a, b, c, r) && r >= 0.0
    ensures Dominant(a, b, c)
  {
    forall i | 0 <= i < |b| ensures Abs(b[i]) > OffDiagonal(a, b, c, i) {
      assert OffDiagonal(a, b, c, i) <= 2.0 * r;
    }
  }

  /** n copies of v: the constant diagonals both solvers fill. */
  function Filled(n: nat, v: real): (s: seq<real>)
    ensures |s| == n && forall k :: 0 <= k < n ==> s[k] == v
  {
    seq(n, _ => v)
  }

  /** The solvers' n x n heat matrix, with -r off the diagonal and 1 + 2r on it,
      is well shaped and, for r >= 0, strictly diagonally dominant. */
  lemma FilledHeatMatrix(n: nat, r: real)
    requires n >= 1 && r >= 0.0
    ensures Shaped(Filled(n - 1, -r), Filled(n, 1.0 + 2.0 * r), Filled(n - 1, -r))
    ensures Dominant(Filled(n - 1, -r), Filled(n, 1.0 + 2.0 * r), Filled(n - 1, -r))
  {
    HeatMatrixDominant(Filled(n - 1, -r), Filled(n, 1.0 + 2.0 * r), Filled(n - 1, -r), r);
  }

  /** For the heat matrix with r >= 0 every pivot of the forward sweep is at
      least 1 + r, so each division of the sweep is by a number >= 1. */
  lemma HeatPivotsAtLeast(a: seq<real>, b: seq<real>, c: seq<real>, d: seq<real>,
                          p: seq<real>, cs: seq<real>, ds: seq<real>, r: real)
    requires Shaped(a, b, c) && |d| == |b| && HeatMatrix(a, b, c, r) && r >= 0.0
    requires SweptUpTo(a, b, c, d, p, cs, ds, |p|)
    ensures forall k :: 0 <= k < |p| ==> p[k] >= 1.0 + r
  {
    forall k | 0 <= k < |p| ensures p[k] >= 1.0 + r {
      HeatPivot(a, b, c, d, p, cs, ds, r, k);
    }
  }

  /** Pivot k of the heat matrix is at least 1 + r and, below the last row,
      the scaled super-diagonal entry c*[k] = -r / p[k] lies in [-1, 0]. */
  lemma {:induction false} HeatPivot(a: seq<real>, b: seq<real>, c: seq<real>, d: seq<real>,
                                     p: seq<real>, cs: seq<real>, ds: seq<real>, r: real, k: nat)
    requires Shaped(a, b, c) && |d| == |b| && HeatMatrix(a, b, c, r) && r >= 0.0
    requires SweptUpTo(a, b, c, d, p, cs, ds, |p|) && k < |p|
    ensures p[k] >= 1.0 + r
    ensures k < |b| - 1 ==> -1.0 <= cs[k] <= 0.0
    decreases k
  {
    assert SweptRow(a, b, c, d, p, cs, ds, k);
    if k > 0 {
      HeatPivot(a, b, c, d, p, cs, ds, r, k - 1);
      PivotFromPrevious(r, cs[k - 1], p[k]);
    }
    if k < |b| - 1 {
      ScaledEntryBounds(r, p[k], cs[k]);
    }
  }

  /** p = (1 + 2r) - (-r) * cs with cs in [-1, 0] is at least 1 + r. */
  lemma PivotFromPrevious(r: real, cs: real, p: real)
    requires r >= 0.0 && -1.0 <= cs <= 0.0 && p == 1.0 + 2.0 * r - (-r) * cs
    ensures p >= 1.0 + r
  {
    assert r * (cs + 1.0) >= 0.0;
  }

  /** p * cs == -r with p >= 1 + r puts cs in [-1, 0]. */
  lemma ScaledEntryBounds(r: real, p: real, cs: real)
    requires r >= 0.0 && p >= 1.0 + r && p * cs == -r
    ensures -1.0 <= cs <= 0.0
  {
    assert p * (cs + 1.0) == p - r;
    PositiveFactor(p, cs + 1.0);
    assert p * (-cs) == r;
    NonnegativeFactor(p, -cs);
  }

  lemma NonnegativeFactor(u: real, v: real)
    requires u > 0.0 && u * v >= 0.0
    ensures v >= 0.0
  {
  }

  /** A strictly diagonally dominant system has at most one solution, so
      the vector Solve leaves in d is the solution of the system. */
  lemma UniqueSolution(a: seq<real>, b: seq<real>, c: seq<real>, d: seq<real>, x: seq<real>, y: seq<real>)
    requires Shaped(a, b, c) && |d| == |b| && Dominant(a, b, c)
    requires Satisfies(a, b, c, d, x) && Satisfies(a, b, c, d, y)
    ensures x == y
  {
    var e := Difference(x, y);
    var k := LargestEntry(e, |b|);
    assert RowValue(a, b, c, x, k) == d[k] && RowValue(a, b, c, y, k) == d[k];
    RowOfDifference(a, b, c, x, y, e, k);
    LargestVanishes(a, b, c, e, k);
    forall i | 0 <= i < |b| ensures x[i] == y[i] {
      assert Abs(e[i]) <= Abs(e[k]);
    }
  }

  function Difference(x: seq<real>, y: seq<real>): (e: seq<real>)
    requires |x| == |y|
    ensures |e| == |x| && forall i :: 0 <= i < |x| ==> e[i] == x[i] - y[i]
  {
    seq(|x|, i requires 0 <= i < |x| => x[i] - y[i])
  }

  /** Index of an entry of largest magnitude among the first n. */
  function LargestEntry(e: seq<real>, n: nat): (k: nat)
    requires 1 <= n <= |e|
    ensures k < n && forall j :: 0 <= j < n ==> Abs(e[j]) <= Abs(e[k])
  {
    if n == 1 then 0
    else
      var k := LargestEntry(e, n - 1);
      if Abs(e[n - 1]) > Abs(e[k]) then n - 1 else k
  }

  /** Row k applied to x - y is row k applied to x minus row k applied to y. */
  lemma RowOfDifference(a: seq<real>, b: seq<real>, c: seq<real>, x: seq<real>, y: seq<real>, e: seq<real>, k: nat)
    requires Shaped(a, b, c) && |x| == |b| && |y| == |b| && k < |b|
    requires |e| == |b| && forall i :: 0 <= i < |b| ==> e[i] == x[i] - y[i]
    ensures RowValue(a, b, c, e, k) == RowValue(a, b, c, x, k) - RowValue(a, b, c, y, k)
  {
    var n := |b|;
    DifferenceRow(if k > 0 then a[k - 1] else 0.0, b[k], if k < n - 1 then c[k] else 0.0,
                  if k > 0 then x[k - 1] else 0.0, x[k], if k < n - 1 then x[k + 1] else 0.0,
                  if k > 0 then y[k - 1] else 0.0, y[k], if k < n - 1 then y[k + 1] else 0.0);
  }

  lemma DifferenceRow(al: real, bk: real, cr: real, xm: real, xk: real, xp: real, ym: real, yk: real, yp: real)
    ensures al * (xm - ym) + bk * (xk - yk) + cr * (xp - yp)
         == (al * xm + bk * xk + cr * xp) - (al * ym + bk * yk + cr * yp)
  {
  }

  /** In a dominant row with right-hand side 0, an entry at least as large
      in magnitude as every other entry is 0. */
  lemma LargestVanishes(a: seq<real>, b: seq<real>, c: seq<real>, e: seq<real>, k: nat)
    requires Shaped(a, b, c) && |e| == |b| && k < |b| && Dominant(a, b, c)
    requires RowValue(a, b, c, e, k) == 0.0
    requires forall j :: 0 <= j < |b| ==> Abs(e[j]) <= Abs(e[k])
    ensures e[k] == 0.0
  {
    RowParts(a, b, c, e, k);
    assert Abs(b[k]) > OffDiagonal(a, b, c, k);
    assert Abs(Before(e, k)) <= Abs(e[k]) && Abs(After(e, k)) <= Abs(e[k]);
    DominantRowVanishes(Before(a, k), b[k], Within(c, k), Before(e, k), e[k], After(e, k));
  }

  /** Row k's neighbours, 0 where the row has none. */
  function Before(s: seq<real>, k: nat): real
    requires k <= |s|
  {
    if k > 0 then s[k - 1] else 0.0
  }

  function After(s: seq<real>, k: nat): real {
    if k + 1 < |s| then s[k + 1] else 0.0
  }

  function Within(s: seq<real>, k: nat): real {
    if k < |s| then s[k] else 0.0
  }

  /** Row k written with its absent terms as zero coefficients. */
  lemma RowParts(a: seq<real>, b: seq<real>, c: seq<real>, x: seq<real>, k: nat)
    requires Shaped(a, b, c) && |x| == |b| && k < |b| && RowValue(a, b, c, x, k) == 0.0
    ensures RowBalances(Before(a, k), b[k], Within(c, k), Before(x, k), x[k], After(x, k))
    ensures OffDiagonal(a, b, c, k) == Abs(Before(a, k)) + Abs(Within(c, k))
  {
  }

  /** One row of a system with right-hand side 0, its absent terms written as zeros. */
  predicate RowBalances(al: real, bk: real, cr: real, em: real, ek: real, ep: real) {
    al * em + bk * ek + cr * ep == 0.0
  }

  lemma DominantRowVanishes(al: real, bk: real, cr: real, em: real, ek: real, ep: real)
    requires RowBalances(al, bk, cr, em, ek, ep)
    requires Abs(em) <= Abs(ek) && Abs(ep) <= Abs(ek)
    requires Abs(bk) > Abs(al) + Abs(cr)
    ensures ek == 0.0
  {
    DominantRowMagnitude(al, bk, cr, em, ek, ep);
  }

  lemma DominantRowMagnitude(al: real, bk: real, cr: real, em: real, ek: real, ep: real)
    requires al * em + bk * ek + cr * ep == 0.0
    requires Abs(em) <= Abs(ek) && Abs(ep) <= Abs(ek)
    requires Abs(bk) > Abs(al) + Abs(cr)
    ensures Abs(ek) == 0.0
  {
    AbsMul(bk, ek);
    AbsMul(al, em);
    AbsMul(cr, ep);
    Triangle(al * em, cr * ep);
    MagnitudesVanish(Abs(bk), Abs(ek), Abs(al), Abs(em), Abs(cr), Abs(ep),
                     Abs(bk * ek), Abs(al * em), Abs(cr * ep));
  }

  /** The same argument on magnitudes: B * K <= A * E + C * P with E, P <= K
      and B > A + C leaves no room for K > 0. */
  lemma MagnitudesVanish(B: real, K: real, A: real, E: real, C: real, P: real, BK: real, AE: real, CP: real)
    requires A >= 0.0 && C >= 0.0 && K >= 0.0 && BK == B * K && AE == A * E && CP == C * P
    requires BK <= AE + CP && E <= K && P <= K && B > A + C
    ensures K == 0.0
  {
    MonotoneProduct(A, E, K);
    MonotoneProduct(C, P, K);
  }

  lemma Triangle(u: real, v: real)
    ensures Abs(-(u + v)) <= Abs(u) + Abs(v)
  {
  }

  lemma MonotoneProduct(u: real, v: real, w: real)
    requires u >= 0.0 && v <= w
    ensures u * v <= u * w
  {
    assert u * (w - v) >= 0.0;
  }
}
