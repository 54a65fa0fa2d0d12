/** Heat source on the square [0, L] x [0, L]: four heated squares, one in
    each quadrant, all at the same strength. */
module Source2D {

  datatype Heatsource2D = Heatsource2D(tMax: real, length: real, f: real)
  {
    /** Strength t_max * f^2 of every heated square. */
    function Rate(): real {
      tMax * f * f
    }

    predicate LowBand(v: real) {
      v >= length / 6.0 && v <= 2.0 * length / 6.0
    }

    predicate HighBand(v: real) {
      v >= 4.0 * length / 6.0 && v <= 5.0 * length / 6.0
    }

    /** Heat released at (x, y): the four squares are tested one after another. */
    function F(x: real, y: real): (q: real)
      ensures q == Rate() || q == 0.0
      ensures tMax >= 0.0 ==> q >= 0.0
    {
      if LowBand(x) && LowBand(y) then Rate()
      else if HighBand(x) && LowBand(y) then Rate()
      else if LowBand(x) && HighBand(y) then Rate()
      else if HighBand(x) && HighBand(y) then Rate()
      else 0.0
    }

    /** A coordinate lies in [L/6, 2L/6] or in [4L/6, 5L/6]. */
    predicate InBand(v: real) {
      LowBand(v) || HighBand(v)
    }
  }

  /** The heated set is the product of the two bands with themselves:
      F is t_max * f^2 exactly when both coordinates lie in a band, 0 elsewhere. */
  lemma Characterization(s: Heatsource2D, x: real, y: real)
    ensures s.InBand(x) && s.InBand(y) ==> s.F(x, y) == s.Rate()
    ensures !(s.InBand(x) && s.InBand(y)) ==> s.F(x, y) == 0.0
  {
  }

  /** The source is symmetric under swapping the axes. */
  lemma Symmetric(s: Heatsource2D, x: real, y: real)
    ensures s.F(x, y) == s.F(y, x)
  {
    Characterization(s, x, y);
    Characterization(s, y, x);
  }

  /** On a square of positive side nothing is released along its four edges. */
  lemma ColdOnEdges(s: Heatsource2D, v: real)
    requires s.length > 0.0
    ensures s.F(0.0, v) == 0.0 && s.F(s.length, v) == 0.0
    ensures s.F(v, 0.0) == 0.0 && s.F(v, s.length) == 0.0
  {
  }
}
