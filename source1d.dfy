/** Heat source along a bar of length L: two heated stretches, the second
    at three quarters of the strength of the first. */
module Source1D {

  datatype Heatsource1D = Heatsource1D(tMax: real, length: real, f: real)
  {
    /** Strength t_max * f^2 of the first stretch. */
    function Rate(): real {
      tMax * f * f
    }

    /** First heated stretch [L/10, 2L/10], ends included. */
    predicate InRegion1(x: real) {
      x >= length / 10.0 && x <= 2.0 * length / 10.0
    }

    /** Second heated stretch [5L/10, 6L/10], ends included. */
    predicate InRegion2(x: real) {
      x >= 5.0 * length / 10.0 && x <= 6.0 * length / 10.0
    }

    /** Heat released at position x. */
    function F(x: real): (q: real)
      ensures q == Rate() || q == 0.75 * Rate() || q == 0.0
      ensures tMax >= 0.0 ==> q >= 0.0
      ensures q != 0.0 ==> InRegion1(x) || InRegion2(x)
    {
      if InRegion1(x) then Rate()
      else if InRegion2(x) then 0.75 * Rate()
      else 0.0
    }

    /** The same source with the two stretches tested in the other order. */
    function FRegion2First(x: real): real {
      if InRegion2(x) then 0.75 * Rate()
      else if InRegion1(x) then Rate()
      else 0.0
    }
  }

  /** For a bar of positive length the two stretches do not overlap. */
  lemma RegionsDisjoint(s: Heatsource1D, x: real)
    requires s.length > 0.0
    ensures !(s.InRegion1(x) && s.InRegion2(x))
  {
  }

  /** Hence the order of the tests does not matter. */
  lemma TestOrderIrrelevant(s: Heatsource1D, x: real)
    requires s.length > 0.0
    ensures s.F(x) == s.FRegion2First(x)
  {
    RegionsDisjoint(s, x);
  }

  /** F is t_max * f^2 on the first stretch, 0.75 * t_max * f^2 on the
      second and 0 everywhere else. */
  lemma Characterization(s: Heatsource1D, x: real)
    requires s.length > 0.0
    ensures s.InRegion1(x) ==> s.F(x) == s.Rate()
    ensures s.InRegion2(x) ==> s.F(x) == 0.75 * s.Rate()
    ensures !s.InRegion1(x) && !s.InRegion2(x) ==> s.F(x) == 0.0
  {
    RegionsDisjoint(s, x);
  }

  /** Both ends of each stretch are heated, at the stretch's own strength. */
  lemma EndpointsHeated(s: Heatsource1D)
    requires s.length > 0.0
    ensures s.F(s.length / 10.0) == s.Rate() && s.F(2.0 * s.length / 10.0) == s.Rate()
    ensures s.F(5.0 * s.length / 10.0) == 0.75 * s.Rate() && s.F(6.0 * s.length / 10.0) == 0.75 * s.Rate()
  {
  }

  /** Outside both stretches nothing is released; in particular at both ends of the bar. */
  lemma ColdOutsideRegions(s: Heatsource1D, x: real)
    requires s.length > 0.0
    requires x < s.length / 10.0 || (2.0 * s.length / 10.0 < x < 5.0 * s.length / 10.0) || x > 6.0 * s.length / 10.0
    ensures s.F(x) == 0.0
  {
  }
}
