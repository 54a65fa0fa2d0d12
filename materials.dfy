/** Material properties of the conducting body and the four stock materials. */
module Materials {

  /** A material: thermal conductivity (lambda), density (rho) and specific
      heat capacity (c). */
  datatype Material = Material(name: string, conductivity: real, density: real, specificHeat: real)
  {
    /** All three physical properties are strictly positive. */
    predicate Physical() {
      conductivity > 0.0 && density > 0.0 && specificHeat > 0.0
    }

    /** Volumetric heat capacity rho * c, the divisor of both the
        diffusivity and the solvers' source term. */
    function HeatCapacity(): real {
      density * specificHeat
    }

    /** Thermal diffusivity alpha = lambda / (rho * c): the number that,
        multiplied by the volumetric heat capacity, gives back the conductivity. */
    function ThermalDiffusivity(): (alpha: real)
      requires HeatCapacity() != 0.0
      ensures alpha * HeatCapacity() == conductivity
      ensures Physical() ==> alpha > 0.0
    {
      conductivity / HeatCapacity()
    }
  }

  const Copper: Material := Material("Copper", 389.0, 8940.0, 380.0)
  const Iron: Material := Material("Iron", 80.2, 7874.0, 440.0)
  const Glass: Material := Material("Glass", 1.2, 2530.0, 840.0)
  const Polystyrene: Material := Material("Polystyrene", 0.1, 1040.0, 1200.0)

  /** The stock materials, from the best to the worst heat conductor. */
  const Presets: seq<Material> := [Copper, Iron, Glass, Polystyrene]

  /** Every stock material is physical, so its diffusivity is defined and positive. */
  lemma PresetsPhysical()
    ensures forall k :: 0 <= k < |Presets| ==> Presets[k].Physical()
    ensures forall k :: 0 <= k < |Presets| ==> Presets[k].ThermalDiffusivity() > 0.0
  {
  }

  /** Diffusivity falls strictly along the stock list:
      copper > iron > glass > polystyrene. */
  lemma PresetDiffusivitiesDecreasing()
    ensures forall k :: 0 <= k < |Presets| - 1 ==>
      Presets[k].ThermalDiffusivity() > Presets[k + 1].ThermalDiffusivity()
  {
    assert Copper.ThermalDiffusivity() > Iron.ThermalDiffusivity();
    assert Iron.ThermalDiffusivity() > Glass.ThermalDiffusivity();
    assert Glass.ThermalDiffusivity() > Polystyrene.ThermalDiffusivity();
  }
}
