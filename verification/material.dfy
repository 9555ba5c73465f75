/** The surface description every primitive owns and every hit record copies. */
module Materials {
  import opened Vectors

  datatype Material = Material(
    color: Vec3,
    emissionColor: Vec3,
    emissionStrength: real,
    smoothness: real,
    specularProbability: real,
    specularColor: Vec3)
  {
    /** `emission_color * emission_strength`, the light the surface gives off. */
    function EmittedLight(): Vec3 {
      emissionColor.Scale(emissionStrength)
    }

    /** Every colour and the emission strength are non-negative: the surface neither absorbs below zero nor emits negative light. */
    predicate NonNegative() {
      color.NonNegative() && emissionColor.NonNegative() && 0.0 <= emissionStrength && specularColor.NonNegative()
    }
  }
}
