/** Types shared by the three telemetry backends: the sensor kinds, optional
    readings, and native entry points that may be missing. */
module Common {

  /** The three quantities a backend can be asked for. Their ordinals are used
      as indices into the backends' sensor-map tables. */
  datatype SensorType = GfxLoad | GfxTemperature | GfxPower

  /** The enum value of a sensor type (0, 1, 2 in declaration order). */
  function Ordinal(t: SensorType): (r: nat)
    ensures r < 3
    ensures r == 0 <==> t == GfxLoad
    ensures r == 2 <==> t == GfxPower
  {
    match t
    case GfxLoad => 0
    case GfxTemperature => 1
    case GfxPower => 2
  }

  /** The sensor type with a given enum value, if there is one. */
  function FromOrdinal(n: int): (r: Option<SensorType>)
    ensures r.Some? <==> 0 <= n < 3
    ensures r.Some? ==> Ordinal(r.value) == n
  {
    if n == 0 then Some(GfxLoad)
    else if n == 1 then Some(GfxTemperature)
    else if n == 2 then Some(GfxPower)
    else None
  }

  /** Distinct sensor types have distinct ordinals, so an ordinal indexes a
      table unambiguously, and decoding an ordinal gives the type back. */
  lemma OrdinalRoundTrip(t: SensorType)
    ensures FromOrdinal(Ordinal(t)) == Some(t)
    ensures forall u: SensorType :: Ordinal(u) == Ordinal(t) ==> u == t
  {
  }

  /** A value that may be absent: a nullable float reading, a null string. */
  datatype Option<+T> = None | Some(value: T)

  /** A native entry point after resolution: either missing (a null delegate)
      or present with the behaviour of the driver call. */
  datatype Entry<+F> = Missing | Present(call: F)
}
