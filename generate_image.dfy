/**
 * The one rule of the wallpaper generator that is not plotting: the marker drawn for an
 * approach shrinks with its altitude, in four bands measured in feet.
 *
 * The generator also converts the search radius to degrees for the circle it draws around
 * home; that conversion is the same one the processor uses and is `Geo.MilesToDegrees`.
 */
module GenerateImage {

  import opened Wrappers
  import opened Geo

  /** Upper bounds, in feet, of the low, medium and high altitude bands. */
  const LowBandFeet: real := 5000.0
  const MediumBandFeet: real := 15000.0
  const HighBandFeet: real := 30000.0

  /**
   * `_get_marker_size`: 4 when the altitude is unknown; otherwise, with the altitude in
   * feet, 6 below 5000, 5 below 15000, 4 below 30000 and 3 from 30000 up.
   */
  function MarkerSize(altitude: Option<real>): (size: int)
    ensures 3 <= size <= 6
    ensures altitude.None? ==> size == 4
  {
    match altitude
    case None => 4
    case Some(metres) =>
      var feet := metres * FeetPerMetre;
      if feet < LowBandFeet then 6
      else if feet < MediumBandFeet then 5
      else if feet < HighBandFeet then 4
      else 3
  }

  /** Each size is given for exactly one band of altitudes. */
  lemma MarkerSizeBands(metres: real)
    ensures MarkerSize(Some(metres)) == 6 <==> metres * FeetPerMetre < LowBandFeet
    ensures MarkerSize(Some(metres)) == 5 <==> LowBandFeet <= metres * FeetPerMetre < MediumBandFeet
    ensures MarkerSize(Some(metres)) == 4 <==> MediumBandFeet <= metres * FeetPerMetre < HighBandFeet
    ensures MarkerSize(Some(metres)) == 3 <==> HighBandFeet <= metres * FeetPerMetre
  {
  }

  /** A higher aircraft never gets a larger marker. */
  lemma MarkerSizeNonIncreasing(low: real, high: real)
    requires low <= high
    ensures MarkerSize(Some(high)) <= MarkerSize(Some(low))
  {
    assert low * FeetPerMetre <= high * FeetPerMetre;
  }
}
