/**
 * Geospatial utilities shared by the processors and the wallpaper generator.
 *
 * Distance itself (haversine great-circle distance in process_data.py, geopy's
 * ellipsoidal geodesic in data.py) is not modelled: the processors hold it as a function value.  What is
 * modelled is the extended reals the processors compare distances in (Python's
 * `float('inf')` stands for "no usable position") and the miles-to-degrees bound.
 */
module Geo {

  /** Statute miles per degree of latitude, as hard-coded in the source. */
  const MilesPerDegree: real := 69.0

  /** Feet per metre, the factor both the statistics and the wallpaper apply to altitudes. */
  const FeetPerMetre: real := 3.28084

  /** A distance in miles, or `float('inf')`. */
  datatype Miles = Finite(miles: real) | Infinity {

    /** Strict `<` on the extended reals: nothing is below infinity-versus-infinity. */
    predicate Below(other: Miles) {
      match (this, other)
      case (Finite(a), Finite(b)) => a < b
      case (Finite(_), Infinity) => true
      case (Infinity, _) => false
    }

    /** `<=` on the extended reals. */
    predicate AtMost(other: Miles) {
      !other.Below(this)
    }
  }

  /**
   * Half-width, in degrees, of a bounding box around a circle of `miles` miles at a
   * latitude whose cosine is `cosLat`: the larger of the latitude extent `miles / 69`
   * and the longitude extent `miles / (69 cos φ)`.
   */
  function MilesToDegrees(miles: real, cosLat: real): (degrees: real)
    requires 0.0 < cosLat <= 1.0
    ensures degrees >= miles / MilesPerDegree
    ensures degrees >= miles / (MilesPerDegree * cosLat)
    ensures degrees == miles / MilesPerDegree || degrees == miles / (MilesPerDegree * cosLat)
  {
    var latDegrees := miles / MilesPerDegree;
    var lonDegrees := miles / (MilesPerDegree * cosLat);
    if lonDegrees > latDegrees then lonDegrees else latDegrees
  }

  /** At the equator the two extents agree, and converting back gives the radius again. */
  lemma EquatorRoundTrip(miles: real)
    ensures MilesToDegrees(miles, 1.0) == miles / MilesPerDegree
    ensures MilesToDegrees(miles, 1.0) * MilesPerDegree == miles
  {
  }

  /**
   * For a non-negative radius the longitude extent is the one chosen, and the box is
   * conservative: measured in miles along both axes it reaches at least the radius.
   */
  lemma BoxCoversRadius(miles: real, cosLat: real)
    requires 0.0 < cosLat <= 1.0
    requires miles >= 0.0
    ensures MilesToDegrees(miles, cosLat) == miles / (MilesPerDegree * cosLat)
    ensures MilesToDegrees(miles, cosLat) * MilesPerDegree >= miles
    ensures MilesToDegrees(miles, cosLat) * MilesPerDegree * cosLat == miles
  {
    var lon := miles / (MilesPerDegree * cosLat);
    assert lon * (MilesPerDegree * cosLat) == miles;
    assert miles / MilesPerDegree <= lon by {
      assert MilesPerDegree * cosLat <= MilesPerDegree;
      assert lon * MilesPerDegree >= lon * (MilesPerDegree * cosLat);
    }
  }
}
