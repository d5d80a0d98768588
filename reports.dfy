/** Aircraft position reports ("state vectors") as the fetch layer delivers them. */
module Reports {

  import opened Wrappers

  /**
   * One observed state of one aircraft.  Every field but the timestamp may be absent;
   * an absent or empty `icao24` is what Python treats as falsy.  Altitudes are metres.
   */
  datatype StateVector = StateVector(
    icao24: Option<string>,
    callsign: Option<string>,
    originCountry: Option<string>,
    timestamp: int,
    latitude: Option<real>,
    longitude: Option<real>,
    altitude: Option<real>,
    onGround: Option<bool>,
    velocity: Option<real>,
    heading: Option<real>,
    verticalRate: Option<real>,
    geoAltitude: Option<real>)

  /** The transponder id, the key both processors group by. */
  function Icao24(s: StateVector): Option<string> {
    s.icao24
  }

  /** `icao24` is truthy: present and not the empty string. */
  predicate Identified(s: StateVector) {
    s.icao24.Some? && s.icao24.value != ""
  }

  /** Both coordinates are present. */
  predicate HasPosition(s: StateVector) {
    s.latitude.Some? && s.longitude.Some?
  }
}
