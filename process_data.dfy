/**
 * The closest-approach processor of process_data.py (the version the program runs).
 *
 * Reports with a falsy `icao24` are dropped; the rest are grouped by `icao24` in order of
 * first appearance; for each group a single-pass running minimum with a strict `<` and a
 * radius bound picks the report nearest home; groups with no such report contribute
 * nothing.  The approaches are NOT sorted.  `GetStatistics` summarises them.
 *
 * The specification functions are parametrised by the radius and by `dist`, the
 * great-circle distance from home to a (latitude, longitude) point.
 */
module ProcessData {

  import opened Wrappers
  import opened Geo
  import opened Reports
  import opened Grouping
  import opened Aggregates

  /** The record `_find_closest_approach` builds from the chosen report. */
  datatype Approach = Approach(
    icao24: Option<string>,
    callsign: Option<string>,
    latitude: real,
    longitude: real,
    altitude: Option<real>,
    heading: Option<real>,
    velocity: Option<real>,
    timestamp: int,
    distance: real)

  /** The dict `get_statistics` returns; absent entries are `None`. Altitudes are in feet. */
  datatype Statistics = Statistics(
    totalAircraft: nat,
    closestDistance: Option<real>,
    furthestDistance: Option<real>,
    averageDistance: Option<real>,
    minAltitude: Option<real>,
    maxAltitude: Option<real>,
    averageAltitude: Option<real>)

  // ---------------------------------------------------------------------------------
  // Closest approach within one aircraft's reports

  function DistanceOf(s: StateVector, dist: (real, real) -> real): real
    requires HasPosition(s)
  {
    dist(s.latitude.value, s.longitude.value)
  }

  /** A report the running minimum may pick: it has both coordinates and lies within the radius. */
  predicate Eligible(s: StateVector, radius: real, dist: (real, real) -> real) {
    HasPosition(s) && DistanceOf(s, dist) <= radius
  }

  /**
   * The index the running minimum ends on: a report replaces the current best only when
   * it is eligible and strictly nearer (every distance is nearer than the initial infinity).
   */
  function Closest(states: seq<StateVector>, radius: real, dist: (real, real) -> real): (k: Option<nat>)
    ensures k.Some? ==> k.value < |states| && Eligible(states[k.value], radius, dist)
    decreases |states|
  {
    if states == [] then None
    else
      var prior := Closest(states[..|states| - 1], radius, dist);
      var s := states[|states| - 1];
      if Eligible(s, radius, dist)
         && (prior.None? || DistanceOf(s, dist) < DistanceOf(states[prior.value], dist))
      then Some(|states| - 1)
      else prior
  }

  /**
   * `k` is the first report at minimum distance among the eligible ones: eligible, no
   * farther than any eligible report, and strictly nearer than every eligible report before it.
   */
  ghost predicate IsFirstClosest(states: seq<StateVector>, radius: real, dist: (real, real) -> real, k: int) {
    && 0 <= k < |states|
    && Eligible(states[k], radius, dist)
    && (forall j :: 0 <= j < |states| && Eligible(states[j], radius, dist) ==>
          DistanceOf(states[k], dist) <= DistanceOf(states[j], dist))
    && (forall j :: 0 <= j < k && Eligible(states[j], radius, dist) ==>
          DistanceOf(states[k], dist) < DistanceOf(states[j], dist))
  }

  /**
   * The running minimum finds nothing exactly when no report is eligible, and otherwise
   * finds the first report at minimum distance; that report is unique.
   */
  lemma {:induction false} ClosestIsFirstMinimum(states: seq<StateVector>, radius: real, dist: (real, real) -> real)
    ensures Closest(states, radius, dist).None? <==>
              forall j :: 0 <= j < |states| ==> !Eligible(states[j], radius, dist)
    ensures forall k :: Closest(states, radius, dist) == Some(k) <==> IsFirstClosest(states, radius, dist, k)
    decreases |states|
  {
    if states != [] {
      var p := states[..|states| - 1];
      var n := |states| - 1;
      ClosestIsFirstMinimum(p, radius, dist);
      assert forall j :: 0 <= j < n ==> p[j] == states[j];
      var prior := Closest(p, radius, dist);
      match Closest(states, radius, dist)
      case None =>
        assert prior.None? && !Eligible(states[n], radius, dist);
      case Some(k) =>
        if k == n {
          if prior.Some? {
            assert IsFirstClosest(p, radius, dist, prior.value);
          }
        } else {
          assert prior == Some(k);
          assert IsFirstClosest(p, radius, dist, k);
        }
        assert IsFirstClosest(states, radius, dist, k);
        forall k' | IsFirstClosest(states, radius, dist, k') ensures k' == k {
        }
    }
  }

  /** The approach record for a chosen report, carrying its fields and its distance. */
  function ApproachFrom(s: StateVector, distance: real): Approach
    requires HasPosition(s)
  {
    Approach(s.icao24, s.callsign, s.latitude.value, s.longitude.value,
             s.altitude, s.heading, s.velocity, s.timestamp, distance)
  }

  /** What `_find_closest_approach` returns for one aircraft's reports. */
  function ClosestApproach(states: seq<StateVector>, radius: real, dist: (real, real) -> real): Option<Approach> {
    match Closest(states, radius, dist)
    case None => None
    case Some(k) => Some(ApproachFrom(states[k], DistanceOf(states[k], dist)))
  }

  /**
   * `_find_closest_approach` gives None exactly when no report has coordinates within the
   * radius; otherwise its record is a copy of the first report at minimum distance, whose
   * distance is within the radius and no greater than that of any eligible report.
   */
  lemma ClosestApproachCorrect(states: seq<StateVector>, radius: real, dist: (real, real) -> real)
    ensures ClosestApproach(states, radius, dist).None? <==>
              forall j :: 0 <= j < |states| ==> !Eligible(states[j], radius, dist)
    ensures ClosestApproach(states, radius, dist).Some? ==>
              var a := ClosestApproach(states, radius, dist).value;
              && a.distance <= radius
              && (forall j :: 0 <= j < |states| && Eligible(states[j], radius, dist) ==>
                    a.distance <= DistanceOf(states[j], dist))
              && exists k :: IsFirstClosest(states, radius, dist, k)
                   && a == ApproachFrom(states[k], DistanceOf(states[k], dist))
  {
    ClosestIsFirstMinimum(states, radius, dist);
    if Closest(states, radius, dist).Some? {
      var k := Closest(states, radius, dist).value;
      assert IsFirstClosest(states, radius, dist, k);
    }
  }

  /**
   * A later report at the same distance as the current best never replaces it: the
   * choice over a longer list is unchanged.
   */
  lemma LaterTieKeepsEarlier(states: seq<StateVector>, s: StateVector, radius: real, dist: (real, real) -> real)
    requires Closest(states, radius, dist).Some?
    requires HasPosition(s)
    requires DistanceOf(s, dist) == DistanceOf(states[Closest(states, radius, dist).value], dist)
    ensures Closest(states + [s], radius, dist) == Closest(states, radius, dist)
  {
    assert (states + [s])[..|states|] == states;
  }

  // ---------------------------------------------------------------------------------
  // Grouping and the whole pass

  /** The reports whose `icao24` is truthy, in input order; the others are skipped. */
  function IdentifiedOnly(flights: seq<StateVector>): seq<StateVector>
    decreases |flights|
  {
    if flights == [] then []
    else
      var prior := IdentifiedOnly(flights[..|flights| - 1]);
      var f := flights[|flights| - 1];
      if Identified(f) then prior + [f] else prior
  }

  /** The kept reports are exactly the identified ones: no falsy id reaches a group. */
  lemma {:induction false} IdentifiedOnlyExact(flights: seq<StateVector>)
    ensures forall x :: x in IdentifiedOnly(flights) <==> x in flights && Identified(x)
    decreases |flights|
  {
    if flights != [] {
      var p := flights[..|flights| - 1];
      IdentifiedOnlyExact(p);
      assert flights == p + [flights[|flights| - 1]];
    }
  }

  /** One report is kept, once, exactly when its id is truthy. */
  lemma IdentifiedOnlySingle(f: StateVector)
    ensures IdentifiedOnly([f]) == if Identified(f) then [f] else []
  {
    assert [f][..0] == [];
  }

  /** Dropping unidentified reports keeps input order: it distributes over concatenation. */
  lemma {:induction false} IdentifiedOnlyAppend(a: seq<StateVector>, b: seq<StateVector>)
    ensures IdentifiedOnly(a + b) == IdentifiedOnly(a) + IdentifiedOnly(b)
    decreases |b|
  {
    if b == [] {
      assert a + b == a;
    } else {
      var b' := b[..|b| - 1];
      IdentifiedOnlyAppend(a, b');
      assert (a + b)[..|a + b| - 1] == a + b';
    }
  }

  /** `_find_closest_approach` as a function of one group. */
  function ClosestOfGroup(radius: real, dist: (real, real) -> real): seq<StateVector> -> Option<Approach> {
    states => ClosestApproach(states, radius, dist)
  }

  function ApproachId(a: Approach): Option<string> {
    a.icao24
  }

  /** What `process_flights` returns: the groups' approaches in first-appearance order of ids. */
  function ProcessedFlights(flights: seq<StateVector>, radius: real, dist: (real, real) -> real): seq<Approach> {
    var kept := IdentifiedOnly(flights);
    PerGroup(kept, Icao24, Keys(kept, Icao24), ClosestOfGroup(radius, dist))
  }

  /** An approach chosen from the group of an id carries that id. */
  lemma ApproachKeepsId(kept: seq<StateVector>, radius: real, dist: (real, real) -> real)
    ensures NamesItsGroup(kept, Icao24, ClosestOfGroup(radius, dist), ApproachId)
  {
    forall id | ClosestOfGroup(radius, dist)(GroupOf(kept, Icao24, id)).Some?
      ensures ApproachId(ClosestOfGroup(radius, dist)(GroupOf(kept, Icao24, id)).value) == id
    {
      var g := GroupOf(kept, Icao24, id);
      GroupOfExact(kept, Icao24, id);
      var k := Closest(g, radius, dist).value;
      assert g[k] in g;
    }
  }

  /**
   * Every approach `process_flights` returns has a truthy id, lies within the radius, and
   * is the closest approach of that aircraft's reports.
   */
  lemma ProcessedFlightsSound(flights: seq<StateVector>, radius: real, dist: (real, real) -> real, r: seq<Approach>)
    requires r == ProcessedFlights(flights, radius, dist)
    ensures forall i :: 0 <= i < |r| ==>
              && r[i].icao24.Some? && r[i].icao24.value != ""
              && r[i].distance <= radius
              && ClosestApproach(GroupOf(IdentifiedOnly(flights), Icao24, r[i].icao24), radius, dist) == Some(r[i])
  {
    var kept := IdentifiedOnly(flights);
    var ks := Keys(kept, Icao24);
    IdentifiedOnlyExact(flights);
    KeysExact(kept, Icao24);
    ApproachKeepsId(kept, radius, dist);
    PerGroupSound(kept, Icao24, ks, ClosestOfGroup(radius, dist), ApproachId, r);
    forall i | 0 <= i < |r|
      ensures r[i].icao24.Some? && r[i].icao24.value != "" && r[i].distance <= radius
    {
      var m :| 0 <= m < |kept| && Icao24(kept[m]) == r[i].icao24;
      assert kept[m] in kept;
      ClosestApproachCorrect(GroupOf(kept, Icao24, r[i].icao24), radius, dist);
    }
  }

  /**
   * The distance of a returned approach is no greater than that of any report of the same
   * aircraft that has coordinates and lies within the radius.
   */
  lemma ProcessedFlightsMinimal(flights: seq<StateVector>, radius: real, dist: (real, real) -> real, r: seq<Approach>)
    requires r == ProcessedFlights(flights, radius, dist)
    ensures forall i, q :: 0 <= i < |r| && 0 <= q < |flights| && flights[q].icao24 == r[i].icao24
                           && Eligible(flights[q], radius, dist) ==>
              r[i].distance <= DistanceOf(flights[q], dist)
  {
    var kept := IdentifiedOnly(flights);
    ProcessedFlightsSound(flights, radius, dist, r);
    IdentifiedOnlyExact(flights);
    forall i, q | 0 <= i < |r| && 0 <= q < |flights| && flights[q].icao24 == r[i].icao24
                  && Eligible(flights[q], radius, dist)
      ensures r[i].distance <= DistanceOf(flights[q], dist)
    {
      var g := GroupOf(kept, Icao24, r[i].icao24);
      GroupOfExact(kept, Icao24, r[i].icao24);
      ClosestApproachCorrect(g, radius, dist);
      assert flights[q] in g;
      var j :| 0 <= j < |g| && g[j] == flights[q];
    }
  }

  /** `process_flights` returns at most one approach per aircraft. */
  lemma ProcessedFlightsOnePerAircraft(flights: seq<StateVector>, radius: real, dist: (real, real) -> real, r: seq<Approach>)
    requires r == ProcessedFlights(flights, radius, dist)
    ensures forall i, j :: 0 <= i < j < |r| ==> r[i].icao24 != r[j].icao24
  {
    var kept := IdentifiedOnly(flights);
    var ks := Keys(kept, Icao24);
    KeysExact(kept, Icao24);
    ApproachKeepsId(kept, radius, dist);
    PerGroupOnePerKey(kept, Icao24, ks, ClosestOfGroup(radius, dist), ApproachId, r);
  }

  /** Some report of aircraft `id` has a truthy id and coordinates within the radius. */
  predicate HasEligibleReport(flights: seq<StateVector>, id: Option<string>, radius: real, dist: (real, real) -> real) {
    exists q :: 0 <= q < |flights| && Identified(flights[q]) && flights[q].icao24 == id
                && Eligible(flights[q], radius, dist)
  }

  /** Some approach in `r` is of aircraft `id`. */
  predicate HasApproach(r: seq<Approach>, id: Option<string>) {
    exists i :: 0 <= i < |r| && r[i].icao24 == id
  }

  /** The aircraft of the `i`-th approach has a truthy id and a report within the radius. */
  lemma ApproachHasEligibleReport(flights: seq<StateVector>, radius: real, dist: (real, real) -> real,
                                  r: seq<Approach>, i: int)
    requires r == ProcessedFlights(flights, radius, dist)
    requires 0 <= i < |r|
    ensures HasEligibleReport(flights, r[i].icao24, radius, dist)
  {
    var kept := IdentifiedOnly(flights);
    IdentifiedOnlyExact(flights);
    ProcessedFlightsSound(flights, radius, dist, r);
    var g := GroupOf(kept, Icao24, r[i].icao24);
    GroupOfExact(kept, Icao24, r[i].icao24);
    var k := Closest(g, radius, dist).value;
    assert g[k] in g;
    var q :| 0 <= q < |flights| && flights[q] == g[k];
  }

  /**
   * An aircraft has an approach exactly when it has a truthy id and at least one report
   * with coordinates within the radius.
   */
  lemma ProcessedFlightsComplete(flights: seq<StateVector>, radius: real, dist: (real, real) -> real, r: seq<Approach>)
    requires r == ProcessedFlights(flights, radius, dist)
    ensures forall i :: 0 <= i < |r| ==> HasEligibleReport(flights, r[i].icao24, radius, dist)
    ensures forall q :: 0 <= q < |flights| && Identified(flights[q]) && Eligible(flights[q], radius, dist) ==>
              HasApproach(r, flights[q].icao24)
  {
    forall i | 0 <= i < |r|
      ensures HasEligibleReport(flights, r[i].icao24, radius, dist)
    {
      ApproachHasEligibleReport(flights, radius, dist, r, i);
    }
    forall q | 0 <= q < |flights| && Identified(flights[q]) && Eligible(flights[q], radius, dist)
      ensures HasApproach(r, flights[q].icao24)
    {
      EligibleReportHasApproach(flights, radius, dist, r, q);
    }
  }

  /** A report with a truthy id and coordinates within the radius gives its aircraft an approach. */
  lemma EligibleReportHasApproach(flights: seq<StateVector>, radius: real, dist: (real, real) -> real,
                                  r: seq<Approach>, q: int)
    requires r == ProcessedFlights(flights, radius, dist)
    requires 0 <= q < |flights| && Identified(flights[q]) && Eligible(flights[q], radius, dist)
    ensures HasApproach(r, flights[q].icao24)
  {
    var kept := IdentifiedOnly(flights);
    var ks := Keys(kept, Icao24);
    IdentifiedOnlyExact(flights);
    KeysExact(kept, Icao24);
    ApproachKeepsId(kept, radius, dist);
    PerGroupComplete(kept, Icao24, ks, ClosestOfGroup(radius, dist), ApproachId, r);
    var id := flights[q].icao24;
    var g := GroupOf(kept, Icao24, id);
    GroupOfExact(kept, Icao24, id);
    assert flights[q] in kept;
    var w :| 0 <= w < |kept| && kept[w] == flights[q];
    assert id in ks;
    var m :| 0 <= m < |ks| && ks[m] == id;
    assert flights[q] in g;
    var j :| 0 <= j < |g| && g[j] == flights[q];
    ClosestApproachCorrect(g, radius, dist);
  }

  /** Approaches come in the order in which their ids first appear among the identified reports. */
  lemma ProcessedFlightsInFirstAppearanceOrder(flights: seq<StateVector>, radius: real, dist: (real, real) -> real,
                                                r: seq<Approach>, ks: seq<Option<string>>)
    requires r == ProcessedFlights(flights, radius, dist)
    requires ks == Keys(IdentifiedOnly(flights), Icao24)
    ensures forall i, j :: 0 <= i < j < |r| ==> Precedes(ks, r[i].icao24, r[j].icao24)
  {
    var kept := IdentifiedOnly(flights);
    ApproachKeepsId(kept, radius, dist);
    PerGroupOrdered(kept, Icao24, ks, ClosestOfGroup(radius, dist), ApproachId, r);
    forall i, j | 0 <= i < j < |r|
      ensures Precedes(ks, r[i].icao24, r[j].icao24)
    {
      assert Precedes(ks, ApproachId(r[i]), ApproachId(r[j]));
    }
  }

  // ---------------------------------------------------------------------------------
  // Statistics

  function Distances(approaches: seq<Approach>): seq<real> {
    seq(|approaches|, i requires 0 <= i < |approaches| => approaches[i].distance)
  }

  /** The present altitudes converted to feet, in order; absent altitudes are skipped. */
  function AltitudesFeet(approaches: seq<Approach>): seq<real>
    decreases |approaches|
  {
    if approaches == [] then []
    else
      var prior := AltitudesFeet(approaches[..|approaches| - 1]);
      match approaches[|approaches| - 1].altitude
      case None => prior
      case Some(metres) => prior + [metres * FeetPerMetre]
  }

  /** What `get_statistics` returns. */
  function StatisticsOf(approaches: seq<Approach>): Statistics {
    if approaches == [] then Statistics(0, None, None, None, None, None, None)
    else
      var distances := Distances(approaches);
      var altitudes := AltitudesFeet(approaches);
      Statistics(
        |approaches|,
        Some(Min(distances)), Some(Max(distances)), Some(Mean(distances)),
        if altitudes == [] then None else Some(Min(altitudes)),
        if altitudes == [] then None else Some(Max(altitudes)),
        if altitudes == [] then None else Some(Mean(altitudes)))
  }

  /** Every present altitude, in feet, is among the converted altitudes. */
  lemma {:induction false} AltitudesFeetComplete(approaches: seq<Approach>)
    ensures forall i :: 0 <= i < |approaches| && approaches[i].altitude.Some? ==>
              approaches[i].altitude.value * FeetPerMetre in AltitudesFeet(approaches)
    decreases |approaches|
  {
    if approaches != [] {
      var p := approaches[..|approaches| - 1];
      AltitudesFeetComplete(p);
      forall i | 0 <= i < |approaches| - 1 && approaches[i].altitude.Some?
        ensures approaches[i].altitude.value * FeetPerMetre in AltitudesFeet(approaches)
      {
        assert approaches[i] == p[i];
      }
    }
  }

  /** Every converted altitude comes from a present altitude. */
  lemma {:induction false} AltitudesFeetSound(approaches: seq<Approach>)
    ensures forall x :: x in AltitudesFeet(approaches) ==>
              exists i :: 0 <= i < |approaches| && approaches[i].altitude.Some?
                          && x == approaches[i].altitude.value * FeetPerMetre
    decreases |approaches|
  {
    if approaches != [] {
      var p := approaches[..|approaches| - 1];
      var n := |approaches| - 1;
      AltitudesFeetSound(p);
      forall x | x in AltitudesFeet(approaches)
        ensures exists i :: 0 <= i < |approaches| && approaches[i].altitude.Some?
                            && x == approaches[i].altitude.value * FeetPerMetre
      {
        if x in AltitudesFeet(p) {
          var i :| 0 <= i < |p| && p[i].altitude.Some? && x == p[i].altitude.value * FeetPerMetre;
          assert approaches[i] == p[i];
        } else {
          assert x == approaches[n].altitude.value * FeetPerMetre;
        }
      }
    }
  }

  /**
   * The conversion keeps one entry per approach that has an altitude, in order: it
   * distributes over concatenation, so repeated altitudes all count towards the mean.
   */
  lemma {:induction false} AltitudesFeetAppend(a: seq<Approach>, b: seq<Approach>)
    ensures AltitudesFeet(a + b) == AltitudesFeet(a) + AltitudesFeet(b)
    decreases |b|
  {
    if b == [] {
      assert a + b == a;
    } else {
      var b' := b[..|b| - 1];
      AltitudesFeetAppend(a, b');
      assert (a + b)[..|a + b| - 1] == a + b';
    }
  }

  /** One approach contributes its altitude in feet when it has one, and nothing otherwise. */
  lemma AltitudesFeetSingle(a: Approach)
    ensures AltitudesFeet([a]) == if a.altitude.Some? then [a.altitude.value * FeetPerMetre] else []
  {
    assert [a][..0] == [];
  }

  /** With no approaches every statistic but the zero count is absent. */
  lemma StatisticsOfEmpty()
    ensures StatisticsOf([]).totalAircraft == 0
    ensures StatisticsOf([]).closestDistance.None? && StatisticsOf([]).furthestDistance.None?
    ensures StatisticsOf([]).averageDistance.None?
    ensures StatisticsOf([]).minAltitude.None? && StatisticsOf([]).maxAltitude.None?
    ensures StatisticsOf([]).averageAltitude.None?
  {
  }

  /**
   * Over a non-empty list the count is its length, the closest and furthest distances are
   * distances of some approach and bound all of them, and the average lies between them.
   */
  lemma StatisticsDistances(approaches: seq<Approach>, stats: Statistics)
    requires stats == StatisticsOf(approaches)
    requires approaches != []
    ensures stats.totalAircraft == |approaches|
    ensures stats.closestDistance.Some? && stats.furthestDistance.Some? && stats.averageDistance.Some?
    ensures stats.closestDistance.value <= stats.averageDistance.value <= stats.furthestDistance.value
    ensures forall i :: 0 <= i < |approaches| ==>
              stats.closestDistance.value <= approaches[i].distance <= stats.furthestDistance.value
    ensures exists i :: 0 <= i < |approaches| && approaches[i].distance == stats.closestDistance.value
    ensures exists i :: 0 <= i < |approaches| && approaches[i].distance == stats.furthestDistance.value
  {
    var d := Distances(approaches);
    MeanBetween(d);
    assert forall i :: 0 <= i < |approaches| ==> d[i] == approaches[i].distance;
    var lo :| 0 <= lo < |d| && d[lo] == Min(d);
    var hi :| 0 <= hi < |d| && d[hi] == Max(d);
  }

  /**
   * The altitude statistics are absent exactly when no approach has an altitude; otherwise
   * they are the least, greatest and mean of the present altitudes in feet, in that order.
   */
  lemma StatisticsAltitudes(approaches: seq<Approach>, stats: Statistics)
    requires stats == StatisticsOf(approaches)
    ensures stats.minAltitude.None? <==> forall i :: 0 <= i < |approaches| ==> approaches[i].altitude.None?
    ensures stats.minAltitude.None? <==> stats.maxAltitude.None?
    ensures stats.minAltitude.None? <==> stats.averageAltitude.None?
    ensures stats.minAltitude.Some? ==>
              stats.minAltitude.value <= stats.averageAltitude.value <= stats.maxAltitude.value
    ensures stats.minAltitude.Some? ==>
              forall i :: 0 <= i < |approaches| && approaches[i].altitude.Some? ==>
                stats.minAltitude.value <= approaches[i].altitude.value * FeetPerMetre <= stats.maxAltitude.value
    ensures stats.minAltitude.Some? ==>
              exists i :: 0 <= i < |approaches| && approaches[i].altitude.Some?
                          && approaches[i].altitude.value * FeetPerMetre == stats.minAltitude.value
    ensures stats.maxAltitude.Some? ==>
              exists i :: 0 <= i < |approaches| && approaches[i].altitude.Some?
                          && approaches[i].altitude.value * FeetPerMetre == stats.maxAltitude.value
  {
    AltitudesFeetComplete(approaches);
    AltitudesFeetSound(approaches);
    var alt := AltitudesFeet(approaches);
    if alt != [] {
      assert alt[0] in alt;
    }
    if alt != [] {
      MeanBetween(alt);
      forall i | 0 <= i < |approaches| && approaches[i].altitude.Some?
        ensures Min(alt) <= approaches[i].altitude.value * FeetPerMetre <= Max(alt)
      {
        var x := approaches[i].altitude.value * FeetPerMetre;
        var m :| 0 <= m < |alt| && alt[m] == x;
      }
    }
  }

  // ---------------------------------------------------------------------------------
  // The processor

  /** `FlightProcessor` of process_data.py: the home location and search radius, fixed at construction. */
  class FlightProcessor {
    const homeLat: real
    const homeLon: real
    const radiusMiles: real
    /** `haversine_distance` from home to a (latitude, longitude) point, in miles. */
    const dist: (real, real) -> real

    constructor (homeLat: real, homeLon: real, radiusMiles: real, haversine: (real, real, real, real) -> real)
      ensures this.homeLat == homeLat && this.homeLon == homeLon && this.radiusMiles == radiusMiles
      ensures forall lat, lon :: dist(lat, lon) == haversine(homeLat, homeLon, lat, lon)
    {
      this.homeLat := homeLat;
      this.homeLon := homeLon;
      this.radiusMiles := radiusMiles;
      this.dist := (lat, lon) => haversine(homeLat, homeLon, lat, lon);
    }

    /** `_find_closest_approach`: the single-pass running minimum over one aircraft's reports. */
    method FindClosestApproach(states: seq<StateVector>) returns (closest: Option<Approach>)
      ensures closest == ClosestApproach(states, radiusMiles, dist)
    {
      var closestState: Option<StateVector> := None;
      var closestDistance: Miles := Infinity;
      ghost var chosen: Option<nat> := None;
      for i := 0 to |states|
        invariant chosen == Closest(states[..i], radiusMiles, dist)
        invariant chosen.None? ==> closestState.None? && closestDistance == Infinity
        invariant chosen.Some? ==>
                    && chosen.value < i
                    && closestState == Some(states[chosen.value])
                    && HasPosition(states[chosen.value])
                    && closestDistance == Finite(DistanceOf(states[chosen.value], dist))
      {
        assert states[..i + 1][..i] == states[..i];
        if chosen.Some? {
          assert states[..i][chosen.value] == states[chosen.value];
        }
        var state := states[i];
        var lat, lon := state.latitude, state.longitude;
        if lat.Some? && lon.Some? {
          var distance := dist(lat.value, lon.value);
          if Finite(distance).Below(closestDistance) && distance <= radiusMiles {
            closestDistance := Finite(distance);
            closestState := Some(state);
            chosen := Some(i);
          }
        }
      }
      assert states[..|states|] == states;
      if closestState.None? {
        return None;
      }
      var s := closestState.value;
      closest := Some(Approach(s.icao24, s.callsign, s.latitude.value, s.longitude.value,
                               s.altitude, s.heading, s.velocity, s.timestamp, closestDistance.miles));
    }

    /**
     * `process_flights`: group the reports with a truthy `icao24` into a dict of lists (keys
     * in first-appearance order), then append each group's closest approach, if any.
     */
    method ProcessFlights(flights: seq<StateVector>) returns (approaches: seq<Approach>)
      ensures approaches == ProcessedFlights(flights, radiusMiles, dist)
    {
      // The dict `aircraft_flights`, and `order`, the order its keys were inserted in.
      var aircraftFlights: map<Option<string>, seq<StateVector>> := map[];
      var order: seq<Option<string>> := [];
      for i := 0 to |flights|
        invariant order == Keys(IdentifiedOnly(flights[..i]), Icao24)
        invariant forall id :: id in aircraftFlights <==> id in order
        invariant forall id :: id in aircraftFlights ==>
                    aircraftFlights[id] == GroupOf(IdentifiedOnly(flights[..i]), Icao24, id)
      {
        ghost var kept := IdentifiedOnly(flights[..i]);
        assert flights[..i + 1][..i] == flights[..i];
        var flight := flights[i];
        var icao24 := flight.icao24;
        if icao24.Some? && icao24.value != "" {
          ghost var order0, dict0 := order, aircraftFlights;
          if icao24 !in aircraftFlights {
            aircraftFlights := aircraftFlights[icao24 := []];
            order := order + [icao24];
          }
          aircraftFlights := aircraftFlights[icao24 := aircraftFlights[icao24] + [flight]];
          DictAppendStep(kept, flight, Icao24, order0, dict0, order, aircraftFlights);
          assert IdentifiedOnly(flights[..i + 1]) == kept + [flight];
        }
      }
      assert flights[..|flights|] == flights;
      ghost var kept := IdentifiedOnly(flights);

      approaches := [];
      for j := 0 to |order|
        invariant approaches == PerGroup(kept, Icao24, order[..j], ClosestOfGroup(radiusMiles, dist))
      {
        assert order[..j + 1][..j] == order[..j];
        var closest := FindClosestApproach(aircraftFlights[order[j]]);
        if closest.Some? {
          approaches := approaches + [closest.value];
        }
      }
      assert order[..|order|] == order;
    }

    /** `get_statistics`: count, distance extremes and mean, and altitude extremes and mean in feet. */
    method GetStatistics(approaches: seq<Approach>) returns (stats: Statistics)
      ensures stats == StatisticsOf(approaches)
    {
      if |approaches| == 0 {
        return Statistics(0, None, None, None, None, None, None);
      }
      var distances := seq(|approaches|, i requires 0 <= i < |approaches| => approaches[i].distance);
      var altitudes: seq<real> := [];
      for i := 0 to |approaches|
        invariant altitudes == AltitudesFeet(approaches[..i])
      {
        assert approaches[..i + 1][..i] == approaches[..i];
        var altitude := approaches[i].altitude;
        if altitude.Some? {
          altitudes := altitudes + [altitude.value * FeetPerMetre];
        }
      }
      assert approaches[..|approaches|] == approaches;
      if |altitudes| > 0 {
        stats := Statistics(|approaches|, Some(Min(distances)), Some(Max(distances)), Some(Sum(distances) / |distances| as real),
                            Some(Min(altitudes)), Some(Max(altitudes)), Some(Sum(altitudes) / |altitudes| as real));
      } else {
        stats := Statistics(|approaches|, Some(Min(distances)), Some(Max(distances)), Some(Sum(distances) / |distances| as real),
                            None, None, None);
      }
    }
  }
}
