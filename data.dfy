/**
 * The older closest-approach processor of data.py.
 *
 * It first keeps the reports with coordinates within the radius, annotating each with its
 * `distance_to_home`; then groups them by `icao24` (any value, `None` included), sorting each
 * group by timestamp; then takes each group's first nearest state with the group's size and
 * first/last timestamps; and finally sorts the records by distance.
 *
 * Distance from home (geopy's geodesic in the source) is the function value `dist`.
 */
module Data {

  import opened Wrappers
  import opened Geo
  import opened Reports
  import opened Grouping
  import opened Sorting
  import opened Aggregates

  /** A report as data.py handles it after filtering: with its `distance_to_home`, when set. */
  datatype FlightState = FlightState(report: StateVector, distanceToHome: Option<real>)

  /** What `find_closest_approach` returns: a copy of the nearest state plus the group's aggregates. */
  datatype ClosestApproach = ClosestApproach(state: FlightState, numObservations: nat, firstSeen: int, lastSeen: int)

  /** `calculate_distance`: infinity when a coordinate is missing, else the distance from home. */
  function CalculateDistance(lat: Option<real>, lon: Option<real>, dist: (real, real) -> real): (d: Miles)
    ensures d == Infinity <==> lat.None? || lon.None?
    ensures d.Finite? ==> d.miles == dist(lat.value, lon.value)
  {
    if lat.None? || lon.None? then Infinity else Finite(dist(lat.value, lon.value))
  }

  // ---------------------------------------------------------------------------------
  // Filtering by radius

  /** The report has both coordinates and lies within the radius. */
  predicate InRadius(s: StateVector, radius: real, dist: (real, real) -> real) {
    HasPosition(s) && dist(s.latitude.value, s.longitude.value) <= radius
  }

  function Annotated(s: StateVector, dist: (real, real) -> real): FlightState
    requires HasPosition(s)
  {
    FlightState(s, Some(dist(s.latitude.value, s.longitude.value)))
  }

  /** What `filter_by_radius` returns. */
  function WithinRadius(flights: seq<StateVector>, radius: real, dist: (real, real) -> real): seq<FlightState>
    decreases |flights|
  {
    if flights == [] then []
    else
      var prior := WithinRadius(flights[..|flights| - 1], radius, dist);
      var f := flights[|flights| - 1];
      if InRadius(f, radius, dist) then prior + [Annotated(f, dist)] else prior
  }

  /**
   * The kept states are exactly the reports with coordinates within the radius, each
   * annotated with its own distance.
   */
  lemma {:induction false} WithinRadiusExact(flights: seq<StateVector>, radius: real, dist: (real, real) -> real)
    ensures forall i :: 0 <= i < |WithinRadius(flights, radius, dist)| ==>
              var f := WithinRadius(flights, radius, dist)[i];
              f.report in flights && InRadius(f.report, radius, dist) && f == Annotated(f.report, dist)
    ensures forall q :: 0 <= q < |flights| && InRadius(flights[q], radius, dist) ==>
              Annotated(flights[q], dist) in WithinRadius(flights, radius, dist)
    decreases |flights|
  {
    if flights != [] {
      var p := flights[..|flights| - 1];
      WithinRadiusExact(p, radius, dist);
      assert flights == p + [flights[|flights| - 1]];
      forall q | 0 <= q < |p| ensures p[q] == flights[q] { }
    }
  }

  /** One report is kept, once and annotated, exactly when it lies within the radius. */
  lemma WithinRadiusSingle(f: StateVector, radius: real, dist: (real, real) -> real)
    ensures WithinRadius([f], radius, dist) == if InRadius(f, radius, dist) then [Annotated(f, dist)] else []
  {
    assert [f][..0] == [];
  }

  /** Filtering keeps input order: it distributes over concatenation. */
  lemma {:induction false} WithinRadiusAppend(a: seq<StateVector>, b: seq<StateVector>, radius: real, dist: (real, real) -> real)
    ensures WithinRadius(a + b, radius, dist) == WithinRadius(a, radius, dist) + WithinRadius(b, radius, dist)
    decreases |b|
  {
    if b == [] {
      assert a + b == a;
    } else {
      var b' := b[..|b| - 1];
      WithinRadiusAppend(a, b', radius, dist);
      assert (a + b)[..|a + b| - 1] == a + b';
    }
  }

  // ---------------------------------------------------------------------------------
  // Grouping

  function StateId(f: FlightState): Option<string> {
    f.report.icao24
  }

  function Timestamp(f: FlightState): real {
    f.report.timestamp as real
  }

  /** The list `group_by_aircraft` holds for `id`: its states, sorted stably by timestamp. */
  function SortedGroup(flights: seq<FlightState>, id: Option<string>): seq<FlightState> {
    SortBy(GroupOf(flights, StateId, id), Timestamp)
  }

  /** The dict `group_by_aircraft` returns. */
  function GroupedBy(flights: seq<FlightState>): map<Option<string>, seq<FlightState>> {
    map id | id in Keys(flights, StateId) :: SortedGroup(flights, id)
  }

  /** The groups' lists for the ids `ids`, one after another. */
  function Concatenated(ids: seq<Option<string>>, grouped: map<Option<string>, seq<FlightState>>): seq<FlightState>
    requires forall id :: id in ids ==> id in grouped
    decreases |ids|
  {
    if ids == [] then []
    else Concatenated(ids[..|ids| - 1], grouped) + grouped[ids[|ids| - 1]]
  }

  lemma {:induction false} ConcatenatedSorted(flights: seq<FlightState>, ids: seq<Option<string>>)
    requires forall id :: id in ids ==> id in GroupedBy(flights)
    ensures multiset(Concatenated(ids, GroupedBy(flights))) == multiset(Regrouped(flights, StateId, ids))
    decreases |ids|
  {
    if ids != [] {
      var p := ids[..|ids| - 1];
      var last := ids[|ids| - 1];
      assert forall id :: id in p ==> id in ids;
      ConcatenatedSorted(flights, p);
      SortByCorrect(GroupOf(flights, StateId, last), Timestamp);
    }
  }

  /**
   * Each list of `group_by_aircraft` holds exactly the states of its id, is non-empty, is
   * sorted by timestamp, and keeps input order among equal timestamps.
   */
  lemma GroupedByGroup(flights: seq<FlightState>, id: Option<string>)
    requires id in GroupedBy(flights)
    ensures GroupedBy(flights)[id] != []
    ensures forall x :: x in GroupedBy(flights)[id] <==> x in flights && StateId(x) == id
    ensures SortedBy(GroupedBy(flights)[id], Timestamp)
    ensures forall t :: WithKey(GroupedBy(flights)[id], Timestamp, t) == WithKey(GroupOf(flights, StateId, id), Timestamp, t)
  {
    var g := GroupOf(flights, StateId, id);
    GroupOfExact(flights, StateId, id);
    SortByCorrect(g, Timestamp);
    forall x ensures x in SortBy(g, Timestamp) <==> x in g {
      assert x in multiset(SortBy(g, Timestamp)) <==> x in multiset(g);
    }
  }

  /**
   * `group_by_aircraft` partitions its input: it has a list for exactly the ids that occur,
   * and together the lists hold every state exactly once.
   */
  lemma GroupedByPartitions(flights: seq<FlightState>)
    ensures forall id :: id in GroupedBy(flights) <==> exists q :: 0 <= q < |flights| && StateId(flights[q]) == id
    ensures multiset(Concatenated(Keys(flights, StateId), GroupedBy(flights))) == multiset(flights)
  {
    KeysExact(flights, StateId);
    ConcatenatedSorted(flights, Keys(flights, StateId));
    GroupsPartition(flights, StateId);
  }

  /** Sorting, by timestamp, each list of the dict of groups of `flights` yields `GroupedBy(flights)`. */
  lemma SortedGroupsAreGroupedBy(flights: seq<FlightState>, order: seq<Option<string>>,
                                 unsorted: map<Option<string>, seq<FlightState>>,
                                 grouped: map<Option<string>, seq<FlightState>>)
    requires order == Keys(flights, StateId)
    requires forall id :: id in unsorted <==> id in order
    requires forall id :: id in unsorted ==> unsorted[id] == GroupOf(flights, StateId, id)
    requires grouped.Keys == unsorted.Keys
    requires forall m :: 0 <= m < |order| ==> grouped[order[m]] == SortBy(unsorted[order[m]], Timestamp)
    ensures grouped == GroupedBy(flights)
  {
    forall id | id in grouped ensures grouped[id] == GroupedBy(flights)[id] {
      var m :| 0 <= m < |order| && order[m] == id;
    }
    assert grouped.Keys == GroupedBy(flights).Keys;
  }

  // ---------------------------------------------------------------------------------
  // The closest approach of one group

  /** The key `find_closest_approach` minimises: `distance_to_home`, infinity when unset. */
  function DistanceKey(f: FlightState): Miles {
    match f.distanceToHome
    case Some(d) => Finite(d)
    case None => Infinity
  }

  /** The index Python's `min` returns: the first element whose key no other element's key is below. */
  function FirstMin(states: seq<FlightState>): (k: nat)
    requires states != []
    ensures k < |states|
    ensures forall j :: 0 <= j < |states| ==> DistanceKey(states[k]).AtMost(DistanceKey(states[j]))
    ensures forall j :: 0 <= j < k ==> DistanceKey(states[k]).Below(DistanceKey(states[j]))
    decreases |states|
  {
    if |states| == 1 then 0
    else
      var k := FirstMin(states[..|states| - 1]);
      if DistanceKey(states[|states| - 1]).Below(DistanceKey(states[k])) then |states| - 1 else k
  }

  function Timestamps(states: seq<FlightState>): (ts: seq<int>)
    ensures |ts| == |states|
    ensures forall i :: 0 <= i < |states| ==> ts[i] == states[i].report.timestamp
  {
    seq(|states|, i requires 0 <= i < |states| => states[i].report.timestamp)
  }

  /**
   * `find_closest_approach`: None for an empty list; otherwise a copy of the first state at
   * the least `distance_to_home`, with the number of states and the least and greatest
   * timestamps among them.
   */
  function FindClosestApproach(states: seq<FlightState>): (r: Option<ClosestApproach>)
    ensures r.None? <==> states == []
    ensures r.Some? ==>
              && (exists k :: 0 <= k < |states| && r.value.state == states[k]
                    && (forall j :: 0 <= j < |states| ==> DistanceKey(states[k]).AtMost(DistanceKey(states[j])))
                    && (forall j :: 0 <= j < k ==> DistanceKey(states[k]).Below(DistanceKey(states[j]))))
              && r.value.numObservations == |states|
              && r.value.firstSeen <= r.value.lastSeen
              && (forall j :: 0 <= j < |states| ==>
                    r.value.firstSeen <= states[j].report.timestamp <= r.value.lastSeen)
              && (exists j :: 0 <= j < |states| && states[j].report.timestamp == r.value.firstSeen)
              && (exists j :: 0 <= j < |states| && states[j].report.timestamp == r.value.lastSeen)
  {
    if states == [] then None
    else
      var k := FirstMin(states);
      var ts := Timestamps(states);
      Some(ClosestApproach(states[k], |states|, MinInt(ts), MaxInt(ts)))
  }

  // ---------------------------------------------------------------------------------
  // The whole pass

  /** `find_closest_approach` applied to the list `group_by_aircraft` holds for a group. */
  function ClosestOfGroup(group: seq<FlightState>): Option<ClosestApproach> {
    FindClosestApproach(SortBy(group, Timestamp))
  }

  function ApproachId(c: ClosestApproach): Option<string> {
    c.state.report.icao24
  }

  /** The sort key of the final list: `distance_to_home` (always set on filtered states). */
  function DistanceSortKey(c: ClosestApproach): real {
    c.state.distanceToHome.GetOr(0.0)
  }

  /** The records before the final sort, in the order of the grouped dict. */
  function UnsortedApproaches(within: seq<FlightState>): seq<ClosestApproach> {
    PerGroup(within, StateId, Keys(within, StateId), ClosestOfGroup)
  }

  /** What `process_flights` returns. */
  function ProcessedFlights(flights: seq<StateVector>, radius: real, dist: (real, real) -> real): seq<ClosestApproach> {
    var within := WithinRadius(flights, radius, dist);
    if within == [] then [] else SortBy(UnsortedApproaches(within), DistanceSortKey)
  }

  /** The record of a group is a copy of one of the group's states. */
  lemma ClosestOfGroupState(within: seq<FlightState>, id: Option<string>)
    requires ClosestOfGroup(GroupOf(within, StateId, id)).Some?
    ensures ClosestOfGroup(GroupOf(within, StateId, id)).value.state in within
    ensures StateId(ClosestOfGroup(GroupOf(within, StateId, id)).value.state) == id
  {
    var g := GroupOf(within, StateId, id);
    var sg := SortBy(g, Timestamp);
    GroupOfExact(within, StateId, id);
    SortByCorrect(g, Timestamp);
    var c := FindClosestApproach(sg).value;
    var k :| 0 <= k < |sg| && c.state == sg[k];
    assert sg[k] in multiset(g);
  }

  /** A record chosen from the list of an id carries that id. */
  lemma ClosestOfGroupKeepsId(within: seq<FlightState>)
    ensures NamesItsGroup(within, StateId, ClosestOfGroup, ApproachId)
  {
    forall id | ClosestOfGroup(GroupOf(within, StateId, id)).Some?
      ensures ApproachId(ClosestOfGroup(GroupOf(within, StateId, id)).value) == id
    {
      ClosestOfGroupState(within, id);
    }
  }

  /** A non-empty group always yields a record. */
  lemma ClosestOfGroupPresent(within: seq<FlightState>, id: Option<string>)
    requires id in Keys(within, StateId)
    ensures ClosestOfGroup(GroupOf(within, StateId, id)).Some?
  {
    GroupOfExact(within, StateId, id);
    SortByCorrect(GroupOf(within, StateId, id), Timestamp);
  }

  /** An element at two positions occurs at least twice. */
  lemma RepeatedCount(r: seq<ClosestApproach>, i: nat, j: nat)
    requires i < j < |r| && r[i] == r[j]
    ensures multiset(r)[r[i]] >= 2
  {
    assert r == r[..j] + r[j..];
    assert r[i] == r[..j][i] && r[j] == r[j..][0];
    assert multiset(r)[r[i]] == multiset(r[..j])[r[i]] + multiset(r[j..])[r[i]];
  }

  /** In a sequence without repeats every element occurs once. */
  lemma {:induction false} UniqueCount(u: seq<ClosestApproach>, m: nat)
    requires m < |u|
    requires forall a, b :: 0 <= a < b < |u| ==> u[a] != u[b]
    ensures multiset(u)[u[m]] == 1
    decreases |u|
  {
    var p := u[..|u| - 1];
    assert u == p + [u[|u| - 1]];
    if m == |u| - 1 {
      assert u[m] !in p;
    } else {
      UniqueCount(p, m);
      assert u[m] == p[m];
    }
  }

  /** A permutation of records with pairwise distinct ids has pairwise distinct ids. */
  lemma PermutationKeepsDistinctIds(u: seq<ClosestApproach>, r: seq<ClosestApproach>)
    requires multiset(u) == multiset(r)
    requires forall i, j :: 0 <= i < j < |u| ==> ApproachId(u[i]) != ApproachId(u[j])
    ensures forall i, j :: 0 <= i < j < |r| ==> ApproachId(r[i]) != ApproachId(r[j])
  {
    forall i, j | 0 <= i < j < |r| ensures ApproachId(r[i]) != ApproachId(r[j]) {
      if ApproachId(r[i]) == ApproachId(r[j]) {
        assert r[i] in multiset(u) && r[j] in multiset(u);
        var m1 :| 0 <= m1 < |u| && u[m1] == r[i];
        var m2 :| 0 <= m2 < |u| && u[m2] == r[j];
        if r[i] == r[j] {
          RepeatedCount(r, i, j);
          UniqueCount(u, m1);
        }
      }
    }
  }

  /** `process_flights` returns `[]` exactly when no report has coordinates within the radius. */
  lemma ProcessedFlightsEmpty(flights: seq<StateVector>, radius: real, dist: (real, real) -> real)
    ensures ProcessedFlights(flights, radius, dist) == [] <==>
              forall q :: 0 <= q < |flights| ==> !InRadius(flights[q], radius, dist)
  {
    var within := WithinRadius(flights, radius, dist);
    WithinRadiusExact(flights, radius, dist);
    if q :| 0 <= q < |flights| && InRadius(flights[q], radius, dist) {
      assert Annotated(flights[q], dist) in within;
      var u := UnsortedApproaches(within);
      var ks := Keys(within, StateId);
      KeysExact(within, StateId);
      assert StateId(within[0]) in ks;
      var m :| 0 <= m < |ks| && ks[m] == StateId(within[0]);
      ClosestOfGroupPresent(within, ks[m]);
      ClosestOfGroupKeepsId(within);
      PerGroupComplete(within, StateId, ks, ClosestOfGroup, ApproachId, u);
      SortByCorrect(u, DistanceSortKey);
    }
  }

  /**
   * The result is sorted ascending by distance, is a permutation of the per-aircraft
   * records in grouping order, and among equal distances keeps that order (a stable sort).
   */
  lemma ProcessedFlightsSorted(flights: seq<StateVector>, radius: real, dist: (real, real) -> real, r: seq<ClosestApproach>)
    requires r == ProcessedFlights(flights, radius, dist)
    requires WithinRadius(flights, radius, dist) != []
    ensures SortedBy(r, DistanceSortKey)
    ensures multiset(r) == multiset(UnsortedApproaches(WithinRadius(flights, radius, dist)))
    ensures forall d :: WithKey(r, DistanceSortKey, d)
                          == WithKey(UnsortedApproaches(WithinRadius(flights, radius, dist)), DistanceSortKey, d)
  {
    SortByCorrect(UnsortedApproaches(WithinRadius(flights, radius, dist)), DistanceSortKey);
  }

  /** Every record of a permutation of the per-aircraft records is its own group's record. */
  lemma ApproachesChosen(within: seq<FlightState>, r: seq<ClosestApproach>)
    requires multiset(r) == multiset(UnsortedApproaches(within))
    ensures forall i :: 0 <= i < |r| ==>
              && r[i].state in within
              && ClosestOfGroup(GroupOf(within, StateId, ApproachId(r[i]))) == Some(r[i])
  {
    var u := UnsortedApproaches(within);
    ClosestOfGroupKeepsId(within);
    PerGroupSound(within, StateId, Keys(within, StateId), ClosestOfGroup, ApproachId, u);
    forall i | 0 <= i < |r|
      ensures && r[i].state in within
              && ClosestOfGroup(GroupOf(within, StateId, ApproachId(r[i]))) == Some(r[i])
    {
      assert r[i] in multiset(u);
      var m :| 0 <= m < |u| && u[m] == r[i];
      ClosestOfGroupState(within, ApproachId(r[i]));
    }
  }

  /**
   * Every record is the closest approach of its aircraft's in-radius states: its state is
   * an in-radius report annotated with its own distance, which is at most the radius.
   */
  lemma ProcessedFlightsSound(flights: seq<StateVector>, radius: real, dist: (real, real) -> real, r: seq<ClosestApproach>)
    requires r == ProcessedFlights(flights, radius, dist)
    ensures forall i :: 0 <= i < |r| ==>
              && InRadius(r[i].state.report, radius, dist)
              && r[i].state.report in flights
              && r[i].state == Annotated(r[i].state.report, dist)
              && r[i].state.distanceToHome.Some? && r[i].state.distanceToHome.value <= radius
              && ClosestOfGroup(GroupOf(WithinRadius(flights, radius, dist), StateId, ApproachId(r[i]))) == Some(r[i])
  {
    var within := WithinRadius(flights, radius, dist);
    if within != [] {
      WithinRadiusExact(flights, radius, dist);
      ProcessedFlightsSorted(flights, radius, dist, r);
      ApproachesChosen(within, r);
      forall i | 0 <= i < |r|
        ensures && InRadius(r[i].state.report, radius, dist)
                && r[i].state.report in flights
                && r[i].state == Annotated(r[i].state.report, dist)
      {
        var w :| 0 <= w < |within| && within[w] == r[i].state;
      }
    }
  }

  /**
   * A record's distance is at most that of every in-radius report of the same aircraft, and
   * it counts and spans (first/last seen) exactly that aircraft's in-radius reports.
   */
  lemma ProcessedFlightsMinimal(flights: seq<StateVector>, radius: real, dist: (real, real) -> real, r: seq<ClosestApproach>)
    requires r == ProcessedFlights(flights, radius, dist)
    ensures forall i, q :: 0 <= i < |r| && 0 <= q < |flights| && InRadius(flights[q], radius, dist)
                           && flights[q].icao24 == ApproachId(r[i]) ==>
              && r[i].state.distanceToHome.Some?
              && r[i].state.distanceToHome.value <= dist(flights[q].latitude.value, flights[q].longitude.value)
              && r[i].firstSeen <= flights[q].timestamp <= r[i].lastSeen
    ensures forall i :: 0 <= i < |r| ==>
              r[i].numObservations == |GroupOf(WithinRadius(flights, radius, dist), StateId, ApproachId(r[i]))|
  {
    var within := WithinRadius(flights, radius, dist);
    ProcessedFlightsSound(flights, radius, dist, r);
    WithinRadiusExact(flights, radius, dist);
    forall i, q | 0 <= i < |r| && 0 <= q < |flights| && InRadius(flights[q], radius, dist)
                  && flights[q].icao24 == ApproachId(r[i])
      ensures && r[i].state.distanceToHome.Some?
              && r[i].state.distanceToHome.value <= dist(flights[q].latitude.value, flights[q].longitude.value)
              && r[i].firstSeen <= flights[q].timestamp <= r[i].lastSeen
    {
      var g := GroupOf(within, StateId, ApproachId(r[i]));
      GroupOfExact(within, StateId, ApproachId(r[i]));
      SortByCorrect(g, Timestamp);
      var sg := SortBy(g, Timestamp);
      var a := Annotated(flights[q], dist);
      assert a in g;
      assert a in multiset(sg);
      var j :| 0 <= j < |sg| && sg[j] == a;
      var k :| 0 <= k < |sg| && r[i].state == sg[k]
                 && (forall j :: 0 <= j < |sg| ==> DistanceKey(sg[k]).AtMost(DistanceKey(sg[j])));
      assert DistanceKey(sg[k]).AtMost(DistanceKey(sg[j]));
    }
    forall i | 0 <= i < |r|
      ensures r[i].numObservations == |GroupOf(within, StateId, ApproachId(r[i]))|
    {
      SortByCorrect(GroupOf(within, StateId, ApproachId(r[i])), Timestamp);
    }
  }

  /** `process_flights` returns at most one record per aircraft. */
  lemma ProcessedFlightsOnePerAircraft(flights: seq<StateVector>, radius: real, dist: (real, real) -> real, r: seq<ClosestApproach>)
    requires r == ProcessedFlights(flights, radius, dist)
    ensures forall i, j :: 0 <= i < j < |r| ==> ApproachId(r[i]) != ApproachId(r[j])
  {
    var within := WithinRadius(flights, radius, dist);
    if within != [] {
      var u := UnsortedApproaches(within);
      KeysExact(within, StateId);
      ClosestOfGroupKeepsId(within);
      PerGroupOnePerKey(within, StateId, Keys(within, StateId), ClosestOfGroup, ApproachId, u);
      ProcessedFlightsSorted(flights, radius, dist, r);
      PermutationKeepsDistinctIds(u, r);
    }
  }

  /** Every id of the grouped states has a record before the final sort. */
  lemma ApproachesCover(within: seq<FlightState>, id: Option<string>)
    requires id in Keys(within, StateId)
    ensures exists i :: 0 <= i < |UnsortedApproaches(within)| && ApproachId(UnsortedApproaches(within)[i]) == id
  {
    var ks := Keys(within, StateId);
    var m :| 0 <= m < |ks| && ks[m] == id;
    ClosestOfGroupPresent(within, id);
    ClosestOfGroupKeepsId(within);
    PerGroupComplete(within, StateId, ks, ClosestOfGroup, ApproachId, UnsortedApproaches(within));
  }

  /** Every record belongs to an aircraft with a report within the radius. */
  lemma ProcessedFlightsFromReports(flights: seq<StateVector>, radius: real, dist: (real, real) -> real,
                                    r: seq<ClosestApproach>, i: nat)
    requires r == ProcessedFlights(flights, radius, dist)
    requires i < |r|
    ensures exists q :: 0 <= q < |flights| && InRadius(flights[q], radius, dist) && flights[q].icao24 == ApproachId(r[i])
  {
    ProcessedFlightsSound(flights, radius, dist, r);
    var q :| 0 <= q < |flights| && flights[q] == r[i].state.report;
  }

  /** Every aircraft with a report within the radius has a record. */
  lemma ProcessedFlightsComplete(flights: seq<StateVector>, radius: real, dist: (real, real) -> real, r: seq<ClosestApproach>)
    requires r == ProcessedFlights(flights, radius, dist)
    ensures forall q :: 0 <= q < |flights| && InRadius(flights[q], radius, dist) ==>
              exists i :: 0 <= i < |r| && ApproachId(r[i]) == flights[q].icao24
  {
    var within := WithinRadius(flights, radius, dist);
    WithinRadiusExact(flights, radius, dist);
    forall q | 0 <= q < |flights| && InRadius(flights[q], radius, dist)
      ensures exists i :: 0 <= i < |r| && ApproachId(r[i]) == flights[q].icao24
    {
      var a := Annotated(flights[q], dist);
      var w :| 0 <= w < |within| && within[w] == a;
      KeysExact(within, StateId);
      ApproachesCover(within, StateId(a));
      var u := UnsortedApproaches(within);
      var i :| 0 <= i < |u| && ApproachId(u[i]) == StateId(a);
      ProcessedFlightsSorted(flights, radius, dist, r);
      assert u[i] in multiset(r);
    }
  }

  // ---------------------------------------------------------------------------------
  // The processor

  /** `FlightProcessor` of data.py: the home location and search radius, fixed at construction. */
  class FlightProcessor {
    const homeLat: real
    const homeLon: real
    const radiusMiles: real
    /** `geodesic(home, point).miles` for a (latitude, longitude) point. */
    const dist: (real, real) -> real

    constructor (homeLat: real, homeLon: real, radiusMiles: real, geodesic: (real, real, real, real) -> real)
      ensures this.homeLat == homeLat && this.homeLon == homeLon && this.radiusMiles == radiusMiles
      ensures forall lat, lon :: dist(lat, lon) == geodesic(homeLat, homeLon, lat, lon)
    {
      this.homeLat := homeLat;
      this.homeLon := homeLon;
      this.radiusMiles := radiusMiles;
      this.dist := (lat, lon) => geodesic(homeLat, homeLon, lat, lon);
    }

    /** `filter_by_radius`: keep, in order, the reports with coordinates within the radius, annotated. */
    method FilterByRadius(flights: seq<StateVector>) returns (filtered: seq<FlightState>)
      ensures filtered == WithinRadius(flights, radiusMiles, dist)
    {
      filtered := [];
      for i := 0 to |flights|
        invariant filtered == WithinRadius(flights[..i], radiusMiles, dist)
      {
        assert flights[..i + 1][..i] == flights[..i];
        var flight := flights[i];
        if flight.latitude.None? || flight.longitude.None? {
          continue;
        }
        var distance := CalculateDistance(flight.latitude, flight.longitude, dist);
        if distance.AtMost(Finite(radiusMiles)) {
          filtered := filtered + [FlightState(flight, Some(distance.miles))];
        }
      }
      assert flights[..|flights|] == flights;
    }

    /**
     * `group_by_aircraft`: append each state to the list of its id (`order` is the dict's key
     * order), then sort every list by timestamp.
     */
    method GroupByAircraft(flights: seq<FlightState>) returns (order: seq<Option<string>>, grouped: map<Option<string>, seq<FlightState>>)
      ensures order == Keys(flights, StateId)
      ensures grouped == GroupedBy(flights)
    {
      grouped := map[];
      order := [];
      for i := 0 to |flights|
        invariant order == Keys(flights[..i], StateId)
        invariant forall id :: id in grouped <==> id in order
        invariant forall id :: id in grouped ==> grouped[id] == GroupOf(flights[..i], StateId, id)
      {
        var flight := flights[i];
        var id := flight.report.icao24;
        ghost var order0, grouped0 := order, grouped;
        var list := if id in grouped then grouped[id] else [];
        if id !in grouped {
          order := order + [id];
        }
        grouped := grouped[id := list + [flight]];
        DictAppendStep(flights[..i], flight, StateId, order0, grouped0, order, grouped);
        assert flights[..i + 1] == flights[..i] + [flight];
      }
      assert flights[..|flights|] == flights;
      assert Distinct(order) by {
        KeysExact(flights, StateId);
      }

      ghost var unsorted := grouped;
      for j := 0 to |order|
        invariant grouped.Keys == unsorted.Keys
        invariant forall m :: 0 <= m < j ==> grouped[order[m]] == SortBy(unsorted[order[m]], Timestamp)
        invariant forall m :: j <= m < |order| ==> grouped[order[m]] == unsorted[order[m]]
      {
        ghost var before := grouped;
        grouped := grouped[order[j] := SortBy(grouped[order[j]], Timestamp)];
        forall m | 0 <= m < |order| && m != j ensures grouped[order[m]] == before[order[m]] {
          assert order[m] != order[j];
        }
      }
      SortedGroupsAreGroupedBy(flights, order, unsorted, grouped);
    }

    /** `process_flights`: filter, group, take each group's closest approach, sort by distance. */
    method ProcessFlights(flights: seq<StateVector>) returns (result: seq<ClosestApproach>)
      ensures result == ProcessedFlights(flights, radiusMiles, dist)
    {
      var withinRadius := FilterByRadius(flights);
      if |withinRadius| == 0 {
        return [];
      }
      var order, grouped := GroupByAircraft(withinRadius);
      var closestApproaches: seq<ClosestApproach> := [];
      for j := 0 to |order|
        invariant closestApproaches == PerGroup(withinRadius, StateId, order[..j], ClosestOfGroup)
      {
        assert order[..j + 1][..j] == order[..j];
        assert order[j] in order;
        var closest := FindClosestApproach(grouped[order[j]]);
        if closest.Some? {
          closestApproaches := closestApproaches + [closest.value];
        }
      }
      assert order[..|order|] == order;
      result := SortBy(closestApproaches, DistanceSortKey);
    }
  }
}
