# Closest approaches of aircraft to home

This project models the data core of a wallpaper generator. The generator reads
OpenSky-style state vectors (one position report of one aircraft at one moment). It
keeps, for every aircraft that came within a radius of a home location, the report
closest to home. It then summarises those closest approaches and draws them on a map.

The repository has two versions of the processor, and both are modelled:

- `process_data.py` groups the reports that have a truthy `icao24` by that id. For each
  group it runs a single-pass running minimum. A report replaces the current best only
  when it has coordinates, is strictly nearer, and lies within the radius. The result
  comes out in the order the ids first appear. `get_statistics` summarises the result:
  a count, the least, greatest and mean distance, and the least, greatest and mean
  altitude in feet.
- `data.py` first keeps the reports with coordinates within the radius and annotates
  each with `distance_to_home`. It groups them by `icao24` (any value, `None` included)
  and sorts every group by timestamp. For each group it takes Python's `min` by
  distance (the first minimum) together with the group's size and its first and last
  timestamps. Finally it sorts the records by distance, stably.
- `generate_image.py` contributes the marker-size rule (four altitude bands) and the
  miles-to-degrees conversion used for the circle around home.

Distance is haversine great-circle distance in `process_data.py` and geopy's ellipsoidal
`geodesic` in `data.py`. It is not modelled. Each processor holds it as a function value
`dist(lat, lon)`, the distance from home in miles. Its constructor builds that value
from the distance function and the home coordinates. Distances and altitudes are Dafny `real`s; timestamps and counts are integers.
Python's `float('inf')` is `Geo.Miles.Infinity`.

Module layout: `Wrappers` (Option), `Geo` (extended-real miles, unit constants,
miles-to-degrees), `Reports` (the state vector), `Grouping` (a dict of lists filled in
first-appearance order, and one result per group), `Sorting` (Python's stable
`list.sort` by a numeric key, specified as insertion sort), `Aggregates` (min, max,
sum, mean), and then one module per source file: `ProcessData`, `Data` and
`GenerateImage`.

Each processor is a class. Its home location, radius and distance function are `const`
fields. Every method has a loop and is proved equal to a specification function, such
as `ProcessData.ProcessedFlights`, `Data.WithinRadius` or `Data.GroupedBy`. The lemmas
then prove what the source promises about those functions.

Where the two processors differ:

- In `data.py`, `num_observations`, `first_seen` and `last_seen` cover only the
  aircraft's in-radius reports, because filtering happens before grouping; they do not
  span the whole track. `Data.ProcessedFlightsMinimal` states the in-radius scope.
- `process_data.py` does not sort its result and computes no observation count or
  first/last-seen time. Its output order is the first-appearance order of ids
  (`ProcessData.ProcessedFlightsInFirstAppearanceOrder`).
- `process_data.py` breaks distance ties by input order. `data.py` breaks them by
  timestamp order, because each group is sorted before `min`. Among equal timestamps it
  falls back to input order.

## Model

| member | source | states |
|---|---|---|
| Geo.MilesToDegrees | process_data.py:23-27 | the result is at least `miles/69` and at least `miles/(69 cos φ)`, and equals one of them (their maximum) |
| Geo.EquatorRoundTrip | process_data.py:25-27 | at cos φ = 1 both extents agree, and converting the degrees back with 69 miles per degree gives the radius again |
| Geo.BoxCoversRadius | generate_image.py:152-157 | for a non-negative radius the longitude extent is the one chosen, so the circle drawn around home reaches at least the search radius along both axes |
| Grouping.KeysExact | process_data.py:50-52 | the dict's keys are distinct, each is the id of some grouped report, and every grouped report's id is a key |
| Grouping.KeysInFirstAppearanceOrder | process_data.py:50-51 | the keys are in first-appearance order: for an earlier key, some report with it comes before any report of a later key |
| Grouping.GroupOfExact | process_data.py:50-52 | a key's list holds exactly the reports with that key and is empty exactly when the key never occurs |
| Grouping.GroupOfAppend | process_data.py:45-52 | lists keep input order: grouping a concatenation concatenates the groups |
| Grouping.DictAppendStep | data.py:45-46 | one `grouped[key].append(x)` on a `defaultdict(list)` turns the key order and lists for `s` into those for `s + [x]` |
| Grouping.GroupsPartition | data.py:43-46 | the lists together hold every input element exactly once (as a multiset) |
| Grouping.PerGroupSound | process_data.py:59-63 | each appended result belongs to one of the keys and is what the reduction returns for that key's list |
| Grouping.PerGroupComplete | process_data.py:59-63 | every key whose reduction is truthy contributes a result |
| Grouping.PerGroupOrdered | process_data.py:60-63 | results appear in the order of their keys |
| Grouping.PerGroupOnePerKey | process_data.py:59-63 | over distinct keys, no two results name the same key |
| Sorting.SortByCorrect | data.py:86 | `list.sort(key=...)` yields a sorted permutation of its input of the same length that keeps the input order among equal keys |
| Aggregates.Min | process_data.py:124 | `min` returns an element of the list that is at most every element |
| Aggregates.Max | process_data.py:125 | `max` returns an element of the list that is at least every element |
| Aggregates.MeanBetween | process_data.py:126 | the mean `sum/len` lies between the minimum and the maximum |
| Aggregates.MinInt | data.py:62 | the least timestamp is one of the timestamps and bounds them all from below |
| Aggregates.MaxInt | data.py:63 | the greatest timestamp is one of the timestamps and bounds them all from above |
| ProcessData.Closest | process_data.py:73-84 | the running minimum only ever holds a report that has coordinates and lies within the radius |
| ProcessData.ClosestIsFirstMinimum | process_data.py:70-87 | it ends with nothing exactly when no report is eligible, and otherwise with exactly the first report at minimum distance among the eligible ones |
| ProcessData.ClosestApproachCorrect | process_data.py:86-99 | `_find_closest_approach` is None exactly when no report has coordinates within the radius; otherwise it copies the first nearest report, with a distance within the radius and no greater than any eligible report's |
| ProcessData.LaterTieKeepsEarlier | process_data.py:82-84 | a later report at the same distance as the current best does not replace it (strict `<`, first wins) |
| ProcessData.IdentifiedOnlySingle | process_data.py:45-48 | one report is kept, once, exactly when its `icao24` is present and non-empty |
| ProcessData.IdentifiedOnlyAppend | process_data.py:45-52 | dropping unidentified reports distributes over concatenation; with `IdentifiedOnlySingle` the kept reports are the identified ones, each once, in input order |
| ProcessData.IdentifiedOnlyExact | process_data.py:45-48 | the grouped reports are exactly the input reports whose `icao24` is present and non-empty |
| ProcessData.ApproachKeepsId | process_data.py:89-90 | the approach chosen from an id's list carries that id |
| ProcessData.ProcessedFlightsSound | process_data.py:59-63 | every returned approach has a truthy id, a distance within the radius, and is the closest approach of that id's reports |
| ProcessData.ProcessedFlightsMinimal | process_data.py:82-84 | a returned distance is no greater than that of any report of the same aircraft with coordinates within the radius |
| ProcessData.ProcessedFlightsOnePerAircraft | process_data.py:59-63 | no two returned approaches share an id |
| ProcessData.ProcessedFlightsComplete | process_data.py:44-63 | an aircraft has an approach if and only if it has a truthy id and at least one report with coordinates within the radius |
| ProcessData.ProcessedFlightsInFirstAppearanceOrder | process_data.py:50-60 | approaches come in the order in which their ids first appear among the identified reports |
| ProcessData.AltitudesFeetComplete | process_data.py:117-120 | every present altitude, times 3.28084, is among the converted altitudes |
| ProcessData.AltitudesFeetSound | process_data.py:117-120 | every converted altitude is a present altitude times 3.28084 |
| ProcessData.AltitudesFeetSingle | process_data.py:117-120 | one approach contributes its altitude times 3.28084 when it has one, and nothing otherwise |
| ProcessData.AltitudesFeetAppend | process_data.py:117-120 | conversion distributes over concatenation; with `AltitudesFeetSingle` this gives one converted entry per approach that has an altitude, in order, so repeated altitudes each count towards the mean |
| ProcessData.StatisticsOfEmpty | process_data.py:103-112 | with no approaches the count is 0 and every other statistic is None |
| ProcessData.StatisticsDistances | process_data.py:114-127 | over a non-empty list the count is its length, the closest and furthest distances are attained and bound every distance, and the average lies between them |
| ProcessData.StatisticsAltitudes | process_data.py:129-136 | the altitude statistics are None exactly when no approach has an altitude; otherwise min ≤ mean ≤ max, they bound every present altitude in feet, and min and max are each some approach's altitude in feet |
| ProcessData.FlightProcessor.constructor | process_data.py:33-36 | stores home and radius; distance from home is haversine from the stored home |
| ProcessData.FlightProcessor.FindClosestApproach | process_data.py:68-99 | the running-minimum loop returns `ClosestApproach(states)`, whose meaning `ClosestApproachCorrect` states |
| ProcessData.FlightProcessor.ProcessFlights | process_data.py:38-66 | the dict-building loop and the per-group loop return `ProcessedFlights(flights)` |
| ProcessData.FlightProcessor.GetStatistics | process_data.py:101-138 | the method returns `StatisticsOf(approaches)`, whose meaning the statistics lemmas state |
| Data.CalculateDistance | data.py:17-22 | infinity exactly when a coordinate is missing; otherwise the geodesic distance from home |
| Data.WithinRadiusExact | data.py:28-36 | the kept states are exactly the reports with coordinates within the radius, each annotated with its own distance |
| Data.WithinRadiusSingle | data.py:28-36 | one report is kept, once and annotated with its own distance, exactly when it has coordinates within the radius |
| Data.WithinRadiusAppend | data.py:28-36 | filtering distributes over concatenation; with `WithinRadiusSingle` each in-radius report is kept exactly once, in input order |
| Data.GroupedByGroup | data.py:41-51 | each list holds exactly its id's states, is non-empty, is sorted by timestamp, and keeps input order among equal timestamps |
| Data.GroupedByPartitions | data.py:43-51 | there is a list for exactly the ids that occur, and the lists together hold every state exactly once |
| Data.SortedGroupsAreGroupedBy | data.py:48-51 | sorting every list of the grouped dict by timestamp gives the dict `group_by_aircraft` returns |
| Data.FirstMin | data.py:58 | `min` by distance picks a state no farther than any other and strictly nearer than every earlier one (the first minimum; a missing distance is infinity) |
| Data.FindClosestApproach | data.py:53-65 | None exactly for an empty list; otherwise a copy of the first nearest state, the list's length, and a first/last seen that are attained timestamps bounding all of them |
| Data.ClosestOfGroupState | data.py:58-60 | the record of an id's list is a copy of one of that id's states |
| Data.ClosestOfGroupKeepsId | data.py:58-60 | the record chosen from an id's list carries that id |
| Data.ClosestOfGroupPresent | data.py:81-84 | the list of every occurring id yields a record |
| Data.ProcessedFlightsEmpty | data.py:71-75 | the result is empty exactly when no report has coordinates within the radius |
| Data.ProcessedFlightsSorted | data.py:86 | the result is sorted by distance, is a permutation of the per-aircraft records in dict order, and keeps that order among equal distances |
| Data.ProcessedFlightsSound | data.py:67-86 | every record's state is an input report within the radius, annotated with its own distance, and the record is the closest approach of its id's sorted list |
| Data.ProcessedFlightsMinimal | data.py:53-65 | a record's distance is no greater than that of any in-radius report of the same aircraft; its first/last seen bound those reports' timestamps; it counts exactly those reports |
| Data.ProcessedFlightsOnePerAircraft | data.py:77-86 | no two records share an id |
| Data.ProcessedFlightsFromReports | data.py:28-36 | every record belongs to an aircraft that has a report within the radius |
| Data.ProcessedFlightsComplete | data.py:71-84 | every aircraft with a report within the radius has a record |
| Data.FlightProcessor.constructor | data.py:13-15 | stores home and radius; distance from home is the geodesic from the stored home |
| Data.FlightProcessor.FilterByRadius | data.py:24-39 | the loop returns `WithinRadius(flights)`, whose meaning `WithinRadiusExact` states |
| Data.FlightProcessor.GroupByAircraft | data.py:41-51 | the append loop and the sort loop return the keys in first-appearance order and `GroupedBy(flights)` |
| Data.FlightProcessor.ProcessFlights | data.py:67-86 | the pipeline returns `ProcessedFlights(flights)`, whose meaning the `ProcessedFlights*` lemmas state |
| GenerateImage.MarkerSize | generate_image.py:135-150 | the size is between 3 and 6, and 4 when the altitude is unknown |
| GenerateImage.MarkerSizeBands | generate_image.py:141-150 | size 6 exactly below 5000 ft, 5 exactly in [5000, 15000), 4 exactly in [15000, 30000), 3 exactly from 30000 ft up |
| GenerateImage.MarkerSizeNonIncreasing | generate_image.py:143-150 | a higher altitude never gives a larger marker |

## Left out

- `haversine_distance` and geopy's `geodesic` are not modelled. Their trigonometry and the geodesic library are foreign to the model. Each processor takes the distance as a function value, and no property of distance is assumed.
- Geo.MilesToDegrees: takes `cos(radians(latitude))` as a parameter in (0, 1] rather than computing it. The trigonometry is out of scope. A cosine of zero or below cannot occur for a latitude strictly between the poles.
- Floating-point rounding, NaN and overflow are not modelled: distances, altitudes and averages are exact reals.
- Reports are typed records. A missing dict key is not modelled: `data.py` indexes `flight['icao24']`, `flight['latitude']` and `s['timestamp']` and would raise `KeyError`. A field given as `None` is modelled, as `Option.None`.
- Timestamps are always present integers. A `None` timestamp makes `data.py` raise `TypeError` once its group holds a second report; a lone report yields `first_seen = last_seen = None`, which the model cannot represent. In `process_data.py` a `None` timestamp would be copied into the approach unchanged.
- Data.FlightProcessor.FilterByRadius: returns annotated copies. The source writes `distance_to_home` into the caller's report dicts, and that aliasing is not modelled.
- Data.DistanceSortKey: uses 0.0 for a missing distance where the source would raise `KeyError`. Every record has a distance (`Data.ProcessedFlightsSound`), so the default is never used.
- The `print` diagnostics of both processors are left out. They include `process_data.py:55`, which reports the number of aircraft as the number of states within the radius.
- Fetching, enrichment, configuration, the demo data generator, `image.py` and all plotting (`create_wallpaper` and the `_create_*`/`_add_text_info` helpers) are not part of this model. `generate_image.py`'s `_miles_to_degrees` is the same computation as `process_data.py`'s `miles_to_degrees`, so it is modelled once, as `Geo.MilesToDegrees`.
