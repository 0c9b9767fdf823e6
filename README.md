# FireForce bookkeeping core in Dafny

This project models the bookkeeping layer of the MiniFireForce simulator. That
layer is five Java classes:

- **FireStation**: a fixed position, a truck count, and an id taken from a
  class-wide counter.
- **Fire**: position, severity, time and a spread percentage. Its id is a
  class-wide counter.
- **FireTruck**: a truck's speed and its two timing formulas.
- **MovingTruck**: a truck on a journey. Its position is interpolated from the
  clock.
- **GenSituationClass**: the registry and dispatcher. It holds the active
  fires, the stations and a distance table ordered by distance. It picks the
  most severe fire and sends trucks to a fire greedily, nearest station first.

Each class that the source updates in place is a Dafny `class` with the same
fields. Its methods state the new state in their `ensures`. Pure formulas are
functions with named results. Loops stay loops, with their invariants:

- registering a fire;
- listing the stations nearest first;
- choosing the most severe fire;
- the truck walk of `deployFireTrucks`.

Java's `static` counters become one `Ids.Counter` object. It is passed to each
constructor that bumps it. A `Fire` keeps a reference to its counter, and
`GetID` reads the counter's current value. So, as in the source, every fire
built with the same counter reports the same id: the number of fires built so
far (`Fires.SharedId`).

The `TreeMap<Double, FireStation>` of distances is a `map<real, FireStation>`.
Its key order is `Ranking.SortedKeys`: the keys, each once, in strictly
ascending order. Distances are squared Euclidean distances over `real`. Over the reals the
square root preserves their order and which of them are equal, so the table
gets the same keys in the same order. With `double` rounding two different
squares can have the same root; that is part of the floating-point line under
"## Left out".

The walk of `deployFireTrucks` is specified on values by `Dispatch.Greedy`, a
function on a map from station to truck count. It works per station, not per
list position, because the distance table can list the same station under
several distances. The properties it must meet are proved about it:

- Conservation: the trucks taken equal the trucks asked for minus the final
  shortfall.
- Success: the walk succeeds exactly when the distinct listed stations hold
  enough trucks between them.
- Draining: every station passed over is left without trucks.
- Frame: stations without trucks, and stations not listed, keep their count.

The imperative loop (`Dispatch.Walk`) is proved to leave the stations exactly
as `Greedy` says.

Three points of the dispatcher's behaviour shape the model:

- **Number of trucks sent.** `deployFireTrucks` asks for `severity / 2 + 1`
  trucks and walks the whole station list until they are found.
- **Running out of stations.** When the walk passes the end of the list,
  `get` throws. The model makes this an error outcome of `DeployFireTrucks`
  (`ok == false`) rather than a precondition:
  - the stations stay drained as far as the walk got;
  - the fire stays registered.
- **Negative truck counts.** The code does not check its arguments, so the
  model states non-negativity only where the code guarantees it.

`generateFire` calls a four-argument `Fire` constructor that Fire.java does
not declare. The model builds the fire with spread 0, the field's initial
value.

## Model

| member | source | states |
|---|---|---|
| Ids.Counter.constructor | src/main/java/MiniFireForce/FireStation.java:11 | a class-wide counter starts at 0 |
| FireStations.Deploy | src/main/java/MiniFireForce/FireStation.java:67-75 | the shortfall contract: trucks handed out equal trucks requested minus the shortfall; neither the remaining count nor the shortfall is negative; a shortfall only when the station is emptied; no shortfall exactly when the station holds enough |
| FireStations.DeployThenRetrieve | src/main/java/MiniFireForce/FireStation.java:67-84 | a deployment without shortfall followed by retrieving the same number restores the count |
| FireStations.FireStation.constructor | src/main/java/MiniFireForce/FireStation.java:21-26 | stores position and trucks; the id is the previous counter value plus one, and the counter now holds it |
| FireStations.FireStation.CalculateDistance | src/main/java/MiniFireForce/FireStation.java:47-51 | the (squared) distance is non-negative and zero at the station's own position |
| FireStations.DistanceSymmetric | src/main/java/MiniFireForce/FireStation.java:47-51 | the distance between two stations is the same measured from either one |
| FireStations.FireStation.CanDeploy | src/main/java/MiniFireForce/FireStation.java:58 | a station can deploy exactly when one truck can be had without shortfall, and then any positive request gets a smaller shortfall |
| FireStations.FireStation.DeployTruck | src/main/java/MiniFireForce/FireStation.java:67-75 | the new count and the returned shortfall are those of `Deploy` on the old count; trucks removed equal required minus shortfall; only `trucks` changes |
| FireStations.FireStation.RetrieveTruck | src/main/java/MiniFireForce/FireStation.java:82-84 | the count grows by exactly the returned trucks; only `trucks` changes |
| Fires.RaisedSpread | src/main/java/MiniFireForce/Fire.java:117-119 | the raised spread is the sum or 100, whichever is smaller, and never above 100 |
| Fires.Fire.constructor | src/main/java/MiniFireForce/Fire.java:22-29 | stores every field and bumps the shared counter by one; the new fire's id is the new counter value |
| Fires.Fire.GetID | src/main/java/MiniFireForce/Fire.java:31-33 | the id reported is the current value of the class-wide counter, not a number of the fire itself |
| Fires.Fire.IsActive | src/main/java/MiniFireForce/Fire.java:103-105 | a fire is active exactly when its severity is at least 1 |
| Fires.SharedId | src/main/java/MiniFireForce/Fire.java:31-33 | two fires built with the same counter report the same id |
| Fires.Fire.SetX | src/main/java/MiniFireForce/Fire.java:75-77 | sets `x` and nothing else |
| Fires.Fire.SetY | src/main/java/MiniFireForce/Fire.java:82-84 | sets `y` and nothing else |
| Fires.Fire.SetTime | src/main/java/MiniFireForce/Fire.java:89-91 | sets `time` and nothing else |
| Fires.Fire.UpdateSeverity | src/main/java/MiniFireForce/Fire.java:96-105 | sets `severity` and nothing else; the fire is then active exactly when the new severity is positive |
| Fires.Fire.ResetSpread | src/main/java/MiniFireForce/Fire.java:110-112 | sets `spread` to 0 and nothing else |
| Fires.Fire.IncreaseSpread | src/main/java/MiniFireForce/Fire.java:117-119 | the spread becomes the capped sum and is at most 100; nothing else changes |
| FireTrucks.FireTruck.constructor | src/main/java/MiniFireForce/FireTruck.java:17-21 | stores speed and extinguish time and bumps the truck counter by one |
| FireTrucks.FireTruck.TravelTimeSquared | src/main/java/MiniFireForce/FireTruck.java:37-40 | the squared travel time times the squared speed is the squared station-to-fire distance, i.e. it is the square of distance over speed; it is non-negative and zero when the fire is at the station |
| FireTrucks.FireTruck.ExtinguishingTime | src/main/java/MiniFireForce/FireTruck.java:49-51 | the time multiplied by the number of trucks is five times the severity; it is non-negative for a non-negative severity and a positive number of trucks |
| FireTrucks.MoreTrucksNoSlower | src/main/java/MiniFireForce/FireTruck.java:49-51 | with a fixed non-negative severity, more trucks never take longer |
| MovingTrucks.Progress | src/main/java/MiniFireForce/MovingTruck.java:110-112 | the interpolation factor is at most 1; it is 1 once the duration has elapsed or when the duration is 0; it is 0 at the start; before the end it is the elapsed fraction of the duration |
| MovingTrucks.Lerp | src/main/java/MiniFireForce/MovingTruck.java:113 | factor 0 gives the start, factor 1 the destination, and a factor in [0, 1] a point between them |
| MovingTrucks.MovingTruck.constructor | src/main/java/MiniFireForce/MovingTruck.java:33-47 | stores the journey and the initial state; the timer starts at the construction time |
| MovingTrucks.MovingTruck.SetState | src/main/java/MiniFireForce/MovingTruck.java:54-57 | sets the state and restarts the timer; nothing else changes |
| MovingTrucks.MovingTruck.SetDestination | src/main/java/MiniFireForce/MovingTruck.java:65-68 | sets the destination and nothing else |
| MovingTrucks.MovingTruck.SetTravelDuration | src/main/java/MiniFireForce/MovingTruck.java:75-77 | sets the duration and nothing else |
| MovingTrucks.MovingTruck.ResetStartTime | src/main/java/MiniFireForce/MovingTruck.java:82-84 | restarts the timer and nothing else |
| MovingTrucks.MovingTruck.CurrentX | src/main/java/MiniFireForce/MovingTruck.java:106-114 | pinned at the destination while extinguishing and once the journey time has elapsed; at the start point when no time has elapsed; otherwise between start and destination |
| MovingTrucks.MovingTruck.CurrentY | src/main/java/MiniFireForce/MovingTruck.java:121-129 | as `CurrentX`, for the y coordinate |
| Ranking.LeastExists | src/main/java/MiniFireForce/GenSituationClass.java:50 | every non-empty key set has a least key |
| Ranking.Least | src/main/java/MiniFireForce/GenSituationClass.java:50 | the first key of the ordered table is a key no larger than any other |
| Ranking.SortedKeys | src/main/java/MiniFireForce/GenSituationClass.java:50 | the ordered key list has every key of the table and no other, each once |
| Ranking.SortedKeysAscending | src/main/java/MiniFireForce/GenSituationClass.java:50 | the ordered key list is strictly ascending |
| Situations.TrucksNeeded | src/main/java/MiniFireForce/GenSituationClass.java:71 | `severity / 2 + 1` with division truncating toward zero: the remainder is 0 or 1 for non-negative severities, 0 or -1 for negative ones |
| Situations.TrucksNeededRange | src/main/java/MiniFireForce/GenSituationClass.java:71 | a generated fire (severity 1 to 10) asks for between 1 and 6 trucks |
| Situations.RankedOrder | src/main/java/MiniFireForce/GenSituationClass.java:47-54 | the station list has one entry per distance key; the i-th entry is stored under the i-th smallest key; every station in the table appears |
| Situations.RankedListed | src/main/java/MiniFireForce/GenSituationClass.java:47-54 | every listed station is in the distance table |
| Situations.GenSituation.constructor | src/main/java/MiniFireForce/GenSituationClass.java:11-15 | all three tables start empty |
| Situations.GenSituation.AddActiveFire | src/main/java/MiniFireForce/GenSituationClass.java:21-26 | the fire is stored under its id; the distance keys gain exactly the distances of the registered stations to the fire; each such key holds a registered station at that distance, where a later station at an equal distance may replace an earlier one; every other key keeps its station |
| Situations.GenSituation.AddFireStation | src/main/java/MiniFireForce/GenSituationClass.java:32-34 | the station is stored under its id; with a fresh id the table grows by one |
| Situations.GenSituation.GenerateFire | src/main/java/MiniFireForce/GenSituationClass.java:36-45 | a fresh fire with the given position, severity and time and spread 0 is stored under the new counter value; the counter grows by one; no other entry changes |
| Situations.GenSituation.FindFireStation | src/main/java/MiniFireForce/GenSituationClass.java:47-54 | returns the recorded stations in ascending distance-key order (see `RankedOrder`, `SortedKeysAscending`); the fire argument plays no part |
| Situations.GenSituation.CompareFires | src/main/java/MiniFireForce/GenSituationClass.java:56-67 | none exactly when no fire is registered; otherwise a registered fire (of any severity, including one no longer active) of maximal severity, with no registered fire of that severity earlier |
| Dispatch.Greedy | src/main/java/MiniFireForce/GenSituationClass.java:77-86 | the walk only moves forward and ends within the list; nothing needed means nothing changes; the shortfall never grows and stays non-negative; a remaining shortfall means the list was exhausted |
| Dispatch.GreedyStations | src/main/java/MiniFireForce/GenSituationClass.java:77-86 | every station the walk passed over has no trucks left; stations without trucks and stations not listed keep their count; no station goes below zero or gains trucks |
| Dispatch.GreedyConserves | src/main/java/MiniFireForce/GenSituationClass.java:71-86 | the listed stations lose exactly the trucks asked for minus the final shortfall |
| Dispatch.GreedySucceedsIff | src/main/java/MiniFireForce/GenSituationClass.java:77-86 | the walk ends without shortfall exactly when the distinct listed stations can hand out the trucks needed |
| Dispatch.GreedyOutcome | src/main/java/MiniFireForce/GenSituationClass.java:71-86 | from the head of the list, with a positive need, the walk succeeds exactly when the listed stations hold enough trucks, and then exactly the needed trucks are taken from them |
| Dispatch.Walk | src/main/java/MiniFireForce/GenSituationClass.java:75-86 | the loop leaves every listed station with its count after `Greedy`; it reports success exactly when `Greedy` ends without shortfall, and with a positive need exactly when the stations hold enough trucks, in which case exactly the needed trucks are gone; only listed stations' truck counts change |
| Situations.GenSituation.DeployFireTrucks | src/main/java/MiniFireForce/GenSituationClass.java:69-88 | the recorded stations, nearest first, are walked for `severity / 2 + 1` trucks with the outcome `Walk` states; on success the fire's id is removed, and on running out of stations the fire stays; the station tables are unchanged; only the recorded stations' counts and the fire table change |
| Situations.GenSituation.RemoveFire | src/main/java/MiniFireForce/GenSituationClass.java:91-93 | the fire's id is removed; removing an absent id changes nothing |

## Left out

- Integer width: counters, truck counts and severities are unbounded integers. Java's 32-bit wrap-around of `++counter`, `id++` and `trucks += n` is not modelled.
- Floating point: coordinates, distances and times are `real`. `float` and `double` rounding, and the `float` to `double` widening in `calculateDistance`, are not modelled. In particular `Math.sqrt` on doubles can map two different squared distances to the same key, which would merge two entries of the distance table; the model keys the table by exact squared distances and does not capture such collisions.
- FireStations.FireStation.CalculateDistance: returns the squared distance; `Math.sqrt` is left out because it keeps the order and the equalities of the distance keys. Only the "zero at its own position" direction is stated.
- FireTrucks.FireTruck.TravelTimeSquared: models `calculateTravelTime` as the square of distance over speed, because the distances are squared. It requires a non-zero speed; Java divides to infinity or NaN there.
- FireTrucks.FireTruck.ExtinguishingTime: requires a non-zero number of trucks; Java returns infinity or NaN for zero trucks.
- MovingTrucks.MovingTruck.CurrentX: requires `Positioned(now)`, which excludes the inputs where Java produces NaN or an infinite coordinate (duration 0 with no positive elapsed time). The same holds for MovingTrucks.MovingTruck.CurrentY.
- Situations.GenSituation.DeployFireTrucks: the `IndexOutOfBoundsException` thrown when the stations run out is the result `ok == false`, not an exception. The fire stays registered, and the stations are left as the walk drained them.
- Situations.GenSituation.CompareFires: `HashMap` iteration order is a nondeterministic choice. On exact ties of severity and time, only "some maximal fire" is stated.
- Situations.GenSituation.AddActiveFire: for the same reason, when several stations are at an equal distance, only "one of them" is stated, not which one.
- Clocks and randomness: `System.currentTimeMillis`, `LocalDateTime.now` and `java.util.Random` become parameters (`now`, `time`, and `x`, `y`, `severity` in `GenerateFire`), with the ranges `Random` draws from. Times are integers.
- Getters (`getX`, `getY`, `getXY`, `getSeverity`, `getTime`, `getSpread`, `getTrucks`, `getID` of a station, `getVelocity`, `extinguishTime`, `getStationID`, `getFireID`, `getState`, `getActiveFires`, `getFireStations`): these return a field unchanged. The model reads the field directly; the `Pair` of `getXY` is not modelled.
- The `while` loop of `deployFireTrucks` is the separate method `Dispatch.Walk`, so that its frame is the listed stations' truck counts.
- The GUI, the map panel, the application entry point, the scenario driver with its thread pool, the event logger interface and the console and JUnit test drivers are not part of this model.
