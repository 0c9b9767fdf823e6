/** GenSituationClass.java: the registry of active fires and stations, the
    distance table of stations and the truck dispatcher. */
module Situations {
  import opened Ids
  import opened FireStations
  import opened Fires
  import opened Ranking
  import opened Dispatch

  datatype Option<T> = None | Some(value: T)

  /** `severity / 2 + 1` with Java's division, which truncates toward zero. */
  function TrucksNeeded(severity: int): (n: int)
    ensures severity >= 0 ==> 0 <= severity - 2 * (n - 1) < 2
    ensures severity < 0 ==> -2 < severity - 2 * (n - 1) <= 0
  {
    (if severity >= 0 then severity / 2 else -((-severity) / 2)) + 1
  }

  /** A burning fire (severity at least 1) always asks for at least one
      truck, and a generated fire (severity 1 to 10) for at most six. */
  lemma TrucksNeededRange(severity: int)
    requires 1 <= severity <= 10
    ensures 1 <= TrucksNeeded(severity) <= 6
  {
  }

  /** The stations of a distance table in ascending order of their key. */
  function Ranked(d: map<real, FireStation>): seq<FireStation>
  {
    var ks := SortedKeys(d.Keys);
    seq(|ks|, i requires 0 <= i < |ks| => d[ks[i]])
  }

  /* `s != {}` alone does not let the verifier pick a member when
     contradictory assumptions are reported, so each element type used with
     `:|` (reals, stations, fires) gets its own copy of this lemma; a
     generic version does not help callers at a concrete type. */

  lemma HasStation(ss: set<FireStation>)
    ensures ss != {} ==> exists s :: s in ss
  {
    if forall s :: s !in ss {
      assert ss == {};
    }
  }

  lemma HasFire(fs: set<Fire>)
    ensures fs != {} ==> exists f :: f in fs
  {
    if forall f :: f !in fs {
      assert fs == {};
    }
  }

  lemma NoValues(m: map<int, Fire>)
    ensures m.Values == {} ==> m == map[]
  {
    forall k | k in m
      ensures m[k] in m.Values
    {
    }
  }

  /** `Ranked` lists one station per distance key, the i-th one stored
      under the i-th smallest key, and every recorded station appears. */
  lemma RankedOrder(d: map<real, FireStation>)
    ensures |Ranked(d)| == |d|
    ensures forall i :: 0 <= i < |Ranked(d)| ==> Ranked(d)[i] == d[SortedKeys(d.Keys)[i]]
    ensures forall k :: k in d ==> d[k] in Ranked(d)
  {
    var r := Ranked(d);
    var ks := SortedKeys(d.Keys);
    forall k | k in d
      ensures d[k] in r
    {
      var j :| 0 <= j < |ks| && ks[j] == k;
      assert r[j] == d[k];
    }
  }

  /** Every station listed by `Ranked` is recorded in the table. */
  lemma RankedListed(d: map<real, FireStation>)
    ensures forall j :: 0 <= j < |Ranked(d)| ==> Ranked(d)[j] in d.Values
  {
    var ks := SortedKeys(d.Keys);
    forall j | 0 <= j < |ks|
      ensures d[ks[j]] in d.Values
    {
      assert ks[j] in ks;
    }
  }

  class GenSituation {
    var activeFire: map<int, Fire>
    var fireStations: map<int, FireStation>
    var distances: map<real, FireStation>

    constructor ()
      ensures activeFire == map[] && fireStations == map[] && distances == map[]
    {
      activeFire := map[];
      fireStations := map[];
      distances := map[];
    }

    /** Distance keys of the registered stations to `fire`. */
    ghost function DistancesTo(ss: set<FireStation>, fire: Fire): set<real>
      reads fire
    {
      set s | s in ss :: s.CalculateDistance(fire.x, fire.y)
    }

    /** Registers `fire` under `fire.GetID()` and records, for every
        registered station, its distance to the fire; a station at a
        distance already recorded replaces the earlier one. */
    method AddActiveFire(fire: Fire)
      modifies this`activeFire, this`distances
      ensures activeFire == old(activeFire)[fire.GetID() := fire]
      ensures distances.Keys == old(distances.Keys) + DistancesTo(fireStations.Values, fire)
      ensures forall k :: k in distances && k in DistancesTo(fireStations.Values, fire) ==>
        distances[k] in fireStations.Values && distances[k].CalculateDistance(fire.x, fire.y) == k
      ensures forall k :: k in distances && k !in DistancesTo(fireStations.Values, fire) ==>
        distances[k] == old(distances[k])
    {
      activeFire := activeFire[fire.GetID() := fire];
      var pending := fireStations.Values;
      ghost var done: set<FireStation> := {};
      while pending != {}
        invariant activeFire == old(activeFire)[fire.GetID() := fire]
        invariant pending + done == fireStations.Values && pending !! done
        invariant distances.Keys == old(distances.Keys) + DistancesTo(done, fire)
        invariant forall k :: k in distances && k in DistancesTo(done, fire) ==>
          distances[k] in done && distances[k].CalculateDistance(fire.x, fire.y) == k
        invariant forall k :: k in distances && k !in DistancesTo(done, fire) ==>
          distances[k] == old(distances[k])
        decreases pending
      {
        HasStation(pending);
        var fs :| fs in pending;
        distances := distances[fs.CalculateDistance(fire.x, fire.y) := fs];
        pending := pending - {fs};
        done := done + {fs};
      }
    }

    method AddFireStation(station: FireStation)
      modifies this`fireStations
      ensures fireStations == old(fireStations)[station.id := station]
      ensures station.id !in old(fireStations) ==> |fireStations| == |old(fireStations)| + 1
    {
      fireStations := fireStations[station.id := station];
    }

    /** `generateFire` with the random position and severity passed in,
        within the ranges the source draws them from; the clock reading
        is `time`. The new fire starts with spread 0. */
    method GenerateFire(ids: Counter, x: int, y: int, severity: int, time: int)
      requires -1000 <= x < 1000 && -1000 <= y < 1000 && 1 <= severity <= 10
      modifies this`activeFire, ids
      ensures ids.value == old(ids.value) + 1
      ensures ids.value in activeFire && fresh(activeFire[ids.value])
      ensures activeFire == old(activeFire)[ids.value := activeFire[ids.value]]
      ensures var f := activeFire[ids.value];
        f.x == x as real && f.y == y as real && f.severity == severity &&
        f.time == time && f.spread == 0 && f.ids == ids
    {
      var fire := new Fire(x as real, y as real, severity, time, 0, ids);
      activeFire := activeFire[fire.GetID() := fire];
    }

    /** The recorded stations, one per distance key, nearest first. The
        fire itself plays no part. */
    method FindFireStation(fire: Fire) returns (stations: seq<FireStation>)
      ensures stations == Ranked(distances)
    {
      var ks := SortedKeys(distances.Keys);
      stations := [];
      for i := 0 to |ks|
        invariant |stations| == i
        invariant forall j :: 0 <= j < i ==> stations[j] == distances[ks[j]]
      {
        stations := stations + [distances[ks[i]]];
      }
    }

    /** The most severe active fire, the earliest one among equally severe
        fires; None when no fire is active. */
    method CompareFires() returns (most: Option<Fire>)
      ensures most.None? <==> activeFire == map[]
      ensures most.Some? ==> most.value in activeFire.Values
      ensures most.Some? ==> forall f :: f in activeFire.Values ==>
        f.severity <= most.value.severity &&
        (f.severity == most.value.severity ==> most.value.time <= f.time)
    {
      most := None;
      var pending := activeFire.Values;
      ghost var done: set<Fire> := {};
      while pending != {}
        invariant pending + done == activeFire.Values && pending !! done
        invariant most.None? <==> done == {}
        invariant most.Some? ==> most.value in done
        invariant most.Some? ==> forall f :: f in done ==>
          f.severity <= most.value.severity &&
          (f.severity == most.value.severity ==> most.value.time <= f.time)
        decreases pending
      {
        HasFire(pending);
        var fire :| fire in pending;
        if most.None? || fire.severity > most.value.severity ||
           (fire.severity == most.value.severity && fire.time < most.value.time) {
          most := Some(fire);
        }
        pending := pending - {fire};
        done := done + {fire};
      }
      NoValues(activeFire);
    }

    /** Asks the stations, nearest first, for `severity / 2 + 1` trucks;
        each answers with its shortfall, a station without trucks is
        passed over. With enough trucks listed the fire is removed
        (`ok`); otherwise the walk runs off the end of the list, which the
        source reports by an exception, leaving the stations drained and
        the fire registered (`!ok`). */
    method DeployFireTrucks(fire: Fire) returns (ok: bool)
      modifies this`activeFire, distances.Values`trucks
      ensures distances == old(distances) && fireStations == old(fireStations)
      ensures var list := Ranked(distances);
        Dispatched(list, old(TruckCounts(Members(list))), TrucksNeeded(old(fire.severity)), TruckCounts(Members(list)), ok)
      ensures ok ==> activeFire == old(activeFire) - {fire.GetID()}
      ensures !ok ==> activeFire == old(activeFire)
    {
      var stations := FindFireStation(fire);
      RankedListed(distances);
      var need := TrucksNeeded(fire.severity);
      Listing(stations);
      ok := Walk(stations, need);
      if ok {
        RemoveFire(fire);
      }
    }

    /** Removes the fire registered under `fire.GetID()`, if any. */
    method RemoveFire(fire: Fire)
      modifies this`activeFire
      ensures activeFire == old(activeFire) - {fire.GetID()}
      ensures fire.GetID() !in old(activeFire) ==> activeFire == old(activeFire)
    {
      activeFire := activeFire - {fire.GetID()};
    }
  }
}
