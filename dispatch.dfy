/** The greedy walk of `deployFireTrucks` over a list of stations, stated
    on truck counts: each station in turn gives what it can, and whatever
    is still missing is asked of the next one. The same station may occur
    in the list more than once, so the counts are kept per station, not
    per list position. */
module Dispatch {
  import opened FireStations

  /** Truck counts after the walk, the list index it stopped at and the
      number of trucks still needed (not positive once the walk succeeded). */
  datatype Drain = Drain(trucks: map<FireStation, int>, index: int, shortfall: int)

  predicate Listed(list: seq<FireStation>, t: map<FireStation, int>) {
    forall j :: 0 <= j < |list| ==> list[j] in t
  }

  /** The loop of `deployFireTrucks` from list position `i`, counts `t`
      and `need` trucks still to find. A station with trucks answers with
      its shortfall; one without is passed over. The walk stops when
      nothing is needed or the list is exhausted. */
  function Greedy(list: seq<FireStation>, i: nat, t: map<FireStation, int>, need: int): (d: Drain)
    requires i <= |list| && Listed(list, t)
    ensures i <= d.index <= |list|
    ensures d.trucks.Keys == t.Keys
    ensures need <= 0 ==> d == Drain(t, i, need)
    ensures need > 0 ==> 0 <= d.shortfall <= need
    // the walk only fails by running off the end of the list
    ensures d.shortfall > 0 ==> d.index == |list|
    decreases |list| - i, need
  {
    if need <= 0 || i == |list| then Drain(t, i, need)
    else if t[list[i]] > 0 then
      var o := Deploy(t[list[i]], need);
      Greedy(list, i, t[list[i] := o.remaining], o.shortfall)
    else
      Greedy(list, i + 1, t, need)
  }

  /** What the walk does to individual stations: every station it passed
      over is left without trucks; a station without trucks, or not listed
      from `i` on, keeps its count; a station is never drained below zero
      nor given trucks. */
  lemma {:induction false} GreedyStations(list: seq<FireStation>, i: nat, t: map<FireStation, int>, need: int)
    requires i <= |list| && Listed(list, t)
    ensures var d := Greedy(list, i, t, need);
      (forall j :: i <= j < d.index ==> d.trucks[list[j]] <= 0) &&
      (forall s :: s in t && t[s] <= 0 ==> d.trucks[s] == t[s]) &&
      (forall s :: s in t && s !in list[i..] ==> d.trucks[s] == t[s]) &&
      (forall s :: s in t && t[s] > 0 ==> 0 <= d.trucks[s] <= t[s])
    decreases |list| - i, need
  {
    if need > 0 && i < |list| {
      var s := list[i];
      if t[s] > 0 {
        var o := Deploy(t[s], need);
        GreedyStations(list, i, t[s := o.remaining], o.shortfall);
      } else {
        GreedyStations(list, i + 1, t, need);
        assert forall r :: r in t && r !in list[i..] ==> r !in list[i + 1..];
      }
    }
  }

  predicate Distinct(ds: seq<FireStation>) {
    forall j, k :: 0 <= j < k < |ds| ==> ds[j] != ds[k]
  }

  /** The stations of a list, each once. */
  function Dedup(list: seq<FireStation>): (ds: seq<FireStation>)
    ensures Distinct(ds)
    ensures forall s :: s in list ==> s in ds
    ensures forall s :: s in ds ==> s in list
  {
    if list == [] then []
    else
      var r := Dedup(list[1..]);
      if list[0] in r then r else [list[0]] + r
  }

  /** Trucks held by the stations `ds`. */
  function Held(ds: seq<FireStation>, t: map<FireStation, int>): int
    requires forall s :: s in ds ==> s in t
  {
    if ds == [] then 0 else t[ds[0]] + Held(ds[1..], t)
  }

  /** Trucks the stations `ds` can hand out: a station with a negative
      count contributes nothing. */
  function Available(ds: seq<FireStation>, t: map<FireStation, int>): (n: int)
    requires forall s :: s in ds ==> s in t
    ensures n >= 0
  {
    if ds == [] then 0 else Pos(t[ds[0]]) + Available(ds[1..], t)
  }

  function Pos(n: int): int {
    if n > 0 then n else 0
  }

  lemma {:induction false} HeldUpdate(ds: seq<FireStation>, t: map<FireStation, int>, s: FireStation, v: int)
    requires Distinct(ds) && s in ds
    requires forall r :: r in ds ==> r in t
    ensures Held(ds, t[s := v]) == Held(ds, t) - t[s] + v
  {
    if ds[0] == s {
      assert s !in ds[1..];
      HeldSame(ds[1..], t, s, v);
    } else {
      HeldUpdate(ds[1..], t, s, v);
    }
  }

  lemma {:induction false} HeldSame(ds: seq<FireStation>, t: map<FireStation, int>, s: FireStation, v: int)
    requires s !in ds
    requires forall r :: r in ds ==> r in t
    ensures Held(ds, t[s := v]) == Held(ds, t)
  {
    if ds != [] {
      HeldSame(ds[1..], t, s, v);
    }
  }

  lemma {:induction false} AvailableUpdate(ds: seq<FireStation>, t: map<FireStation, int>, s: FireStation, v: int)
    requires Distinct(ds) && s in ds
    requires forall r :: r in ds ==> r in t
    ensures Available(ds, t[s := v]) == Available(ds, t) - Pos(t[s]) + Pos(v)
  {
    if ds[0] == s {
      assert s !in ds[1..];
      AvailableSame(ds[1..], t, s, v);
    } else {
      AvailableUpdate(ds[1..], t, s, v);
    }
  }

  lemma {:induction false} AvailableSame(ds: seq<FireStation>, t: map<FireStation, int>, s: FireStation, v: int)
    requires s !in ds
    requires forall r :: r in ds ==> r in t
    ensures Available(ds, t[s := v]) == Available(ds, t)
  {
    if ds != [] {
      AvailableSame(ds[1..], t, s, v);
    }
  }

  /** No station of `ds` has a truck to give, so together they give none. */
  lemma {:induction false} AvailableNone(ds: seq<FireStation>, t: map<FireStation, int>)
    requires forall r :: r in ds ==> r in t && t[r] <= 0
    ensures Available(ds, t) == 0
  {
    if ds != [] {
      AvailableNone(ds[1..], t);
    }
  }

  /** Together the stations give at least what any one of them gives. */
  lemma {:induction false} AvailableAtLeast(ds: seq<FireStation>, t: map<FireStation, int>, s: FireStation)
    requires s in ds
    requires forall r :: r in ds ==> r in t
    ensures Available(ds, t) >= Pos(t[s])
  {
    if ds[0] != s {
      AvailableAtLeast(ds[1..], t, s);
    }
  }

  /** Conservation: a walk that asks for `need > 0` trucks removes exactly
      the trucks it found, `need - shortfall`, from the listed stations;
      so a successful walk removes exactly `need`. */
  lemma {:induction false} GreedyConserves(list: seq<FireStation>, i: nat, t: map<FireStation, int>, need: int, ds: seq<FireStation>)
    requires i <= |list| && Listed(list, t)
    requires Distinct(ds) && (forall s :: s in list ==> s in ds) && (forall s :: s in ds ==> s in t)
    requires need > 0
    ensures var d := Greedy(list, i, t, need);
      Held(ds, t) - Held(ds, d.trucks) == need - d.shortfall
    decreases |list| - i, need
  {
    if i < |list| {
      var s := list[i];
      if t[s] > 0 {
        var o := Deploy(t[s], need);
        HeldUpdate(ds, t, s, o.remaining);
        if o.shortfall > 0 {
          GreedyConserves(list, i, t[s := o.remaining], o.shortfall, ds);
        }
      } else {
        GreedyConserves(list, i + 1, t, need, ds);
      }
    }
  }

  /** The walk succeeds exactly when the listed stations can hand out
      `need` trucks between them, given that the stations already passed
      over have none. */
  lemma {:induction false} GreedySucceedsIff(list: seq<FireStation>, i: nat, t: map<FireStation, int>, need: int, ds: seq<FireStation>)
    requires i <= |list| && Listed(list, t)
    requires Distinct(ds) && (forall s :: s in list ==> s in ds) && (forall s :: s in ds ==> s in list)
    requires forall j :: 0 <= j < i ==> t[list[j]] <= 0
    requires need > 0
    ensures Greedy(list, i, t, need).shortfall == 0 <==> need <= Available(ds, t)
    decreases |list| - i, need
  {
    if i == |list| {
      AvailableNone(ds, t);
    } else {
      var s := list[i];
      if t[s] > 0 {
        var o := Deploy(t[s], need);
        var t' := t[s := o.remaining];
        AvailableUpdate(ds, t, s, o.remaining);
        if o.shortfall == 0 {
          AvailableAtLeast(ds, t, s);
        } else {
          forall j | 0 <= j < i
            ensures t'[list[j]] <= 0
          {
            assert t[list[j]] <= 0;
          }
          GreedySucceedsIff(list, i, t', o.shortfall, ds);
        }
      } else {
        GreedySucceedsIff(list, i + 1, t, need, ds);
      }
    }
  }

  /** The whole walk from the head of the list, summed over the distinct
      listed stations: with a positive need it succeeds exactly when they
      hold enough trucks between them, and a successful walk takes exactly
      `need` trucks from them. */
  lemma GreedyOutcome(list: seq<FireStation>, t: map<FireStation, int>, need: int)
    requires Listed(list, t) && need > 0
    ensures var d := Greedy(list, 0, t, need);
      var ds := Dedup(list);
      (forall s :: s in ds ==> s in t) &&
      (d.shortfall <= 0 <==> need <= Available(ds, t)) &&
      (d.shortfall <= 0 ==> Held(ds, t) - Held(ds, d.trucks) == need)
  {
    var ds := Dedup(list);
    GreedyConserves(list, 0, t, need, ds);
    GreedySucceedsIff(list, 0, t, need, ds);
  }

  lemma Listing(list: seq<FireStation>)
    ensures Listed(list, TruckCounts(Members(list)))
  {
  }

  /** The stations of a list, as a set. */
  function Members(list: seq<FireStation>): set<FireStation> {
    set s | s in list
  }

  /** The truck count of every station in `ss`. */
  function TruckCounts(ss: set<FireStation>): (t: map<FireStation, int>)
    reads ss
    ensures t.Keys == ss
    ensures forall s :: s in ss ==> t[s] == s.trucks
  {
    map s | s in ss :: s.trucks
  }

  /** `t1` and `ok` are what the walk from the head of `list` leaves of
      the counts `t0` when `need` trucks are asked for: the greedy result,
      and with a positive need success exactly when the listed stations
      hold enough trucks, in which case exactly `need` trucks are gone. */
  predicate Dispatched(list: seq<FireStation>, t0: map<FireStation, int>, need: int, t1: map<FireStation, int>, ok: bool)
    requires Listed(list, t0) && forall s :: s in list ==> s in t1
  {
    var d := Greedy(list, 0, t0, need);
    var ds := Dedup(list);
    t1 == d.trucks && (ok <==> d.shortfall <= 0) &&
    (need > 0 ==>
      (ok <==> need <= Available(ds, t0)) &&
      (ok ==> Held(ds, t0) - Held(ds, t1) == need))
  }

  /** The `while (trucksNeeded > 0)` loop of `deployFireTrucks`: walks the
      list asking each station that can deploy for the trucks still
      needed, and moves on when a station has none. Running off the end of
      the list, where the source's `get` throws, yields `false`. */
  method Walk(stations: seq<FireStation>, need: int) returns (ok: bool)
    modifies Members(stations)`trucks
    ensures Dispatched(stations, old(TruckCounts(Members(stations))), need, TruckCounts(Members(stations)), ok)
  {
    ghost var ss := Members(stations);
    ghost var counts := TruckCounts(ss);
    ghost var t0 := counts;
    var trucksNeeded := need;
    var stationIndex := 0;
    if need > 0 {
      GreedyOutcome(stations, t0, need);
    }
    while trucksNeeded > 0
      invariant 0 <= stationIndex <= |stations|
      invariant counts.Keys == ss && Listed(stations, counts)
      invariant forall s :: s in counts ==> s.trucks == counts[s]
      invariant Greedy(stations, stationIndex, counts, trucksNeeded) == Greedy(stations, 0, t0, need)
      decreases |stations| - stationIndex, trucksNeeded
    {
      if stationIndex == |stations| {
        assert counts == TruckCounts(ss);
        return false;
      }
      var nearest := stations[stationIndex];
      if nearest.CanDeploy() {
        trucksNeeded := nearest.DeployTruck(trucksNeeded);
        counts := counts[nearest := nearest.trucks];
      } else {
        stationIndex := stationIndex + 1;
      }
    }
    assert counts == TruckCounts(ss);
    return true;
  }
}
