/** FireStation.java: a station at a fixed point holding a pool of trucks. */
module FireStations {
  import opened Ids

  /** What is left at a station and what the caller still has to find
      elsewhere after asking it for trucks. */
  datatype Deployment = Deployment(remaining: int, shortfall: int)

  /** The shortfall contract of `deployTruck`: a station holding `trucks`
      hands out as many of `required` as it can. */
  function Deploy(trucks: int, required: int): (d: Deployment)
    ensures d.remaining >= 0 && d.shortfall >= 0
    // trucks handed out == trucks requested - trucks still missing
    ensures trucks - d.remaining == required - d.shortfall
    // a shortfall is only reported once the station is empty
    ensures d.shortfall > 0 ==> d.remaining == 0
    ensures d.shortfall == 0 <==> required <= trucks
  {
    if trucks < required then Deployment(0, required - trucks)
    else Deployment(trucks - required, 0)
  }

  /** A deployment without shortfall, followed by retrieving the same
      number of trucks, restores the original count. */
  lemma DeployThenRetrieve(trucks: int, k: int)
    requires Deploy(trucks, k).shortfall == 0
    ensures Deploy(trucks, k).remaining + k == trucks
  {
  }

  class FireStation {
    const x: real
    const y: real
    var trucks: int
    const id: int

    /** `id = ++counter`: every station takes the next counter value. */
    constructor (x: real, y: real, trucks: int, counter: Counter)
      modifies counter
      ensures this.x == x && this.y == y && this.trucks == trucks
      ensures id == old(counter.value) + 1 && counter.value == id
    {
      this.x := x;
      this.y := y;
      this.trucks := trucks;
      counter.value := counter.value + 1;
      id := counter.value;
    }

    /** Square of the Euclidean distance from the station to (px, py); the
        square root of the source is left out, it orders the same way. */
    function CalculateDistance(px: real, py: real): (d: real)
      ensures d >= 0.0
      ensures px == x && py == y ==> d == 0.0
    {
      var dx := px - x;
      var dy := py - y;
      SquareNonNegative(dx);
      SquareNonNegative(dy);
      dx * dx + dy * dy
    }

    /** A station can deploy exactly when one truck can be had from it
        without shortfall, and then any positive request shrinks. */
    predicate CanDeploy()
      reads this
      ensures CanDeploy() <==> Deploy(trucks, 1).shortfall == 0
      ensures CanDeploy() ==> forall need :: need > 0 ==> Deploy(trucks, need).shortfall < need
    {
      trucks > 0
    }

    method DeployTruck(required: int) returns (shortfall: int)
      modifies this`trucks
      ensures Deployment(trucks, shortfall) == Deploy(old(trucks), required)
      ensures old(trucks) - trucks == required - shortfall
      ensures trucks >= 0 && shortfall >= 0
    {
      if trucks < required {
        var needed := required - trucks;
        trucks := 0;
        return needed;
      }
      trucks := trucks - required;
      return 0;
    }

    method RetrieveTruck(returned: int)
      modifies this`trucks
      ensures trucks == old(trucks) + returned
    {
      trucks := trucks + returned;
    }
  }

  lemma SquareNonNegative(r: real)
    ensures r * r >= 0.0
  {
    if r < 0.0 {
      assert r * r == (-r) * (-r);
    }
  }

  /** Distance between two stations does not depend on which one measures. */
  lemma DistanceSymmetric(a: FireStation, b: FireStation)
    ensures a.CalculateDistance(b.x, b.y) == b.CalculateDistance(a.x, a.y)
  {
  }
}
