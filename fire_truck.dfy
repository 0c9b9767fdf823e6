/** FireTruck.java: a truck's fixed characteristics and the two timing
    formulas used when planning a response. */
module FireTrucks {
  import opened Ids
  import opened FireStations
  import opened Fires

  class FireTruck {
    const velocity: int
    const extinguishTime: int

    /** Stores both characteristics and bumps the class-wide truck counter. */
    constructor (velocity: int, extinguishTime: int, ids: Counter)
      modifies ids
      ensures this.velocity == velocity && this.extinguishTime == extinguishTime
      ensures ids.value == old(ids.value) + 1
    {
      this.velocity := velocity;
      this.extinguishTime := extinguishTime;
      ids.value := ids.value + 1;
    }

    /** Square of `distance / truckSpeed` (the distances of this model are
        squared, see FireStation.CalculateDistance). */
    function TravelTimeSquared(station: FireStation, fire: Fire, truckSpeed: real): (t2: real)
      reads fire
      requires truckSpeed != 0.0
      ensures t2 * truckSpeed * truckSpeed == station.CalculateDistance(fire.x, fire.y)
      ensures t2 >= 0.0
      ensures fire.x == station.x && fire.y == station.y ==> t2 == 0.0
    {
      var d2 := station.CalculateDistance(fire.x, fire.y);
      QuotientSign(d2, truckSpeed);
      QuotientSign(d2 / truckSpeed, truckSpeed);
      d2 / truckSpeed / truckSpeed
    }

    /** `severity * 5.0 / numTrucks`: the work of a fire shared out between
        the trucks sent to it. */
    function ExtinguishingTime(fire: Fire, numTrucks: int): (t: real)
      reads fire
      requires numTrucks != 0
      ensures t * numTrucks as real == 5.0 * fire.severity as real
      ensures fire.severity >= 0 && numTrucks > 0 ==> t >= 0.0
    {
      if fire.severity >= 0 && numTrucks > 0 then
        QuotientNonNegative(fire.severity as real * 5.0, numTrucks as real);
        (fire.severity as real * 5.0) / numTrucks as real
      else
        (fire.severity as real * 5.0) / numTrucks as real
    }
  }

  lemma QuotientSign(a: real, b: real)
    requires b != 0.0
    ensures a >= 0.0 && b > 0.0 ==> a / b >= 0.0
    ensures a >= 0.0 && b < 0.0 ==> a / b <= 0.0
    ensures a <= 0.0 && b < 0.0 ==> a / b >= 0.0
    ensures a == 0.0 ==> a / b == 0.0
  {
  }

  lemma QuotientNonNegative(a: real, b: real)
    requires a >= 0.0 && b > 0.0
    ensures a / b >= 0.0
  {
  }

  /** With the severity fixed, sending more trucks never makes putting the
      fire out take longer. */
  lemma MoreTrucksNoSlower(truck: FireTruck, fire: Fire, n: int, m: int)
    requires fire.severity >= 0 && 0 < n <= m
    ensures truck.ExtinguishingTime(fire, m) <= truck.ExtinguishingTime(fire, n)
  {
    var tn := truck.ExtinguishingTime(fire, n);
    var tm := truck.ExtinguishingTime(fire, m);
    // tm * n <= tm * m == tn * n, and n > 0
    assert tm * n as real <= tm * m as real == tn * n as real;
  }
}
