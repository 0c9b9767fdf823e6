/** MovingTruck.java: one truck on its way to a fire, putting it out, or
    driving back. Its position is never stored: it is interpolated from the
    start point to the destination over the travel duration. The wall clock
    of the source is the explicit argument `now` (milliseconds). */
module MovingTrucks {

  datatype State = ToFire | Extinguishing | Returning

  /** The interpolation factor `elapsed / duration`, clamped at 1. With a zero
      duration and a positive elapsed time the source divides to +infinity,
      which the clamp turns into 1; the cases where it divides to NaN or
      -infinity are excluded. */
  function Progress(elapsed: int, duration: int): (t: real)
    requires duration != 0 || elapsed > 0
    ensures t <= 1.0
    ensures duration > 0 && elapsed >= 0 ==> t >= 0.0
    ensures duration > 0 && elapsed >= duration ==> t == 1.0
    ensures duration == 0 ==> t == 1.0
    ensures elapsed == 0 ==> t == 0.0
    ensures duration > 0 && 0 <= elapsed <= duration ==> t * duration as real == elapsed as real
  {
    if duration == 0 then 1.0
    else
      var raw := elapsed as real / duration as real;
      if raw > 1.0 then 1.0 else raw
  }

  /** `from + (to - from) * t`: the point a fraction t of the way. */
  function Lerp(from: real, to: real, t: real): (p: real)
    ensures t == 0.0 ==> p == from
    ensures t == 1.0 ==> p == to
    ensures 0.0 <= t <= 1.0 ==> Between(p, from, to)
  {
    var d := to - from;
    Scaled(d, t);
    from + d * t
  }

  predicate Between(p: real, a: real, b: real) {
    (a <= p <= b) || (b <= p <= a)
  }

  lemma Scaled(d: real, t: real)
    ensures t == 0.0 ==> d * t == 0.0
    ensures t == 1.0 ==> d * t == d
    ensures 0.0 <= t <= 1.0 && d >= 0.0 ==> 0.0 <= d * t <= d
    ensures 0.0 <= t <= 1.0 && d <= 0.0 ==> d <= d * t <= 0.0
  {
    if 0.0 <= t <= 1.0 {
      if d >= 0.0 {
        assert d * t <= d * 1.0;
      } else {
        assert d * t >= d * 1.0;
      }
    }
  }

  class MovingTruck {
    const stationID: int
    const fireID: int
    var startX: real
    var startY: real
    var destX: real
    var destY: real
    var startTime: int
    var travelDurationMs: int
    var state: State

    /** Records the journey; the timer starts at construction time. */
    constructor (stationID: int, fireID: int, startX: real, startY: real,
                 destX: real, destY: real, travelDurationMs: int,
                 initialState: State, now: int)
      ensures this.stationID == stationID && this.fireID == fireID
      ensures this.startX == startX && this.startY == startY
      ensures this.destX == destX && this.destY == destY
      ensures this.travelDurationMs == travelDurationMs
      ensures state == initialState && startTime == now
    {
      this.stationID := stationID;
      this.fireID := fireID;
      this.startX := startX;
      this.startY := startY;
      this.destX := destX;
      this.destY := destY;
      this.travelDurationMs := travelDurationMs;
      this.state := initialState;
      this.startTime := now;
    }

    /** Changing state restarts the timer. */
    method SetState(newState: State, now: int)
      modifies this`state, this`startTime
      ensures state == newState && startTime == now
    {
      state := newState;
      startTime := now;
    }

    method SetDestination(x: real, y: real)
      modifies this`destX, this`destY
      ensures destX == x && destY == y
    {
      destX := x;
      destY := y;
    }

    method SetTravelDuration(durationMs: int)
      modifies this`travelDurationMs
      ensures travelDurationMs == durationMs
    {
      travelDurationMs := durationMs;
    }

    method ResetStartTime(now: int)
      modifies this`startTime
      ensures startTime == now
    {
      startTime := now;
    }

    /** The position is well defined unless the source would divide to NaN or
        an infinite coordinate. */
    predicate Positioned(now: int)
      reads this
    {
      state == Extinguishing || travelDurationMs != 0 || now > startTime
    }

    function CurrentX(now: int): (x: real)
      reads this
      requires Positioned(now)
      ensures state == Extinguishing ==> x == destX
      ensures state != Extinguishing && travelDurationMs > 0 && now - startTime >= travelDurationMs ==> x == destX
      ensures state != Extinguishing && travelDurationMs != 0 && now == startTime ==> x == startX
      ensures state != Extinguishing && travelDurationMs > 0 && now >= startTime ==> Between(x, startX, destX)
    {
      if state == Extinguishing then destX
      else Lerp(startX, destX, Progress(now - startTime, travelDurationMs))
    }

    function CurrentY(now: int): (y: real)
      reads this
      requires Positioned(now)
      ensures state == Extinguishing ==> y == destY
      ensures state != Extinguishing && travelDurationMs > 0 && now - startTime >= travelDurationMs ==> y == destY
      ensures state != Extinguishing && travelDurationMs != 0 && now == startTime ==> y == startY
      ensures state != Extinguishing && travelDurationMs > 0 && now >= startTime ==> Between(y, startY, destY)
    {
      if state == Extinguishing then destY
      else Lerp(startY, destY, Progress(now - startTime, travelDurationMs))
    }
  }
}
