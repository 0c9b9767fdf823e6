/** Fire.java: one fire, with its position, severity, time and spread
    percentage. Times are plain integers (the source uses LocalDateTime). */
module Fires {
  import opened Ids

  const MaxSpread: int := 100

  /** `Math.min(spread + amount, 100)`: the spread percentage after growing
      by `amount`, capped at 100. */
  function RaisedSpread(spread: int, amount: int): (r: int)
    ensures r <= MaxSpread
    ensures r <= spread + amount
    ensures r == MaxSpread || r == spread + amount
  {
    if spread + amount < MaxSpread then spread + amount else MaxSpread
  }

  class Fire {
    var x: real
    var y: real
    var severity: int
    var time: int
    var spread: int
    /** The class-wide counter behind `getID()`: shared by every fire that
        was built with it, not a number of this fire. */
    const ids: Counter

    constructor (x: real, y: real, severity: int, time: int, spread: int, ids: Counter)
      modifies ids
      ensures this.x == x && this.y == y && this.severity == severity
      ensures this.time == time && this.spread == spread && this.ids == ids
      ensures ids.value == old(ids.value) + 1
      ensures GetID() == old(ids.value) + 1
    {
      this.x := x;
      this.y := y;
      this.severity := severity;
      this.time := time;
      this.spread := spread;
      this.ids := ids;
      ids.value := ids.value + 1;
    }

    /** `getID()` reads the shared counter, so it reports how many fires
        have been built so far, whichever fire it is asked of. */
    function GetID(): (id: int)
      reads ids
      ensures id == ids.value
    {
      ids.value
    }

    predicate IsActive()
      reads this
      ensures IsActive() <==> severity >= 1
    {
      severity > 0
    }

    method SetX(newX: real)
      modifies this`x
      ensures x == newX
    {
      x := newX;
    }

    method SetY(newY: real)
      modifies this`y
      ensures y == newY
    {
      y := newY;
    }

    method SetTime(newTime: int)
      modifies this`time
      ensures time == newTime
    {
      time := newTime;
    }

    method UpdateSeverity(newSev: int)
      modifies this`severity
      ensures severity == newSev
      ensures IsActive() <==> newSev > 0
    {
      severity := newSev;
    }

    method ResetSpread()
      modifies this`spread
      ensures spread == 0
    {
      spread := 0;
    }

    method IncreaseSpread(amount: int)
      modifies this`spread
      ensures spread == RaisedSpread(old(spread), amount)
      ensures spread <= MaxSpread
    {
      spread := RaisedSpread(spread, amount);
    }
  }

  /** Two fires built with the same counter report the same id. */
  lemma SharedId(f: Fire, g: Fire)
    requires f.ids == g.ids
    ensures f.GetID() == g.GetID()
  {
  }
}
