/** The `static int` counters the source keeps per class (Fire.id,
    FireStation.counter, FireTruck.id), made explicit: one shared object per
    counter, handed to every constructor that bumps it. */
module Ids {

  class Counter {
    var value: int

    /** A fresh counter starts at zero, like the static initialisers. */
    constructor ()
      ensures value == 0
    {
      value := 0;
    }
  }
}
