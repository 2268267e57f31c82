/** An Rx `Subject` seen from its subscribers: the append-only log of every value passed to `onNext`. */
module Rx {

  class Subject<T> {
    var log: seq<T>

    constructor()
      ensures log == []
    {
      log := [];
    }

    /** `onNext(x)`: broadcast one value; what was broadcast before stays as it was. */
    method OnNext(x: T)
      modifies this
      ensures log == old(log) + [x]
    {
      log := log + [x];
    }
  }
}
