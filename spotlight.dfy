/** The lazily loaded spotlight effect: `loadSpotlightEffect` and the
    module-level flag `spotlightLoaded` in assets/js/main.js, loaded from a
    `mousemove` listener registered with `{ once: true }`. */
module Spotlight {

  /** The page state the spotlight code touches. */
  class SpotlightLoader {
    /** `spotlightLoaded`. */
    var loaded: bool
    /** The number of spotlight elements appended to `document.body`. */
    var spotlights: nat
    /** The number of position-tracking `mousemove` listeners installed. */
    var trackers: nat
    /** The `{ once: true }` listener that loads the effect is still registered. */
    var armed: bool

    /** At most one spotlight and one tracker exist, and exactly when loaded. */
    ghost predicate Valid()
      reads this
    {
      spotlights == (if loaded then 1 else 0) && trackers == spotlights
    }

    /** Script start: nothing loaded, the once-listener registered. */
    constructor ()
      ensures Valid() && !loaded && armed
    {
      loaded, spotlights, trackers, armed := false, 0, 0, true;
    }

    /** loadSpotlightEffect: the first call creates the spotlight and its
        tracker; every later call returns at once. */
    method LoadSpotlightEffect()
      requires Valid()
      modifies this
      ensures Valid() && loaded && armed == old(armed)
      ensures old(loaded) ==> spotlights == old(spotlights) && trackers == old(trackers)
      ensures !old(loaded) ==> spotlights == old(spotlights) + 1 && trackers == old(trackers) + 1
    {
      if loaded {
        return;
      }
      loaded := true;
      spotlights := spotlights + 1;
      trackers := trackers + 1;
    }

    /** A `mousemove` on the document: the once-listener runs the loader the
        first time and is then removed. */
    method OnMouseMove()
      requires Valid()
      modifies this
      ensures Valid() && !armed
      ensures loaded == (old(loaded) || old(armed))
    {
      if armed {
        armed := false;
        LoadSpotlightEffect();
      }
    }

    /** Any number of calls leave exactly one spotlight. */
    method LoadRepeatedly(calls: nat)
      requires Valid()
      modifies this
      ensures Valid()
      ensures loaded == (old(loaded) || calls > 0) && armed == old(armed)
      ensures spotlights == (if calls == 0 then old(spotlights) else 1)
    {
      for i := 0 to calls
        invariant Valid()
        invariant loaded == (old(loaded) || i > 0) && armed == old(armed)
        invariant spotlights == (if i == 0 then old(spotlights) else 1)
      {
        LoadSpotlightEffect();
      }
    }
  }
}
