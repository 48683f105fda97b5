// The body counter `RigidBody.nextIndex`: a static field every constructor
// reads and increments, so bodies receive consecutive identifiers.

module BodyIndex {

  /** Holder of the next identifier to hand out. The static field of the
      source becomes one shared object that constructors modify. */
  class IndexCounter {
    var nextIndex: int

    constructor ()
      ensures nextIndex == 0
    {
      nextIndex := 0;
    }

    /** `index = nextIndex++`: returns the current value and advances it. */
    method Take() returns (index: int)
      modifies this
      ensures index == old(nextIndex)
      ensures nextIndex == old(nextIndex) + 1
    {
      index := nextIndex;
      nextIndex := nextIndex + 1;
    }

    /** `RigidBody.nextIndex = 0`, done by `RigidBodySystem.clear`. */
    method Restart()
      modifies this
      ensures nextIndex == 0
    {
      nextIndex := 0;
    }
  }
}
