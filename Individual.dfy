/** The simulation agent: a birth step fixed at creation, and a location and a memory that
    the stepping engine overwrites. */
module Individuals {
  import opened Utils
  import opened Locations

  /** The observable value of an individual at one moment. */
  datatype Snapshot = Snapshot(location: Location, kOfBirth: int, memory: BitString)

  class Individual {
    /** The step at which the individual was created; used only to break write conflicts. */
    const kOfBirth: int
    var location: Location
    var memory: BitString

    constructor (location: Location, kOfBirth: int, memory: BitString)
      ensures this.location == location && this.kOfBirth == kOfBirth && this.memory == memory
    {
      this.location := location;
      this.kOfBirth := kOfBirth;
      this.memory := memory;
    }

    function View(): Snapshot
      reads this
    {
      Snapshot(location, kOfBirth, memory)
    }

    method SetLocation(location: Location)
      modifies this
      ensures this.location == location && memory == old(memory)
    {
      this.location := location;
    }

    method SetMemory(memory: BitString)
      modifies this
      ensures this.memory == memory && location == old(location)
    {
      this.memory := memory;
    }

    /** The same object, or another individual with equal location, birth step and memory
        contents; never equal to null. */
    predicate Equals(that: Individual?)
      reads this, that
      ensures Equals(that) <==> that != null && View() == that.View()
    {
      that == this ||
      (that != null && location == that.location && kOfBirth == that.kOfBirth && memory == that.memory)
    }
  }
}
