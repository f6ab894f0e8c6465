/**
  The scene the editor works on: engine value types that the model treats as
  opaque, and the editable game objects themselves.
 */
module Scene {

  /** A value that may be absent; stands for a nullable engine handle. */
  datatype Option<+T> = None | Some(value: T)

  /**
    A world-space location (an engine vector). The model never computes with
    coordinates; it only copies locations from one actor to another.
   */
  datatype Location = Location(x: int, y: int, z: int)

  const Origin: Location := Location(0, 0, 0)

  /**
    A game object placed in the level. It has an identity (the reference), an
    engine name, an optional parent game object and a location.
   */
  class GameObject {
    var name: string
    var parent: GameObject?
    var location: Location

    constructor (name: string, parent: GameObject?, location: Location)
      ensures this.name == name && this.parent == parent && this.location == location
    {
      this.name := name;
      this.parent := parent;
      this.location := location;
    }
  }
}
