/** Optional values: the model's stand-in for a TypeScript `T | undefined`. */
module Wrappers {

  datatype Option<+T> = None | Some(value: T) {

    /** This value if present, otherwise `other` (the `??` operator on two optional values). */
    function OrElse(other: Option<T>): (r: Option<T>)
      ensures this.Some? ==> r == this
      ensures this.None? ==> r == other
    {
      match this
      case Some(_) => this
      case None => other
    }
  }
}
