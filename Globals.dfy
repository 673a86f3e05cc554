/** The process-wide arithmetic state of the library, passed explicitly. */
module Globals {
  import opened Wrappers

  /**
   * Globals.modulus and Globals.modIgnoreSign: the modulus every coefficient is reduced by
   * (None: exact integers), and whether a reduced value keeps the sign of the value reduced.
   */
  datatype Context = Context(modulus: Option<int>, modIgnoreSign: bool) {

    /** A context under which reducing a value raises nothing: no modulus, or a positive one. */
    predicate Valid() {
      modulus.None? || modulus.value > 0
    }

    /** The same context with the modulus set to m, as `Globals.modulus = m` does. */
    function WithModulus(m: int): (c: Context)
      ensures c.modulus == Some(m) && c.modIgnoreSign == modIgnoreSign
    {
      this.(modulus := Some(m))
    }
  }

  /** The state at start-up: no modulus, signs normalised. */
  const Initial: Context := Context(None, false)
}
