/** The Option type the model uses for "recognised or not" and "file present or not". */
module Wrappers {

  datatype Option<+T> = None | Some(value: T)

  /** Rust's three-way comparison result. */
  datatype Ordering = Less | Equal | Greater {

    /** The ordering seen from the other side. */
    function Flip(): Ordering {
      match this
      case Less => Greater
      case Equal => Equal
      case Greater => Less
    }
  }

  /** `Ord::cmp` on unbounded naturals. */
  function CompareNat(a: nat, b: nat): (r: Ordering)
    ensures r == Less <==> a < b
    ensures r == Equal <==> a == b
    ensures r == Greater <==> a > b
  {
    if a < b then Less else if a == b then Equal else Greater
  }
}
