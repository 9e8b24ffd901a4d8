/** The two result types of Rust's comparison traits: `std::cmp::Ordering`
    and the `Option` that `PartialOrd::partial_cmp` wraps it in. */
module Cmp {

  /** `std::cmp::Ordering`. */
  datatype Ordering = Less | Equal | Greater

  /** `Option<T>`; `None` is the answer of a partial order to an incomparable pair. */
  datatype Option<T> = None | Some(value: T)

  /** `Ordering::reverse`: swaps `Less` and `Greater`, keeps `Equal`. */
  function Reverse(o: Ordering): (r: Ordering)
    ensures r == Equal <==> o == Equal
    ensures r != o || o == Equal
  {
    match o
    case Less => Greater
    case Equal => Equal
    case Greater => Less
  }
}
