/** Optional values and fallible results, as returned by the address codec. */
module Wrappers {

  /** A value that may be absent (Rust's `Option`). */
  datatype Option<+T> = None | Some(value: T) {

    /** The carried value, or `default` when there is none (`Option::unwrap_or`). */
    function GetOr(default: T): T {
      match this
      case Some(v) => v
      case None => default
    }
  }

  /** Either a value or an error (Rust's `Result`). */
  datatype Result<+R, +E> = Success(value: R) | Failure(error: E) {

    /** Applies `f` to a success value and passes an error through untouched (`Result::map`). */
    function MapValue<U>(f: R -> U): Result<U, E> {
      match this
      case Success(v) => Success(f(v))
      case Failure(e) => Failure(e)
    }
  }
}

/** Three-way comparison, as produced by Rust's derived `Ord`. */
module Orders {

  datatype Ordering = Less | Equal | Greater

  /** `cmp` is a total order: it says `Equal` exactly on equal values, is antisymmetric and transitive. */
  ghost predicate TotalOrder<T(!new)>(cmp: (T, T) -> Ordering) {
    && (forall x, y :: cmp(x, y) == Equal <==> x == y)
    && (forall x, y :: cmp(x, y) == Less <==> cmp(y, x) == Greater)
    && (forall x, y, z :: cmp(x, y) == Less && cmp(y, z) == Less ==> cmp(x, z) == Less)
  }
}
