/** Option, the Rust `Option<T>` of the source. */
module Wrappers {

  datatype Option<+T> = None | Some(value: T) {

    /** `Option::or`: this value if present, else the other one. */
    function Or(other: Option<T>): Option<T> {
      if Some? then this else other
    }

    /** `Option::unwrap_or`. */
    function UnwrapOr(default: T): T {
      if Some? then value else default
    }
  }
}
