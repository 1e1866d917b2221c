/** Optional values: the model's rendering of a nullable column or an
    optional TypeScript field (`x?: T`, `T | null`). */
module Wrappers {

  datatype Option<+T> = None | Some(value: T) {

    /** The value, or `default` when absent: the `x ?? d` idiom. */
    function GetOr(default: T): T {
      match this
      case Some(v) => v
      case None => default
    }
  }

  /** JavaScript truthiness of an optional string: absent and `''` are
      both falsy, so `s || d` falls back on either. */
  predicate Present(s: Option<string>) {
    s.Some? && s.value != ""
  }

  /** `s || d` for an optional string. */
  function OrElse(s: Option<string>, d: string): (r: string)
    ensures Present(s) ==> r == s.value
    ensures !Present(s) ==> r == d
  {
    if Present(s) then s.value else d
  }

  /** JavaScript truthiness of a nullable boolean column: null reads as false. */
  predicate Truthy(b: Option<bool>) {
    b == Some(true)
  }
}
