/** Optional values: a JavaScript `null`/`undefined` or a missing regex match is `None`. */
module Wrappers {

  datatype Option<+T> = None | Some(value: T)

  /** `a || b` on two regex matches: the first one that matched. */
  function OrElse<T>(first: Option<T>, second: Option<T>): (r: Option<T>)
    ensures first.Some? ==> r == first
    ensures first.None? ==> r == second
  {
    if first.Some? then first else second
  }
}
