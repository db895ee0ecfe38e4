/** The optional value that stands for JavaScript's `null` results. */
module Options {

  datatype Option<+T> = None | Some(value: T)

  /** The first of two alternatives that holds a value: `a || b` on nullable results. */
  function OrElse<T>(a: Option<T>, b: Option<T>): (r: Option<T>)
    ensures r.Some? <==> a.Some? || b.Some?
    ensures a.Some? ==> r == a
    ensures a.None? ==> r == b
  {
    if a.Some? then a else b
  }
}
