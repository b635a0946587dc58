/** The Some/None result the Rust code returns for every "absent" answer
    (Option<&T>, Option<Entity>, Option<u32>). */
module Optional {

  datatype Option<+T> = None | Some(value: T) {

    /** Returns the value in Some, or the given default on None. */
    function GetOr(default: T): T {
      match this
      case Some(v) => v
      case None => default
    }
  }

  /** Option::map. */
  function MapOption<T, U>(o: Option<T>, f: T -> U): (r: Option<U>)
    ensures r.Some? <==> o.Some?
    ensures o.Some? ==> r.value == f(o.value)
  {
    match o
    case None => None
    case Some(v) => Some(f(v))
  }
}
