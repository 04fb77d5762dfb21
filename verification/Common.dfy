/** What several modules share. */
module Common {

  datatype Option<+T> = None | Some(value: T)

  /** Ranging over a map or set takes its elements in no particular order. */
  method AnyOf<T(==)>(s: set<T>) returns (x: T)
    requires s != {}
    ensures x in s
  {
    x :| x in s;
  }
}
