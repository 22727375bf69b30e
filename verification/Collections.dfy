/** Iteration over a Go map, which visits the keys in no particular order. */
module Collections {

  method AnyOf<T>(s: set<T>) returns (x: T)
    requires s != {}
    ensures x in s
  {
    x :| x in s;
  }
}
