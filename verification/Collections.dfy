/** Optional values, and elements of sets in no particular order. */
module Collections {

  datatype Option<T> = None | Some(value: T)

  lemma HasElement<T>(s: set<T>) returns (x: T)
    requires s != {}
    ensures x in s
  {
    x :| x in s;
  }

  /** Some element of a set, as map iteration gives one. */
  method Any<T(==)>(s: set<T>) returns (x: T)
    requires s != {}
    ensures x in s
  {
    x :| x in s;
  }
}
