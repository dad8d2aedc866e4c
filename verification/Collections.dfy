/** An optional value, and taking an element out of a set. */
module Collections {

  datatype Option<+T> = None | Some(value: T)

  lemma SomeElement<T>(s: set<T>) returns (x: T)
    requires s != {}
    ensures x in s
  {
    if !(exists y :: y in s) { assert false; }
    x :| x in s;
  }
}
