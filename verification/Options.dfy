/** What most modules share: a value that may be absent, and picking from a set. */
module Options {

  datatype Option<T> = None | Some(value: T)

  /** Python visits a set in an order of its own. */
  method Any<T>(s: set<T>) returns (x: T)
    requires s != {}
    ensures x in s
  {
    x :| x in s;
  }
}
