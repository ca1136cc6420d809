/** The optional value the Python code expresses with `None`, and a fact about sets the searches use. */
module Wrappers {
  datatype Option<+T> = None | Some(value: T)

  /** A set of ints that is not empty has an element, so `x :| x in s` can pick one. */
  lemma Inhabited(s: set<int>)
    requires s != {}
    ensures exists x :: x in s
  {
    if forall x :: x !in s {
      assert false;
    }
  }
}
