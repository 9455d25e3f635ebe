/** Small value types shared by the models of the operator's controllers. */
module Common {
  datatype Option<+T> = None | Some(value: T)

  /** A Go slice: nil and empty are different values, although they have the same elements. */
  datatype Slice<+T> = Nil | Slice(items: seq<T>) {
    function Elems(): seq<T> {
      if Nil? then [] else items
    }
  }

  /** A set with at most one member has cardinality at most one. */
  lemma AtMostOne<T>(s: set<T>)
    requires forall x, y :: x in s && y in s ==> x == y
    ensures |s| <= 1
  {
    if s != {} {
      var x :| x in s;
      assert s == {x};
    }
  }
}
