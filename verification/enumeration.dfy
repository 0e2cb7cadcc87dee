/** Iteration over a Java HashSet or an unsorted table scan visits the
    elements in an order the program does not control. The model fixes one
    such order per set: `SetToSeq` lists every element exactly once, in an
    order that depends on the set alone. */
module Enumeration {

  ghost function SetToSeq<T(!new)>(s: set<T>): (xs: seq<T>)
    ensures |xs| == |s|
    ensures forall x :: x in xs <==> x in s
    ensures forall i, j :: 0 <= i < j < |xs| ==> xs[i] != xs[j]
    decreases s
  {
    if s == {} then []
    else
      var x :| x in s;
      [x] + SetToSeq(s - {x})
  }

  /** The listing of a one-element set is that element. */
  lemma SingletonListing<T(!new)>(x: T)
    ensures SetToSeq({x}) == [x]
  {
    var xs := SetToSeq({x});
    assert |xs| == 1 && xs[0] in {x};
  }
}
