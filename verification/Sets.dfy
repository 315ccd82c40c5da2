/** Picking elements of sets. */
module Sets {

  lemma SomeOf<T>(s: set<T>) returns (x: T)
    requires s != {}
    ensures x in s
  {
    x :| x in s;
  }

  lemma Outside<T>(s: set<T>, t: set<T>) returns (x: T)
    requires !(s <= t)
    ensures x in s && x !in t
  {
    assert forall y :: y in s ==> y in t || y in s - t;
    x := SomeOf(s - t);
  }

  /** The elements of a set, each once, in whatever order. */
  method InSomeOrder<T(==)>(s: set<T>) returns (l: seq<T>)
    ensures forall x :: x in l <==> x in s
    ensures forall i, j :: 0 <= i < j < |l| ==> l[i] != l[j]
  {
    l := [];
    var rest := s;
    while rest != {}
      invariant forall x :: x in s <==> x in l || x in rest
      invariant forall x :: x in l ==> x !in rest
      invariant forall i, j :: 0 <= i < j < |l| ==> l[i] != l[j]
      decreases |rest|
    {
      var x :| x in rest;
      l, rest := l + [x], rest - {x};
    }
  }
}
