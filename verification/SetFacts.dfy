/** Facts about finite sets that several modules need. */
module SetFacts {

  lemma HasElement(s: set<int>)
    requires s != {}
    ensures exists x :: x in s
  {
    assert (forall x :: x !in s) ==> s == {};
  }

  lemma Disjoint(a: set<int>, b: set<int>)
    requires forall x :: x in a ==> x !in b
    ensures |a + b| == |a| + |b|
  {
    var both := a * b;
    assert forall x :: x !in both;
    assert (forall x :: x !in both) ==> both == {};
  }

  lemma {:induction false} LargerThanAll(used: set<int>) returns (bound: int)
    ensures forall x :: x in used ==> x < bound
  {
    bound := 0;
    if used != {} {
      HasElement(used);
      var y :| y in used;
      var rest := LargerThanAll(used - {y});
      bound := if rest > y then rest else y + 1;
      forall x | x in used
        ensures x < bound
      {
        if x != y { assert x in used - {y}; }
      }
    }
  }

  method PickFrom<T(==)>(s: set<T>) returns (x: T)
    requires s != {}
    ensures x in s
  {
    x :| x in s;
  }

  lemma SameElements(a: set<int>, b: set<int>)
    requires (forall x :: x in a ==> x in b) && (forall x :: x in b ==> x in a)
    ensures a == b
  {
    assert forall x :: x !in a - b;
    assert (forall x :: x !in a - b) ==> a - b == {};
    assert forall x :: x !in b - a;
    assert (forall x :: x !in b - a) ==> b - a == {};
    assert a == a * b + (a - b) && b == a * b + (b - a);
  }
}
