/** The priority queue of the merge: which of several least elements comes first is open. */
module MergeQueue {
  import opened Bytes

  datatype Element = Element(value: u64, run: nat, position: nat)

  ghost predicate Least(e: Element, items: multiset<Element>) {
    e in items && forall x :: x in items ==> e.value <= x.value
  }

  lemma {:induction false} LeastExists(items: multiset<Element>)
    requires items != multiset{}
    ensures exists e :: Least(e, items)
    decreases |items|
  {
    var x :| x in items;
    var rest := items - multiset{x};
    if rest == multiset{} {
      assert items == multiset{x};
      assert Least(x, items);
    } else {
      LeastExists(rest);
      var e :| Least(e, rest);
      var least := if e.value <= x.value then e else x;
      forall y | y in items ensures least.value <= y.value {
        assert y == x || y in rest;
      }
      assert Least(least, items);
    }
  }

  class MinQueue {
    var items: multiset<Element>

    constructor ()
      ensures items == multiset{}
    {
      items := multiset{};
    }

    method Push(e: Element)
      modifies this
      ensures items == old(items) + multiset{e}
    {
      items := items + multiset{e};
    }

    method Pop() returns (e: Element)
      requires items != multiset{}
      modifies this
      ensures Least(e, old(items)) && items == old(items) - multiset{e}
    {
      LeastExists(items);
      ghost var g :| Least(g, items);
      e :| e in items && forall x :: x in items ==> e.value <= x.value;
      items := items - multiset{e};
    }
  }
}
