/**
 * The store chooses the key of a new bookmark. Nothing is assumed about how
 * (not even that keys increase); the only fact needed is that a finite table
 * always leaves some key unused.
 */
module FreshIds {

  /** Every finite set of ids has an upper bound, so the store can always pick a fresh id. */
  lemma {:induction false} UpperBound(s: set<int>) returns (bound: int)
    ensures forall id :: id in s ==> id < bound
    decreases s
  {
    if s == {} {
      bound := 0;
    } else {
      var x := Pick(s);
      var rest := UpperBound(s - {x});
      bound := if rest > x + 1 then rest else x + 1;
      forall id | id in s ensures id < bound {
        if id != x {
          assert id in s - {x};
        }
      }
    }
  }

  lemma Pick<T>(s: set<T>) returns (x: T)
    requires s != {}
    ensures x in s
  {
    x :| x in s;
  }

  lemma FreshIdExists<V>(t: map<int, V>)
    ensures exists id :: id !in t
  {
    var bound := UpperBound(t.Keys);
    assert bound !in t;
  }
}
