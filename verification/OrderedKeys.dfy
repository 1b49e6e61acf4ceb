/** Iteration over a `std::map` with `int` keys: ascending key order. */
module OrderedKeys {
  predicate Ascending(s: seq<int>) { forall i, j :: 0 <= i < j < |s| ==> s[i] < s[j] }

  lemma Member<T>(s: set<T>) returns (a: T)
    requires s != {}
    ensures a in s
  {
    a :| a in s;
  }

  lemma {:induction false} LeastExists(s: set<int>)
    requires s != {}
    ensures exists m :: m in s && forall x :: x in s ==> m <= x
  {
    var a := Member(s);
    if s == {a} {
      assert a in s && forall x :: x in s ==> a <= x;
    } else {
      LeastExists(s - {a});
      var b :| b in s - {a} && forall x :: x in s - {a} ==> b <= x;
      var m := if a < b then a else b;
      forall x | x in s ensures m <= x {
        assert x == a || x in s - {a};
      }
    }
  }

  function Least(s: set<int>): (m: int)
    requires s != {}
    ensures m in s && forall x :: x in s ==> m <= x
  {
    LeastExists(s);
    var m :| m in s && forall x :: x in s ==> m <= x;
    m
  }

  /** The keys in the order a map visits them. */
  function SortedKeys(s: set<int>): (ks: seq<int>)
    ensures Ascending(ks)
    ensures forall x :: x in ks <==> x in s
    ensures forall i :: 0 <= i < |ks| ==> ks[i] in s
    ensures |ks| == |s|
  {
    if s == {} then []
    else
      var m := Least(s);
      assert forall x :: x in s - {m} ==> m < x;
      [m] + SortedKeys(s - {m})
  }

  lemma SortedKeysHead(s: set<int>, low: int)
    requires low in s && forall x :: x in s ==> low <= x
    ensures SortedKeys(s) == [low] + SortedKeys(s - {low})
  {
    assert Least(s) == low;
  }
}
