/** Primary keys: the least key of a set and the keys of a set in ascending order. */
module Keys {

  /** Strictly increasing, hence without repetitions. */
  predicate Increasing(xs: seq<int>)
  {
    forall i, j :: 0 <= i < j < |xs| ==> xs[i] < xs[j]
  }

  /** A set with no members is the empty set. */
  lemma EmptyOrInhabited(s: set<int>)
    ensures s == {} || exists x :: x in s
  {
    if !(exists x :: x in s) {
      assert forall x :: x !in s;
      assert s == {};
    }
  }

  /** Every non-empty finite set of integers has a least element; this is one. */
  lemma {:induction false} LeastElement(s: set<int>) returns (m: int)
    requires s != {}
    ensures m in s
    ensures forall x :: x in s ==> m <= x
  {
    EmptyOrInhabited(s);
    var y :| y in s;
    if s == {y} {
      m := y;
    } else {
      var rest := s - {y};
      var k := LeastElement(rest);
      m := if y < k then y else k;
      forall x | x in s
        ensures m <= x
      {
        if x != y {
          assert x in rest;
        }
      }
    }
  }

  lemma MinExists(s: set<int>)
    requires s != {}
    ensures exists m :: m in s && forall x :: x in s ==> m <= x
  {
    var m := LeastElement(s);
  }

  /** The least key of a non-empty set. */
  function Min(s: set<int>): (m: int)
    requires s != {}
    ensures m in s
    ensures forall x :: x in s ==> m <= x
  {
    MinExists(s);
    var m :| m in s && forall x :: x in s ==> m <= x;
    m
  }

  /** The keys of `s`, each once, smallest first. */
  function Ascending(s: set<int>): (r: seq<int>)
    ensures Increasing(r)
    ensures forall x :: x in r <==> x in s
    ensures forall i :: 0 <= i < |r| ==> r[i] in s
    ensures |r| == |s|
    decreases s
  {
    if s == {} then []
    else
      var m := Min(s);
      var rest := Ascending(s - {m});
      ConsIncreasing(m, rest);
      [m] + rest
  }

  /** A key below every key of an increasing list can go in front of it. */
  lemma ConsIncreasing(m: int, rest: seq<int>)
    requires Increasing(rest)
    requires forall i :: 0 <= i < |rest| ==> m < rest[i]
    ensures Increasing([m] + rest)
  {
  }
}
