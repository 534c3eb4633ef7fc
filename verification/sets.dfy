/** Least and greatest elements of finite integer sets: the datastore's key order. */
module Sets {

  /** A non-empty set has an element. */
  lemma HasElement(s: set<int>)
    requires s != {}
    ensures exists y :: y in s
  {
    if forall y :: y !in s {
      assert false;
    }
  }

  /** `m` is the least element of `s`. */
  predicate IsLeast(s: set<int>, m: int) {
    m in s && forall x :: x in s ==> m <= x
  }

  /** Every non-empty finite set of integers has a least element. */
  lemma {:induction false} LeastExists(s: set<int>)
    requires s != {}
    ensures exists m :: IsLeast(s, m)
    decreases |s|
  {
    HasElement(s);
    var y :| y in s;
    var rest := s - {y};
    if rest == {} {
      forall x | x in s ensures y <= x { assert x == y || x in rest; }
      assert IsLeast(s, y);
    } else {
      LeastExists(rest);
      var m :| IsLeast(rest, m);
      var k := if y < m then y else m;
      forall x | x in s ensures k <= x { assert x == y || x in rest; }
      assert IsLeast(s, k);
    }
  }

  /** The least element of a non-empty set. */
  function Least(s: set<int>): (m: int)
    requires s != {}
    ensures m in s
    ensures forall x :: x in s ==> m <= x
  {
    LeastExists(s);
    var m :| IsLeast(s, m); m
  }

  /** The greatest element of a non-empty set, as the least of the negations. */
  function Greatest(s: set<int>): (m: int)
    requires s != {}
    ensures m in s
    ensures forall x :: x in s ==> x <= m
  {
    var neg := set x | x in s :: -x;
    HasElement(s);
    var y :| y in s;
    assert -y in neg;
    var l := Least(neg);
    assert forall x :: x in s ==> -x in neg;
    -l
  }

  /** An integer above every element of `s` and at least 1: the id a counter-style allocator hands out next. */
  function Above(s: set<int>): (n: int)
    ensures n >= 1
    ensures n !in s
    ensures forall x :: x in s ==> x < n
  {
    if s == {} then 1
    else
      var top := Greatest(s);
      if top < 1 then 1 else top + 1
  }
}
