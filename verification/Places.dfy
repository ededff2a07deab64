/** The positions of a list whose elements meet a test, and how many they are in any order. */
module Places {
  import opened Sorting
  import opened Permute

  ghost function PlacesWhere<T>(s: seq<T>, p: T -> bool): (r: set<int>)
    ensures forall k: int :: k in r <==> 0 <= k < |s| && p(s[k])
  {
    set k | 0 <= k < |s| && p(s[k])
  }

  // Each listed once.
  ghost predicate ArePlaces<T(!new)>(s: seq<T>, p: T -> bool, res: seq<int>) {
    AllDistinct(res) && forall k: int :: k in res <==> 0 <= k < |s| && p(s[k])
  }

  lemma PlacesSize<T(!new)>(s: seq<T>, p: T -> bool, res: seq<int>)
    requires ArePlaces(s, p, res)
    ensures |res| == |PlacesWhere(s, p)|
  {
    DistinctSize(res, PlacesWhere(s, p));
  }

  function Hits<T>(s: seq<T>, p: T -> bool): nat {
    if s == [] then 0 else Hits(s[..|s|-1], p) + if p(s[|s|-1]) then 1 else 0
  }

  lemma {:induction false} HitsInTwo<T>(a: seq<T>, b: seq<T>, p: T -> bool)
    ensures Hits(a + b, p) == Hits(a, p) + Hits(b, p)
    decreases |b|
  {
    if b == [] {
      assert a + b == a;
    } else {
      HitsInTwo(a, b[..|b|-1], p);
      assert (a + b)[..|a + b|-1] == a + b[..|b|-1];
    }
  }

  lemma HitsOfThree<T>(a: seq<T>, x: seq<T>, b: seq<T>, p: T -> bool)
    ensures Hits(a + (x + b), p) == Hits(a + b, p) + Hits(x, p)
  {
    HitsInTwo(a, x + b, p);
    HitsInTwo(x, b, p);
    HitsInTwo(a, b, p);
  }

  lemma AroundOne<T>(s: seq<T>, k: nat)
    requires k < |s|
    ensures s == s[..k] + ([s[k]] + s[k+1..]) && Without(s, k) == s[..k] + s[k+1..]
  {
  }

  lemma HitsWithout<T>(s: seq<T>, k: nat, p: T -> bool)
    requires k < |s|
    ensures Hits(s, p) == Hits(Without(s, k), p) + Hits([s[k]], p)
  {
    AroundOne(s, k);
    HitsOfThree(s[..k], [s[k]], s[k+1..], p);
  }

  lemma {:induction false} HitsIgnoreOrder<T>(xs: seq<T>, ys: seq<T>, p: T -> bool)
    requires multiset(xs) == multiset(ys)
    ensures Hits(xs, p) == Hits(ys, p)
    decreases |xs|
  {
    RearrangedHasSameMembers(xs, ys);
    if xs != [] {
      assert xs[0] in ys;
      var k :| 0 <= k < |ys| && ys[k] == xs[0];
      WithoutSame(xs, 0, ys, k);
      HitsWithout(xs, 0, p);
      HitsWithout(ys, k, p);
      HitsIgnoreOrder(Without(xs, 0), Without(ys, k), p);
    }
  }

  lemma {:induction false} PlacesAreHits<T>(s: seq<T>, p: T -> bool)
    ensures |PlacesWhere(s, p)| == Hits(s, p)
    decreases |s|
  {
    if s == [] {
      assert PlacesWhere(s, p) == {};
    } else {
      var rest, last := s[..|s|-1], s[|s|-1];
      PlacesAreHits(rest, p);
      var more := if p(last) then {|rest|} else {};
      assert PlacesWhere(s, p) == PlacesWhere(rest, p) + more;
    }
  }

  /** How many elements meet the test does not depend on their order. */
  lemma PlacesIgnoreOrder<T>(xs: seq<T>, ys: seq<T>, p: T -> bool)
    requires multiset(xs) == multiset(ys)
    ensures |PlacesWhere(xs, p)| == |PlacesWhere(ys, p)|
  {
    PlacesAreHits(xs, p);
    PlacesAreHits(ys, p);
    HitsIgnoreOrder(xs, ys, p);
  }
}
