/** std::sort as the library uses it: a sorted rearrangement, with no promise about ties. */
module Sorting {

  // What std::sort asks of its comparator on the values it is given: two values never
  // precede each other, and "does not come after" is transitive.
  ghost predicate OrdersValues<T>(less: (T, T) -> bool, s: seq<T>) {
    && (forall x, y :: x in s && y in s && less(x, y) ==> !less(y, x))
    && (forall x, y, z :: x in s && y in s && z in s && !less(y, x) && !less(z, y) ==> !less(z, x))
  }

  ghost predicate SortedBy<T>(less: (T, T) -> bool, s: seq<T>) {
    forall i, j :: 0 <= i < j < |s| ==> !less(s[j], s[i])
  }

  method Sort<T(==)>(s: seq<T>, less: (T, T) -> bool) returns (r: seq<T>)
    requires OrdersValues(less, s)
    ensures multiset(r) == multiset(s)
    ensures |r| == |s|
    ensures SortedBy(less, r)
  {
    r := [];
    for n := 0 to |s|
      invariant |r| == n && multiset(r) == multiset(s[..n])
      invariant (forall x :: x in r ==> x in s) && SortedBy(less, r)
    {
      r := Insert(r, s[n], less, s);
      assert s[..n+1] == s[..n] + [s[n]];
    }
    assert s[..|s|] == s;
  }

  method Insert<T(==)>(r: seq<T>, x: T, less: (T, T) -> bool, ghost s: seq<T>) returns (r': seq<T>)
    requires OrdersValues(less, s) && SortedBy(less, r)
    requires x in s && forall y :: y in r ==> y in s
    ensures multiset(r') == multiset(r) + multiset{x} && |r'| == |r| + 1
    ensures SortedBy(less, r') && forall y :: y in r' ==> y in s
  {
    var k := |r|;
    while k > 0 && less(x, r[k - 1])
      invariant 0 <= k <= |r| && forall i :: k <= i < |r| ==> less(x, r[i])
    {
      k := k - 1;
    }
    InsertKeepsOrder(r, x, k, less, s);
    assert r == r[..k] + r[k..];
    r' := r[..k] + [x] + r[k..];
  }

  lemma InsertKeepsOrder<T>(r: seq<T>, x: T, k: nat, less: (T, T) -> bool, s: seq<T>)
    requires OrdersValues(less, s) && SortedBy(less, r)
    requires x in s && forall y :: y in r ==> y in s
    requires k <= |r| && (k > 0 ==> !less(x, r[k - 1]))
    requires forall i :: k <= i < |r| ==> less(x, r[i])
    ensures SortedBy(less, r[..k] + [x] + r[k..])
  {
    var t := r[..k] + [x] + r[k..];
    forall i, j | 0 <= i < j < |t|
      ensures !less(t[j], t[i])
    {
      if j == k && i < k - 1 {
        assert t[i] == r[i] && r[i] in s && r[k - 1] in s;
        assert !less(r[k - 1], r[i]);
      } else if i == k {
        assert t[j] == r[j - 1] && r[j - 1] in s;
      } else if i < k && j > k {
        assert t[i] == r[i] && t[j] == r[j - 1];
      }
    }
  }

  function Iota(n: nat): (r: seq<nat>)
    ensures |r| == n && forall i :: 0 <= i < n ==> r[i] == i
  {
    seq(n, i => i)
  }

  // p lists every index below n exactly once.
  ghost predicate IsPermutation(p: seq<nat>, n: nat) {
    && |p| == n
    && (forall i :: 0 <= i < n ==> p[i] < n)
    && (forall i, j :: 0 <= i < j < n ==> p[i] != p[j])
  }

  function Count<T(==)>(s: seq<T>, x: T): nat {
    multiset(s)[x]
  }

  lemma MultisetSplit<T>(s: seq<T>, k: nat)
    requires k < |s|
    ensures multiset(s) == multiset(s[..k]) + multiset{s[k]} + multiset(s[k+1..])
  {
    assert s == s[..k] + [s[k]] + s[k+1..];
  }

  // A list with the same values as 0, 1, ..., n-1 is a permutation of the indices.
  lemma RearrangedIotaIsPermutation(p: seq<nat>, n: nat)
    requires |p| == n && multiset(p) == multiset(Iota(n))
    ensures IsPermutation(p, n)
  {
    forall i | 0 <= i < n
      ensures p[i] < n
    {
      assert p[i] in multiset(p);
      assert p[i] in Iota(n);
    }
    forall i, j | 0 <= i < j < n
      ensures p[i] != p[j]
    {
      if p[i] == p[j] {
        RepeatCountsTwice(p, i, j);
        IotaCountsOnce(n, p[i]);
      }
    }
  }

  lemma RepeatCountsTwice<T>(s: seq<T>, i: nat, j: nat)
    requires i < j < |s| && s[i] == s[j]
    ensures Count(s, s[i]) >= 2
  {
    MultisetSplit(s, j);
    assert s[..j][i] == s[i];
    assert s[i] in multiset(s[..j]);
  }

  ghost predicate AllDistinct<T>(s: seq<T>) {
    forall i, j :: 0 <= i < j < |s| ==> s[i] != s[j]
  }

  lemma DistinctCountsOnce<T>(s: seq<T>, x: T)
    requires AllDistinct(s)
    ensures Count(s, x) <= 1
  {
    if x in s {
      var k :| 0 <= k < |s| && s[k] == x;
      MultisetSplit(s, k);
      assert x !in s[..k] && x !in s[k+1..];
    }
  }

  // Sorting a list without repeats gives a list without repeats.
  lemma RearrangedIsDistinct<T>(s: seq<T>, r: seq<T>)
    requires AllDistinct(s) && multiset(r) == multiset(s)
    ensures AllDistinct(r)
  {
    forall i, j | 0 <= i < j < |r|
      ensures r[i] != r[j]
    {
      if r[i] == r[j] {
        RepeatCountsTwice(r, i, j);
        DistinctCountsOnce(s, r[i]);
      }
    }
  }

  lemma RearrangedHasSameMembers<T>(s: seq<T>, r: seq<T>)
    requires multiset(r) == multiset(s)
    ensures |r| == |s|
    ensures forall x :: x in r <==> x in s
  {
    assert |multiset(r)| == |multiset(s)|;
    forall x
      ensures x in r <==> x in s
    {
      assert x in multiset(r) <==> x in multiset(s);
    }
  }

  lemma IotaCountsOnce(n: nat, x: nat)
    requires x < n
    ensures Count(Iota(n), x) == 1
  {
    var iota := Iota(n);
    MultisetSplit(iota, x);
    assert x !in iota[..x] && x !in iota[x+1..];
  }

  ghost function IndexSet(n: nat): (r: set<nat>)
    ensures |r| == n && forall i :: i in r <==> 0 <= i < n
  {
    if n == 0 then {} else
    var r := IndexSet(n - 1);
    assert n - 1 !in r;
    r + {n - 1}
  }

  // An injective list of n indices below n reaches every index.
  lemma PermutationReaches(p: seq<nat>, n: nat, x: nat)
    requires IsPermutation(p, n) && x < n
    ensures exists i :: 0 <= i < n && p[i] == x
  {
    var image := ImageSet(p, n);
    if x !in image {
      assert image <= IndexSet(n) - {x};
      SubsetSize(image, IndexSet(n) - {x});
      assert false;
    }
  }

  ghost function ImageSet(p: seq<nat>, k: nat): (r: set<nat>)
    requires k <= |p| && forall i, j :: 0 <= i < j < |p| ==> p[i] != p[j]
    ensures |r| == k
    ensures forall x :: x in r <==> exists i :: 0 <= i < k && p[i] == x
  {
    if k == 0 then {} else
    var r := ImageSet(p, k - 1);
    assert p[k - 1] !in r;
    r + {p[k - 1]}
  }

  lemma SubsetSize<T>(a: set<T>, b: set<T>)
    requires a <= b
    ensures |a| <= |b|
  {
    assert b == a + (b - a);
  }

  // A list without repeats is as long as the set of its members is large.
  lemma {:induction false} DistinctSize(s: seq<int>, S: set<int>)
    requires AllDistinct(s) && forall x :: x in s <==> x in S
    ensures |s| == |S|
    decreases |s|
  {
    if s != [] {
      var last := s[|s|-1];
      assert last in S;
      DistinctSize(s[..|s|-1], S - {last});
    } else {
      assert forall x :: x in S ==> x in s;
    }
  }
}
