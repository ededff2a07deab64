/** The Raw container: the server's encrypted elements, sorted. */
module RawContainer {
  import opened Bytes
  import opened Sorting
  import opened Permute
  import opened Join
  import opened Intersection

  datatype Raw = Raw(encrypted: seq<Element>)

  /** Raw::Create: the elements in ascending order, and the permutation that put them there. */
  method Create(elements: seq<Element>) returns (raw: Raw, sortingPermutation: seq<nat>)
    ensures IsPermutation(sortingPermutation, |elements|)
    ensures raw.encrypted == Permuted(elements, sortingPermutation)
    ensures Ascending(raw.encrypted)
    ensures |raw.encrypted| == |elements| && forall i :: 0 <= i < |elements| ==> raw.encrypted[i] == elements[sortingPermutation[i]]
    ensures forall i, j :: 0 <= i < j < |elements| && |raw.encrypted[i]| == |raw.encrypted[j]| ==>
              Spelled(raw.encrypted[i]) <= Spelled(raw.encrypted[j])
  {
    sortingPermutation := SortPermutation(elements);
    var a := new Element[|elements|](i requires 0 <= i < |elements| => elements[i]);
    assert a[..] == elements;
    ApplyInPlace(a, sortingPermutation);
    raw := Raw(a[..]);
    AscendingIsNumeric(raw.encrypted);
  }

  // Each pair of equal elements, by position, in exactly one row.
  ghost predicate IsAssociationTable(decrypted: seq<Element>, encrypted: seq<Element>, rows: seq<nat>, cols: seq<nat>) {
    && |rows| == |cols|
    && (forall k :: 0 <= k < |rows| ==>
          rows[k] < |decrypted| && cols[k] < |encrypted| && decrypted[rows[k]] == encrypted[cols[k]])
    && (forall p, q :: 0 <= p < |decrypted| && 0 <= q < |encrypted| && decrypted[p] == encrypted[q] ==>
          HasRow(rows, cols, p, q))
    && (forall k, l :: 0 <= k < l < |rows| ==> rows[k] != rows[l] || cols[k] != cols[l])
  }

  ghost predicate HasRow(rows: seq<nat>, cols: seq<nat>, p: nat, q: nat)
    requires |rows| == |cols|
  {
    exists k :: 0 <= k < |rows| && rows[k] == p && cols[k] == q
  }

  // Each pair of equal elements the merge reaches, by position, in exactly one row.
  ghost predicate IsReachedTable(decrypted: seq<Element>, encrypted: seq<Element>, rows: seq<nat>, cols: seq<nat>) {
    && |rows| == |cols|
    && (forall k :: 0 <= k < |rows| ==> IsReachedRow(decrypted, encrypted, rows[k], cols[k]))
    && (forall p: nat, q: nat :: IsReachedRow(decrypted, encrypted, p, q) ==> HasRow(rows, cols, p, q))
    && (forall k, l :: 0 <= k < l < |rows| ==> rows[k] != rows[l] || cols[k] != cols[l])
  }

  ghost predicate IsReachedRow(decrypted: seq<Element>, encrypted: seq<Element>, p: nat, q: nat) {
    p < |decrypted| && q < |encrypted| && decrypted[p] == encrypted[q] && Reached(encrypted, q)
  }

  /**
    The pairs reached are all pairs of equal elements if and only if no container element that
    the client also has stands where the merge is already past it.
   */
  lemma TableIsWholeIff(decrypted: seq<Element>, encrypted: seq<Element>, rows: seq<nat>, cols: seq<nat>)
    requires IsReachedTable(decrypted, encrypted, rows, cols)
    ensures IsAssociationTable(decrypted, encrypted, rows, cols) <==>
              forall q :: 0 <= q < |encrypted| && encrypted[q] in decrypted ==> Reached(encrypted, q)
  {
    if IsAssociationTable(decrypted, encrypted, rows, cols) {
      forall q | 0 <= q < |encrypted| && encrypted[q] in decrypted
        ensures Reached(encrypted, q)
      {
        var p :| 0 <= p < |decrypted| && decrypted[p] == encrypted[q];
        assert HasRow(rows, cols, p, q);
        var k :| 0 <= k < |rows| && rows[k] == p && cols[k] == q;
        assert IsReachedRow(decrypted, encrypted, rows[k], cols[k]);
      }
    }
    if forall q :: 0 <= q < |encrypted| && encrypted[q] in decrypted ==> Reached(encrypted, q) {
      forall p, q | 0 <= p < |decrypted| && 0 <= q < |encrypted| && decrypted[p] == encrypted[q]
        ensures HasRow(rows, cols, p, q)
      {
        assert IsReachedRow(decrypted, encrypted, p, q);
      }
      forall k | 0 <= k < |rows|
        ensures rows[k] < |decrypted| && cols[k] < |encrypted| && decrypted[rows[k]] == encrypted[cols[k]]
      {
        assert IsReachedRow(decrypted, encrypted, rows[k], cols[k]);
      }
    }
  }

  /** A container the library made is ascending, and then the table is whole. */
  lemma TableOfAscending(decrypted: seq<Element>, encrypted: seq<Element>, rows: seq<nat>, cols: seq<nat>)
    requires IsReachedTable(decrypted, encrypted, rows, cols) && Ascending(encrypted)
    ensures IsAssociationTable(decrypted, encrypted, rows, cols)
  {
    AscendingIsReached(encrypted);
    TableIsWholeIff(decrypted, encrypted, rows, cols);
  }

  /**
    Raw::GetAssociationTable: sorts the caller's vector in place and returns every pair
    (client position, container position) of equal elements the merge reaches exactly once.
   */
  method GetAssociationTable(raw: Raw, decrypted: array<Element>) returns (rows: seq<nat>, cols: seq<nat>)
    modifies decrypted
    ensures IsReachedTable(old(decrypted[..]), raw.encrypted, rows, cols)
    ensures Ascending(raw.encrypted) ==> IsAssociationTable(old(decrypted[..]), raw.encrypted, rows, cols)
    ensures multiset(decrypted[..]) == multiset(old(decrypted[..])) && Ascending(decrypted[..])
  {
    ghost var given := decrypted[..];
    var permutation := SortPermutation(decrypted[..]);
    ApplyInPlace(decrypted, permutation);
    PermutedKeepsMultiset(given, permutation);
    rows, cols := JoinSorted(decrypted[..], raw.encrypted, permutation);
    JoinIsTable(given, raw.encrypted, permutation, rows, cols);
    if Ascending(raw.encrypted) {
      TableOfAscending(given, raw.encrypted, rows, cols);
    }
  }

  // hits are a join of the sorted elements, and rows and cols its columns: each row is a pair
  // of the elements as they were given,
  lemma RowsAreReached(given: seq<Element>, e: seq<Element>, permutation: seq<nat>, hits: seq<Hit>, rows: seq<nat>, cols: seq<nat>)
    requires IsPermutation(permutation, |given|) && Columns(hits, permutation, rows, cols)
    requires forall h: Hit :: h in hits ==> IsHit(Permuted(given, permutation), e, h)
    ensures forall k :: 0 <= k < |rows| ==> IsReachedRow(given, e, rows[k], cols[k])
  {
    var d := Permuted(given, permutation);
    forall k | 0 <= k < |rows|
      ensures IsReachedRow(given, e, rows[k], cols[k])
    {
      assert hits[k] in hits;
      assert IsHit(d, e, hits[k]);
    }
  }

  // each pair is a row,
  lemma ReachedIsRow(given: seq<Element>, e: seq<Element>, permutation: seq<nat>, hits: seq<Hit>,
                     rows: seq<nat>, cols: seq<nat>, p: nat, q: nat)
    requires IsPermutation(permutation, |given|) && Columns(hits, permutation, rows, cols)
    requires forall h: Hit :: IsHit(Permuted(given, permutation), e, h) ==> h in hits
    requires IsReachedRow(given, e, p, q)
    ensures HasRow(rows, cols, p, q)
  {
    var d := Permuted(given, permutation);
    PermutationReaches(permutation, |given|, p);
    var a: nat :| a < |given| && permutation[a] == p;
    var h: Hit := (a, q);
    assert IsHit(d, e, h);
    var k :| 0 <= k < |hits| && hits[k] == h;
    assert rows[k] == p && cols[k] == q;
  }

  // and no pair is two rows.
  lemma RowsDiffer(permutation: seq<nat>, n: nat, hits: seq<Hit>, rows: seq<nat>, cols: seq<nat>)
    requires IsPermutation(permutation, n) && Columns(hits, permutation, rows, cols) && AllDistinct(hits)
    ensures forall k, l :: 0 <= k < l < |rows| ==> rows[k] != rows[l] || cols[k] != cols[l]
  {
    forall k, l | 0 <= k < l < |rows|
      ensures rows[k] != rows[l] || cols[k] != cols[l]
    {
      assert hits[k] != hits[l];
    }
  }

  lemma JoinIsTable(given: seq<Element>, e: seq<Element>, permutation: seq<nat>, rows: seq<nat>, cols: seq<nat>)
    requires IsPermutation(permutation, |given|) && IsJoin(Permuted(given, permutation), e, permutation, rows, cols)
    ensures IsReachedTable(given, e, rows, cols)
  {
    var hits :| JoinedRows(Permuted(given, permutation), e, |given|, hits) && Columns(hits, permutation, rows, cols);
    RowsAreReached(given, e, permutation, hits, rows, cols);
    forall p: nat, q: nat | IsReachedRow(given, e, p, q)
      ensures HasRow(rows, cols, p, q)
    {
      ReachedIsRow(given, e, permutation, hits, rows, cols, p, q);
    }
    RowsDiffer(permutation, |given|, hits, rows, cols);
  }

  // res lists, without repeats, the client positions of the multiset intersection.
  ghost predicate IsRawIntersection(elements: seq<Element>, encrypted: seq<Element>, res: seq<int>) {
    AllDistinct(res) && forall k :: k in res <==> IsKept(elements, encrypted, k)
  }

  predicate KeyedLess(x: Keyed, y: Keyed) {
    Precedes(x.0, y.0) || (x.0 == y.0 && x.1 < y.1)
  }

  /**
    Raw::Intersect: of each value as many client positions as both lists have of it, the
    smallest ones, none twice. Of a container that is not ascending only what the merge can
    match takes part.
   */
  method Intersect(raw: Raw, elements: seq<Element>) returns (res: seq<int>)
    ensures IsRawIntersection(elements, Records(raw.encrypted), res)
    ensures Ascending(raw.encrypted) ==> IsRawIntersection(elements, raw.encrypted, res)
    ensures Ascending(raw.encrypted) ==>
              forall k :: k in res <==>
                0 <= k < |elements| && multiset(elements[..k])[elements[k]] < multiset(raw.encrypted)[elements[k]]
  {
    var vp: seq<Keyed> := [];
    for i := 0 to |elements|
      invariant |vp| == i && forall k :: 0 <= k < i ==> vp[k] == (elements[k], k)
    {
      vp := vp + [(elements[i], i)];
    }
    PrecedesIsStrictTotalOrder();
    var sorted := Sort(vp, KeyedLess);
    SortedPositions(elements, vp, sorted);
    res := CustomSetIntersection(sorted, raw.encrypted);
    MatchedAreKept(elements, sorted, Records(raw.encrypted));
    RecordsAreAll(raw.encrypted);
    forall k | 0 <= k < |elements|
      ensures IsKept(elements, raw.encrypted, k) <==> multiset(elements[..k])[elements[k]] < multiset(raw.encrypted)[elements[k]]
    {
      KeptIffFewer(elements, raw.encrypted, k);
    }
  }

  // No value the client has is short in what can be matched.
  ghost predicate EnoughOf(elements: seq<Element>, encrypted: seq<Element>, v: Element) {
    Total(Records(encrypted), v) == Total(encrypted, v) || Total(elements, v) <= Total(Records(encrypted), v)
  }

  /**
    What is found is the whole intersection if and only if of every value the client has, either
    all its container copies can be matched or as many as the client has.
   */
  lemma IntersectionIsWholeIff(elements: seq<Element>, encrypted: seq<Element>, res: seq<int>)
    requires IsRawIntersection(elements, Records(encrypted), res)
    ensures IsRawIntersection(elements, encrypted, res) <==>
              forall v :: v in elements ==> EnoughOf(elements, encrypted, v)
  {
    if IsRawIntersection(elements, encrypted, res) {
      forall v | v in elements
        ensures EnoughOf(elements, encrypted, v)
      {
        ShortShows(elements, encrypted, v);
      }
    }
    if forall v :: v in elements ==> EnoughOf(elements, encrypted, v) {
      forall k
        ensures IsKept(elements, Records(encrypted), k) <==> IsKept(elements, encrypted, k)
      {
        if 0 <= k < |elements| {
          RecordsAreFewer(encrypted, elements[k]);
          RankGrows(elements, k + 1, |elements|, elements[k]);
          assert EnoughOf(elements, encrypted, elements[k]);
        }
      }
    }
  }

  // A value that is short loses a position.
  lemma ShortShows(elements: seq<Element>, encrypted: seq<Element>, v: Element)
    requires forall k :: IsKept(elements, Records(encrypted), k) <==> IsKept(elements, encrypted, k)
    ensures EnoughOf(elements, encrypted, v)
  {
    RecordsAreFewer(encrypted, v);
    if !EnoughOf(elements, encrypted, v) {
      var k := NthOccurrence(elements, |elements|, v, Total(Records(encrypted), v));
      assert IsKept(elements, encrypted, k);
      assert false;
    }
  }

  ghost predicate HasPosition(vp: seq<Keyed>, k: int) {
    exists a :: 0 <= a < |vp| && vp[a].1 == k
  }

  // vp lists the elements with their positions, by value and then by position.
  ghost predicate SortsPositions(elements: seq<Element>, vp: seq<Keyed>) {
    && (forall a :: 0 <= a < |vp| ==> 0 <= vp[a].1 < |elements| && vp[a].0 == elements[vp[a].1])
    && (forall a, b :: 0 <= a < b < |vp| ==> KeyedLess(vp[a], vp[b]))
    && (forall k :: 0 <= k < |elements| ==> HasPosition(vp, k))
  }

  lemma SortedPositions(elements: seq<Element>, vp: seq<Keyed>, sorted: seq<Keyed>)
    requires |vp| == |elements| && forall k :: 0 <= k < |vp| ==> vp[k] == (elements[k], k)
    requires multiset(sorted) == multiset(vp) && SortedBy(KeyedLess, sorted)
    ensures SortsPositions(elements, sorted)
    ensures AscendingKeys(sorted)
  {
    PrecedesIsStrictTotalOrder();
    RearrangedHasSameMembers(vp, sorted);
    RearrangedIsDistinct(vp, sorted);
    forall a | 0 <= a < |sorted|
      ensures 0 <= sorted[a].1 < |elements| && sorted[a].0 == elements[sorted[a].1]
    {
      assert sorted[a] in vp;
    }
    forall a, b | 0 <= a < b < |sorted|
      ensures KeyedLess(sorted[a], sorted[b])
    {
      assert !KeyedLess(sorted[b], sorted[a]) && sorted[a] != sorted[b];
    }
    forall k | 0 <= k < |elements|
      ensures HasPosition(sorted, k)
    {
      assert vp[k] in sorted;
    }
  }

  ghost predicate HasPairBefore(vp: seq<Keyed>, n: nat, v: Element, x: int)
    requires n <= |vp|
  {
    exists k :: 0 <= k < n && vp[k] == (v, x)
  }

  lemma HasPairNext(vp: seq<Keyed>, n: nat, v: Element, x: int)
    requires n < |vp|
    ensures HasPairBefore(vp, n + 1, v, x) <==> HasPairBefore(vp, n, v, x) || vp[n] == (v, x)
  {
  }

  // The positions, among the first n of vp, whose key is v.
  ghost function PositionsOf(vp: seq<Keyed>, n: nat, v: Element): (r: set<int>)
    requires n <= |vp|
    ensures forall x :: x in r <==> HasPairBefore(vp, n, v, x)
  {
    if n == 0 then {} else
    assert forall x :: HasPairBefore(vp, n, v, x) <==> HasPairBefore(vp, n - 1, v, x) || vp[n - 1] == (v, x) by {
      forall x
        ensures HasPairBefore(vp, n, v, x) <==> HasPairBefore(vp, n - 1, v, x) || vp[n - 1] == (v, x)
      {
        HasPairNext(vp, n - 1, v, x);
      }
    }
    PositionsOf(vp, n - 1, v) + (if vp[n - 1].0 == v then {vp[n - 1].1} else {})
  }

  ghost function PlacesOf(elements: seq<Element>, n: nat, v: Element): (r: set<int>)
    requires n <= |elements|
    ensures |r| == Rank(elements, n, v)
    ensures forall k :: k in r <==> 0 <= k < n && elements[k] == v
  {
    if n == 0 then {} else
    var r := PlacesOf(elements, n - 1, v);
    assert n - 1 !in r;
    r + (if elements[n - 1] == v then {n - 1} else {})
  }

  lemma {:induction false} PositionsCount(vp: seq<Keyed>, n: nat, v: Element)
    requires n <= |vp| && forall a, b :: 0 <= a < b < |vp| ==> vp[a].1 != vp[b].1
    ensures |PositionsOf(vp, n, v)| == Rank(Keys(vp), n, v)
    decreases n
  {
    if n > 0 {
      PositionsCount(vp, n - 1, v);
      var before := PositionsOf(vp, n - 1, v);
      assert vp[n - 1].1 !in before by {
        assert !HasPairBefore(vp, n - 1, v, vp[n - 1].1);
      }
      assert PositionsOf(vp, n, v) == if vp[n - 1].0 == v then before + {vp[n - 1].1} else before;
    }
  }

  lemma PositionsDiffer(elements: seq<Element>, vp: seq<Keyed>)
    requires SortsPositions(elements, vp)
    ensures forall a, b :: 0 <= a < b < |vp| ==> vp[a].1 != vp[b].1
  {
    forall a, b | 0 <= a < b < |vp|
      ensures vp[a].1 != vp[b].1
    {
      assert KeyedLess(vp[a], vp[b]);
      PrecedesIrreflexive(vp[a].0);
    }
  }

  lemma PositionIsPlace(elements: seq<Element>, vp: seq<Keyed>, a: nat, x: int)
    requires SortsPositions(elements, vp) && a < |vp| && HasPairBefore(vp, a, vp[a].0, x)
    ensures x in PlacesOf(elements, vp[a].1, vp[a].0)
  {
    var b :| 0 <= b < a && vp[b] == (vp[a].0, x);
    PrecedesIrreflexive(vp[a].0);
    assert KeyedLess(vp[b], vp[a]);
  }

  lemma PlaceIsPosition(elements: seq<Element>, vp: seq<Keyed>, a: nat, x: int)
    requires SortsPositions(elements, vp) && a < |vp| && x in PlacesOf(elements, vp[a].1, vp[a].0)
    ensures HasPairBefore(vp, a, vp[a].0, x)
  {
    assert HasPosition(vp, x);
    var b :| 0 <= b < |vp| && vp[b].1 == x;
    PrecedesIrreflexive(vp[a].0);
    assert !KeyedLess(vp[a], vp[b]) && b != a;
  }

  // Sorting by (value, position) keeps equal values in the order of their positions.
  lemma RankSurvivesSorting(elements: seq<Element>, vp: seq<Keyed>, a: nat)
    requires SortsPositions(elements, vp) && a < |vp|
    ensures Rank(Keys(vp), a, vp[a].0) == Rank(elements, vp[a].1, vp[a].0)
  {
    var v, k := vp[a].0, vp[a].1;
    forall x
      ensures x in PositionsOf(vp, a, v) <==> x in PlacesOf(elements, k, v)
    {
      if x in PositionsOf(vp, a, v) {
        PositionIsPlace(elements, vp, a, x);
      }
      if x in PlacesOf(elements, k, v) {
        PlaceIsPosition(elements, vp, a, x);
      }
    }
    assert PositionsOf(vp, a, v) == PlacesOf(elements, k, v);
    PositionsDiffer(elements, vp);
    PositionsCount(vp, a, v);
  }

  ghost predicate HasPositionBefore(vp: seq<Keyed>, n: nat, k: int)
    requires n <= |vp|
  {
    exists a :: 0 <= a < n && vp[a].1 == k
  }

  lemma {:induction false} MatchedSoFar(elements: seq<Element>, vp: seq<Keyed>, e: seq<Element>, n: nat)
    requires SortsPositions(elements, vp) && n <= |vp|
    ensures forall k :: k in Matched(vp, e, n) <==> IsKept(elements, e, k) && HasPositionBefore(vp, n, k)
    decreases n
  {
    if n > 0 {
      MatchedSoFar(elements, vp, e, n - 1);
      MatchedNext(vp, e, n - 1);
      RankSurvivesSorting(elements, vp, n - 1);
      var last := vp[n - 1].1;
      forall k
        ensures HasPositionBefore(vp, n, k) <==> HasPositionBefore(vp, n - 1, k) || k == last
      {
      }
    }
  }

  lemma {:induction false} MatchedOnce(elements: seq<Element>, vp: seq<Keyed>, e: seq<Element>, n: nat)
    requires SortsPositions(elements, vp) && n <= |vp|
    ensures AllDistinct(Matched(vp, e, n))
    decreases n
  {
    if n > 0 {
      MatchedOnce(elements, vp, e, n - 1);
      MatchedSoFar(elements, vp, e, n - 1);
      PositionsDiffer(elements, vp);
      assert !HasPositionBefore(vp, n - 1, vp[n - 1].1);
    }
  }

  lemma MatchedAreKept(elements: seq<Element>, vp: seq<Keyed>, e: seq<Element>)
    requires SortsPositions(elements, vp)
    ensures IsRawIntersection(elements, e, Matched(vp, e, |vp|))
  {
    MatchedSoFar(elements, vp, e, |vp|);
    MatchedOnce(elements, vp, e, |vp|);
    forall k | IsKept(elements, e, k)
      ensures k in Matched(vp, e, |vp|)
    {
      assert HasPosition(vp, k);
    }
  }

  /** The intersection's size is that of the multiset intersection, so it does not depend on the client's order. */
  lemma IntersectionSize(elements: seq<Element>, encrypted: seq<Element>, res: seq<int>)
    requires IsRawIntersection(elements, encrypted, res)
    ensures |res| == |multiset(elements) * multiset(encrypted)|
  {
    DistinctSize(res, KeptUpTo(elements, encrypted, |elements|));
    KeptIsMultisetIntersection(elements, encrypted, |elements|);
    assert elements[..|elements|] == elements;
  }

  /**
    A container that loses a match: it holds 2 and then 1, the client has 1, and nothing is found.
    A client that has 2 loses nothing.
   */
  lemma UnsortedLoses(rows: seq<nat>, cols: seq<nat>, res: seq<int>)
    requires IsReachedTable([[1]], [[2], [1]], rows, cols) && IsRawIntersection([[1]], Records([[2], [1]]), res)
    ensures rows == [] && !IsAssociationTable([[1]], [[2], [1]], rows, cols)
    ensures res == [] && !IsRawIntersection([[1]], [[2], [1]], res)
    ensures forall q :: 0 <= q < 2 && [[2], [1]][q] in [[2]] ==> Reached([[2], [1]], q)
  {
    var d: seq<Element>, e: seq<Element> := [[1]], [[2], [1]];
    OneAfterTwo(e);
    SomeRow(d, e, rows, cols);
    SomePosition(d, e, res);
    assert IsAssociationTable(d, e, rows, cols) ==> HasRow(rows, cols, 0, 1);
    assert Total(Records(e), d[0]) == 0 && Total(e, d[0]) == 1;
    assert IsKept(d, e, 0);
  }

  lemma SomeRow(d: seq<Element>, e: seq<Element>, rows: seq<nat>, cols: seq<nat>)
    requires IsReachedTable(d, e, rows, cols)
    ensures rows == [] || exists p, q :: IsReachedRow(d, e, p, q)
  {
    if rows != [] {
      assert IsReachedRow(d, e, rows[0], cols[0]);
    }
  }

  lemma SomePosition(d: seq<Element>, e: seq<Element>, res: seq<int>)
    requires IsRawIntersection(d, Records(e), res)
    ensures res == [] || IsKept(d, Records(e), res[0])
  {
    if res != [] {
      assert res[0] in res;
    }
  }

  lemma OneAfterTwo(e: seq<Element>)
    requires e == [[2], [1]]
    ensures Reached(e, 0) && !Reached(e, 1) && Records(e) == [[2]]
  {
    var two: seq<Element> := [[2]];
    assert two[..0] == [];
    assert e[..1] == two;
    assert Precedes(e[1], e[0]) && !Precedes(e[0], e[1]);
  }
}
