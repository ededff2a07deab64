/** The merge loop of the association table: the many-to-many join of a sorted list with the container's. */
module Join {
  import opened Bytes
  import opened Sorting

  // A row of the join: a position in the first list with a position in the second.
  type Hit = (nat, nat)

  // From b up to q the list holds nothing but what stands at q.
  ghost predicate SameTo(e: seq<Element>, b: nat, q: nat)
    requires q < |e|
  {
    forall c :: b <= c < q ==> e[c] == e[q]
  }

  // The merge comes to position q before it has gone past its value: everything before q is
  // smaller, except for the run of equal elements that leads to q.
  ghost predicate Reached(e: seq<Element>, q: nat) {
    q < |e| && forall b :: 0 <= b < q ==> Precedes(e[b], e[q]) || SameTo(e, b, q)
  }

  /** In an ascending list every position is reached. */
  lemma AscendingIsReached(e: seq<Element>)
    requires Ascending(e)
    ensures forall q :: 0 <= q < |e| ==> Reached(e, q)
  {
    PrecedesIsStrictTotalOrder();
    forall q, b | 0 <= b < q < |e| && !Precedes(e[b], e[q])
      ensures SameTo(e, b, q)
    {
      forall c | b <= c < q
        ensures e[c] == e[q]
      {
        assert !Precedes(e[q], e[b]) && !Precedes(e[q], e[c]) && (b < c ==> !Precedes(e[c], e[b]));
      }
    }
  }

  /** And it is ascending if every position is reached. */
  lemma ReachedIsAscending(e: seq<Element>)
    requires forall q :: 0 <= q < |e| ==> Reached(e, q)
    ensures Ascending(e)
  {
    PrecedesIsStrictTotalOrder();
    forall i, j | 0 <= i < j < |e|
      ensures !Precedes(e[j], e[i])
    {
      assert Reached(e, j);
      assert SameTo(e, i, j) ==> e[i] == e[j];
    }
  }

  ghost predicate IsHit(d: seq<Element>, e: seq<Element>, h: Hit) {
    h.0 < |d| && h.1 < |e| && d[h.0] == e[h.1] && Reached(e, h.1)
  }

  // hits lists, without repeats, exactly the reached matches of the first n positions of d.
  ghost predicate JoinedRows(d: seq<Element>, e: seq<Element>, n: nat, hits: seq<Hit>) {
    && AllDistinct(hits)
    && forall h: Hit :: h in hits <==> IsHit(d, e, h) && h.0 < n
  }

  // No position of d from i on matches before j in e.
  ghost predicate Passed(d: seq<Element>, e: seq<Element>, i: nat, j: nat)
    requires i <= |d| && j <= |e|
  {
    forall a, b :: i <= a < |d| && 0 <= b < j ==> Precedes(e[b], d[a])
  }

  // rows and cols are the two columns of the hits, rows mapped through the permutation.
  ghost predicate Columns(hits: seq<Hit>, permutation: seq<nat>, rows: seq<nat>, cols: seq<nat>) {
    && |rows| == |cols| == |hits|
    && forall k :: 0 <= k < |hits| ==>
         hits[k].0 < |permutation| && rows[k] == permutation[hits[k].0] && cols[k] == hits[k].1
  }

  // The rows and columns of exactly the reached matches of d with e, each once.
  ghost predicate IsJoin(d: seq<Element>, e: seq<Element>, permutation: seq<nat>, rows: seq<nat>, cols: seq<nat>) {
    exists hits :: JoinedRows(d, e, |d|, hits) && Columns(hits, permutation, rows, cols)
  }

  function RowHits(i: nat, lo: nat, hi: nat): (r: seq<Hit>)
    requires lo <= hi
    ensures |r| == hi - lo && forall k :: 0 <= k < |r| ==> r[k] == (i, lo + k)
  {
    if lo == hi then [] else RowHits(i, lo, hi - 1) + [(i, hi - 1)]
  }

  // All reached matches of d[i] stand in [lo, hi) of e.
  ghost predicate MatchesAre(d: seq<Element>, e: seq<Element>, i: nat, lo: nat, hi: nat)
    requires i < |d|
  {
    lo <= hi <= |e| && forall b :: 0 <= b < |e| ==> (d[i] == e[b] && Reached(e, b) <==> lo <= b < hi)
  }

  lemma JoinRow(d: seq<Element>, e: seq<Element>, i: nat, lo: nat, hi: nat, hits: seq<Hit>)
    requires i < |d| && JoinedRows(d, e, i, hits) && MatchesAre(d, e, i, lo, hi)
    ensures JoinedRows(d, e, i + 1, hits + RowHits(i, lo, hi))
  {
    var row := RowHits(i, lo, hi);
    var all := hits + row;
    forall h: Hit
      ensures h in all <==> IsHit(d, e, h) && h.0 < i + 1
    {
      if IsHit(d, e, h) && h.0 == i {
        assert row[h.1 - lo] == h;
      }
    }
    forall k, l | 0 <= k < l < |all|
      ensures all[k] != all[l]
    {
      if k < |hits| <= l {
        assert all[k] in hits && all[l] in row;
      }
    }
  }

  // The run of entries of e equal to d[i] that starts at `first`.
  lemma GroupIsAllMatches(d: seq<Element>, e: seq<Element>, i: nat, first: nat, j: nat)
    requires i < |d| && first < j <= |e| && Passed(d, e, i, first)
    requires forall b :: first <= b < j ==> d[i] == e[b]
    requires j < |e| ==> d[i] != e[j]
    ensures MatchesAre(d, e, i, first, j)
  {
    PrecedesIrreflexive(d[i]);
    forall b | 0 <= b < |e|
      ensures d[i] == e[b] && Reached(e, b) <==> first <= b < j
    {
      if first <= b < j {
        assert forall c :: first <= c < b ==> SameTo(e, c, b);
      } else if j <= b && d[i] == e[b] {
        assert !SameTo(e, first, b);
      }
    }
  }

  lemma NoMatches(d: seq<Element>, e: seq<Element>, i: nat, j: nat)
    requires i < |d| && j < |e| && Passed(d, e, i, j) && Precedes(d[i], e[j])
    ensures MatchesAre(d, e, i, j, j)
  {
    PrecedesIsStrictTotalOrder();
    forall b | 0 <= b < |e|
      ensures !(d[i] == e[b] && Reached(e, b))
    {
      if b > j && d[i] == e[b] {
        assert !SameTo(e, j, b);
      }
    }
  }

  lemma PassedGroup(d: seq<Element>, e: seq<Element>, i: nat, first: nat, j: nat)
    requires Ascending(d) && i < |d| && first < j <= |e| && Passed(d, e, i, first)
    requires forall b :: first <= b < j ==> d[i] == e[b]
    requires i + 1 < |d| ==> d[i + 1] != d[i]
    ensures Passed(d, e, i + 1, j)
  {
    PrecedesIsStrictTotalOrder();
    forall a, b | i + 1 <= a < |d| && 0 <= b < j
      ensures Precedes(e[b], d[a])
    {
      assert !Precedes(d[i + 1], d[i]) && (a > i + 1 ==> !Precedes(d[a], d[i + 1]));
    }
  }

  lemma PassedOne(d: seq<Element>, e: seq<Element>, i: nat, j: nat)
    requires Ascending(d) && i < |d| && j < |e| && Passed(d, e, i, j) && Precedes(e[j], d[i])
    ensures Passed(d, e, i, j + 1)
  {
    PrecedesIsStrictTotalOrder();
    forall a | i < a < |d|
      ensures Precedes(e[j], d[a])
    {
      assert !Precedes(d[a], d[i]);
    }
  }

  // Every entry of e equal to d[i], from j on: the innermost do-while.
  method EmitRow(d: seq<Element>, e: seq<Element>, permutation: seq<nat>, i: nat, first: nat,
                 rowsIn: seq<nat>, colsIn: seq<nat>, ghost hitsIn: seq<Hit>)
    returns (j: nat, rows: seq<nat>, cols: seq<nat>, ghost hits: seq<Hit>)
    requires i < |d| == |permutation| && first < |e| && d[i] == e[first]
    requires Passed(d, e, i, first) && JoinedRows(d, e, i, hitsIn)
    requires Columns(hitsIn, permutation, rowsIn, colsIn)
    ensures first < j <= |e| && forall b :: first <= b < j ==> d[i] == e[b]
    ensures JoinedRows(d, e, i + 1, hits) && Columns(hits, permutation, rows, cols)
  {
    j, rows, cols := first + 1, rowsIn + [permutation[i]], colsIn + [first];
    hits := hitsIn + RowHits(i, first, j);
    while j < |e| && d[i] == e[j]
      invariant first < j <= |e| && forall b :: first <= b < j ==> d[i] == e[b]
      invariant hits == hitsIn + RowHits(i, first, j) && Columns(hits, permutation, rows, cols)
    {
      rows := rows + [permutation[i]];
      cols := cols + [j];
      j := j + 1;
      hits := hits + [(i, j - 1)];
      assert hits == hitsIn + RowHits(i, first, j);
    }
    GroupIsAllMatches(d, e, i, first, j);
    JoinRow(d, e, i, first, j, hitsIn);
  }

  /**
    The merge of Raw::GetAssociationTable on the sorted client elements d and any list e: every
    reached match of d with e exactly once, although j goes back to the start of a run of equal
    elements.
   */
  method JoinSorted(d: seq<Element>, e: seq<Element>, permutation: seq<nat>)
    returns (rows: seq<nat>, cols: seq<nat>)
    requires Ascending(d) && |permutation| == |d|
    ensures IsJoin(d, e, permutation, rows, cols)
  {
    rows, cols := [], [];
    ghost var hits: seq<Hit> := [];
    var i: nat, j: nat := 0, 0;
    while i < |d| && j < |e|
      invariant i <= |d| && j <= |e| && Passed(d, e, i, j)
      invariant JoinedRows(d, e, i, hits) && Columns(hits, permutation, rows, cols)
      decreases |d| - i + |e| - j
    {
      ghost var i0, j0 := i, j;
      while i < |d| && Precedes(d[i], e[j])
        invariant i0 <= i <= |d| && Passed(d, e, i, j)
        invariant JoinedRows(d, e, i, hits) && Columns(hits, permutation, rows, cols)
      {
        NoMatches(d, e, i, j);
        JoinRow(d, e, i, j, j, hits);
        assert hits + RowHits(i, j, j) == hits;
        i := i + 1;
      }
      if i >= |d| {
        break;
      }
      var firstJ := j;
      var firstEncrypted := e[j];
      if d[i] == e[j] {
        while true
          invariant i0 <= i < |d| && d[i] == firstEncrypted && j == firstJ && Passed(d, e, i, firstJ)
          invariant JoinedRows(d, e, i, hits) && Columns(hits, permutation, rows, cols)
          decreases |d| - i
        {
          j, rows, cols, hits := EmitRow(d, e, permutation, i, firstJ, rows, cols, hits);
          i := i + 1;
          if i < |d| && d[i] == firstEncrypted {
            j := firstJ;
          } else {
            PassedGroup(d, e, i - 1, firstJ, j);
            break;
          }
        }
      } else {
        PrecedesIsStrictTotalOrder();
        assert Precedes(e[j], d[i]);
      }
      while j < |e| && i < |d| && Precedes(e[j], d[i])
        invariant j0 <= j <= |e| && i0 <= i <= |d| && Passed(d, e, i, j)
        invariant i == i0 && j == j0 ==> j < |e| && i < |d| && Precedes(e[j], d[i])
        decreases |e| - j
      {
        PassedOne(d, e, i, j);
        j := j + 1;
      }
    }
    if i < |d| {
      AllPassed(d, e, i, hits);
    }
  }

  // Once e is exhausted the remaining positions of d have no match.
  lemma AllPassed(d: seq<Element>, e: seq<Element>, i: nat, hits: seq<Hit>)
    requires i <= |d| && Passed(d, e, i, |e|) && JoinedRows(d, e, i, hits)
    ensures JoinedRows(d, e, |d|, hits)
  {
    PrecedesIsStrictTotalOrder();
  }
}
