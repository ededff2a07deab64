/** The streaming matcher's result against the library path it stands in for. */
module Agreement {
  import opened Bytes
  import opened Sorting
  import opened MatchSpec
  import opened RawContainer
  import opened Intersection

  // What the recorded columns hold: the matching response positions, each with its match.
  lemma {:induction false} ColumnsAre(es: seq<Element>, plains: seq<Element>)
    requires StrictlyAscending(es)
    ensures |ResponseRows(es, plains)| == |SetupCols(es, plains)|
    ensures forall k :: 0 <= k < |ResponseRows(es, plains)| ==>
              && ResponseRows(es, plains)[k] < |plains| && SetupCols(es, plains)[k] < |es|
              && plains[ResponseRows(es, plains)[k]] == es[SetupCols(es, plains)[k]]
    ensures forall k, l :: 0 <= k < l < |ResponseRows(es, plains)| ==> ResponseRows(es, plains)[k] < ResponseRows(es, plains)[l]
    ensures forall p :: 0 <= p < |plains| && plains[p] in es ==> p in ResponseRows(es, plains)
    decreases |plains|
  {
    if plains != [] {
      var rest, last := plains[..|plains|-1], plains[|plains|-1];
      ColumnsAre(es, rest);
      assert plains == rest + [last];
      forall p | 0 <= p < |plains| && plains[p] in es
        ensures p in ResponseRows(es, plains)
      {
        if p == |plains| - 1 {
          assert ResponseRows(es, plains)[|ResponseRows(es, plains)|-1] == p;
        } else {
          assert rest[p] == plains[p];
        }
      }
    }
  }

  /**
    The recorded pairs are an association table of the decrypted response with the setup: the
    pairs Raw::GetAssociationTable returns, in ascending order of the response position.
   */
  lemma PairsAreTheLibrarys(es: seq<Element>, plains: seq<Element>)
    requires StrictlyAscending(es)
    ensures IsAssociationTable(plains, es, ResponseRows(es, plains), SetupCols(es, plains))
    ensures forall k, l :: 0 <= k < l < |ResponseRows(es, plains)| ==> ResponseRows(es, plains)[k] < ResponseRows(es, plains)[l]
  {
    ColumnsAre(es, plains);
    StrictlyAscendingIsAscending(es);
    var rows, cols := ResponseRows(es, plains), SetupCols(es, plains);
    forall p, q | 0 <= p < |plains| && 0 <= q < |es| && plains[p] == es[q]
      ensures HasRow(rows, cols, p, q)
    {
      assert plains[p] in es;
      var k :| 0 <= k < |rows| && rows[k] == p;
      assert cols[k] == q;
    }
  }

  // Whether a table holds the pair (p, q), for any table of the same two lists.
  lemma TableHasExactly(decrypted: seq<Element>, encrypted: seq<Element>, rows: seq<nat>, cols: seq<nat>, p: nat, q: nat)
    requires IsAssociationTable(decrypted, encrypted, rows, cols)
    ensures HasRow(rows, cols, p, q) <==> p < |decrypted| && q < |encrypted| && decrypted[p] == encrypted[q]
  {
  }

  /** Any two association tables of the same lists hold the same pairs and are equally long. */
  lemma TablesAgree(decrypted: seq<Element>, encrypted: seq<Element>,
                    rows: seq<nat>, cols: seq<nat>, rows': seq<nat>, cols': seq<nat>)
    requires IsAssociationTable(decrypted, encrypted, rows, cols)
    requires IsAssociationTable(decrypted, encrypted, rows', cols')
    ensures forall p: nat, q: nat :: HasRow(rows, cols, p, q) <==> HasRow(rows', cols', p, q)
    ensures |rows| == |rows'|
  {
    forall p: nat, q: nat
      ensures HasRow(rows, cols, p, q) <==> HasRow(rows', cols', p, q)
    {
      TableHasExactly(decrypted, encrypted, rows, cols, p, q);
      TableHasExactly(decrypted, encrypted, rows', cols', p, q);
    }
    RowSetSize(rows, cols, |rows|);
    RowSetSize(rows', cols', |rows'|);
    assert RowSet(rows, cols, |rows|) == RowSet(rows', cols', |rows'|) by {
      forall h
        ensures h in RowSet(rows, cols, |rows|) <==> h in RowSet(rows', cols', |rows'|)
      {
        InRowSet(rows, cols, h);
        InRowSet(rows', cols', h);
      }
    }
  }

  ghost function RowSet(rows: seq<nat>, cols: seq<nat>, n: nat): set<(nat, nat)>
    requires |rows| == |cols| && n <= |rows|
  {
    if n == 0 then {} else RowSet(rows, cols, n - 1) + {(rows[n - 1], cols[n - 1])}
  }

  lemma {:induction false} RowSetHas(rows: seq<nat>, cols: seq<nat>, n: nat, h: (nat, nat))
    requires |rows| == |cols| && n <= |rows|
    ensures h in RowSet(rows, cols, n) <==> exists k :: 0 <= k < n && rows[k] == h.0 && cols[k] == h.1
    decreases n
  {
    if n > 0 {
      RowSetHas(rows, cols, n - 1, h);
    }
  }

  lemma InRowSet(rows: seq<nat>, cols: seq<nat>, h: (nat, nat))
    requires |rows| == |cols|
    ensures h in RowSet(rows, cols, |rows|) <==> HasRow(rows, cols, h.0, h.1)
  {
    RowSetHas(rows, cols, |rows|, h);
  }

  lemma {:induction false} RowSetSize(rows: seq<nat>, cols: seq<nat>, n: nat)
    requires |rows| == |cols| && n <= |rows|
    requires forall k, l :: 0 <= k < l < |rows| ==> rows[k] != rows[l] || cols[k] != cols[l]
    ensures |RowSet(rows, cols, n)| == n
    decreases n
  {
    if n > 0 {
      RowSetSize(rows, cols, n - 1);
      RowSetHas(rows, cols, n - 1, (rows[n - 1], cols[n - 1]));
    }
  }

  ghost predicate IsMatched(es: seq<Element>, plains: seq<Element>, i: nat) {
    i < |es| && es[i] in plains
  }

  // The matched among the first n setup elements.
  ghost function MatchedBelow(es: seq<Element>, plains: seq<Element>, n: nat): (r: set<nat>)
    requires n <= |es|
    ensures forall i: nat :: i in r <==> i < n && IsMatched(es, plains, i)
  {
    if n == 0 then {}
    else if IsMatched(es, plains, n - 1) then MatchedBelow(es, plains, n - 1) + {n - 1}
    else MatchedBelow(es, plains, n - 1)
  }

  lemma {:induction false} MatchedIsMeet(es: seq<Element>, plains: seq<Element>, n: nat)
    requires AllDistinct(es) && n <= |es|
    ensures |MatchedBelow(es, plains, n)| == |multiset(es[..n]) * multiset(plains)|
    decreases n
  {
    if n == 0 {
      NothingMeets(es, plains);
    } else {
      MatchedIsMeet(es, plains, n - 1);
      MatchedGrows(es, plains, n);
      MeetOfDistinct(es, plains, n);
    }
  }

  lemma MatchedGrows(es: seq<Element>, plains: seq<Element>, n: nat)
    requires 0 < n <= |es|
    ensures |MatchedBelow(es, plains, n)|
         == |MatchedBelow(es, plains, n - 1)| + (if IsMatched(es, plains, n - 1) then 1 else 0)
  {
    assert n - 1 !in MatchedBelow(es, plains, n - 1);
  }

  lemma NothingMeets(es: seq<Element>, plains: seq<Element>)
    ensures |multiset(es[..0]) * multiset(plains)| == 0
  {
    assert multiset(es[..0]) * multiset(plains) == multiset{};
  }

  lemma MeetOfDistinct(es: seq<Element>, plains: seq<Element>, n: nat)
    requires AllDistinct(es) && 0 < n <= |es|
    ensures |multiset(es[..n]) * multiset(plains)|
         == |multiset(es[..n-1]) * multiset(plains)| + (if IsMatched(es, plains, n - 1) then 1 else 0)
  {
    var x := es[n - 1];
    assert es[..n] == es[..n-1] + [x];
    assert x !in es[..n-1];
    assert multiset(es[..n-1])[x] == 0;
    MeetNext(multiset(es[..n-1]), multiset(plains), x);
  }

  lemma SizeOfMatched(es: seq<Element>, plains: seq<Element>)
    requires StrictlyAscending(es)
    ensures |MatchedSetup(es, plains)| == |multiset(plains) * multiset(es)|
  {
    StrictlyAscendingIsAscending(es);
    MatchedIsMeet(es, plains, |es|);
    assert es[..|es|] == es;
    assert forall i: nat :: i in MatchedBelow(es, plains, |es|) <==> i in MatchedSetup(es, plains);
    assert MatchedBelow(es, plains, |es|) == MatchedSetup(es, plains);
    assert multiset(es) * multiset(plains) == multiset(plains) * multiset(es);
  }

  /**
    Over a strictly ascending setup the size reported, a population count, is the length of what
    Raw::Intersect returns for the same decrypted elements, however often each one repeats.
   */
  lemma SizeIsTheLibrarys(es: seq<Element>, plains: seq<Element>, res: seq<int>)
    requires StrictlyAscending(es) && IsRawIntersection(plains, es, res)
    ensures |MatchedSetup(es, plains)| == |res|
  {
    SizeOfMatched(es, plains);
    IntersectionSize(plains, es, res);
  }

  /** The size does not depend on the order of the response. */
  lemma SizeIgnoresOrder(es: seq<Element>, plains: seq<Element>, plains': seq<Element>)
    requires multiset(plains) == multiset(plains')
    ensures MatchedSetup(es, plains) == MatchedSetup(es, plains')
  {
    RearrangedHasSameMembers(plains, plains');
  }
}
