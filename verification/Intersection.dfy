/** The multiset intersection of an ascending list of keyed positions with an ascending list. */
module Intersection {
  import opened Bytes
  import opened Sorting

  // A value with its position in the client's list.
  type Keyed = (Element, int)

  function Keys(vp: seq<Keyed>): (r: seq<Element>)
    ensures |r| == |vp| && forall k :: 0 <= k < |vp| ==> r[k] == vp[k].0
  {
    if vp == [] then [] else Keys(vp[..|vp|-1]) + [vp[|vp|-1].0]
  }

  ghost predicate AscendingKeys(vp: seq<Keyed>) {
    forall i, j :: 0 <= i < j < |vp| ==> !Precedes(vp[j].0, vp[i].0)
  }

  lemma AscendingKeysAre(vp: seq<Keyed>)
    requires AscendingKeys(vp)
    ensures Ascending(Keys(vp))
  {
    var d := Keys(vp);
    forall i, j | 0 <= i < j < |d|
      ensures !Precedes(d[j], d[i])
    {
      assert d[i] == vp[i].0 && d[j] == vp[j].0;
    }
  }

  // How many of the first n entries equal v.
  function Rank(s: seq<Element>, n: nat, v: Element): nat
    requires n <= |s|
  {
    if n == 0 then 0 else Rank(s, n - 1, v) + (if s[n - 1] == v then 1 else 0)
  }

  function Total(s: seq<Element>, v: Element): nat {
    Rank(s, |s|, v)
  }

  lemma {:induction false} RankIsCount(s: seq<Element>, n: nat, v: Element)
    requires n <= |s|
    ensures Rank(s, n, v) == Count(s[..n], v)
    decreases n
  {
    if n > 0 {
      RankIsCount(s, n - 1, v);
      assert s[..n] == s[..n-1] + [s[n - 1]];
    }
  }

  lemma {:induction false} RankGrows(s: seq<Element>, m: nat, n: nat, v: Element)
    requires m <= n <= |s|
    ensures Rank(s, m, v) <= Rank(s, n, v)
    decreases n
  {
    if m < n {
      RankGrows(s, m, n - 1, v);
    }
  }

  lemma {:induction false} RankStays(s: seq<Element>, m: nat, n: nat, v: Element)
    requires m <= n <= |s| && forall k :: m <= k < n ==> s[k] != v
    ensures Rank(s, m, v) == Rank(s, n, v)
    decreases n
  {
    if m < n {
      RankStays(s, m, n - 1, v);
    }
  }

  // Among the first n keys, those with fewer equal keys before them than e has equal entries:
  // of a value that d holds m times and e holds k times, the first min(m, k).
  function Matched(vp: seq<Keyed>, e: seq<Element>, n: nat): seq<int>
    requires n <= |vp|
  {
    if n == 0 then []
    else Matched(vp, e, n - 1)
         + (if Rank(Keys(vp), n - 1, vp[n-1].0) < Total(e, vp[n-1].0) then [vp[n-1].1] else [])
  }

  // Neither list has used up more of a value than the other, among the values still to come
  // in the first (Ahead) and in the second (Behind).
  ghost predicate Ahead(d: seq<Element>, e: seq<Element>, i: nat, j: nat)
    requires i <= |d| && j <= |e|
  {
    forall a :: i <= a < |d| ==> Rank(e, j, d[a]) <= Rank(d, i, d[a])
  }

  ghost predicate Behind(d: seq<Element>, e: seq<Element>, i: nat, j: nat)
    requires i <= |d| && j <= |e|
  {
    forall b :: j <= b < |e| ==> Rank(d, i, e[b]) <= Rank(e, j, e[b])
  }

  lemma StepFirst(d: seq<Element>, e: seq<Element>, i: nat, j: nat)
    requires Ascending(e) && i < |d| && j < |e| && Precedes(d[i], e[j])
    requires Ahead(d, e, i, j) && Behind(d, e, i, j)
    ensures Ahead(d, e, i + 1, j) && Behind(d, e, i + 1, j)
    ensures Rank(d, i, d[i]) >= Total(e, d[i])
  {
    PrecedesIsStrictTotalOrder();
    forall b | j <= b < |e|
      ensures e[b] != d[i]
    {
      assert b > j ==> !Precedes(e[b], e[j]);
    }
    RankStays(e, j, |e|, d[i]);
    forall a | i + 1 <= a < |d|
      ensures Rank(e, j, d[a]) <= Rank(d, i + 1, d[a])
    {
      RankGrows(d, i, i + 1, d[a]);
    }
    forall b | j <= b < |e|
      ensures Rank(d, i + 1, e[b]) <= Rank(e, j, e[b])
    {
    }
  }

  lemma StepSecond(d: seq<Element>, e: seq<Element>, i: nat, j: nat)
    requires Ascending(d) && i < |d| && j < |e| && Precedes(e[j], d[i])
    requires Ahead(d, e, i, j) && Behind(d, e, i, j)
    ensures Ahead(d, e, i, j + 1) && Behind(d, e, i, j + 1)
  {
    PrecedesIsStrictTotalOrder();
    forall a | i <= a < |d|
      ensures Rank(e, j + 1, d[a]) <= Rank(d, i, d[a])
    {
      assert a > i ==> !Precedes(d[a], d[i]);
    }
    forall b | j + 1 <= b < |e|
      ensures Rank(d, i, e[b]) <= Rank(e, j + 1, e[b])
    {
      RankGrows(e, j, j + 1, e[b]);
    }
  }

  lemma StepBoth(d: seq<Element>, e: seq<Element>, i: nat, j: nat)
    requires i < |d| && j < |e| && d[i] == e[j]
    requires Ahead(d, e, i, j) && Behind(d, e, i, j)
    ensures Ahead(d, e, i + 1, j + 1) && Behind(d, e, i + 1, j + 1)
    ensures Rank(d, i, d[i]) < Total(e, d[i])
  {
    RankGrows(e, j + 1, |e|, d[i]);
    forall a | i + 1 <= a < |d|
      ensures Rank(e, j + 1, d[a]) <= Rank(d, i + 1, d[a])
    {
    }
    forall b | j + 1 <= b < |e|
      ensures Rank(d, i + 1, e[b]) <= Rank(e, j + 1, e[b])
    {
    }
  }

  // Once e is used up, no further key matches.
  lemma {:induction false} NoneLeft(vp: seq<Keyed>, e: seq<Element>, i: nat, n: nat)
    requires i <= n <= |vp| && Ahead(Keys(vp), e, i, |e|)
    ensures Matched(vp, e, n) == Matched(vp, e, i)
    decreases n
  {
    if n > i {
      NoneLeft(vp, e, i, n - 1);
      var d := Keys(vp);
      assert e[..|e|] == e && d[n - 1] == vp[n - 1].0;
      RankGrows(d, i, n - 1, d[n - 1]);
    }
  }

  lemma MatchedNext(vp: seq<Keyed>, e: seq<Element>, n: nat)
    requires n < |vp|
    ensures var d := Keys(vp);
            && d[n] == vp[n].0
            && (Rank(d, n, d[n]) >= Total(e, d[n]) ==> Matched(vp, e, n + 1) == Matched(vp, e, n))
            && (Rank(d, n, d[n]) < Total(e, d[n]) ==> Matched(vp, e, n + 1) == Matched(vp, e, n) + [vp[n].1])
  {
  }

  ghost predicate MergedTo(vp: seq<Keyed>, e: seq<Element>, i: nat, j: nat, res: seq<int>) {
    && i <= |vp| && j <= |e|
    && Ahead(Keys(vp), e, i, j) && Behind(Keys(vp), e, i, j)
    && res == Matched(vp, e, i)
  }

  lemma MergeFirst(vp: seq<Keyed>, e: seq<Element>, i: nat, j: nat, res: seq<int>)
    requires Ascending(e) && MergedTo(vp, e, i, j, res) && i < |vp| && j < |e| && Precedes(vp[i].0, e[j])
    ensures MergedTo(vp, e, i + 1, j, res)
  {
    StepFirst(Keys(vp), e, i, j);
    MatchedNext(vp, e, i);
  }

  lemma MergeBoth(vp: seq<Keyed>, e: seq<Element>, i: nat, j: nat, res: seq<int>)
    requires MergedTo(vp, e, i, j, res) && i < |vp| && j < |e| && vp[i].0 == e[j]
    ensures MergedTo(vp, e, i + 1, j + 1, res + [vp[i].1])
  {
    StepBoth(Keys(vp), e, i, j);
    MatchedNext(vp, e, i);
  }

  lemma MergeSecond(vp: seq<Keyed>, e: seq<Element>, i: nat, j: nat, res: seq<int>)
    requires AscendingKeys(vp) && MergedTo(vp, e, i, j, res) && i < |vp| && j < |e| && Precedes(e[j], vp[i].0)
    ensures MergedTo(vp, e, i, j + 1, res)
  {
    AscendingKeysAre(vp);
    StepSecond(Keys(vp), e, i, j);
  }

  lemma MergeDone(vp: seq<Keyed>, e: seq<Element>, i: nat, j: nat, res: seq<int>)
    requires MergedTo(vp, e, i, j, res) && (i == |vp| || j == |e|)
    ensures res == Matched(vp, e, |vp|)
  {
    if i < |vp| {
      NoneLeft(vp, e, i, |vp|);
    }
  }

  // What the merge can match of a list in any order: the elements no earlier one is greater
  // than. It is past the others' values before it comes to them.
  function Records(e: seq<Element>): (r: seq<Element>)
    ensures |r| <= |e| && (e != [] ==> r != [])
  {
    if e == [] then []
    else
      var r, last := Records(e[..|e|-1]), e[|e|-1];
      if r == [] || !Precedes(last, r[|r|-1]) then r + [last] else r
  }

  // An ascending list whose last element bounds it stays so with one more that is not smaller.
  lemma BoundGrows(r: seq<Element>, last: Element)
    requires Ascending(r) && (r != [] ==> !Precedes(last, r[|r|-1]))
    ensures Ascending(r + [last])
  {
    forall i | 0 <= i < |r|
      ensures !Precedes(last, r[i])
    {
      if i < |r| - 1 {
        NotAfterTransitive(r[i], r[|r|-1], last);
      }
    }
  }

  lemma {:induction false} RecordsAscend(e: seq<Element>)
    ensures Ascending(Records(e))
    decreases |e|
  {
    if e != [] {
      var r, last := Records(e[..|e|-1]), e[|e|-1];
      RecordsAscend(e[..|e|-1]);
      if r == [] || !Precedes(last, r[|r|-1]) {
        BoundGrows(r, last);
      }
    }
  }

  /** Every element of an ascending list can be matched, and only an ascending list has this. */
  lemma {:induction false} RecordsAreAll(e: seq<Element>)
    ensures Records(e) == e <==> Ascending(e)
    decreases |e|
  {
    RecordsAscend(e);
    if e != [] && Ascending(e) {
      var before := e[..|e|-1];
      RecordsAreAll(before);
      assert e == before + [e[|e|-1]];
    }
  }

  // The last record is one of the greatest elements.
  lemma {:induction false} LastRecordIsGreatest(e: seq<Element>)
    requires e != []
    ensures var top := Records(e)[|Records(e)|-1]; top in e && forall b :: 0 <= b < |e| ==> !Precedes(top, e[b])
    decreases |e|
  {
    PrecedesIsStrictTotalOrder();
    var before, last := e[..|e|-1], e[|e|-1];
    if before != [] {
      LastRecordIsGreatest(before);
      var top := Records(before)[|Records(before)|-1];
      forall b | 0 <= b < |e|
        ensures !Precedes(Records(e)[|Records(e)|-1], e[b])
      {
        if b < |before| {
          assert e[b] == before[b];
          if !Precedes(last, top) {
            NotAfterTransitive(e[b], top, last);
          }
        }
      }
    }
  }

  // No greater element stands before position q.
  ghost predicate Leads(e: seq<Element>, q: int)
    requires 0 <= q < |e|
  {
    forall b :: 0 <= b < q ==> !Precedes(e[q], e[b])
  }

  ghost function Leading(e: seq<Element>, v: Element): (r: set<int>)
    ensures forall q :: q in r <==> 0 <= q < |e| && e[q] == v && Leads(e, q)
  {
    set q | 0 <= q < |e| && e[q] == v && Leads(e, q)
  }

  lemma LeadsBefore(e: seq<Element>, n: nat, q: nat)
    requires q < n <= |e|
    ensures Leads(e[..n], q) <==> Leads(e, q)
  {
    assert forall b :: 0 <= b <= q ==> e[..n][b] == e[b];
  }

  lemma LeadingNext(e: seq<Element>, v: Element)
    requires e != []
    ensures var n := |e| - 1;
            |Leading(e, v)| == |Leading(e[..n], v)| + if e[n] == v && Leads(e, n) then 1 else 0
  {
    var n := |e| - 1;
    var more := if e[n] == v && Leads(e, n) then {n} else {};
    forall q
      ensures q in Leading(e, v) <==> q in Leading(e[..n], v) + more
    {
      if 0 <= q < n {
        LeadsBefore(e, n, q);
      }
    }
    assert Leading(e, v) == Leading(e[..n], v) + more && n !in Leading(e[..n], v);
  }

  // The last element is a record exactly when none before it is greater.
  lemma LastLeads(e: seq<Element>)
    requires e != []
    ensures var n := |e| - 1; Records(e) == Records(e[..n]) + if Leads(e, n) then [e[n]] else []
  {
    var r := Records(e[..|e|-1]);
    assert r + [] == r;
    if r != [] {
      LeadsIff(e);
    }
  }

  lemma LeadsIff(e: seq<Element>)
    requires e != [] && Records(e[..|e|-1]) != []
    ensures var n, r := |e| - 1, Records(e[..|e|-1]);
            Leads(e, n) <==> !Precedes(e[n], r[|r|-1])
  {
    var n := |e| - 1;
    var before := e[..n];
    LastRecordIsGreatest(before);
    var top := Records(before)[|Records(before)|-1];
    if Precedes(e[n], top) {
      var k :| 0 <= k < n && before[k] == top;
      assert Precedes(e[n], e[k]);
    } else {
      NoneAbove(e, n, top);
    }
  }

  lemma NoneAbove(e: seq<Element>, n: nat, top: Element)
    requires n < |e| && !Precedes(e[n], top) && forall b :: 0 <= b < n ==> !Precedes(top, e[..n][b])
    ensures Leads(e, n)
  {
    forall b | 0 <= b < n
      ensures !Precedes(e[n], e[b])
    {
      assert e[..n][b] == e[b];
      NotAfterTransitive(e[b], top, e[n]);
    }
  }

  lemma CountWithOne(r: seq<Element>, x: Element, v: Element)
    ensures multiset(r + [x])[v] == multiset(r)[v] + if x == v then 1 else 0
    ensures multiset(r + [])[v] == multiset(r)[v]
  {
    assert r + [] == r;
  }

  /** The records are the elements before which no greater one stands, each as often as it does so. */
  lemma {:induction false} RecordsAre(e: seq<Element>, v: Element)
    ensures multiset(Records(e))[v] == |Leading(e, v)|
    decreases |e|
  {
    if e == [] {
      assert Leading(e, v) == {};
    } else {
      RecordsAre(e[..|e|-1], v);
      LastLeads(e);
      LeadingNext(e, v);
      CountWithOne(Records(e[..|e|-1]), e[|e|-1], v);
    }
  }

  lemma {:induction false} RecordsAreFewer(e: seq<Element>, v: Element)
    ensures Total(Records(e), v) <= Total(e, v)
    decreases |e|
  {
    if e != [] {
      var before := e[..|e|-1];
      RecordsAreFewer(before, v);
      RankOfPrefix(e, before, |before|, v);
      RankOfPrefix(Records(e), Records(before), |Records(before)|, v);
    }
  }

  lemma {:induction false} RankOfPrefix(s: seq<Element>, t: seq<Element>, n: nat, v: Element)
    requires t <= s && n <= |t|
    ensures Rank(s, n, v) == Rank(t, n, v)
    decreases n
  {
    if n > 0 {
      RankOfPrefix(s, t, n - 1, v);
    }
  }

  lemma {:induction false} RecordsOfPrefix(e: seq<Element>, j: nat)
    requires j <= |e|
    ensures Records(e[..j]) <= Records(e)
    decreases |e|
  {
    if j == |e| {
      assert e[..j] == e;
    } else {
      RecordsOfPrefix(e[..|e|-1], j);
      assert e[..|e|-1][..j] == e[..j];
    }
  }

  // Before position j of e there are r records.
  ghost predicate RecordsBefore(e: seq<Element>, j: nat, r: nat) {
    j <= |e| && r == |Records(e[..j])| <= |Records(e)| && (j == |e| ==> r == |Records(e)|)
  }

  // Position j either is the next record or lies below the one before.
  lemma NextRecord(e: seq<Element>, j: nat, r: nat) returns (r': nat)
    requires RecordsBefore(e, j, r) && j < |e|
    ensures RecordsBefore(e, j + 1, r') && r <= r' <= r + 1
    ensures r' == r + 1 ==> Records(e)[r] == e[j]
    ensures r' == r ==> r > 0 && Precedes(e[j], Records(e)[r - 1])
  {
    r' := |Records(e[..j + 1])|;
    assert e[..j + 1][..j] == e[..j];
    RecordsOfPrefix(e, j);
    RecordsOfPrefix(e, j + 1);
    assert e[..|e|] == e;
  }

  // None of the first n of e is greater than a key from i on.
  ghost predicate Cleared(first: seq<Keyed>, e: seq<Element>, i: nat, n: nat) {
    n <= |e| && forall a :: i <= a < |first| ==> ClearedKey(first[a].0, e, n)
  }

  ghost predicate ClearedKey(x: Element, e: seq<Element>, n: nat)
    requires n <= |e|
  {
    forall b :: 0 <= b < n ==> !Precedes(x, e[b])
  }

  // What lies below a record is smaller than what stands at i.
  lemma BelowIsPassed(first: seq<Keyed>, e: seq<Element>, i: nat, n: nat, x: Element)
    requires Cleared(first, e, i, n) && i < |first| && n > 0 && Precedes(x, e[n - 1])
    ensures Precedes(x, first[i].0)
  {
    var key, top := first[i].0, e[n - 1];
    assert ClearedKey(key, e, n);
    PrecedesTotal(key, top);
    if key != top {
      PrecedesTransitive(x, top, key);
    }
  }

  lemma NotBoth(x: Element, y: Element)
    requires Precedes(x, y)
    ensures !Precedes(y, x) && x != y
  {
    PrecedesIrreflexive(x);
    if Precedes(y, x) {
      PrecedesTransitive(x, y, x);
    }
  }

  // A value the key at i is not below, no later key is below.
  lemma NotBelow(first: seq<Keyed>, i: nat, v: Element)
    requires AscendingKeys(first) && i < |first| && !Precedes(first[i].0, v)
    ensures forall a :: i <= a < |first| ==> !Precedes(first[a].0, v)
  {
    forall a | i < a < |first|
      ensures !Precedes(first[a].0, v)
    {
      NotAfterTransitive(v, first[i].0, first[a].0);
    }
  }

  lemma ClearedNext(first: seq<Keyed>, e: seq<Element>, i: nat, n: nat)
    requires Cleared(first, e, i, n) && n < |e|
    requires forall a :: i <= a < |first| ==> !Precedes(first[a].0, e[n])
    ensures Cleared(first, e, i, n + 1)
  {
    forall a | i <= a < |first|
      ensures ClearedKey(first[a].0, e, n + 1)
    {
      assert ClearedKey(first[a].0, e, n);
    }
  }

  // The state of the merge before first[i] and the record n.
  ghost predicate Merging(first: seq<Keyed>, records: seq<Element>, i: nat, n: nat, res: seq<int>) {
    MergedTo(first, records, i, n, res) && Cleared(first, records, i, n)
  }

  lemma TakeFirst(first: seq<Keyed>, records: seq<Element>, i: nat, n: nat, res: seq<int>)
    requires Ascending(records) && Merging(first, records, i, n, res)
    requires i < |first| && n < |records| && Precedes(first[i].0, records[n])
    ensures Merging(first, records, i + 1, n, res)
  {
    MergeFirst(first, records, i, n, res);
  }

  lemma TakeSecond(first: seq<Keyed>, records: seq<Element>, i: nat, n: nat, res: seq<int>)
    requires AscendingKeys(first) && Merging(first, records, i, n, res)
    requires i < |first| && n < |records| && Precedes(records[n], first[i].0)
    ensures Merging(first, records, i, n + 1, res)
  {
    MergeSecond(first, records, i, n, res);
    NotBoth(records[n], first[i].0);
    NotBelow(first, i, records[n]);
    ClearedNext(first, records, i, n);
  }

  lemma TakeBoth(first: seq<Keyed>, records: seq<Element>, i: nat, n: nat, res: seq<int>)
    requires AscendingKeys(first) && Merging(first, records, i, n, res)
    requires i < |first| && n < |records| && first[i].0 == records[n]
    ensures Merging(first, records, i + 1, n + 1, res + [first[i].1])
  {
    MergeBoth(first, records, i, n, res);
    PrecedesIrreflexive(records[n]);
    NotBelow(first, i, records[n]);
    ClearedNext(first, records, i, n);
  }

  // The state of the merge before first[i] and second[j], n records of the second list passed.
  ghost predicate MergeState(first: seq<Keyed>, second: seq<Element>, i: nat, j: nat, n: nat, res: seq<int>) {
    RecordsBefore(second, j, n) && Merging(first, Records(second), i, n, res)
  }

  lemma MergeStarts(first: seq<Keyed>, second: seq<Element>)
    ensures MergeState(first, second, 0, 0, 0, [])
  {
    assert second[..0] == [];
  }

  lemma MergeAdvancesFirst(first: seq<Keyed>, second: seq<Element>, i: nat, j: nat, n: nat, res: seq<int>)
    requires MergeState(first, second, i, j, n, res) && i < |first| && j < |second| && Precedes(first[i].0, second[j])
    ensures MergeState(first, second, i + 1, j, n, res)
  {
    var n' := NextRecord(second, j, n);
    if n' == n {
      BelowIsPassed(first, Records(second), i, n, second[j]);
      NotBoth(second[j], first[i].0);
    }
    RecordsAscend(second);
    TakeFirst(first, Records(second), i, n, res);
  }

  lemma MergeAdvancesSecond(first: seq<Keyed>, second: seq<Element>, i: nat, j: nat, n: nat, res: seq<int>) returns (n': nat)
    requires AscendingKeys(first) && MergeState(first, second, i, j, n, res)
    requires i < |first| && j < |second| && Precedes(second[j], first[i].0)
    ensures MergeState(first, second, i, j + 1, n', res)
  {
    n' := NextRecord(second, j, n);
    if n' > n {
      TakeSecond(first, Records(second), i, n, res);
    }
  }

  lemma MergeAdvancesBoth(first: seq<Keyed>, second: seq<Element>, i: nat, j: nat, n: nat, res: seq<int>) returns (n': nat)
    requires AscendingKeys(first) && MergeState(first, second, i, j, n, res)
    requires i < |first| && j < |second| && first[i].0 == second[j]
    ensures MergeState(first, second, i + 1, j + 1, n', res + [first[i].1])
  {
    n' := NextRecord(second, j, n);
    if n' == n {
      BelowIsPassed(first, Records(second), i, n, second[j]);
      NotBoth(second[j], first[i].0);
    }
    TakeBoth(first, Records(second), i, n, res);
  }

  lemma MergeEnds(first: seq<Keyed>, second: seq<Element>, i: nat, j: nat, n: nat, res: seq<int>)
    requires MergeState(first, second, i, j, n, res) && (i == |first| || j == |second|)
    ensures res == Matched(first, Records(second), |first|)
  {
    MergeDone(first, Records(second), i, n, res);
  }

  /**
    custom_set_intersection: a value held m times by the first list and k times by what can be
    matched of the second gives the first min(m, k) of its positions.
   */
  method CustomSetIntersection(first: seq<Keyed>, second: seq<Element>) returns (res: seq<int>)
    requires AscendingKeys(first)
    ensures res == Matched(first, Records(second), |first|)
  {
    res := [];
    var first1: nat, first2: nat := 0, 0;
    ghost var n: nat := 0;
    MergeStarts(first, second);
    while first1 != |first| && first2 != |second|
      invariant first1 <= |first| && first2 <= |second| && MergeState(first, second, first1, first2, n, res)
      decreases |first| - first1 + |second| - first2
    {
      if Precedes(first[first1].0, second[first2]) {
        MergeAdvancesFirst(first, second, first1, first2, n, res);
        first1 := first1 + 1;
      } else {
        if !Precedes(second[first2], first[first1].0) {
          PrecedesTotal(first[first1].0, second[first2]);
          n := MergeAdvancesBoth(first, second, first1, first2, n, res);
          res := res + [first[first1].1];
          first1 := first1 + 1;
        } else {
          n := MergeAdvancesSecond(first, second, first1, first2, n, res);
        }
        first2 := first2 + 1;
      }
    }
    MergeEnds(first, second, first1, first2, n, res);
  }

  // The occurrence of v that has r others before it.
  lemma {:induction false} NthOccurrence(s: seq<Element>, n: nat, v: Element, r: nat) returns (k: nat)
    requires n <= |s| && r < Rank(s, n, v)
    ensures k < n && s[k] == v && Rank(s, k, v) == r
    decreases n
  {
    if Rank(s, n - 1, v) == r {
      k := n - 1;
    } else {
      k := NthOccurrence(s, n - 1, v, r);
    }
  }

  // The client positions kept: k if fewer of its equals come before it than e holds.
  ghost predicate IsKept(elements: seq<Element>, e: seq<Element>, k: int) {
    0 <= k < |elements| && Rank(elements, k, elements[k]) < Total(e, elements[k])
  }

  ghost function KeptUpTo(elements: seq<Element>, e: seq<Element>, n: nat): (r: set<int>)
    requires n <= |elements|
    ensures forall k :: k in r <==> 0 <= k < n && IsKept(elements, e, k)
  {
    if n == 0 then {}
    else if IsKept(elements, e, n - 1) then KeptUpTo(elements, e, n - 1) + {n - 1}
    else KeptUpTo(elements, e, n - 1)
  }

  ghost predicate IsKeptOf(elements: seq<Element>, e: seq<Element>, v: Element, k: int) {
    IsKept(elements, e, k) && elements[k] == v
  }

  // Those of them that hold v.
  ghost function KeptOf(elements: seq<Element>, e: seq<Element>, n: nat, v: Element): (r: set<int>)
    requires n <= |elements|
    ensures forall k :: k in r <==> 0 <= k < n && IsKeptOf(elements, e, v, k)
  {
    if n == 0 then {}
    else if IsKeptOf(elements, e, v, n - 1) then KeptOf(elements, e, n - 1, v) + {n - 1}
    else KeptOf(elements, e, n - 1, v)
  }

  function Min(a: nat, b: nat): nat {
    if a < b then a else b
  }

  lemma OneMore(s: set<int>, x: int)
    requires x !in s
    ensures |s + {x}| == |s| + 1
  {
  }

  lemma KeptOfNext(elements: seq<Element>, e: seq<Element>, n: nat, v: Element)
    requires n < |elements|
    ensures |KeptOf(elements, e, n + 1, v)|
         == |KeptOf(elements, e, n, v)| + (if elements[n] == v && Rank(elements, n, v) < Total(e, v) then 1 else 0)
  {
    if IsKeptOf(elements, e, v, n) {
      OneMore(KeptOf(elements, e, n, v), n);
    }
  }

  lemma KeptUpToNext(elements: seq<Element>, e: seq<Element>, n: nat)
    requires n < |elements|
    ensures |KeptUpTo(elements, e, n + 1)| == |KeptUpTo(elements, e, n)| + (if IsKept(elements, e, n) then 1 else 0)
  {
    if IsKept(elements, e, n) {
      OneMore(KeptUpTo(elements, e, n), n);
    }
  }

  /** Of each value exactly min(count in the client's list, count in the container) positions are kept. */
  lemma {:induction false} KeptPerValue(elements: seq<Element>, e: seq<Element>, n: nat, v: Element)
    requires n <= |elements|
    ensures |KeptOf(elements, e, n, v)| == Min(Rank(elements, n, v), Total(e, v))
    decreases n
  {
    if n > 0 {
      KeptPerValue(elements, e, n - 1, v);
      KeptOfNext(elements, e, n - 1, v);
    }
  }

  /** All together the positions kept are as many as the multiset intersection has members. */
  lemma {:induction false} KeptIsMultisetIntersection(elements: seq<Element>, e: seq<Element>, n: nat)
    requires n <= |elements|
    ensures |KeptUpTo(elements, e, n)| == |multiset(elements[..n]) * multiset(e)|
    decreases n
  {
    if n == 0 {
      assert multiset(elements[..n]) * multiset(e) == multiset{};
    } else {
      KeptIsMultisetIntersection(elements, e, n - 1);
      MeetOfPrefix(elements, e, n - 1);
      KeptUpToNext(elements, e, n - 1);
    }
  }

  lemma MeetOfPrefix(elements: seq<Element>, e: seq<Element>, n: nat)
    requires n < |elements|
    ensures |multiset(elements[..n+1]) * multiset(e)|
         == |multiset(elements[..n]) * multiset(e)| + (if IsKept(elements, e, n) then 1 else 0)
  {
    KeptIffFewer(elements, e, n);
    assert elements[..n+1] == elements[..n] + [elements[n]];
    MeetNext(multiset(elements[..n]), multiset(e), elements[n]);
  }

  lemma KeptIffFewer(elements: seq<Element>, e: seq<Element>, k: nat)
    requires k < |elements|
    ensures IsKept(elements, e, k) <==> multiset(elements[..k])[elements[k]] < multiset(e)[elements[k]]
  {
    RankIsCount(elements, k, elements[k]);
    RankIsCount(e, |e|, elements[k]);
    assert e[..|e|] == e;
  }

  lemma MeetNext(a: multiset<Element>, b: multiset<Element>, x: Element)
    ensures (a + multiset{x}) * b == if a[x] < b[x] then a * b + multiset{x} else a * b
  {
  }
}
