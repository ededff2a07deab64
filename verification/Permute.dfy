/** Rearranging a vector in place along the cycles of a permutation. */
module Permute {
  import opened Bytes
  import opened Sorting

  function Permuted<T>(s: seq<T>, p: seq<nat>): (r: seq<T>)
    requires IsPermutation(p, |s|)
    ensures |r| == |s| && forall i :: 0 <= i < |s| ==> r[i] == s[p[i]]
  {
    seq(|s|, i requires 0 <= i < |s| => s[p[i]])
  }

  predicate KeepsCycle(p: seq<nat>, D: set<nat>, x: nat)
    requires x < |p|
  {
    x in D <==> p[x] in D
  }

  // D is a union of cycles of p.
  ghost predicate Closed(p: seq<nat>, D: set<nat>) {
    forall x :: 0 <= x < |p| ==> KeepsCycle(p, D, x)
  }

  predicate LeadsOn(p: seq<nat>, i: nat, walked: set<nat>, j: nat, x: nat)
    requires x < |p|
  {
    p[x] in walked + {j} <==> x in walked + {i}
  }

  // A walk along p that started from i has passed `walked` and now stands at j: the walk and
  // its start lead to nothing but the walk and j, and nothing else leads there.
  ghost predicate IsWalk(p: seq<nat>, i: nat, walked: set<nat>, j: nat) {
    && i < |p| && j < |p| && walked <= IndexSet(|p|)
    && i !in walked && j !in walked
    && forall x :: 0 <= x < |p| ==> LeadsOn(p, i, walked, j, x)
  }

  lemma WalkStarts(p: seq<nat>, i: nat)
    requires IsPermutation(p, |p|) && i < |p|
    ensures IsWalk(p, i, {}, p[i])
  {
  }

  // Before the walk is back at its start, the next position is one it has not passed.
  lemma WalkGoesOn(p: seq<nat>, i: nat, walked: set<nat>, j: nat)
    requires IsPermutation(p, |p|) && IsWalk(p, i, walked, j) && j != i
    ensures IsWalk(p, i, walked + {j}, p[j])
  {
    assert LeadsOn(p, i, walked, j, j);
    forall x | 0 <= x < |p|
      ensures LeadsOn(p, i, walked + {j}, p[j], x)
    {
      assert LeadsOn(p, i, walked, j, x);
      assert p[x] == p[j] <==> x == j;
    }
  }

  // The walk never enters cycles already done.
  lemma WalkStaysOut(p: seq<nat>, D: set<nat>, j: nat)
    requires IsPermutation(p, |p|) && Closed(p, D) && j < |p| && j !in D
    ensures p[j] !in D
  {
    assert KeepsCycle(p, D, j);
  }

  lemma WalkEnds(p: seq<nat>, i: nat, walked: set<nat>, D: set<nat>)
    requires IsPermutation(p, |p|) && IsWalk(p, i, walked, i) && Closed(p, D)
    ensures Closed(p, D + walked + {i})
  {
    forall x | 0 <= x < |p|
      ensures KeepsCycle(p, D + walked + {i}, x)
    {
      assert LeadsOn(p, i, walked, i, x) && KeepsCycle(p, D, x);
    }
  }

  // Every position of `moved` holds its new element, every other one its old element.
  ghost predicate PartlyMoved(elements: seq<Element>, s: seq<Element>, p: seq<nat>, moved: set<nat>)
    requires IsPermutation(p, |s|) && |elements| == |s|
  {
    forall k :: 0 <= k < |s| ==> elements[k] == if k in moved then Permuted(s, p)[k] else s[k]
  }

  ghost predicate Marked(visited: seq<bool>, i: nat, moved: set<nat>) {
    forall k :: 0 <= k < |visited| ==> (k in moved <==> k < i || visited[k])
  }

  // The cycle through i is being moved: the walk has come to j.
  ghost predicate CycleState(elements: seq<Element>, visited: seq<bool>, s: seq<Element>, p: seq<nat>, i: nat,
                             done: set<nat>, walked: set<nat>, j: nat) {
    && |elements| == |visited| == |s| && IsPermutation(p, |s|)
    && IsWalk(p, i, walked, j) && Closed(p, done) && j !in done
    && Marked(visited, i, done + walked) && PartlyMoved(elements, s, p, done + walked)
  }

  lemma CycleStarts(elements: seq<Element>, visited: seq<bool>, s: seq<Element>, p: seq<nat>, i: nat, done: set<nat>)
    requires |elements| == |visited| == |s| && IsPermutation(p, |s|) && i < |s| && !visited[i]
    requires Closed(p, done) && Marked(visited, i, done) && PartlyMoved(elements, s, p, done)
    ensures CycleState(elements, visited, s, p, i, done, {}, p[i]) && elements[p[i]] == s[p[i]]
  {
    WalkStarts(p, i);
    WalkStaysOut(p, done, i);
    assert done + {} == done;
  }

  lemma CycleGoesOn(elements: seq<Element>, visited: seq<bool>, s: seq<Element>, p: seq<nat>, i: nat,
                    done: set<nat>, walked: set<nat>, j: nat)
    requires CycleState(elements, visited, s, p, i, done, walked, j) && j != i
    ensures CycleState(elements[j := elements[p[j]]], visited[j := true], s, p, i, done, walked + {j}, p[j])
    ensures |walked + {j}| == |walked| + 1 <= |s|
  {
    OneMoreFits(walked, j, |s|);
    WalkGoesOn(p, i, walked, j);
    WalkStaysOut(p, done, j);
    MoveOne(elements, visited, s, p, i, j, done + walked);
    assert done + walked + {j} == done + (walked + {j});
  }

  lemma CycleEnds(elements: seq<Element>, visited: seq<bool>, s: seq<Element>, p: seq<nat>, i: nat, done: set<nat>, walked: set<nat>)
    requires CycleState(elements, visited, s, p, i, done, walked, i)
    ensures var moved := done + walked + {i};
            && Closed(p, moved) && Marked(visited, i + 1, moved)
            && PartlyMoved(elements[i := s[p[i]]], s, p, moved)
  {
    WalkEnds(p, i, walked, done);
    MoveLast(elements, visited, s, p, i, done + walked);
  }

  // Moves the elements of one whole cycle, the one through i. The walk returns to its start
  // because under an injective p it can close nowhere else.
  method MoveCycle(elements: array<Element>, indexVisited: array<bool>, p: seq<nat>, i: nat,
                   ghost s: seq<Element>, ghost done: set<nat>) returns (ghost moved: set<nat>)
    requires elements.Length == indexVisited.Length == |s| && IsPermutation(p, |s|)
    requires i < |s| && !indexVisited[i] && Closed(p, done)
    requires Marked(indexVisited[..], i, done) && PartlyMoved(elements[..], s, p, done)
    modifies elements, indexVisited
    ensures Closed(p, moved)
    ensures Marked(indexVisited[..], i + 1, moved) && PartlyMoved(elements[..], s, p, moved)
  {
    CycleStarts(elements[..], indexVisited[..], s, p, i, done);
    var j := p[i];
    var value := elements[j];
    ghost var walked: set<nat> := {};
    while j != i
      invariant CycleState(elements[..], indexVisited[..], s, p, i, done, walked, j)
      decreases |s| - |walked|
    {
      CycleGoesOn(elements[..], indexVisited[..], s, p, i, done, walked, j);
      ghost var before, visited := elements[..], indexVisited[..];
      elements[j] := elements[p[j]];
      indexVisited[j] := true;
      assert elements[..] == before[j := before[p[j]]];
      assert indexVisited[..] == visited[j := true];
      walked := walked + {j};
      j := p[j];
    }
    CycleEnds(elements[..], indexVisited[..], s, p, i, done, walked);
    ghost var before := elements[..];
    elements[i] := value;
    assert elements[..] == before[i := s[p[i]]];
    moved := done + walked + {i};
  }

  lemma MoveOne(elements: seq<Element>, visited: seq<bool>, s: seq<Element>, p: seq<nat>, i: nat, j: nat, moved: set<nat>)
    requires IsPermutation(p, |s|) && |elements| == |visited| == |s|
    requires j < |s| && j !in moved && p[j] !in moved
    requires Marked(visited, i, moved) && PartlyMoved(elements, s, p, moved)
    ensures Marked(visited[j := true], i, moved + {j})
    ensures PartlyMoved(elements[j := elements[p[j]]], s, p, moved + {j})
  {
  }

  lemma MoveLast(elements: seq<Element>, visited: seq<bool>, s: seq<Element>, p: seq<nat>, i: nat, moved: set<nat>)
    requires IsPermutation(p, |s|) && |elements| == |visited| == |s| && i < |s|
    requires Marked(visited, i, moved) && PartlyMoved(elements, s, p, moved)
    ensures Marked(visited, i + 1, moved + {i})
    ensures PartlyMoved(elements[i := s[p[i]]], s, p, moved + {i})
  {
  }

  /** The in-place rearrangement of Raw::Create and Raw::GetAssociationTable: position i gets old element p[i]. */
  method ApplyInPlace(elements: array<Element>, p: seq<nat>)
    requires IsPermutation(p, elements.Length)
    modifies elements
    ensures elements[..] == Permuted(old(elements[..]), p)
  {
    ghost var s := elements[..];
    var indexVisited := new bool[elements.Length](_ => false);
    ghost var done: set<nat> := {};
    for i := 0 to elements.Length
      invariant fresh(indexVisited) && indexVisited.Length == elements.Length
      invariant Closed(p, done)
      invariant Marked(indexVisited[..], i, done) && PartlyMoved(elements[..], s, p, done)
    {
      if !indexVisited[i] {
        done := MoveCycle(elements, indexVisited, p, i, s, done);
      }
    }
  }

  lemma OneMoreFits(S: set<nat>, j: nat, n: nat)
    requires S <= IndexSet(n) && j !in S && j < n
    ensures |S + {j}| == |S| + 1 <= n
  {
    SubsetSize(S + {j}, IndexSet(n));
  }

  /** A rearrangement repeats an element exactly when the original does. */
  lemma PermutedDistinct<T>(s: seq<T>, p: seq<nat>)
    requires IsPermutation(p, |s|)
    ensures AllDistinct(Permuted(s, p)) <==> AllDistinct(s)
  {
    var r := Permuted(s, p);
    if AllDistinct(r) {
      forall a, b | 0 <= a < b < |s|
        ensures s[a] != s[b]
      {
        PermutationReaches(p, |s|, a);
        PermutationReaches(p, |s|, b);
        var i :| 0 <= i < |s| && p[i] == a;
        var j :| 0 <= j < |s| && p[j] == b;
        assert r[i] != r[j];
      }
    }
    if AllDistinct(s) {
      forall i, j | 0 <= i < j < |r|
        ensures r[i] != r[j]
      {
        assert p[i] != p[j];
      }
    }
  }

  function Selected<T>(s: seq<T>, q: seq<nat>): (r: seq<T>)
    requires forall k :: 0 <= k < |q| ==> q[k] < |s|
    ensures |r| == |q| && forall k :: 0 <= k < |q| ==> r[k] == s[q[k]]
  {
    seq(|q|, k requires 0 <= k < |q| => s[q[k]])
  }

  function Without<T>(s: seq<T>, k: nat): seq<T>
    requires k < |s|
  {
    s[..k] + s[k+1..]
  }

  lemma WithoutIsOneLess<T>(s: seq<T>, k: nat)
    requires k < |s|
    ensures multiset(s) == multiset(Without(s, k)) + multiset{s[k]}
  {
    MultisetSplit(s, k);
  }

  lemma SelectedWithout<T>(s: seq<T>, q: seq<nat>, k: nat)
    requires k < |q| && forall i :: 0 <= i < |q| ==> q[i] < |s|
    ensures multiset(Selected(s, q)) == multiset(Selected(s, Without(q, k))) + multiset{s[q[k]]}
  {
    WithoutIsOneLess(Selected(s, q), k);
    assert Without(Selected(s, q), k) == Selected(s, Without(q, k));
  }

  lemma {:induction false} SelectedKeepsMultiset<T>(s: seq<T>, q: seq<nat>, q': seq<nat>)
    requires multiset(q) == multiset(q')
    requires (forall k :: 0 <= k < |q| ==> q[k] < |s|) && (forall k :: 0 <= k < |q'| ==> q'[k] < |s|)
    ensures multiset(Selected(s, q)) == multiset(Selected(s, q'))
    decreases |q|
  {
    RearrangedHasSameMembers(q, q');
    if q != [] {
      assert q[0] in q';
      var k :| 0 <= k < |q'| && q'[k] == q[0];
      assert multiset(Without(q, 0)) == multiset(Without(q', k)) by {
        WithoutSame(q, 0, q', k);
      }
      SelectedKeepsMultiset(s, Without(q, 0), Without(q', k));
      SelectedWithout(s, q, 0);
      SelectedWithout(s, q', k);
    }
  }

  lemma WithoutSame<T>(q: seq<T>, i: nat, q': seq<T>, k: nat)
    requires multiset(q) == multiset(q') && i < |q| && k < |q'| && q[i] == q'[k]
    ensures multiset(Without(q, i)) == multiset(Without(q', k))
  {
    WithoutIsOneLess(q, i);
    WithoutIsOneLess(q', k);
    assert multiset(Without(q, i)) == multiset(q) - multiset{q[i]};
    assert multiset(Without(q', k)) == multiset(q') - multiset{q[i]};
  }

  /** A rearrangement holds every element as often as the original. */
  lemma PermutedKeepsMultiset<T>(s: seq<T>, p: seq<nat>)
    requires IsPermutation(p, |s|)
    ensures multiset(Permuted(s, p)) == multiset(s)
  {
    var iota: seq<nat> := Iota(|s|);
    forall x: nat
      ensures Count(p, x) == Count(iota, x)
    {
      DistinctCountsOnce(p, x);
      if x < |s| {
        IotaCountsOnce(|s|, x);
        PermutationReaches(p, |s|, x);
        assert x in p;
      } else {
        assert x !in p && x !in iota;
      }
    }
    assert multiset(p) == multiset(iota) by {
      assert forall x: nat :: multiset(p)[x] == Count(p, x) == Count(iota, x) == multiset(iota)[x];
    }
    SelectedKeepsMultiset(s, p, iota);
    assert Selected(s, p) == Permuted(s, p) && Selected(s, iota) == s;
  }

  /** The indices of `elements` in ascending order of what they index: std::iota, then std::sort. */
  method SortPermutation(elements: seq<Element>) returns (p: seq<nat>)
    ensures IsPermutation(p, |elements|)
    ensures Ascending(Permuted(elements, p))
  {
    PrecedesIsStrictTotalOrder();
    var less := (a: nat, b: nat) => a < |elements| && b < |elements| && Precedes(elements[a], elements[b]);
    p := Sort(Iota(|elements|), less);
    RearrangedIotaIsPermutation(p, |elements|);
    ghost var r := Permuted(elements, p);
    forall i, j | 0 <= i < j < |r|
      ensures !Precedes(r[j], r[i])
    {
      assert !less(p[j], p[i]);
    }
  }
}
