/** A set of setup positions kept as 64-bit words, and its size as a population count. */
module Bitmap {
  import opened Bits

  predicate Marked(words: seq<nat>, i: nat)
    requires i / 64 < |words|
  {
    Bit(words[i / 64], i % 64)
  }

  function TotalPopcount(words: seq<nat>): nat {
    if words == [] then 0 else TotalPopcount(words[..|words|-1]) + Popcount(words[|words|-1])
  }

  // The words, each a 64-bit value, mark exactly the positions in S, all below n.
  ghost predicate Marks(words: seq<nat>, n: nat, S: set<nat>) {
    && |words| == (n + 63) / 64
    && (forall w :: 0 <= w < |words| ==> words[w] < Shl(1, 64))
    && (forall i :: i in S ==> i < n)
    && (forall i :: 0 <= i < n ==> (Marked(words, i) <==> i in S))
    && TotalPopcount(words) == |S|
  }

  function Zeroed(k: nat): (r: seq<nat>)
    ensures |r| == k && forall w :: 0 <= w < k ==> r[w] == 0
    ensures TotalPopcount(r) == 0
  {
    if k == 0 then [] else
    var r := Zeroed(k - 1);
    assert (r + [0])[..k-1] == r;
    r + [0]
  }

  lemma NothingMarked(n: nat)
    ensures Marks(Zeroed((n + 63) / 64), n, {})
  {
    var words := Zeroed((n + 63) / 64);
    ShlOneFits(0, 64);
    forall i | 0 <= i < n
      ensures !Marked(words, i)
    {
      BitZero(i % 64);
    }
  }

  // The words with position i's bit set: bit i mod 64 of word i div 64.
  function Mark(words: seq<nat>, i: nat): seq<nat>
    requires i / 64 < |words|
  {
    words[i / 64 := Or(words[i / 64], Shl(1, i % 64))]
  }

  lemma {:induction false} TotalPopcountUpdate(words: seq<nat>, k: nat, w: nat)
    requires k < |words|
    ensures TotalPopcount(words[k := w]) + Popcount(words[k]) == TotalPopcount(words) + Popcount(w)
    decreases |words|
  {
    var n := |words| - 1;
    if k < n {
      TotalPopcountUpdate(words[..n], k, w);
      assert words[k := w][..n] == words[..n][k := w];
    } else {
      assert words[k := w][..n] == words[..n];
    }
  }

  lemma MarkedAfter(words: seq<nat>, i: nat, j: nat)
    requires i / 64 < |words| && j / 64 < |words|
    ensures Marked(Mark(words, i), j) <==> Marked(words, j) || j == i
  {
    if i / 64 == j / 64 {
      BitOr(words[i / 64], Shl(1, i % 64), j % 64);
      BitShl(1, i % 64, j % 64);
      if j % 64 > i % 64 {
        BitZero(j % 64 - i % 64 - 1);
      }
    }
  }

  /** Marking a position adds it to the set; the population count grows only if it is new. */
  lemma MarkAdds(words: seq<nat>, n: nat, S: set<nat>, i: nat)
    requires Marks(words, n, S) && i < n
    ensures Marks(Mark(words, i), n, S + {i})
  {
    var k := i / 64;
    ShlOneFits(i % 64, 64);
    OrFits(words[k], Shl(1, i % 64), 64);
    PopcountSetBit(words[k], i % 64);
    TotalPopcountUpdate(words, k, Or(words[k], Shl(1, i % 64)));
    forall j | 0 <= j < n
      ensures Marked(Mark(words, i), j) <==> j in S + {i}
    {
      MarkedAfter(words, i, j);
    }
    if i in S {
      assert S + {i} == S;
    }
  }
}
