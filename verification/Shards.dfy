/** How the inputs of one bulk operation are dealt out to threads. */
module Shards {
  function Greater(a: nat, b: nat): (r: nat)
    ensures r >= a && r >= b && (r == a || r == b)
  {
    if a < b then b else a
  }

  /**
    The largest number of threads the hardware offers that still gives each of them 512 inputs;
    one thread needs neither. A hardware report of 0 means unknown.
   */
  function ChooseThreadCount(n: nat, hardware: nat): (r: nat)
    ensures forall k: nat :: 1 <= k <= r <==> k == 1 || (1 < k <= hardware && 512 * k <= n)
  {
    if n < 1024 then 1
    else
      var hw := if hardware == 0 then 1 else hardware;
      var byWork := n / 512;
      Greater(1, if hw < byWork then hw else byWork)
  }

  // Contiguous index ranges covering 0 to n.
  ghost predicate IsSplit(ranges: seq<(nat, nat)>, n: nat) {
    && ranges != [] && ranges[0].0 == 0 && ranges[|ranges|-1].1 == n
    && (forall t :: 0 <= t < |ranges| ==> ranges[t].0 <= ranges[t].1)
    && (forall t :: 0 < t < |ranges| ==> ranges[t].0 == ranges[t-1].1)
  }

  predicate InRange(range: (nat, nat), i: int) {
    range.0 <= i < range.1
  }

  lemma {:induction false} RangesAscend(ranges: seq<(nat, nat)>, n: nat, t: nat, u: nat)
    requires IsSplit(ranges, n) && t < u < |ranges|
    ensures ranges[t].1 <= ranges[u].0
    decreases u
  {
    if t < u - 1 {
      RangesAscend(ranges, n, t, u - 1);
    }
  }

  lemma RangesEnd(ranges: seq<(nat, nat)>, n: nat, t: nat)
    requires IsSplit(ranges, n) && t < |ranges|
    ensures ranges[t].1 <= n
  {
    if t < |ranges| - 1 {
      RangesAscend(ranges, n, t, |ranges| - 1);
    }
  }

  lemma {:induction false} SomeRange(ranges: seq<(nat, nat)>, n: nat, i: nat, upTo: nat) returns (t: nat)
    requires IsSplit(ranges, n) && 0 < upTo <= |ranges| && i < ranges[upTo - 1].1
    ensures t < upTo && InRange(ranges[t], i)
    decreases upTo
  {
    if ranges[upTo - 1].0 <= i {
      t := upTo - 1;
    } else {
      t := SomeRange(ranges, n, i, upTo - 1);
    }
  }

  /** Every index lies in exactly one range. */
  lemma ExactlyOneRange(ranges: seq<(nat, nat)>, n: nat, i: nat)
    requires IsSplit(ranges, n) && i < n
    ensures exists t :: 0 <= t < |ranges| && InRange(ranges[t], i)
    ensures forall t, u :: 0 <= t < |ranges| && 0 <= u < |ranges| && InRange(ranges[t], i) && InRange(ranges[u], i) ==> t == u
  {
    var _ := SomeRange(ranges, n, i, |ranges|);
    forall t, u | 0 <= t < u < |ranges|
      ensures !(InRange(ranges[t], i) && InRange(ranges[u], i))
    {
      RangesAscend(ranges, n, t, u);
    }
  }

  // Where range t starts when the first `remainder` ranges are one longer than the others.
  function Start(base: nat, remainder: nat, t: nat): nat {
    if t == 0 then 0 else Start(base, remainder, t - 1) + base + (if t - 1 < remainder then 1 else 0)
  }

  lemma {:induction false} StartIs(base: nat, remainder: nat, t: nat)
    ensures Start(base, remainder, t) == t * base + (if t < remainder then t else remainder)
  {
    if t > 0 {
      StartIs(base, remainder, t - 1);
      assert t * base == (t - 1) * base + base;
    }
  }

  lemma StartLast(n: nat, threads: nat)
    requires threads > 0
    ensures Start(n / threads, n % threads, threads) == n
  {
    StartIs(n / threads, n % threads, threads);
    assert threads * (n / threads) + n % threads == n;
  }

  lemma ProductGrows(threads: nat, a: nat, b: nat)
    requires a <= b
    ensures threads * a <= threads * b
  {
    assert threads * b == threads * a + threads * (b - a);
  }

  lemma LongEnough(n: nat, threads: nat, base: nat)
    requires threads > 0 && base == n / threads && 512 * threads <= n
    ensures base >= 512
  {
    assert n == threads * base + n % threads;
    ProductGrows(threads, base, if base <= 511 then 511 else base);
  }

  // Every range holds base inputs, or one more.
  ghost predicate IsEven(ranges: seq<(nat, nat)>, base: nat) {
    forall t :: 0 <= t < |ranges| ==> ranges[t].0 + base <= ranges[t].1 <= ranges[t].0 + base + 1
  }

  // Each range but the first starts where the one before ends.
  ghost predicate Connected(ranges: seq<(nat, nat)>) {
    forall t :: 0 < t < |ranges| ==> ranges[t].0 == ranges[t-1].1
  }

  // The ranges made so far, the next to start at `start`.
  ghost predicate SplitTo(ranges: seq<(nat, nat)>, base: nat, start: nat) {
    && IsEven(ranges, base) && Connected(ranges)
    && (if ranges == [] then start == 0 else ranges[0].0 == 0 && ranges[|ranges|-1].1 == start)
  }

  lemma SplitGrows(ranges: seq<(nat, nat)>, base: nat, start: nat, len: nat)
    requires SplitTo(ranges, base, start) && base <= len <= base + 1
    ensures SplitTo(ranges + [(start, start + len)], base, start + len)
  {
    var more := ranges + [(start, start + len)];
    forall t | 0 < t < |more|
      ensures more[t].0 == more[t-1].1
    {
      assert more[t-1] == ranges[t-1];
    }
  }

  lemma SplitEnds(ranges: seq<(nat, nat)>, base: nat, n: nat)
    requires SplitTo(ranges, base, n) && ranges != []
    ensures IsSplit(ranges, n) && IsEven(ranges, base)
  {
  }

  /** The range split: contiguous, covering, and as even as it can be. */
  method SplitRanges(n: nat, threads: nat) returns (ranges: seq<(nat, nat)>)
    requires threads > 0
    ensures |ranges| == threads && IsSplit(ranges, n) && IsEven(ranges, n / threads)
  {
    ranges := [];
    var base, remainder := n / threads, n % threads;
    var start := 0;
    for t := 0 to threads
      invariant |ranges| == t && start == Start(base, remainder, t) && SplitTo(ranges, base, start)
    {
      var len := base + (if t < remainder then 1 else 0);
      SplitGrows(ranges, base, start, len);
      ranges := ranges + [(start, start + len)];
      start := start + len;
    }
    StartLast(n, threads);
    SplitEnds(ranges, base, n);
  }

  /** No two lengths differ by more than 1, and all are at least 512 if there is that much to do. */
  lemma EvenLengths(ranges: seq<(nat, nat)>, n: nat, threads: nat)
    requires threads > 0 && |ranges| == threads && IsEven(ranges, n / threads)
    ensures forall t, u :: 0 <= t < threads && 0 <= u < threads ==>
              ranges[t].1 - ranges[t].0 <= ranges[u].1 - ranges[u].0 + 1
    ensures 512 * threads <= n ==> forall t :: 0 <= t < threads ==> ranges[t].1 - ranges[t].0 >= 512
  {
    if 512 * threads <= n {
      LongEnough(n, threads, n / threads);
    }
  }
}
