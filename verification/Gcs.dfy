/** The Golomb-compressed set: the server's elements as hashes, coded; the client's looked up in it. */
module Gcs {
  import opened Bytes
  import opened Bits
  import opened Sorting
  import opened Places
  import opened Wrappers
  import opened Doubles
  import GolombCode
  import Golomb

  // div and hashRange are whatever a parsed message holds.
  datatype GCS = GCS(golomb: seq<byte>, div: int, hashRange: int)

  // SHA-256 reduced modulo the hash range.
  type HashFunction = h: (Element, int) -> nat | forall e: Element, n: int :: n > 0 ==> h(e, n) < n
    witness (e, n) => 0

  ghost predicate HashedIn(x: nat, elements: seq<Element>, hashRange: int, hash: HashFunction) {
    exists i :: 0 <= i < |elements| && hash(elements[i], hashRange) == x
  }

  // The values that the set holds before a codeword is cut short. Of a div that no codeword can
  // be read with there are none.
  function Coded(gcs: GCS): GolombCode.Decoded {
    if 0 <= gcs.div <= Golomb.MAX_SHIFT then GolombCode.Values(gcs.golomb, gcs.div) else GolombCode.Decoded([], true)
  }

  // The set decodes, and to exactly the hashes of the elements, each once and ascending.
  ghost predicate Codes(gcs: GCS, elements: seq<Element>, hash: HashFunction) {
    && 0 <= gcs.div < Golomb.MAX_SHIFT && gcs.hashRange < LIMIT && (elements != [] ==> gcs.hashRange > 0)
    && Coded(gcs).whole
    && var vs := Coded(gcs).values;
    && GolombCode.IsCode(gcs.golomb, vs, gcs.div)
    && (forall i, j :: 0 <= i < j < |vs| ==> vs[i] < vs[j])
    && (forall x: nat :: x in vs <==> HashedIn(x, elements, gcs.hashRange, hash))
  }

  // Made, refused for its rate, or come upon a fault.
  datatype Created = Made(gcs: GCS) | RateRefused | CreateFails(fault: Fault)

  // So many hashes that the greater number of inputs meets them at the rate.
  function HashRange(fpr: Double, numClientInputs: int, numServerInputs: nat, round: Rounding): (r: Option<nat>)
    requires !OutsideUnit(fpr)
    ensures r.Some? ==> r.value < LIMIT && (r.value > 0 <==> numClientInputs > 0 || numServerInputs > 0)
  {
    Quotient(if numClientInputs > numServerInputs then numClientInputs else numServerInputs, fpr, round)
  }

  /**
    The hash range is as many rates as go into the greater number of inputs: exactly, or after
    rounding. There is none where that takes more than 64 bits.
   */
  lemma HashRangeIs(rate: real, numClientInputs: int, numServerInputs: nat, round: Rounding)
    requires 0.0 < rate < 1.0
    ensures var m := if numClientInputs > numServerInputs then numClientInputs else numServerInputs;
            var q, r := round(round(m as real) / rate), HashRange(Number(rate), numClientInputs, numServerInputs, round);
            if q >= 0x8000_0000_0000_0000 as real then r.None? else r.Some? && GoesInto(r.value, m, rate, round)
  {
    QuotientIs(if numClientInputs > numServerInputs then numClientInputs else numServerInputs, rate, round);
  }

  // The hashes and no others are coded.
  lemma CodesHashes(gcs: GCS, elements: seq<Element>, hash: HashFunction, hashes: seq<nat>, sorted: seq<nat>)
    requires |hashes| == |elements| && forall i :: 0 <= i < |hashes| ==> hashes[i] == hash(elements[i], gcs.hashRange)
    requires Golomb.SortedInts(sorted) && multiset(sorted) == multiset(hashes)
    requires 0 <= gcs.div < Golomb.MAX_SHIFT && gcs.hashRange < LIMIT && (elements != [] ==> gcs.hashRange > 0)
    requires GolombCode.IsCode(gcs.golomb, Golomb.Dedup(sorted), gcs.div)
    ensures Codes(gcs, elements, hash)
  {
    GolombCode.RoundTrip(gcs.golomb, Golomb.Dedup(sorted), gcs.div);
    Golomb.DedupKeepsValues(sorted);
    Golomb.DedupAscends(sorted);
    RearrangedHasSameMembers(hashes, sorted);
    forall x: nat
      ensures x in hashes <==> HashedIn(x, elements, gcs.hashRange, hash)
    {
      if HashedIn(x, elements, gcs.hashRange, hash) {
        var i :| 0 <= i < |elements| && hash(elements[i], gcs.hashRange) == x;
        assert hashes[i] == x;
      }
    }
  }

  /**
    GCS::Create; div stands for the parameter the coder estimates from the hashes. A rate outside
    (0, 1) is refused. One that is not a number is not; there is no hash range for it, nor where
    the range would take more than 64 bits.
   */
  method Create(fpr: Double, numClientInputs: int, elements: seq<Element>, hash: HashFunction, div: nat, round: Rounding)
    returns (res: Created)
    ensures if OutsideUnit(fpr) then res == RateRefused
            else
              match HashRange(fpr, numClientInputs, |elements|, round)
              case None => res == CreateFails(BadCast)
              case Some(hashRange) =>
                if elements != [] && Shl(1, div) >= LIMIT then res == CreateFails(BadShift)
                else res.Made? && res.gcs.hashRange == hashRange && Codes(res.gcs, elements, hash)
  {
    if OutsideUnit(fpr) {
      return RateRefused;
    }
    var range := HashRange(fpr, numClientInputs, |elements|, round);
    if range.None? {
      return CreateFails(BadCast);
    }
    var hashRange := range.value;
    var hashes: seq<nat> := [];
    for n := 0 to |elements|
      invariant |hashes| == n
      invariant forall i :: 0 <= i < n ==> hashes[i] == hash(elements[i], hashRange)
    {
      hashes := hashes + [hash(elements[n], hashRange)];
    }
    var sorted := Sort(hashes, (a: nat, b: nat) => a < b);
    assert Golomb.SortedInts(sorted);
    RearrangedHasSameMembers(hashes, sorted);
    Golomb.MaskIsShift(div);
    var compressed := Golomb.Compress(sorted, div);
    if compressed.None? {
      return CreateFails(BadShift);
    }
    res := Made(GCS(compressed.value.compressed, compressed.value.div, hashRange));
    CodesHashes(res.gcs, elements, hash, hashes, sorted);
  }

  // ---- Looking elements up ----

  // An element is found if its hash was coded.
  function Test(gcs: GCS, hash: HashFunction): Element -> bool {
    e => hash(e, gcs.hashRange) in Coded(gcs).values
  }

  // The positions of the elements found, each once, in no promised order.
  ghost predicate IsIntersection(gcs: GCS, elements: seq<Element>, hash: HashFunction, res: seq<int>) {
    ArePlaces(elements, Test(gcs, hash), res)
  }

  // The look-up comes to what follows the first k values: it starts with it, or some element's
  // hash is greater than the last of them.
  predicate GetsTo(gcs: GCS, elements: seq<Element>, hash: HashFunction, k: nat)
    requires k <= |Coded(gcs).values|
  {
    k == 0 || exists i :: 0 <= i < |elements| && hash(elements[i], gcs.hashRange) > Coded(gcs).values[k - 1]
  }

  // What looking these elements up fails in, if in anything.
  function FaultIn(gcs: GCS, elements: seq<Element>, hash: HashFunction): Option<Fault> {
    var d := Coded(gcs);
    if elements != [] && gcs.hashRange <= 0 then Some(NoHash)
    else if !(0 <= gcs.div <= Golomb.MAX_SHIFT) && exists i :: 0 <= i < |gcs.golomb| && gcs.golomb[i] != 0 then Some(BadShift)
    else if exists k :: 0 <= k < |d.values| && d.values[k] >= LIMIT && GetsTo(gcs, elements, hash, k) then Some(Overflow)
    else if !d.whole && GetsTo(gcs, elements, hash, |d.values|) then Some(PastEnd)
    else None
  }

  // The hashes with the positions they came from, in the order of the hashes.
  ghost predicate HashesSorted(gcs: GCS, elements: seq<Element>, hash: HashFunction, sorted: seq<(int, int)>) {
    && Golomb.SortedPairs(sorted)
    && (forall p: (int, int) :: p in sorted <==> 0 <= p.1 < |elements| && p.0 == hash(elements[p.1], gcs.hashRange))
    && (forall i, j :: 0 <= i < j < |sorted| ==> sorted[i].1 != sorted[j].1)
  }

  lemma SortedHashes(gcs: GCS, elements: seq<Element>, hash: HashFunction, hashes: seq<(int, int)>, sorted: seq<(int, int)>)
    requires |hashes| == |elements| && forall i :: 0 <= i < |hashes| ==> hashes[i] == (hash(elements[i], gcs.hashRange), i)
    requires multiset(sorted) == multiset(hashes) && Golomb.SortedPairs(sorted)
    ensures HashesSorted(gcs, elements, hash, sorted)
  {
    RearrangedHasSameMembers(hashes, sorted);
    RearrangedIsDistinct(hashes, sorted);
    forall p: (int, int)
      ensures p in sorted <==> 0 <= p.1 < |elements| && p.0 == hash(elements[p.1], gcs.hashRange)
    {
      if 0 <= p.1 < |elements| && p.0 == hash(elements[p.1], gcs.hashRange) {
        assert hashes[p.1] == p;
      }
    }
    forall i, j | 0 <= i < j < |sorted|
      ensures sorted[i].1 != sorted[j].1
    {
      assert sorted[i] in sorted && sorted[j] in sorted;
    }
  }

  // The greatest hash decides how far the merge gets.
  lemma GreatestHash(gcs: GCS, elements: seq<Element>, hash: HashFunction, sorted: seq<(int, int)>, k: nat)
    requires HashesSorted(gcs, elements, hash, sorted) && k <= |Coded(gcs).values|
    ensures Golomb.GetsTo(Coded(gcs), sorted, k) <==> GetsTo(gcs, elements, hash, k)
  {
    if sorted != [] {
      assert sorted[|sorted|-1] in sorted;
    }
    if k > 0 && GetsTo(gcs, elements, hash, k) {
      var i :| 0 <= i < |elements| && hash(elements[i], gcs.hashRange) > Coded(gcs).values[k - 1];
      assert (hash(elements[i], gcs.hashRange) as int, i) in sorted;
    }
  }

  // So the merge fails in what the look-up fails in.
  lemma MergeFails(gcs: GCS, elements: seq<Element>, hash: HashFunction, sorted: seq<(int, int)>)
    requires HashesSorted(gcs, elements, hash, sorted) && (elements != [] ==> gcs.hashRange > 0)
    ensures Golomb.Merge(gcs.golomb, gcs.div, sorted)
         == match FaultIn(gcs, elements, hash)
            case Some(fault) => Fails(fault)
            case None => Found(Golomb.Select(sorted, Coded(gcs).values))
  {
    if 0 <= gcs.div <= Golomb.MAX_SHIFT {
      DecodedFails(gcs, elements, hash, sorted);
    } else {
      Golomb.SelectPrefix(sorted, 0, []);
    }
  }

  lemma DecodedFails(gcs: GCS, elements: seq<Element>, hash: HashFunction, sorted: seq<(int, int)>)
    requires HashesSorted(gcs, elements, hash, sorted)
    ensures Golomb.Overflows(Coded(gcs), sorted) <==>
              exists k :: 0 <= k < |Coded(gcs).values| && Coded(gcs).values[k] >= LIMIT && GetsTo(gcs, elements, hash, k)
    ensures Golomb.ReadsPastEnd(Coded(gcs), sorted) <==>
              !Coded(gcs).whole && GetsTo(gcs, elements, hash, |Coded(gcs).values|)
  {
    forall k | 0 <= k <= |Coded(gcs).values|
      ensures Golomb.GetsTo(Coded(gcs), sorted, k) <==> GetsTo(gcs, elements, hash, k)
    {
      GreatestHash(gcs, elements, hash, sorted, k);
    }
  }

  lemma SelectedIsIntersection(gcs: GCS, elements: seq<Element>, hash: HashFunction, sorted: seq<(int, int)>)
    requires HashesSorted(gcs, elements, hash, sorted)
    ensures IsIntersection(gcs, elements, hash, Golomb.Select(sorted, Coded(gcs).values))
  {
    var vs := Coded(gcs).values;
    SelectedPositions(sorted, vs);
    SelectedOnce(sorted, vs);
    forall k: int
      ensures k in Golomb.Select(sorted, vs) <==> 0 <= k < |elements| && hash(elements[k], gcs.hashRange) in vs
    {
      if 0 <= k < |elements| {
        assert (hash(elements[k], gcs.hashRange) as int, k) in sorted;
      }
    }
  }

  /** GCS::Intersect on any set, also one that did not come from Create. */
  method Intersect(gcs: GCS, elements: seq<Element>, hash: HashFunction) returns (r: LookedUp)
    ensures match FaultIn(gcs, elements, hash)
            case Some(fault) => r == Fails(fault)
            case None => r.Found? && IsIntersection(gcs, elements, hash, r.positions)
    ensures r == Fails(NoHash) <==> elements != [] && gcs.hashRange <= 0
  {
    if elements != [] && gcs.hashRange <= 0 {
      return Fails(NoHash);
    }
    var hashes: seq<(int, int)> := [];
    for n := 0 to |elements|
      invariant |hashes| == n
      invariant forall i :: 0 <= i < n ==> hashes[i] == (hash(elements[i], gcs.hashRange), i)
    {
      hashes := hashes + [(hash(elements[n], gcs.hashRange), n)];
    }
    var sorted := Sort(hashes, (a: (int, int), b: (int, int)) => a.0 < b.0);
    assert Golomb.SortedPairs(sorted);
    SortedHashes(gcs, elements, hash, hashes, sorted);
    MergeFails(gcs, elements, hash, sorted);
    SelectedIsIntersection(gcs, elements, hash, sorted);
    r := Golomb.Intersect(gcs.golomb, gcs.div, sorted);
  }

  lemma {:induction false} SelectedPositions(pairs: seq<(int, int)>, vs: seq<nat>)
    ensures forall k: int :: k in Golomb.Select(pairs, vs) <==> exists p :: p in pairs && p.0 in vs && p.1 == k
    decreases |pairs|
  {
    if pairs != [] {
      var rest, last := pairs[..|pairs|-1], pairs[|pairs|-1];
      SelectedPositions(rest, vs);
      assert pairs == rest + [last];
      assert forall p :: p in pairs <==> p in rest || p == last;
    }
  }

  lemma {:induction false} SelectedOnce(pairs: seq<(int, int)>, vs: seq<nat>)
    requires forall i, j :: 0 <= i < j < |pairs| ==> pairs[i].1 != pairs[j].1
    ensures AllDistinct(Golomb.Select(pairs, vs))
    decreases |pairs|
  {
    if pairs != [] {
      var rest, last := pairs[..|pairs|-1], pairs[|pairs|-1];
      SelectedOnce(rest, vs);
      SelectedPositions(rest, vs);
      assert last.1 !in Golomb.Select(rest, vs);
    }
  }

  // Looking a list up in a set that was made here fails in nothing, but in hashing into an empty
  // range when no one was expected to have any input.
  lemma OnlyNoHash(gcs: GCS, server: seq<Element>, client: seq<Element>, hash: HashFunction)
    requires Codes(gcs, server, hash)
    ensures FaultIn(gcs, client, hash) == if client != [] && gcs.hashRange <= 0 then Some(NoHash) else None
  {
    forall k | 0 <= k < |Coded(gcs).values|
      ensures Coded(gcs).values[k] < LIMIT
    {
      assert Coded(gcs).values[k] in Coded(gcs).values;
    }
  }

  /**
    The compressed set is exact on hashes: the client's position k is returned if and only if its
    hash equals some server element's; so a common element is never missed.
   */
  lemma ExactOnHashes(gcs: GCS, server: seq<Element>, client: seq<Element>, hash: HashFunction, res: seq<int>)
    requires Codes(gcs, server, hash) && IsIntersection(gcs, client, hash, res)
    ensures FaultIn(gcs, client, hash) == if client != [] && gcs.hashRange <= 0 then Some(NoHash) else None
    ensures forall k :: 0 <= k < |client| ==>
              (k in res <==> exists i :: 0 <= i < |server| && hash(server[i], gcs.hashRange) == hash(client[k], gcs.hashRange))
    ensures forall k :: 0 <= k < |client| && client[k] in server ==> k in res
  {
    OnlyNoHash(gcs, server, client, hash);
    forall k | 0 <= k < |client|
      ensures k in res <==> HashedIn(hash(client[k], gcs.hashRange), server, gcs.hashRange, hash)
    {
    }
  }
}
