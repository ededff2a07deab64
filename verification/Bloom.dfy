/** The Bloom filter container: the server's elements as bits of a string, the client's looked up there. */
module Bloom {
  import opened Bytes
  import opened Bits
  import opened Sorting
  import opened Places
  import opened Wrappers
  import opened Doubles
  import opened GolombCode
  import opened Golomb

  // SHA-256 of an element behind a 1 and behind a 2, as whole numbers.
  datatype Hashes = Hashes(first: Element -> nat, second: Element -> nat)

  // What a message holds of a filter.
  datatype Contents = Contents(numHashFunctions: int, bits: seq<byte>)

  // The i-th hash before it is reduced.
  function Walk(x: Element, i: nat, numBits: nat, hashes: Hashes): nat
    requires numBits > 0
  {
    hashes.first(x) % numBits + i * (hashes.second(x) % numBits)
  }

  // Hash function i marks or asks for this bit.
  function Index(x: Element, i: nat, numBits: nat, hashes: Hashes): (r: nat)
    requires numBits > 0
    ensures r < numBits
  {
    Walk(x, i, numBits, hashes) % numBits
  }

  lemma WalkGrows(x: Element, i: nat, j: nat, numBits: nat, hashes: Hashes)
    requires numBits > 0 && i <= j
    ensures Walk(x, i, numBits, hashes) <= Walk(x, j, numBits, hashes)
  {
    var step := hashes.second(x) % numBits;
    assert j * step == i * step + (j - i) * step;
  }

  // Hashing an element fails where there are no bits to hash into or less than no functions, and
  // where the last function's walk is no 64-bit number.
  function HashFault(filter: Contents, x: Element, hashes: Hashes): Option<Fault> {
    if filter.bits == [] || filter.numHashFunctions < 0 then Some(NoHash)
    else if filter.numHashFunctions > 0
            && Walk(x, filter.numHashFunctions - 1, 8 * |filter.bits|, hashes) >= LIMIT then Some(Overflow)
    else None
  }

  // An element is found if all its bits are set.
  predicate Asks(filter: Contents, x: Element, hashes: Hashes) {
    && filter.bits != []
    && forall i :: 0 <= i < filter.numHashFunctions ==> BitAt(filter.bits, Index(x, i, 8 * |filter.bits|, hashes))
  }

  function Test(filter: Contents, hashes: Hashes): Element -> bool {
    e => Asks(filter, e, hashes)
  }

  // The first n functions mark bit p for element x.
  predicate MarksOf(x: Element, n: int, p: nat, numBits: nat, hashes: Hashes)
    requires numBits > 0
  {
    exists i :: 0 <= i < n && Index(x, i, numBits, hashes) == p
  }

  // Some of these elements marks bit p.
  predicate Marked(elements: seq<Element>, n: int, p: nat, numBits: nat, hashes: Hashes)
    requires numBits > 0
  {
    exists s :: 0 <= s < |elements| && MarksOf(elements[s], n, p, numBits, hashes)
  }

  lemma MarkedSnoc(elements: seq<Element>, x: Element, n: int, p: nat, numBits: nat, hashes: Hashes)
    requires numBits > 0
    ensures Marked(elements + [x], n, p, numBits, hashes)
       <==> Marked(elements, n, p, numBits, hashes) || MarksOf(x, n, p, numBits, hashes)
  {
    var all := elements + [x];
    if Marked(elements, n, p, numBits, hashes) {
      var s :| 0 <= s < |elements| && MarksOf(elements[s], n, p, numBits, hashes);
      assert all[s] == elements[s];
    }
    if MarksOf(x, n, p, numBits, hashes) {
      assert all[|elements|] == x;
    }
  }

  // Of the strings as long, the one with these elements' bits and no other.
  ghost predicate Holds(filter: Contents, elements: seq<Element>, hashes: Hashes) {
    if filter.bits == [] then elements == []
    else
      forall p :: 0 <= p < 8 * |filter.bits| ==>
        BitAt(filter.bits, p) == Marked(elements, filter.numHashFunctions, p, 8 * |filter.bits|, hashes)
  }

  // What hashing the elements fails in, in whatever order they come.
  function FaultIn(filter: Contents, elements: seq<Element>, hashes: Hashes): Option<Fault> {
    if elements != [] && (filter.bits == [] || filter.numHashFunctions < 0) then Some(NoHash)
    else if exists k :: 0 <= k < |elements| && HashFault(filter, elements[k], hashes).Some? then Some(Overflow)
    else None
  }

  lemma FaultIsWhere(filter: Contents, elements: seq<Element>, k: nat, hashes: Hashes)
    requires k <= |elements| && forall j :: 0 <= j < k ==> HashFault(filter, elements[j], hashes).None?
    ensures k == |elements| ==> FaultIn(filter, elements, hashes).None?
    ensures k < |elements| && HashFault(filter, elements[k], hashes).Some? ==>
              FaultIn(filter, elements, hashes) == HashFault(filter, elements[k], hashes)
  {
    if k == |elements| && k > 0 {
      assert HashFault(filter, elements[0], hashes).None?;
    }
  }

  // It depends on the size of the filter alone, and on no order.
  lemma SameFault(a: Contents, b: Contents, xs: seq<Element>, ys: seq<Element>, hashes: Hashes)
    requires a.numHashFunctions == b.numHashFunctions && |a.bits| == |b.bits| && multiset(xs) == multiset(ys)
    ensures FaultIn(a, xs, hashes) == FaultIn(b, ys, hashes)
  {
    RearrangedHasSameMembers(xs, ys);
    SameFaultSomewhere(a, b, xs, ys, hashes);
    SameFaultSomewhere(b, a, ys, xs, hashes);
  }

  lemma SameFaultSomewhere(a: Contents, b: Contents, xs: seq<Element>, ys: seq<Element>, hashes: Hashes)
    requires a.numHashFunctions == b.numHashFunctions && |a.bits| == |b.bits| && forall x :: x in xs <==> x in ys
    ensures (exists k :: 0 <= k < |xs| && HashFault(a, xs[k], hashes).Some?)
        ==> (exists k :: 0 <= k < |ys| && HashFault(b, ys[k], hashes).Some?)
  {
    if k :| 0 <= k < |xs| && HashFault(a, xs[k], hashes).Some? {
      assert xs[k] in ys;
      var l :| 0 <= l < |ys| && ys[l] == xs[k];
      assert HashFault(b, ys[l], hashes).Some?;
    }
  }

  datatype Hashed = Indices(indices: seq<nat>) | HashFails(fault: Fault)

  /** The bits follow one another at the distance of the second hash, around the filter's end. */
  lemma IndicesStep(x: Element, n: nat, numBits: nat, hashes: Hashes)
    requires numBits > 0
    ensures Index(x, 0, numBits, hashes) == hashes.first(x) % numBits
    ensures forall i :: 0 <= i < n - 1 ==>
              Index(x, i + 1, numBits, hashes) == (Index(x, i, numBits, hashes) + hashes.second(x)) % numBits
  {
    SameModulo(hashes.first(x), 0, numBits);
    forall i | 0 <= i < n - 1
      ensures Index(x, i + 1, numBits, hashes) == (Index(x, i, numBits, hashes) + hashes.second(x)) % numBits
    {
      WalkOn(x, i, numBits, hashes);
      SameModulo(Walk(x, i, numBits, hashes), hashes.second(x), numBits);
    }
  }

  lemma WalkOn(x: Element, i: nat, numBits: nat, hashes: Hashes)
    requires numBits > 0
    ensures Walk(x, i + 1, numBits, hashes) == Walk(x, i, numBits, hashes) + hashes.second(x) % numBits
  {
    var step := hashes.second(x) % numBits;
    assert (i + 1) * step == i * step + step;
  }

  lemma SameModulo(a: nat, b: nat, m: nat)
    requires m > 0
    ensures (a % m) % m == a % m
    ensures (a + b % m) % m == (a % m + b) % m
  {
    DivisionIs(a % m, m, 0, a % m);
    ModuloAdds(a, b, m);
    ModuloAdds(b, a, m);
  }

  lemma ModuloAdds(a: nat, b: nat, m: nat)
    requires m > 0
    ensures (a + b) % m == (a % m + b) % m
  {
    var x := a % m + b;
    Divides(a, m);
    Divides(x, m);
    Distribute(a / m, x / m, m);
    DivisionIs(a + b, m, a / m + x / m, x % m);
  }

  lemma Divides(y: nat, m: nat)
    requires m > 0
    ensures y == (y / m) * m + y % m && 0 <= y % m < m
  {
  }

  lemma Distribute(a: int, b: int, m: int)
    ensures (a + b) * m == a * m + b * m
  {
  }

  class BloomFilter {
    const numHashFunctions: int
    var bits: seq<byte>

    function Now(): Contents
      reads this
    {
      Contents(numHashFunctions, bits)
    }

    constructor (numHashFunctions: int, bits: seq<byte>)
      ensures Now() == Contents(numHashFunctions, bits)
    {
      this.numHashFunctions := numHashFunctions;
      this.bits := bits;
    }

    /** The bits of an element, in the order of the hash functions. */
    method Hash(x: Element, hashes: Hashes) returns (r: Hashed)
      ensures match HashFault(Now(), x, hashes)
              case Some(fault) => r == HashFails(fault)
              case None =>
                && r.Indices? && |r.indices| == numHashFunctions
                && forall i :: 0 <= i < numHashFunctions ==> r.indices[i] == Index(x, i, 8 * |bits|, hashes)
      ensures r == HashFails(NoHash) <==> bits == [] || numHashFunctions < 0
      ensures r == HashFails(Overflow) <==>
                && bits != [] && numHashFunctions > 0
                && var m := 8 * |bits|; hashes.first(x) % m + (numHashFunctions - 1) * (hashes.second(x) % m) >= 0x8000_0000_0000_0000
      ensures r.Indices? ==>
                && (numHashFunctions > 0 ==> r.indices[0] == hashes.first(x) % (8 * |bits|))
                && forall i :: 0 <= i < numHashFunctions - 1 ==>
                     r.indices[i + 1] == (r.indices[i] + hashes.second(x)) % (8 * |bits|)
    {
      if numHashFunctions < 0 {
        return HashFails(NoHash);
      }
      var numBits := 8 * |bits|;
      if numBits == 0 {
        return HashFails(NoHash);
      }
      var result: seq<nat> := [];
      var h1, h2 := hashes.first(x) % numBits, hashes.second(x) % numBits;
      for i := 0 to numHashFunctions
        invariant |result| == i
        invariant forall j :: 0 <= j < i ==> result[j] == Index(x, j, numBits, hashes)
        invariant i > 0 ==> Walk(x, i - 1, numBits, hashes) < LIMIT
      {
        if h1 + i * h2 >= LIMIT {
          WalkGrows(x, i, numHashFunctions - 1, numBits, hashes);
          return HashFails(Overflow);
        }
        result := result + [(h1 + i * h2) % numBits];
      }
      IndicesStep(x, numHashFunctions, numBits, hashes);
      return Indices(result);
    }

    // The bits of one element set.
    method Set(ghost x: Element, indices: seq<nat>, ghost hashes: Hashes)
      requires bits != [] && |indices| == numHashFunctions
      requires forall i :: 0 <= i < |indices| ==> indices[i] == Index(x, i, 8 * |bits|, hashes)
      modifies this
      ensures |bits| == |old(bits)|
      ensures forall p :: 0 <= p < 8 * |bits| ==>
                BitAt(bits, p) == (BitAt(old(bits), p) || MarksOf(x, numHashFunctions, p, 8 * |bits|, hashes))
    {
      ghost var before := bits;
      for i := 0 to |indices|
        invariant |bits| == |before|
        invariant forall p :: 0 <= p < 8 * |bits| ==>
                    BitAt(bits, p) == (BitAt(before, p) || MarksOf(x, i, p, 8 * |bits|, hashes))
      {
        var index := indices[i];
        SetOneBit(bits, index);
        OneMoreMark(x, i, index, 8 * |bits|, hashes);
        bits := OrChar(bits, index / 8, Shl(1, index % 8));
      }
    }

    /** Adding elements sets their bits and no others, up to the first that cannot be hashed. */
    method Add(inputs: seq<Element>, hashes: Hashes, ghost added: seq<Element>) returns (fault: Option<Fault>)
      requires Holds(Now(), added, hashes)
      modifies this
      ensures fault == FaultIn(Contents(numHashFunctions, old(bits)), inputs, hashes)
      ensures |bits| == |old(bits)| && (fault.None? ==> Holds(Now(), added + inputs, hashes))
    {
      ghost var start := Now();
      assert added + inputs[..0] == added;
      for k := 0 to |inputs|
        invariant |bits| == |start.bits| && Holds(Now(), added + inputs[..k], hashes)
        invariant forall j :: 0 <= j < k ==> HashFault(start, inputs[j], hashes).None?
      {
        ghost var next := inputs[..k + 1];
        assert next[..k] == inputs[..k];
        var hashed := Hash(inputs[k], hashes);
        SameSizeSameFault(start, Now(), inputs[k], hashes);
        if hashed.HashFails? {
          FaultIsWhere(start, inputs, k, hashes);
          return Some(hashed.fault);
        }
        HoldsNext(added + inputs[..k], inputs[k], numHashFunctions, 8 * |bits|, hashes);
        assert added + next == added + inputs[..k] + [inputs[k]];
        Set(inputs[k], hashed.indices, hashes);
      }
      assert inputs[..|inputs|] == inputs;
      FaultIsWhere(start, inputs, |inputs|, hashes);
      return None;
    }

    /** An element is found exactly when all its bits are set. */
    method Check(input: Element, hashes: Hashes) returns (result: bool, fault: Option<Fault>)
      ensures fault == HashFault(Now(), input, hashes)
      ensures fault.None? ==> (result <==> Asks(Now(), input, hashes))
    {
      result := true;
      var hashed := Hash(input, hashes);
      if hashed.HashFails? {
        return result, Some(hashed.fault);
      }
      for i := 0 to |hashed.indices|
        invariant result <==> forall j :: 0 <= j < i ==> BitAt(bits, Index(input, j, 8 * |bits|, hashes))
      {
        var index := hashed.indices[i];
        ByteAnd(bits[index / 8], index % 8);
        result := result && Shr(bits[index / 8], index % 8) % 2 == 1;
      }
      return result, None;
    }

    /** BloomFilter::Intersect: the positions of exactly the elements found, in their order. */
    method Intersect(elements: seq<Element>, hashes: Hashes) returns (r: LookedUp)
      ensures match FaultIn(Now(), elements, hashes)
              case Some(fault) => r == Fails(fault)
              case None => r.Found? && IsIntersection(Now(), elements, hashes, r.positions)
      ensures r == Fails(NoHash) <==> elements != [] && (bits == [] || numHashFunctions < 0)
    {
      var res: seq<int> := [];
      for i := 0 to |elements|
        invariant FoundUpTo(Now(), elements, i, hashes, res)
      {
        var found, fault := Check(elements[i], hashes);
        if fault.Some? {
          FaultIsWhere(Now(), elements, i, hashes);
          return Fails(fault.value);
        }
        FoundNext(Now(), elements, i, hashes, res, found);
        if found {
          res := res + [i];
        }
      }
      FaultIsWhere(Now(), elements, |elements|, hashes);
      return LookedUp.Found(res);
    }
  }

  // The elements before position n are looked up.
  ghost predicate FoundUpTo(filter: Contents, elements: seq<Element>, n: nat, hashes: Hashes, res: seq<int>) {
    && n <= |elements|
    && (forall k :: 0 <= k < n ==> HashFault(filter, elements[k], hashes).None?)
    && (forall i, j :: 0 <= i < j < |res| ==> res[i] < res[j])
    && forall k: int :: k in res <==> 0 <= k < n && Asks(filter, elements[k], hashes)
  }

  lemma FoundNext(filter: Contents, elements: seq<Element>, n: nat, hashes: Hashes, res: seq<int>, found: bool)
    requires FoundUpTo(filter, elements, n, hashes, res) && n < |elements|
    requires HashFault(filter, elements[n], hashes).None? && (found <==> Asks(filter, elements[n], hashes))
    ensures FoundUpTo(filter, elements, n + 1, hashes, if found then res + [n] else res)
  {
    forall i | 0 <= i < |res|
      ensures res[i] < n
    {
      assert res[i] in res;
    }
    forall k: int
      ensures k in res + [n] <==> k in res || k == n
    {
    }
  }

  // The positions of the elements found, ascending.
  ghost predicate IsIntersection(filter: Contents, elements: seq<Element>, hashes: Hashes, res: seq<int>) {
    ArePlaces(elements, Test(filter, hashes), res) && forall i, j :: 0 <= i < j < |res| ==> res[i] < res[j]
  }

  lemma ByteAnd(b: byte, k: nat)
    ensures Shr(b, k) % 2 == 1 <==> Bit(b, k)
  {
    BitShr(b, k, 0);
  }

  lemma OneMoreMark(x: Element, n: nat, index: nat, numBits: nat, hashes: Hashes)
    requires numBits > 0 && index == Index(x, n, numBits, hashes)
    ensures forall p: nat :: MarksOf(x, n + 1, p, numBits, hashes) <==> MarksOf(x, n, p, numBits, hashes) || p == index
  {
    forall p: nat
      ensures MarksOf(x, n + 1, p, numBits, hashes) <==> MarksOf(x, n, p, numBits, hashes) || p == index
    {
      if MarksOf(x, n, p, numBits, hashes) {
        var i :| 0 <= i < n && Index(x, i, numBits, hashes) == p;
        assert 0 <= i < n + 1;
      }
    }
  }

  lemma HoldsNext(elements: seq<Element>, x: Element, n: int, numBits: nat, hashes: Hashes)
    requires numBits > 0
    ensures forall p: nat :: Marked(elements + [x], n, p, numBits, hashes)
                        <==> Marked(elements, n, p, numBits, hashes) || MarksOf(x, n, p, numBits, hashes)
  {
    forall p: nat
      ensures Marked(elements + [x], n, p, numBits, hashes)
         <==> Marked(elements, n, p, numBits, hashes) || MarksOf(x, n, p, numBits, hashes)
    {
      MarkedSnoc(elements, x, n, p, numBits, hashes);
    }
  }

  // Only the size of a filter decides what can be hashed.
  lemma SameSizeSameFault(a: Contents, b: Contents, x: Element, hashes: Hashes)
    requires a.numHashFunctions == b.numHashFunctions && |a.bits| == |b.bits|
    ensures HashFault(a, x, hashes) == HashFault(b, x, hashes)
  {
  }

  // Made, refused for its rate, or come upon a fault.
  datatype Created = Made(filter: Contents) | RateRefused | CreateFails(fault: Fault)

  /**
    BloomFilter::Create; the two sizes stand for what the source computes from the rate. A rate
    that is not a number is not refused, and the sizes for it are undefined.
   */
  method Create(fpr: Double, elements: seq<Element>, hashes: Hashes, numHashFunctions: int, numBytes: nat) returns (res: Created)
    ensures if OutsideUnit(fpr) then res == RateRefused
            else if fpr.NotANumber? then res == CreateFails(BadCast)
            else
              match FaultIn(Contents(numHashFunctions, ZeroBytes(numBytes)), elements, hashes)
              case Some(fault) => res == CreateFails(fault)
              case None =>
                && res.Made? && res.filter.numHashFunctions == numHashFunctions && |res.filter.bits| == numBytes
                && Holds(res.filter, elements, hashes)
  {
    if OutsideUnit(fpr) {
      return RateRefused;
    }
    if fpr.NotANumber? {
      return CreateFails(BadCast);
    }
    var filter := new BloomFilter(numHashFunctions, ZeroBytes(numBytes));
    NothingMarked(Contents(numHashFunctions, ZeroBytes(numBytes)), hashes);
    var fault := filter.Add(elements, hashes, []);
    assert [] + elements == elements;
    return if fault.Some? then CreateFails(fault.value) else Made(filter.Now());
  }

  lemma NothingMarked(filter: Contents, hashes: Hashes)
    requires filter.bits == ZeroBytes(|filter.bits|)
    ensures Holds(filter, [], hashes)
  {
    forall p | 0 <= p < 8 * |filter.bits|
      ensures !BitAt(filter.bits, p)
    {
      BitZero(p % 8);
    }
  }

  /**
    The filter is exact on its bits: the client's position k is returned if and only if each bit
    that its hashes ask for is one that some server element's hashes mark; so a common element is
    never missed.
   */
  lemma ExactOnBits(filter: Contents, server: seq<Element>, client: seq<Element>, hashes: Hashes, res: seq<int>)
    requires filter.bits != [] && Holds(filter, server, hashes) && IsIntersection(filter, client, hashes, res)
    ensures forall k :: 0 <= k < |client| ==>
              (k in res <==> forall i :: 0 <= i < filter.numHashFunctions ==>
                 Marked(server, filter.numHashFunctions, Index(client[k], i, 8 * |filter.bits|, hashes), 8 * |filter.bits|, hashes))
    ensures forall k :: 0 <= k < |client| && client[k] in server ==> k in res
  {
    var n, numBits := filter.numHashFunctions, 8 * |filter.bits|;
    forall k | 0 <= k < |client| && client[k] in server
      ensures k in res
    {
      var s :| 0 <= s < |server| && server[s] == client[k];
      forall i | 0 <= i < n
        ensures Marked(server, n, Index(client[k], i, numBits, hashes), numBits, hashes)
      {
        assert MarksOf(server[s], n, Index(client[k], i, numBits, hashes), numBits, hashes);
      }
    }
  }
}
