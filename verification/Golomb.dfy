/** The coder and the decoder that merges as it decodes, at the level of bytes. */
module Golomb {
  import opened Bytes
  import opened Bits
  import opened Wrappers
  import opened GolombCode

  datatype GolombCompressed = GolombCompressed(div: nat, compressed: seq<byte>)

  predicate SortedInts(s: seq<int>) {
    forall i, j :: 0 <= i < j < |s| ==> s[i] <= s[j]
  }

  // The values of an ascending list, each once.
  function Dedup(s: seq<nat>): seq<nat> {
    if s == [] then []
    else
      var d, last := Dedup(s[..|s|-1]), s[|s|-1];
      if d == [] || last > d[|d|-1] then d + [last] else d
  }

  lemma {:induction false} DedupAscends(s: seq<nat>)
    requires SortedInts(s)
    ensures s != [] ==> Dedup(s) != [] && Dedup(s)[|Dedup(s)|-1] == s[|s|-1]
    ensures forall i, j :: 0 <= i < j < |Dedup(s)| ==> Dedup(s)[i] < Dedup(s)[j]
    decreases |s|
  {
    if s != [] {
      DedupAscends(s[..|s|-1]);
    }
  }

  lemma {:induction false} DedupKeepsValues(s: seq<nat>)
    requires SortedInts(s)
    ensures forall x :: x in s <==> x in Dedup(s)
    decreases |s|
  {
    if s != [] {
      var r, last := s[..|s|-1], s[|s|-1];
      var d := Dedup(r);
      DedupKeepsValues(r);
      DedupAscends(s);
      InSnoc(r, last);
      InSnoc(d, last);
      assert s == r + [last];
      assert last in Dedup(s) by {
        assert Dedup(s)[|Dedup(s)|-1] == last;
      }
    }
  }

  lemma InSnoc(s: seq<nat>, last: nat)
    ensures forall x :: x in s + [last] <==> x in s || x == last
  {
  }

  lemma {:induction false} DedupOfDistinct(s: seq<nat>)
    requires forall i, j :: 0 <= i < j < |s| ==> s[i] < s[j]
    ensures Dedup(s) == s
    decreases |s|
  {
    if s != [] {
      DedupOfDistinct(s[..|s|-1]);
      assert s == s[..|s|-1] + [s[|s|-1]];
    }
  }

  /** With div fixed, a list and its deduplicated list compress to the same bytes. */
  lemma DuplicatesDoNotShow(s: seq<nat>, a: seq<byte>, b: seq<byte>, div: nat)
    requires SortedInts(s) && IsCode(a, Dedup(s), div) && IsCode(b, Dedup(Dedup(s)), div)
    ensures a == b
  {
    DedupAscends(s);
    DedupOfDistinct(Dedup(s));
    CodeIsUnique(a, b, Dedup(s), div);
  }

  // Byte i with the low eight bits of v or-ed in.
  function OrChar(c: seq<byte>, i: nat, v: nat): (r: seq<byte>)
    requires i < |c|
  {
    assert Shl(1, 8) == 256;
    LowFits(v, 8);
    OrFits(c[i], Low(v, 8), 8);
    c[i := Or(c[i], Low(v, 8))]
  }

  lemma OrCharBits(c: seq<byte>, i: nat, v: nat)
    requires i < |c|
    ensures forall p :: 0 <= p < 8 * |c| ==>
              BitAt(OrChar(c, i, v), p) == (BitAt(c, p) || (p / 8 == i && Bit(v, p % 8)))
  {
    forall p | 0 <= p < 8 * |c|
      ensures BitAt(OrChar(c, i, v), p) == (BitAt(c, p) || (p / 8 == i && Bit(v, p % 8)))
    {
      if p / 8 == i {
        BitLow(v, 8, p % 8);
        BitOr(c[i], Low(v, 8), p % 8);
      }
    }
  }

  lemma BitOneShifted(s: nat, k: nat)
    ensures Bit(Shl(1, s), k) == (k == s)
  {
    BitShl(1, s, k);
    if k > s {
      BitZero(k - s - 1);
    }
  }

  // Copies the remainder, byte by byte, to bit pos on.
  method WriteRemainder(c: seq<byte>, pos: nat, remainder: nat, div: nat) returns (compressed: seq<byte>)
    requires pos + div <= 8 * |c| && remainder < Shl(1, div)
    ensures |compressed| == |c|
    ensures forall p :: 0 <= p < 8 * |c| ==>
              BitAt(compressed, p) == (BitAt(c, p) || (pos <= p && Bit(remainder, p - pos)))
  {
    compressed := c;
    var binaryStart := pos % 8;
    var binaryIdx: nat := 0;
    var i := pos / 8;
    while binaryIdx < div
      invariant |compressed| == |c|
      invariant 0 <= binaryStart < 8 && 8 * i + binaryStart == pos + binaryIdx
      invariant forall p :: 0 <= p < 8 * |c| ==>
                  BitAt(compressed, p) == (BitAt(c, p) || (pos <= p < pos + binaryIdx && Bit(remainder, p - pos)))
      decreases div - binaryIdx
    {
      var v := Shl(Shr(remainder, binaryIdx), binaryStart);
      OrCharBits(compressed, i, v);
      forall p | pos <= p < 8 * |c| && p / 8 == i
        ensures Bit(v, p % 8) == (p >= pos + binaryIdx && Bit(remainder, p - pos))
      {
        BitShl(Shr(remainder, binaryIdx), binaryStart, p % 8);
        if p % 8 >= binaryStart {
          BitShr(remainder, binaryIdx, p % 8 - binaryStart);
        }
      }
      forall p | 0 <= p < pos && p / 8 == i
        ensures !Bit(v, p % 8)
      {
        BitShl(Shr(remainder, binaryIdx), binaryStart, p % 8);
      }
      compressed := OrChar(compressed, i, v);
      binaryIdx := binaryIdx + 8 - binaryStart;
      binaryStart := 0;
      i := i + 1;
    }
    FitsIffClear(remainder, div);
  }

  // Writes one codeword at bit resIdx, growing the string only as far as needed.
  method AppendCodeword(c: seq<byte>, ghost bits: seq<bool>, resIdx: nat, delta: nat, div: nat)
    returns (compressed: seq<byte>)
    requires resIdx == |bits| && HoldsBits(c, bits)
    ensures HoldsBits(compressed, bits + Codeword(delta, div))
  {
    var quotient := Shr(delta, div);
    var remainder := Low(delta, div);
    var len := quotient + 1 + div;
    var size := (resIdx + len + 8 - 1) / 8;
    compressed := c + ZeroBytes(size - |c|);
    BitsOfGrown(c, size - |c|);
    ghost var grown := compressed;

    var unaryEnd := resIdx + quotient;
    SetOneBit(grown, unaryEnd);
    LowFits(delta, div);
    ghost var one := OrChar(compressed, unaryEnd / 8, Shl(1, unaryEnd % 8));
    compressed := OrChar(compressed, unaryEnd / 8, Shl(1, unaryEnd % 8));
    compressed := WriteRemainder(compressed, unaryEnd + 1, remainder, div);
    CodewordWritten(c, grown, one, compressed, bits, delta, div);
  }

  lemma CodewordWritten(c: seq<byte>, grown: seq<byte>, one: seq<byte>, r: seq<byte>, bits: seq<bool>, delta: nat, div: nat)
    requires HoldsBits(c, bits) && |r| == |one| == |grown| >= |c|
    requires forall p :: 0 <= p < 8 * |c| ==> BitAt(grown, p) == BitAt(c, p)
    requires forall p :: 8 * |c| <= p < 8 * |grown| ==> !BitAt(grown, p)
    requires |bits| + Shr(delta, div) + 1 + div <= 8 * |r| < |bits| + Shr(delta, div) + 1 + div + 8
    requires var at := |bits| + Shr(delta, div);
             && (forall p :: 0 <= p < 8 * |grown| ==> BitAt(one, p) == (BitAt(grown, p) || p == at))
             && (forall p :: 0 <= p < 8 * |one| ==>
                   BitAt(r, p) == (BitAt(one, p) || (at + 1 <= p && Bit(Low(delta, div), p - (at + 1)))))
    ensures HoldsBits(r, bits + Codeword(delta, div))
  {
    LowFits(delta, div);
    FitsIffClear(Low(delta, div), div);
    var word := Codeword(delta, div);
    forall p | 0 <= p < |bits|
      ensures BitAt(r, p) == bits[p]
    {
      assert BitAt(r, p) == BitAt(one, p) == BitAt(grown, p) == BitAt(c, p) == bits[p];
    }
    forall k | 0 <= k < 8 * |r| - |bits|
      ensures BitAt(r, |bits| + k) == (k < |word| && word[k])
    {
      assert !BitAt(grown, |bits| + k);
      assert BitAt(one, |bits| + k) == (k == Shr(delta, div));
      if k < |word| {
        CodewordAt(delta, div, k);
      }
    }
    HoldsConcat(r, bits, word);
  }

  lemma CodewordAt(delta: nat, div: nat, k: nat)
    requires k < |Codeword(delta, div)|
    ensures var q := Shr(delta, div);
            Codeword(delta, div)[k] == (k == q || (k > q && Bit(Low(delta, div), k - q - 1)))
  {
  }

  lemma HoldsConcat(r: seq<byte>, bits: seq<bool>, word: seq<bool>)
    requires |bits| + |word| <= 8 * |r| < |bits| + |word| + 8
    requires forall p :: 0 <= p < |bits| ==> BitAt(r, p) == bits[p]
    requires forall k :: 0 <= k < 8 * |r| - |bits| ==> BitAt(r, |bits| + k) == (k < |word| && word[k])
    ensures HoldsBits(r, bits + word)
  {
    forall p | |bits| <= p < 8 * |r|
      ensures BitAt(r, p) == (p < |bits| + |word| && word[p - |bits|])
    {
      assert BitAt(r, |bits| + (p - |bits|)) == BitAt(r, p);
    }
  }

  lemma SetOneBit(c: seq<byte>, at: nat)
    requires at < 8 * |c|
    ensures var r := OrChar(c, at / 8, Shl(1, at % 8));
            forall p :: 0 <= p < 8 * |c| ==> BitAt(r, p) == (BitAt(c, p) || p == at)
  {
    OrCharBits(c, at / 8, Shl(1, at % 8));
    forall p | 0 <= p < 8 * |c|
      ensures (p / 8 == at / 8 && Bit(Shl(1, at % 8), p % 8)) == (p == at)
    {
      BitOneShifted(at % 8, p % 8);
    }
  }

  function ZeroBytes(n: nat): (r: seq<byte>)
    ensures |r| == n && forall i :: 0 <= i < n ==> r[i] == 0
  {
    if n == 0 then [] else [0] + ZeroBytes(n - 1)
  }

  lemma BitsOfGrown(c: seq<byte>, n: nat)
    ensures forall p :: 0 <= p < 8 * |c| ==> BitAt(c + ZeroBytes(n), p) == BitAt(c, p)
    ensures forall p :: 8 * |c| <= p < 8 * |c + ZeroBytes(n)| ==> !BitAt(c + ZeroBytes(n), p)
  {
    var g := c + ZeroBytes(n);
    forall p | 8 * |c| <= p < 8 * |g|
      ensures !BitAt(g, p)
    {
      assert g[p / 8] == 0;
      BitZero(p % 8);
    }
  }

  // The first n values are coded: the string holds their code and the variables say where it
  // ends and what it ends with.
  ghost predicate CompressedTo(sortedArr: seq<nat>, n: nat, div: nat,
                               compressed: seq<byte>, resIdx: nat, prev: nat, start: bool) {
    && n <= |sortedArr| && SortedInts(sortedArr)
    && var coded := Dedup(sortedArr[..n]);
    && IsCode(compressed, coded, div) && resIdx == |Encode(0, coded, div)|
    && (start <==> coded == []) && (start <==> n == 0) && prev == Last(0, coded)
  }

  lemma CompressStarts(sortedArr: seq<nat>, div: nat)
    requires SortedInts(sortedArr)
    ensures CompressedTo(sortedArr, 0, div, [], 0, 0, true)
  {
    assert sortedArr[..0] == [];
  }

  // One more value than the first n.
  lemma DedupNext(s: seq<nat>, n: nat)
    requires n < |s| && SortedInts(s)
    ensures var d := Dedup(s[..n]);
            && Last(0, d) <= s[n]
            && Dedup(s[..n + 1]) == if d == [] || s[n] > Last(0, d) then d + [s[n]] else d
  {
    assert s[..n + 1][..n] == s[..n];
    DedupAscends(s[..n]);
    if n > 0 {
      assert s[..n][n - 1] == s[n - 1];
    }
  }

  // A repeated value changes nothing.
  lemma CompressSkips(sortedArr: seq<nat>, n: nat, div: nat, compressed: seq<byte>, resIdx: nat, prev: nat, start: bool)
    requires CompressedTo(sortedArr, n, div, compressed, resIdx, prev, start)
    requires n < |sortedArr| && !start && sortedArr[n] <= prev
    ensures CompressedTo(sortedArr, n + 1, div, compressed, resIdx, prev, start)
  {
    DedupNext(sortedArr, n);
  }

  // A new value adds its codeword.
  lemma CompressAdds(sortedArr: seq<nat>, n: nat, div: nat, before: seq<byte>, resIdx: nat, prev: nat, start: bool,
                     compressed: seq<byte>)
    requires CompressedTo(sortedArr, n, div, before, resIdx, prev, start)
    requires n < |sortedArr| && prev <= sortedArr[n] && (start || sortedArr[n] > prev)
    requires HoldsBits(compressed, Encode(0, Dedup(sortedArr[..n]), div) + Codeword(sortedArr[n] - prev, div))
    ensures CompressedTo(sortedArr, n + 1, div, compressed, resIdx + (Shr(sortedArr[n] - prev, div) + 1 + div), sortedArr[n], false)
  {
    var coded := Dedup(sortedArr[..n]);
    DedupNext(sortedArr, n);
    assert Dedup(sortedArr[..n + 1]) == coded + [sortedArr[n]];
    CodeGrows(coded, sortedArr[n], div, compressed);
  }

  lemma CodeGrows(coded: seq<nat>, v: nat, div: nat, compressed: seq<byte>)
    requires AscendingFrom(0, coded) && Last(0, coded) <= v
    requires HoldsBits(compressed, Encode(0, coded, div) + Codeword(v - Last(0, coded), div))
    ensures IsCode(compressed, coded + [v], div) && Last(0, coded + [v]) == v
    ensures |Encode(0, coded + [v], div)| == |Encode(0, coded, div)| + (Shr(v - Last(0, coded), div) + 1 + div)
  {
    EncodeSnoc(0, coded, v, div);
  }

  lemma NeverDescends(sortedArr: seq<nat>, n: nat, div: nat, compressed: seq<byte>, resIdx: nat, prev: nat, start: bool)
    requires CompressedTo(sortedArr, n, div, compressed, resIdx, prev, start) && n < |sortedArr|
    ensures prev <= sortedArr[n] && resIdx == |Encode(0, Dedup(sortedArr[..n]), div)|
    ensures HoldsBits(compressed, Encode(0, Dedup(sortedArr[..n]), div))
  {
    DedupNext(sortedArr, n);
  }

  /**
    golomb_compress with an explicit div. The result is the code of the list without its
    duplicates, and of nothing else; the empty list is the empty string with div 0. There is none
    for a div whose mask is undefined.
   */
  method Compress(sortedArr: seq<nat>, div: nat) returns (res: Option<GolombCompressed>)
    requires SortedInts(sortedArr)
    ensures res.None? <==> sortedArr != [] && Shl(1, div) >= LIMIT
    ensures res.Some? ==> res.value.div == if sortedArr == [] then 0 else div
    ensures res.Some? ==> IsCode(res.value.compressed, Dedup(sortedArr), res.value.div)
  {
    if sortedArr == [] {
      return Some(GolombCompressed(0, []));
    }
    // The remainder's mask is 2^div less 1.
    if Shl(1, div) >= LIMIT {
      return None;
    }
    var compressed: seq<byte> := [];
    var resIdx: nat, prev: nat, start := 0, 0, true;
    CompressStarts(sortedArr, div);
    for n := 0 to |sortedArr|
      invariant CompressedTo(sortedArr, n, div, compressed, resIdx, prev, start)
    {
      var curr := sortedArr[n];
      NeverDescends(sortedArr, n, div, compressed, resIdx, prev, start);
      if start || curr > prev {
        var delta: nat := curr - prev;
        ghost var before := compressed;
        compressed := AppendCodeword(compressed, Encode(0, Dedup(sortedArr[..n]), div), resIdx, delta, div);
        CompressAdds(sortedArr, n, div, before, resIdx, prev, start, compressed);
        resIdx := resIdx + (Shr(delta, div) + 1 + div);
        prev := curr;
        start := false;
      } else {
        CompressSkips(sortedArr, n, div, compressed, resIdx, prev, start);
      }
    }
    assert sortedArr[..|sortedArr|] == sortedArr;
    res := Some(GolombCompressed(div, compressed));
  }

  // The second components of the pairs whose first component is one of the values, in order.
  function Select(pairs: seq<(int, int)>, values: seq<nat>): seq<int> {
    if pairs == [] then []
    else
      var last := pairs[|pairs|-1];
      Select(pairs[..|pairs|-1], values) + (if last.0 in values then [last.1] else [])
  }

  lemma {:induction false} SelectAgrees(pairs: seq<(int, int)>, a: seq<nat>, b: seq<nat>)
    requires forall p :: p in pairs ==> (p.0 in a <==> p.0 in b)
    ensures Select(pairs, a) == Select(pairs, b)
    decreases |pairs|
  {
    if pairs != [] {
      assert pairs[|pairs|-1] in pairs;
      SelectAgrees(pairs[..|pairs|-1], a, b);
    }
  }

  // Pairs that match no value add nothing.
  lemma {:induction false} SelectPrefix(pairs: seq<(int, int)>, n: nat, values: seq<nat>)
    requires n <= |pairs| && forall k :: n <= k < |pairs| ==> pairs[k].0 !in values
    ensures Select(pairs, values) == Select(pairs[..n], values)
    decreases |pairs|
  {
    if n == |pairs| {
      assert pairs[..n] == pairs;
    } else {
      SelectPrefix(pairs[..|pairs|-1], n, values);
      assert pairs[..|pairs|-1][..n] == pairs[..n];
    }
  }

  ghost predicate SortedPairs(pairs: seq<(int, int)>) {
    forall i, j :: 0 <= i < j < |pairs| ==> pairs[i].0 <= pairs[j].0
  }

  lemma RestIsClear(s: seq<byte>, bits: seq<bool>, it: nat, offset: nat)
    requires bits == ByteBits(s) && it < |s| && offset < 8 && Shr(s[it], offset) == 0
    ensures forall k :: 8 * it + offset <= k < 8 * (it + 1) ==> !bits[k]
  {
    ZeroIffClear(Shr(s[it], offset));
    forall k | 8 * it + offset <= k < 8 * (it + 1)
      ensures !bits[k]
    {
      BitOfByte(s, bits, it, k - 8 * it);
      BitShr(s[it], offset, k - 8 * it - offset);
    }
  }

  // The zeros of one unary part: from bit `from` to the next 1 bit or the end of the string.
  method SkipZeros(s: seq<byte>, at: nat, offset: nat, ghost bits: seq<bool>)
    returns (quotient: nat, it: nat, newOffset: nat)
    requires bits == ByteBits(s) && offset < 8 && 8 * at + offset <= |bits|
    ensures it <= |s| && newOffset < 8
    ensures 8 * it + newOffset <= |bits|
    ensures quotient == 8 * it + newOffset - (8 * at + offset)
    ensures forall k :: 8 * at + offset <= k < 8 * it + newOffset ==> !bits[k]
    ensures it < |s| ==> Shr(s[it], newOffset) != 0
  {
    quotient := 0;
    it, newOffset := at, offset;
    while it != |s| && Shr(s[it], newOffset) == 0
      invariant it <= |s| && newOffset < 8 && 8 * it + newOffset <= |bits|
      invariant quotient == 8 * it + newOffset - (8 * at + offset)
      invariant forall k :: 8 * at + offset <= k < 8 * it + newOffset ==> !bits[k]
      decreases |s| - it
    {
      RestIsClear(s, bits, it, newOffset);
      quotient := quotient + (8 - newOffset);
      newOffset := 0;
      it := it + 1;
    }
  }

  lemma BitOfByte(s: seq<byte>, bits: seq<bool>, i: nat, j: nat)
    requires bits == ByteBits(s) && i < |s| && j < 8
    ensures bits[8 * i + j] == Bit(s[i], j)
  {
    var p := 8 * i + j;
    assert p / 8 == i && p % 8 == j;
    assert bits[p] == BitAt(s, p);
  }

  // n bits of a byte, from bit `start` on, or-ed in at bit idx of the remainder.
  lemma OrPart(remainder: nat, b: byte, start: nat, idx: nat, n: nat)
    ensures forall k: nat :: Bit(Or(remainder, Shl(Low(Shr(b, start), n), idx)), k)
                          == (Bit(remainder, k) || (idx <= k < idx + n && Bit(b, start + k - idx)))
  {
    var part := Low(Shr(b, start), n);
    forall k: nat
      ensures Bit(Or(remainder, Shl(part, idx)), k)
           == (Bit(remainder, k) || (idx <= k < idx + n && Bit(b, start + k - idx)))
    {
      BitOr(remainder, Shl(part, idx), k);
      BitShl(part, idx, k);
      if k >= idx {
        BitLow(Shr(b, start), n, k - idx);
        BitShr(b, start, k - idx);
      }
    }
  }

  // The greatest number of bits a 64-bit word can be shifted by.
  const MAX_SHIFT := 63

  // What one round of the decoder comes to: nothing but padding left, a codeword that the
  // string ends inside, a quotient that is no 64-bit number once shifted, or a distance and the
  // position behind its codeword. To find the second out, the source reads past the end of the
  // string.
  datatype Round = Padding | Cut | TooFar | Read(delta: nat, it: nat, offset: nat)

  // r is the number whose n bits stand at bit `from`.
  ghost predicate IsPart(bits: seq<bool>, from: nat, n: nat, r: nat) {
    from + n <= |bits| && forall k: nat :: Bit(r, k) == (k < n && bits[from + k])
  }

  // n bits of byte `it` or-ed in above the idx bits already read.
  lemma PartRead(s: seq<byte>, bits: seq<bool>, remainder: nat, it: nat, start: nat, idx: nat, n: nat, from: nat)
    requires bits == ByteBits(s) && it < |s| && start + n <= 8 && 8 * it + start == from + idx
    requires IsPart(bits, from, idx, remainder)
    ensures IsPart(bits, from, idx + n, Or(remainder, Shl(Low(Shr(s[it], start), n), idx)))
  {
    OrPart(remainder, s[it], start, idx, n);
    var r := Or(remainder, Shl(Low(Shr(s[it], start), n), idx));
    forall k: nat
      ensures Bit(r, k) == (k < idx + n && bits[from + k])
    {
      if idx <= k < idx + n {
        BitOfByte(s, bits, it, start + k - idx);
      }
    }
  }

  // The remainder's div bits from bit 8 * at + start on, if the string holds them all. The
  // returned position is one past the last byte read.
  method ReadRemainder(s: seq<byte>, at: nat, start: nat, div: nat, ghost bits: seq<bool>, ghost from: nat)
    returns (inside: bool, remainder: nat, it: nat)
    requires bits == ByteBits(s) && start < 8 && 8 * at + start == from <= |bits|
    ensures inside <==> from + div <= |bits|
    ensures inside ==> remainder < Shl(1, div) && remainder == Number(bits, from, div)
    ensures inside && div == 0 ==> it == at
    ensures inside && div > 0 ==> 8 * (it - 1) < from + div <= 8 * it
  {
    var binaryIdx := 0;
    var binaryStart := start;
    remainder, it := 0, at;
    ZeroIffClear(0);
    while binaryIdx < div
      invariant 0 <= binaryIdx <= div && 0 <= binaryStart < 8
      invariant binaryIdx < div ==> 8 * it + binaryStart == from + binaryIdx
      invariant binaryIdx == 0 ==> it == at
      invariant binaryIdx > 0 ==> 8 * (it - 1) < from + binaryIdx <= 8 * it
      invariant IsPart(bits, from, binaryIdx, remainder)
      decreases div - binaryIdx
    {
      if it == |s| {
        return false, 0, it;
      }
      var numBits := if 8 - binaryStart < div - binaryIdx then 8 - binaryStart else div - binaryIdx;
      var part := Low(Shr(s[it], binaryStart), numBits);
      PartRead(s, bits, remainder, it, binaryStart, binaryIdx, numBits, from);
      remainder := Or(remainder, Shl(part, binaryIdx));
      binaryIdx := binaryIdx + numBits;
      binaryStart := 0;
      it := it + 1;
    }
    RemainderIs(bits, from, div, remainder);
    return true, remainder, it;
  }

  lemma RemainderIs(bits: seq<bool>, from: nat, div: nat, remainder: nat)
    requires IsPart(bits, from, div, remainder)
    ensures remainder < Shl(1, div) && remainder == Number(bits, from, div)
  {
    assert ClearFrom(remainder, div);
    FitsIffClear(remainder, div);
    NumberIsBinary(bits, from, div, remainder);
  }

  // The 1 bit found in a byte is the first one at p or after it.
  lemma FirstOne(s: seq<byte>, it: nat, offset: nat, bits: seq<bool>, p: nat)
    requires bits == ByteBits(s) && it < |s| && offset < 8 && p <= 8 * it + offset
    requires forall k :: p <= k < 8 * it + offset ==> !bits[k]
    requires Shr(s[it], offset) != 0
    ensures var u := 8 * it + offset + Ctz(Shr(s[it], offset));
            u < 8 * (it + 1) && NextOne(bits, p) == u
  {
    LowestOne(s[it], offset);
    FirstOneAt(s, it, offset, bits, p, offset + Ctz(Shr(s[it], offset)));
  }

  lemma FirstOneAt(s: seq<byte>, it: nat, offset: nat, bits: seq<bool>, p: nat, i: nat)
    requires bits == ByteBits(s) && it < |s| && offset <= i < 8 && p <= 8 * it + offset
    requires forall k :: p <= k < 8 * it + offset ==> !bits[k]
    requires Bit(s[it], i) && forall j: nat :: offset <= j < i ==> !Bit(s[it], j)
    ensures NextOne(bits, p) == 8 * it + i
  {
    var u := 8 * it + i;
    BitOfByte(s, bits, it, i);
    forall k | p <= k < u
      ensures !bits[k]
    {
      if k >= 8 * it + offset {
        BitOfByte(s, bits, it, k - 8 * it);
      }
    }
    NextOneIs(bits, p, u);
  }

  // The lowest 1 bit of a byte from `offset` on.
  lemma LowestOne(b: byte, offset: nat)
    requires offset < 8 && Shr(b, offset) != 0
    ensures var i := offset + Ctz(Shr(b, offset));
            i < 8 && Bit(b, i) && forall j: nat :: offset <= j < i ==> !Bit(b, j)
  {
    var ctz := Ctz(Shr(b, offset));
    BitShr(b, offset, ctz);
    if offset + ctz >= 8 {
      ByteFits(b, offset + ctz);
    }
    forall j: nat | offset <= j < offset + ctz
      ensures !Bit(b, j)
    {
      BitShr(b, offset, j - offset);
    }
  }

  // A whole codeword stands at bit p, and its distance is no 64-bit number.
  predicate IsTooFar(bits: seq<bool>, p: nat, div: nat) {
    && p <= |bits|
    && var u := NextOne(bits, p);
    && u + 1 + div <= |bits| && Shl(u - p, div) >= LIMIT
  }

  // One round of the decoder, from bit p = 8 * at + start on; bit `behind` comes after what it read.
  method DecodeNext(s: seq<byte>, at: nat, start: nat, div: nat, ghost bits: seq<bool>, ghost p: nat)
    returns (round: Round, ghost behind: nat)
    requires bits == ByteBits(s) && start < 8 && 8 * at + start == p <= |bits| && div <= MAX_SHIFT
    ensures match round
            case Padding => NextOne(bits, p) == |bits|
            case Cut => IsCut(bits, p, div)
            case TooFar => IsTooFar(bits, p, div)
            case Read(delta, it, offset) =>
              offset < 8 && 8 * it + offset == behind && Reads(bits, p, behind, delta, div) && delta < LIMIT
  {
    behind := p;
    var quotient, it, offset := SkipZeros(s, at, start, bits);
    if it == |s| {
      NextOneIs(bits, p, |bits|);
      return Padding, behind;
    }
    FirstOne(s, it, offset, bits, p);
    ghost var u := NextOne(bits, p);
    var ctz := Ctz(Shr(s[it], offset));
    quotient := quotient + ctz;
    round := ReadBinary(s, it, ctz + offset, quotient, div, bits, u);
    if round.Read? {
      behind := u + 1 + div;
      CodewordReads(bits, p, u, quotient, behind, round.delta, div);
    }
  }

  lemma CodewordReads(bits: seq<bool>, p: nat, u: nat, quotient: nat, next: nat, delta: nat, div: nat)
    requires p <= u < |bits| && NextOne(bits, p) == u && quotient == u - p && next == u + 1 + div <= |bits|
    requires delta == Shl(quotient, div) + Number(bits, u + 1, div)
    ensures Reads(bits, p, next, delta, div)
  {
  }

  lemma WordHolds()
    ensures Shl(1, MAX_SHIFT) == LIMIT
  {
    assert Shl(1, 9) == 512;
    assert Shl(1, 18) == 0x4_0000;
    assert Shl(1, 27) == 0x800_0000;
    assert Shl(1, 36) == 0x10_0000_0000;
    assert Shl(1, 45) == 0x2000_0000_0000;
    assert Shl(1, 54) == 0x40_0000_0000_0000;
  }

  // A mask that 64 bits can hold is of fewer bits than can be shifted by.
  lemma MaskIsShift(div: nat)
    ensures Shl(1, div) < LIMIT <==> div < MAX_SHIFT
  {
    WordHolds();
    if div <= MAX_SHIFT {
      if div < MAX_SHIFT {
        ShlOneFits(div, MAX_SHIFT);
      }
    } else {
      ShlOneFits(MAX_SHIFT, div);
    }
  }

  // A shifted quotient that is a 64-bit number leaves room for the remainder below it.
  lemma RoomBelow(quotient: nat, div: nat, remainder: nat)
    requires div <= MAX_SHIFT && Shl(quotient, div) < LIMIT && remainder < Shl(1, div)
    ensures Shl(quotient, div) + remainder < LIMIT
  {
    var top := Shl(1, MAX_SHIFT - div);
    ShlAdds(MAX_SHIFT - div, div, 1);
    WordHolds();
    if quotient >= top {
      ShlMonotone(top, quotient, div);
    } else {
      ShlLess(quotient, top, div);
    }
  }

  // The rest of a codeword whose closing 1 is bit oneIdx of byte at.
  method ReadBinary(s: seq<byte>, at: nat, oneIdx: nat, quotient: nat, div: nat, ghost bits: seq<bool>, ghost u: nat)
    returns (round: Round)
    requires bits == ByteBits(s) && oneIdx < 8 && u == 8 * at + oneIdx < |bits| && div <= MAX_SHIFT
    ensures match round
            case Padding => false
            case Cut => |bits| < u + 1 + div
            case TooFar => u + 1 + div <= |bits| && Shl(quotient, div) >= LIMIT
            case Read(delta, it, offset) =>
              && offset < 8 && 8 * it + offset == u + 1 + div <= |bits|
              && delta == Shl(quotient, div) + Number(bits, u + 1, div) < LIMIT
  {
    var binaryStart := (oneIdx + 1) % 8;
    ghost var start := at + (if binaryStart == 0 then 1 else 0);
    BehindOne(at, oneIdx);
    var inside, remainder, it := ReadRemainder(s, at + (if binaryStart == 0 then 1 else 0), binaryStart, div, bits, u + 1);
    if !inside {
      return Cut;
    }

    // The last byte read may also hold the start of the next codeword.
    NextPosition(at, oneIdx, div, start, it);
    var offset := (oneIdx + 1 + div) % 8;
    it := it - (if div > 0 && offset != 0 then 1 else 0);

    var delta := Distance(quotient, div, remainder);
    return if delta.None? then TooFar else Read(delta.value, it, offset);
  }

  // The bit behind bit oneIdx of a byte.
  lemma BehindOne(at: nat, oneIdx: nat)
    requires oneIdx < 8
    ensures var start := (oneIdx + 1) % 8; 8 * (at + (if start == 0 then 1 else 0)) + start == 8 * at + oneIdx + 1
  {
    assert (oneIdx + 1) % 8 == if oneIdx == 7 then 0 else oneIdx + 1;
  }

  // The two parts of a distance put together, if that is a 64-bit number.
  method Distance(quotient: nat, div: nat, remainder: nat) returns (delta: Option<nat>)
    requires div <= MAX_SHIFT && remainder < Shl(1, div)
    ensures delta == if Shl(quotient, div) >= LIMIT then None else Some(Shl(quotient, div) + remainder)
    ensures delta.Some? ==> delta.value < LIMIT
  {
    if Shl(quotient, div) >= LIMIT {
      return None;
    }
    RoomBelow(quotient, div, remainder);
    OrIsSum(quotient, div, remainder);
    return Some(Or(Shl(quotient, div), remainder));
  }

  // Stepping back one byte unless the codeword ended on a byte boundary lands just after it.
  lemma NextPosition(at1: nat, oneIdx: nat, div: nat, at2: nat, it: nat)
    requires oneIdx < 8 && at2 == at1 + (if (oneIdx + 1) % 8 == 0 then 1 else 0)
    requires div == 0 ==> it == at2
    requires div > 0 ==> 8 * (it - 1) < 8 * at1 + oneIdx + 1 + div <= 8 * it
    ensures var offset := (oneIdx + 1 + div) % 8;
            && it >= (if div > 0 && offset != 0 then 1 else 0)
            && 8 * (it - (if div > 0 && offset != 0 then 1 else 0)) + offset
            == 8 * at1 + oneIdx + 1 + div
  {
    var n := 8 * at1 + oneIdx + 1 + div;
    assert n % 8 == (oneIdx + 1 + div) % 8;
  }

  // Advances through the pairs up to and including those equal to the next coded value.
  method MergeValue(sortedArr: seq<(int, int)>, from: nat, ghost done: seq<nat>, value: nat, found: seq<int>)
    returns (arrIt: nat, res: seq<int>)
    requires SortedPairs(sortedArr) && MergedUpTo(sortedArr, from, done, found)
    requires Last(0, done) <= value
    ensures from <= arrIt && MergedUpTo(sortedArr, arrIt, done + [value], res)
  {
    arrIt, res := from, found;
    MergeStart(sortedArr, from, done, value, found);
    while arrIt != |sortedArr| && sortedArr[arrIt].0 < value
      invariant from <= arrIt && Compared(sortedArr, arrIt, done, value, res)
      decreases |sortedArr| - arrIt
    {
      NotYetCoded(sortedArr, from, arrIt, done, value, found);
      ComparedNext(sortedArr, arrIt, done, value, res);
      arrIt := arrIt + 1;
    }
    while arrIt != |sortedArr| && sortedArr[arrIt].0 == value
      invariant from <= arrIt && Compared(sortedArr, arrIt, done, value, res)
      invariant arrIt < |sortedArr| ==> sortedArr[arrIt].0 >= value
      decreases |sortedArr| - arrIt
    {
      ComparedNext(sortedArr, arrIt, done, value, res);
      res := res + [sortedArr[arrIt].1];
      arrIt := arrIt + 1;
    }
    MergeEnd(sortedArr, arrIt, done, value, res);
  }

  // The pairs before arrIt are compared with `value` too.
  ghost predicate Compared(pairs: seq<(int, int)>, arrIt: nat, done: seq<nat>, value: nat, res: seq<int>) {
    && arrIt <= |pairs| && res == Select(pairs[..arrIt], done + [value])
    && forall k :: 0 <= k < arrIt ==> pairs[k].0 <= value
  }

  lemma ComparedNext(pairs: seq<(int, int)>, arrIt: nat, done: seq<nat>, value: nat, res: seq<int>)
    requires Compared(pairs, arrIt, done, value, res) && arrIt < |pairs| && pairs[arrIt].0 <= value
    ensures Compared(pairs, arrIt + 1, done, value,
                     if pairs[arrIt].0 in done + [value] then res + [pairs[arrIt].1] else res)
  {
    SelectNext(pairs, arrIt, done + [value]);
  }

  lemma SelectNext(pairs: seq<(int, int)>, n: nat, values: seq<nat>)
    requires n < |pairs|
    ensures Select(pairs[..n + 1], values)
         == Select(pairs[..n], values) + (if pairs[n].0 in values then [pairs[n].1] else [])
  {
    assert pairs[..n + 1][..n] == pairs[..n];
  }

  // The pairs already compared select the same with the new value as without it.
  lemma MergeStart(pairs: seq<(int, int)>, from: nat, done: seq<nat>, value: nat, found: seq<int>)
    requires MergedUpTo(pairs, from, done, found) && Last(0, done) <= value
    ensures Compared(pairs, from, done, value, found)
  {
    forall p | p in pairs[..from]
      ensures p.0 in done <==> p.0 in done + [value]
    {
      if p.0 == value {
        assert done[|done|-1] == value;
      }
    }
    SelectAgrees(pairs[..from], done, done + [value]);
  }

  lemma MergeEnd(pairs: seq<(int, int)>, arrIt: nat, done: seq<nat>, value: nat, res: seq<int>)
    requires SortedPairs(pairs) && Compared(pairs, arrIt, done, value, res)
    requires (forall v :: v in done ==> v <= Last(0, done)) && Last(0, done) <= value
    requires arrIt < |pairs| ==> pairs[arrIt].0 > value
    ensures MergedUpTo(pairs, arrIt, done + [value], res)
  {
    assert Last(0, done + [value]) == value;
  }

  lemma NotYetCoded(pairs: seq<(int, int)>, from: nat, k: nat, done: seq<nat>, value: nat, found: seq<int>)
    requires from <= k < |pairs| && pairs[k].0 < value
    requires MergedUpTo(pairs, from, done, found)
    ensures pairs[k].0 !in done + [value]
  {
  }

  // The pairs before arrIt have been compared with every value of `done`, and no later pair
  // equals one of them.
  ghost predicate MergedUpTo(pairs: seq<(int, int)>, arrIt: nat, done: seq<nat>, res: seq<int>) {
    && arrIt <= |pairs|
    && res == Select(pairs[..arrIt], done)
    && (forall v :: v in done ==> v <= Last(0, done))
    && (forall k :: 0 <= k < arrIt ==> done != [] && pairs[k].0 <= Last(0, done))
    && (done != [] ==> forall k :: arrIt <= k < |pairs| ==> pairs[k].0 > Last(0, done))
  }

  // Values still to come cannot change what the compared pairs gave.
  lemma MergedIsFinal(pairs: seq<(int, int)>, arrIt: nat, all: seq<nat>, n: nat, res: seq<int>)
    requires n <= |all| && MergedUpTo(pairs, arrIt, all[..n], res)
    requires arrIt == |pairs| || n == |all|
    requires n == |all| || forall i, j :: 0 <= i < j < |all| ==> all[i] <= all[j]
    ensures res == Select(pairs, all)
  {
    var done := all[..n];
    forall p | p in pairs[..arrIt]
      ensures p.0 in done <==> p.0 in all
    {
      if p.0 in all {
        var j :| 0 <= j < |all| && all[j] == p.0;
        assert j < n ==> done[j] == p.0;
        assert j >= n ==> done[n - 1] == p.0;
      }
    }
    SelectAgrees(pairs[..arrIt], done, all);
    forall k | arrIt <= k < |pairs|
      ensures pairs[k].0 !in all
    {
      assert done == all;
    }
    SelectPrefix(pairs, arrIt, all);
  }

  // The decoder comes to what follows the first k values: it has read nothing yet, or it still
  // has a pair to compare, one greater than the last of them.
  predicate GetsTo(d: Decoded, pairs: seq<(int, int)>, k: nat)
    requires k <= |d.values|
  {
    k == 0 || (pairs != [] && pairs[|pairs|-1].0 > d.values[k - 1])
  }

  // It comes to a codeword that the string ends inside,
  predicate ReadsPastEnd(d: Decoded, pairs: seq<(int, int)>) {
    !d.whole && GetsTo(d, pairs, |d.values|)
  }

  // or to a value that is no 64-bit number.
  predicate Overflows(d: Decoded, pairs: seq<(int, int)>) {
    exists k :: 0 <= k < |d.values| && d.values[k] >= LIMIT && GetsTo(d, pairs, k)
  }

  // What the merge comes to: the indices selected, or what it fails in.
  function MergeDecoded(d: Decoded, pairs: seq<(int, int)>): LookedUp {
    if Overflows(d, pairs) then Fails(Overflow)
    else if ReadsPastEnd(d, pairs) then Fails(PastEnd)
    else Found(Select(pairs, d.values))
  }

  function Merge(s: seq<byte>, div: int, pairs: seq<(int, int)>): LookedUp {
    if 0 <= div <= MAX_SHIFT then MergeDecoded(Values(s, div), pairs)
    else if exists i :: 0 <= i < |s| && s[i] != 0 then Fails(BadShift)
    else Found([])
  }

  // The decoder stands before value k, the pairs before arrIt compared.
  ghost predicate Stands(bits: seq<bool>, ps: seq<nat>, d: Decoded, div: nat, pairs: seq<(int, int)>,
                         k: nat, p: nat, prefixSum: nat, arrIt: nat, res: seq<int>) {
    && IsLayout(bits, ps, 0, d, div)
    && k <= |d.values| && p == ps[k] <= |bits| && prefixSum == Before(0, d.values, k)
    && MergedUpTo(pairs, arrIt, d.values[..k], res)
  }

  lemma StandsFirst(bits: seq<bool>, ps: seq<nat>, d: Decoded, div: nat, pairs: seq<(int, int)>)
    requires IsLayout(bits, ps, 0, d, div) && ps[0] == 0
    ensures Stands(bits, ps, d, div, pairs, 0, 0, 0, 0, [])
  {
    CodewordLeft(bits, ps, d, 0, div);
  }

  // None of the values read so far is too great, and the decoder does not get to one that is.
  lemma NoneTooGreat(bits: seq<bool>, ps: seq<nat>, d: Decoded, div: nat, pairs: seq<(int, int)>,
                     k: nat, p: nat, prefixSum: nat, arrIt: nat, res: seq<int>)
    requires Stands(bits, ps, d, div, pairs, k, p, prefixSum, arrIt, res) && prefixSum < LIMIT
    requires k == |d.values| || (k > 0 && !GetsTo(d, pairs, k))
    ensures !Overflows(d, pairs)
  {
    LayoutAscends(bits, ps, d, div);
    assert forall j :: 0 <= j < k ==> d.values[j] <= prefixSum;
    forall j | k <= j < |d.values|
      ensures !GetsTo(d, pairs, j)
    {
      assert d.values[k - 1] <= (if j == k then d.values[k - 1] else d.values[j - 1]);
    }
  }

  // Only padding is left.
  lemma PaddingLeft(bits: seq<bool>, ps: seq<nat>, d: Decoded, div: nat, pairs: seq<(int, int)>,
                    k: nat, p: nat, prefixSum: nat, arrIt: nat, res: seq<int>)
    requires Stands(bits, ps, d, div, pairs, k, p, prefixSum, arrIt, res) && prefixSum < LIMIT
    requires NextOne(bits, p) == |bits|
    ensures MergeDecoded(d, pairs) == Found(res)
  {
    CodewordLeft(bits, ps, d, k, div);
    NoneTooGreat(bits, ps, d, div, pairs, k, p, prefixSum, arrIt, res);
    MergedIsFinal(pairs, arrIt, d.values, k, res);
  }

  // There is a pair to compare with what follows, or nothing has been read.
  lemma GotTo(bits: seq<bool>, ps: seq<nat>, d: Decoded, div: nat, pairs: seq<(int, int)>,
              k: nat, p: nat, prefixSum: nat, arrIt: nat, res: seq<int>)
    requires Stands(bits, ps, d, div, pairs, k, p, prefixSum, arrIt, res) && (k == 0 || arrIt < |pairs|)
    ensures GetsTo(d, pairs, k)
  {
    if k > 0 {
      assert d.values[..k][k - 1] == d.values[k - 1];
    }
  }

  // The string ends inside the next codeword, and there is a pair to compare it with.
  lemma CutReached(bits: seq<bool>, ps: seq<nat>, d: Decoded, div: nat, pairs: seq<(int, int)>,
                   k: nat, p: nat, prefixSum: nat, arrIt: nat, res: seq<int>)
    requires Stands(bits, ps, d, div, pairs, k, p, prefixSum, arrIt, res) && prefixSum < LIMIT && IsCut(bits, p, div)
    requires k == 0 || arrIt < |pairs|
    ensures MergeDecoded(d, pairs) == Fails(PastEnd)
  {
    CodewordLeft(bits, ps, d, k, div);
    GotTo(bits, ps, d, div, pairs, k, p, prefixSum, arrIt, res);
    NoneTooGreat(bits, ps, d, div, pairs, k, p, prefixSum, arrIt, res);
  }

  // The next distance is too great.
  lemma TooFarReached(bits: seq<bool>, ps: seq<nat>, d: Decoded, div: nat, pairs: seq<(int, int)>,
                      k: nat, p: nat, prefixSum: nat, arrIt: nat, res: seq<int>)
    requires Stands(bits, ps, d, div, pairs, k, p, prefixSum, arrIt, res) && IsTooFar(bits, p, div)
    requires k == 0 || arrIt < |pairs|
    ensures MergeDecoded(d, pairs) == Fails(Overflow)
  {
    CodewordLeft(bits, ps, d, k, div);
    GotTo(bits, ps, d, div, pairs, k, p, prefixSum, arrIt, res);
    assert CodewordOf(bits, ps, 0, d.values, k, div);
  }

  // The distance can be added, but not to the value before.
  lemma SumReached(bits: seq<bool>, ps: seq<nat>, d: Decoded, div: nat, pairs: seq<(int, int)>,
                   k: nat, p: nat, prefixSum: nat, arrIt: nat, res: seq<int>, next: nat, delta: nat)
    requires Stands(bits, ps, d, div, pairs, k, p, prefixSum, arrIt, res) && Reads(bits, p, next, delta, div)
    requires prefixSum + delta >= LIMIT && (k == 0 || arrIt < |pairs|)
    ensures MergeDecoded(d, pairs) == Fails(Overflow)
  {
    CodewordTaken(bits, ps, d, div, pairs, k, p, prefixSum, arrIt, res, next, delta);
    GotTo(bits, ps, d, div, pairs, k, p, prefixSum, arrIt, res);
  }

  // Value k is read; the merge compares the pairs with it.
  lemma CodewordTaken(bits: seq<bool>, ps: seq<nat>, d: Decoded, div: nat, pairs: seq<(int, int)>,
                      k: nat, p: nat, prefixSum: nat, arrIt: nat, res: seq<int>, next: nat, delta: nat)
    requires Stands(bits, ps, d, div, pairs, k, p, prefixSum, arrIt, res) && Reads(bits, p, next, delta, div)
    ensures k < |d.values| && next == ps[k + 1] <= |bits| && prefixSum + delta == d.values[k]
    ensures Last(0, d.values[..k]) == prefixSum
    ensures d.values[..k + 1] == d.values[..k] + [prefixSum + delta]
  {
    CodewordLeft(bits, ps, d, k, div);
    ReadIsNext(bits, ps, d, k, next, delta, div);
  }

  // The rest of a round that has read a codeword.
  method CompareWith(delta: nat, sortedArr: seq<(int, int)>, from: nat, prefixSum: nat, found: seq<int>,
                     ghost bits: seq<bool>, ghost ps: seq<nat>, ghost d: Decoded, ghost div: nat,
                     ghost k: nat, ghost p: nat, ghost next: nat)
    returns (arrIt: nat, res: seq<int>)
    requires SortedPairs(sortedArr) && Stands(bits, ps, d, div, sortedArr, k, p, prefixSum, from, found)
    requires Reads(bits, p, next, delta, div)
    ensures k < |d.values|
    ensures Stands(bits, ps, d, div, sortedArr, k + 1, next, prefixSum + delta, arrIt, res)
  {
    CodewordTaken(bits, ps, d, div, sortedArr, k, p, prefixSum, from, found, next, delta);
    arrIt, res := MergeValue(sortedArr, from, d.values[..k], prefixSum + delta, found);
  }

  // No pair is left to compare, whatever the string still holds.
  lemma PairsDone(bits: seq<bool>, ps: seq<nat>, d: Decoded, div: nat, pairs: seq<(int, int)>,
                  k: nat, p: nat, prefixSum: nat, arrIt: nat, res: seq<int>)
    requires Stands(bits, ps, d, div, pairs, k, p, prefixSum, arrIt, res) && prefixSum < LIMIT
    requires k > 0 && arrIt == |pairs|
    ensures MergeDecoded(d, pairs) == Found(res)
  {
    LayoutAscends(bits, ps, d, div);
    MergedIsFinal(pairs, arrIt, d.values, k, res);
    if pairs != [] {
      assert pairs[|pairs|-1].0 <= Last(0, d.values[..k]) == d.values[k - 1];
    }
    assert !GetsTo(d, pairs, k);
    NoneTooGreat(bits, ps, d, div, pairs, k, p, prefixSum, arrIt, res);
  }

  method MergeCoded(s: seq<byte>, div: nat, sortedArr: seq<(int, int)>,
                    ghost bits: seq<bool>, ghost ps: seq<nat>, ghost d: Decoded) returns (r: LookedUp)
    requires bits == ByteBits(s) && IsLayout(bits, ps, 0, d, div) && ps[0] == 0
    requires SortedPairs(sortedArr) && div <= MAX_SHIFT
    ensures r == MergeDecoded(d, sortedArr)
  {
    var it: nat, arrIt: nat, prefixSum: nat, offset: nat := 0, 0, 0, 0;
    ghost var k: nat, p: nat := 0, 0;
    var res: seq<int> := [];
    StandsFirst(bits, ps, d, div, sortedArr);
    while true
      invariant offset < 8 && 8 * it + offset == p && (k == 0 || arrIt < |sortedArr|)
      invariant Stands(bits, ps, d, div, sortedArr, k, p, prefixSum, arrIt, res) && prefixSum < LIMIT
      decreases |d.values| - k
    {
      var round;
      ghost var behind;
      round, behind := DecodeNext(s, it, offset, div, bits, p);
      match round {
        case Padding =>
          PaddingLeft(bits, ps, d, div, sortedArr, k, p, prefixSum, arrIt, res);
          return Found(res);
        case Cut =>
          CutReached(bits, ps, d, div, sortedArr, k, p, prefixSum, arrIt, res);
          return Fails(PastEnd);
        case TooFar =>
          TooFarReached(bits, ps, d, div, sortedArr, k, p, prefixSum, arrIt, res);
          return Fails(Overflow);
        case Read(delta, next, nextOffset) =>
          if prefixSum + delta >= LIMIT {
            SumReached(bits, ps, d, div, sortedArr, k, p, prefixSum, arrIt, res, behind, delta);
            return Fails(Overflow);
          }
          arrIt, res := CompareWith(delta, sortedArr, arrIt, prefixSum, res, bits, ps, d, div, k, p, behind);
          it, offset, prefixSum := next, nextOffset, prefixSum + delta;
          k, p := k + 1, behind;
          if arrIt == |sortedArr| {
            PairsDone(bits, ps, d, div, sortedArr, k, p, prefixSum, arrIt, res);
            return Found(res);
          }
      }
    }
  }

  // Where every byte is 0 no codeword begins.
  lemma NoOnes(s: seq<byte>)
    ensures NextOne(ByteBits(s), 0) == |ByteBits(s)| <==> forall i :: 0 <= i < |s| ==> s[i] == 0
  {
    var bits := ByteBits(s);
    if NextOne(bits, 0) == |bits| {
      NoneBeforeNextOne(bits, 0);
      forall i | 0 <= i < |s|
        ensures s[i] == 0
      {
        forall k: nat
          ensures !Bit(s[i], k)
        {
          if k < 8 {
            BitOfByte(s, bits, i, k);
          } else {
            ByteFits(s[i], k);
          }
        }
        ZeroIffClear(s[i]);
      }
    }
    if forall i :: 0 <= i < |s| ==> s[i] == 0 {
      forall p | 0 <= p < |bits|
        ensures !bits[p]
      {
        assert bits[p] == BitAt(s, p);
        BitZero(p % 8);
      }
      NextOneIs(bits, 0, |bits|);
    }
  }

  // What the merge comes to with a div that words have room for.
  ghost predicate MergesTo(d: Decoded, pairs: seq<(int, int)>, r: LookedUp) {
    && (r == Fails(Overflow) <==>
          exists k :: 0 <= k < |d.values| && d.values[k] >= 0x8000_0000_0000_0000
                      && (k == 0 || (pairs != [] && pairs[|pairs|-1].0 > d.values[k - 1])))
    && (r == Fails(PastEnd) <==>
          && r != Fails(Overflow) && !d.whole
          && (d.values == [] || (pairs != [] && pairs[|pairs|-1].0 > d.values[|d.values|-1])))
    && (r.Fails? ==> r.fault == Overflow || r.fault == PastEnd)
    && (r.Found? ==> r.positions == Select(pairs, d.values))
  }

  lemma MergeDecodedIs(d: Decoded, pairs: seq<(int, int)>)
    ensures MergesTo(d, pairs, MergeDecoded(d, pairs))
  {
  }

  // In the first codeword bits are shifted too far, or run out before.
  method ShiftTooFar(golombCompressed: seq<byte>) returns (r: LookedUp)
    ensures r == if exists i :: 0 <= i < |golombCompressed| && golombCompressed[i] != 0 then Fails(BadShift) else Found([])
  {
    ghost var bits := ByteBits(golombCompressed);
    NoOnes(golombCompressed);
    var quotient, it, offset := SkipZeros(golombCompressed, 0, 0, bits);
    if it == |golombCompressed| {
      NextOneIs(bits, 0, |bits|);
      return Found([]);
    }
    FirstOne(golombCompressed, it, offset, bits, 0);
    return Fails(BadShift);
  }

  /**
    golomb_intersect on any byte string and any div: the second components of exactly the pairs
    whose value is coded, in the order of the pairs, unless something fails. It fails in the first
    of these that the decoder gets to, and in nothing else: any codeword if div is not from 0 to
    63, as no 64-bit word takes so many bits; a value that is no 64-bit number; or a codeword that
    the string ends inside. It gets to what comes first, and to what comes after a value that some
    pair is greater than.
   */
  method Intersect(golombCompressed: seq<byte>, div: int, sortedArr: seq<(int, int)>) returns (r: LookedUp)
    requires SortedPairs(sortedArr)
    ensures r == Merge(golombCompressed, div, sortedArr)
    ensures if 0 <= div < 64 then MergesTo(Values(golombCompressed, div), sortedArr, r)
            else r == if exists i :: 0 <= i < |golombCompressed| && golombCompressed[i] != 0 then Fails(BadShift) else Found([])
  {
    if golombCompressed == [] {
      SelectPrefix(sortedArr, 0, []);
      return Found([]);
    }
    if 0 <= div <= MAX_SHIFT {
      ghost var bits := ByteBits(golombCompressed);
      ghost var ps := Layout(bits, 0, 0, div);
      r := MergeCoded(golombCompressed, div, sortedArr, bits, ps, Values(golombCompressed, div));
      MergeDecodedIs(Values(golombCompressed, div), sortedArr);
    } else {
      r := ShiftTooFar(golombCompressed);
    }
  }

  /** A string that is cut short: one byte whose lowest bit is a 1, where eight more are to follow. */
  lemma OneByteIsCut(pairs: seq<(int, int)>)
    ensures Values([1], 8) == Decoded([], false)
    ensures Merge([1], 8, pairs) == Fails(PastEnd)
  {
    var bits := ByteBits([1]);
    assert bits[0] == BitAt([1], 0) == Bit(1, 0);
    NextOneIs(bits, 0, 0);
  }

  // A 1 at bit 2, one at bit 65, and no other: with div 62 a distance of 2 * 2^62, and then a
  // codeword that the string ends inside.
  lemma TwoOnes(bits: seq<bool>)
    requires |bits| == 72 && forall p :: 0 <= p < 72 ==> bits[p] == (p == 2 || p == 65)
    ensures Decode(bits, 0, 0, 62) == Decoded([LIMIT], false)
  {
    NextOneIs(bits, 0, 2);
    NumberOfZeros(bits, 3, 62);
    NextOneIs(bits, 65, 65);
    WordHolds();
    ShlAdds(1, 62, 1);
    assert Shl(1, 1) == 2;
    assert Decode(bits, 65, LIMIT, 62) == Decoded([], false);
  }

  /**
    A string that is cut short and does not look it: the codeword it ends inside comes after a
    value that is greater than the pair's, but that value is no 64-bit number.
   */
  lemma NineBytesOverflow(s: seq<byte>, index: int)
    requires s == [4, 0, 0, 0, 0, 0, 0, 0, 2]
    ensures Values(s, 62) == Decoded([LIMIT], false)
    ensures !ReadsPastEnd(Values(s, 62), [(5, index)]) && Merge(s, 62, [(5, index)]) == Fails(Overflow)
  {
    var bits := ByteBits(s);
    forall p | 0 <= p < 72
      ensures bits[p] == (p == 2 || p == 65)
    {
      BitsOfNineBytes(s, p);
    }
    TwoOnes(bits);
    LimitOverflows([(5, index)]);
  }

  lemma LimitOverflows(pairs: seq<(int, int)>)
    ensures Overflows(Decoded([LIMIT], false), pairs)
  {
    var d := Decoded([LIMIT], false);
    assert d.values[0] >= LIMIT && GetsTo(d, pairs, 0);
  }

  lemma BitsOfNineBytes(s: seq<byte>, p: nat)
    requires s == [4, 0, 0, 0, 0, 0, 0, 0, 2] && p < 72
    ensures BitAt(s, p) == (p == 2 || p == 65)
  {
    assert Shl(1, 2) == 4 && Shl(1, 1) == 2;
    BitZero(p % 8);
    BitOneShifted(2, p % 8);
    BitOneShifted(1, p % 8);
  }

  /**
    Round trip through both: whatever ascending list of 64-bit numbers was coded, with whatever
    div, nothing in the merge fails, and it selects exactly the pairs whose value is in that list.
   */
  lemma CompressThenIntersect(sortedArr: seq<nat>, compressed: seq<byte>, div: nat, pairs: seq<(int, int)>)
    requires SortedInts(sortedArr) && IsCode(compressed, Dedup(sortedArr), div)
    requires div <= MAX_SHIFT && forall x :: x in sortedArr ==> x < LIMIT
    ensures Merge(compressed, div, pairs) == Found(Select(pairs, sortedArr))
  {
    RoundTrip(compressed, Dedup(sortedArr), div);
    DedupKeepsValues(sortedArr);
    SelectAgrees(pairs, Dedup(sortedArr), sortedArr);
    forall k | 0 <= k < |Dedup(sortedArr)|
      ensures Dedup(sortedArr)[k] < LIMIT
    {
      assert Dedup(sortedArr)[k] in sortedArr;
    }
  }
}
