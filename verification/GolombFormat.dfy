/** The code in numbers: what each bit of a coded string is, and that whatever decodes is so coded. */
module GolombFormat {
  import opened Bytes
  import opened Bits
  import opened GolombCode

  // ---- Every bit of a code ----

  // Bit p of a string, the lowest bit of each byte first.
  predicate BitOf(s: seq<byte>, p: nat)
    requires p < 8 * |s|
  {
    s[p / 8] / Pow2(p % 8) % 2 == 1
  }

  function Distance(vs: seq<nat>, k: nat): int
    requires k < |vs|
  {
    if k == 0 then vs[k] else vs[k] as int - vs[k - 1] as int
  }

  // Where the code of value k starts.
  function StartOf(vs: seq<nat>, div: nat, k: nat): int
    requires k <= |vs|
  {
    if k == 0 then 0 else StartOf(vs, div, k - 1) + Distance(vs, k - 1) / Pow2(div) + 1 + div
  }

  lemma {:induction false} AscendingSteps(base: nat, vs: seq<nat>, k: nat)
    requires AscendingFrom(base, vs) && k < |vs|
    ensures (if k == 0 then base else vs[k - 1]) <= vs[k]
    decreases k
  {
    if k > 0 {
      AscendingSteps(vs[0], vs[1..], k - 1);
    }
  }

  lemma {:induction false} AscendingPrefix(base: nat, vs: seq<nat>, k: nat)
    requires AscendingFrom(base, vs) && k <= |vs|
    ensures AscendingFrom(base, vs[..k])
    decreases k
  {
    if k > 0 {
      AscendingPrefix(vs[0], vs[1..], k - 1);
      assert vs[..k][1..] == vs[1..][..k - 1];
    }
  }

  // The code of one value more is that value's word behind the code of the others.
  lemma OneWordMore(vs: seq<nat>, div: nat, k: nat)
    requires AscendingFrom(0, vs) && k < |vs|
    ensures AscendingFrom(0, vs[..k]) && AscendingFrom(0, vs[..k + 1]) && Distance(vs, k) >= 0
    ensures Encode(0, vs[..k + 1], div) == Encode(0, vs[..k], div) + Codeword(Distance(vs, k), div)
  {
    AscendingPrefix(0, vs, k);
    AscendingSteps(0, vs, k);
    assert Last(0, vs[..k]) == if k == 0 then 0 else vs[k - 1];
    assert vs[..k + 1] == vs[..k] + [vs[k]];
    EncodeSnoc(0, vs[..k], vs[k], div);
  }

  lemma {:induction false} CodeStarts(vs: seq<nat>, div: nat, k: nat)
    requires AscendingFrom(0, vs) && k <= |vs|
    ensures AscendingFrom(0, vs[..k]) && |Encode(0, vs[..k], div)| == StartOf(vs, div, k)
    decreases k
  {
    if k == 0 {
      assert vs[..0] == [];
    } else {
      CodeStarts(vs, div, k - 1);
      OneWordMore(vs, div, k - 1);
      BitsAreNumeric(Distance(vs, k - 1), div);
    }
  }

  lemma {:induction false} CodeIsPrefix(vs: seq<nat>, div: nat, k: nat, n: nat)
    requires AscendingFrom(0, vs) && k <= n <= |vs|
    ensures AscendingFrom(0, vs[..k]) && AscendingFrom(0, vs[..n])
    ensures Encode(0, vs[..k], div) <= Encode(0, vs[..n], div)
    decreases n
  {
    AscendingPrefix(0, vs, k);
    AscendingPrefix(0, vs, n);
    if k < n {
      CodeIsPrefix(vs, div, k, n - 1);
      OneWordMore(vs, div, n - 1);
    }
  }

  // Where value k's word stands in the whole code.
  lemma WordStands(vs: seq<nat>, div: nat, k: nat)
    requires AscendingFrom(0, vs) && k < |vs|
    ensures Distance(vs, k) >= 0 && 0 <= StartOf(vs, div, k)
    ensures var code, word := Encode(0, vs, div), Codeword(Distance(vs, k), div);
            && StartOf(vs, div, k) + |word| == StartOf(vs, div, k + 1) <= |code|
            && forall j :: 0 <= j < |word| ==> code[StartOf(vs, div, k) + j] == word[j]
  {
    CodeStarts(vs, div, k);
    CodeStarts(vs, div, k + 1);
    OneWordMore(vs, div, k);
    CodeIsPrefix(vs, div, k + 1, |vs|);
    assert vs[..|vs|] == vs;
  }

  // Bit j of a distance's word: so many zeros as 2^div goes into it, a one, its low bits.
  lemma WordBit(delta: nat, div: nat, j: nat)
    requires j < delta / Pow2(div) + 1 + div
    ensures |Codeword(delta, div)| == delta / Pow2(div) + 1 + div
    ensures var q := delta / Pow2(div);
            Codeword(delta, div)[j] == (j == q || (j > q && delta / Pow2(j - q - 1) % 2 == 1))
  {
    BitsAreNumeric(delta, div);
    var q := Shr(delta, div);
    if j > q {
      BitLow(delta, div, j - q - 1);
      BitsAreNumeric(delta, j - q - 1);
    }
  }

  /**
    Every bit of a coded string. Value after value: as many zeros as 2^div goes into its distance
    from the value before, a one, and the distance's div lowest bits, the lowest first.
   */
  lemma CodeInNumbers(s: seq<byte>, vs: seq<nat>, div: nat, k: nat, j: nat)
    requires IsCode(s, vs, div) && k < |vs| && j < StartOf(vs, div, k + 1) - StartOf(vs, div, k)
    ensures 0 <= StartOf(vs, div, k) + j < 8 * |s| && Distance(vs, k) >= 0
    ensures var q := Distance(vs, k) / Pow2(div);
            BitOf(s, StartOf(vs, div, k) + j) == (j == q || (j > q && Distance(vs, k) / Pow2(j - q - 1) % 2 == 1))
  {
    WordStands(vs, div, k);
    WordBit(Distance(vs, k), div, j);
    BitIsNumeric(s, StartOf(vs, div, k) + j);
  }

  lemma BitIsNumeric(s: seq<byte>, p: nat)
    requires p < 8 * |s|
    ensures BitOf(s, p) == BitAt(s, p)
  {
    BitsAreNumeric(s[p / 8], p % 8);
  }

  /** Behind the last value there are zeros, up to a whole byte and no further. */
  lemma CodeEnds(s: seq<byte>, vs: seq<nat>, div: nat)
    requires IsCode(s, vs, div)
    ensures 0 <= StartOf(vs, div, |vs|) && |s| == (StartOf(vs, div, |vs|) + 7) / 8
    ensures forall p :: StartOf(vs, div, |vs|) <= p < 8 * |s| ==> !BitOf(s, p)
  {
    CodeStarts(vs, div, |vs|);
    assert vs[..|vs|] == vs;
    forall p | StartOf(vs, div, |vs|) <= p < 8 * |s|
      ensures !BitOf(s, p)
    {
      BitIsNumeric(s, p);
    }
  }

  // ---- Whatever decodes ----

  lemma {:induction false} NumberBits(bits: seq<bool>, p: nat, w: nat)
    requires p + w <= |bits|
    ensures Number(bits, p, w) < Pow2(w)
    ensures forall k :: 0 <= k < w ==> (Bit(Number(bits, p, w), k) <==> bits[p + k])
    decreases w
  {
    if w > 0 {
      NumberBits(bits, p + 1, w - 1);
      var n, rest := Number(bits, p, w), Number(bits, p + 1, w - 1);
      assert n / 2 == rest && (n % 2 == 1 <==> bits[p]);
      forall k | 0 <= k < w
        ensures Bit(n, k) <==> bits[p + k]
      {
        if k > 0 {
          assert Bit(n, k) == Bit(rest, k - 1);
        }
      }
    }
  }

  // A distance of this quotient and remainder.
  lemma DistanceParts(q: nat, r: nat, div: nat)
    requires r < Pow2(div)
    ensures Shr(Shl(q, div) + r, div) == q && Low(Shl(q, div) + r, div) == r
  {
    ShlMultiplies(q, div);
    DivisionIs(Shl(q, div) + r, Pow2(div), q, r);
    BitsAreNumeric(Shl(q, div) + r, div);
  }

  // What reads as a codeword is that codeword.
  lemma ReadsItsWord(bits: seq<bool>, p: nat, next: nat, delta: nat, div: nat)
    requires Reads(bits, p, next, delta, div)
    ensures bits[p..next] == Codeword(delta, div)
  {
    var u := NextOne(bits, p);
    NoneBeforeNextOne(bits, p);
    NextOneHolds(bits, p);
    NumberBits(bits, u + 1, div);
    DistanceParts(u - p, Number(bits, u + 1, div), div);
    assert bits[p..next] == bits[p..u] + [true] + bits[u + 1..next];
    assert bits[p..u] == Zeros(u - p);
    assert bits[u + 1..next] == Binary(Number(bits, u + 1, div), div);
  }

  // What is left behind the last whole codeword: zeros, or the start of one more.
  ghost predicate IsRest(rest: seq<bool>, whole: bool, div: nat) {
    if whole then forall k :: 0 <= k < |rest| ==> !rest[k]
    else
      exists u :: 0 <= u < |rest| < u + 1 + div && rest[u] && forall k :: 0 <= k < u ==> !rest[k]
  }

  // Only a rest: no whole codeword comes.
  lemma RestIs(bits: seq<bool>, p: nat, div: nat)
    requires p <= |bits|
    ensures NextOne(bits, p) == |bits| ==> IsRest(bits[p..], true, div)
    ensures NextOne(bits, p) < |bits| < NextOne(bits, p) + 1 + div ==> IsRest(bits[p..], false, div)
  {
    var u := NextOne(bits, p);
    NoneBeforeNextOne(bits, p);
    NextOneHolds(bits, p);
    if u < |bits| {
      assert bits[p..][u - p];
    }
  }

  // From bit p on there is the code of these values, and a rest.
  ghost predicate IsCoded(bits: seq<bool>, p: nat, base: nat, d: Decoded, div: nat, rest: seq<bool>) {
    && p <= |bits| && AscendingFrom(base, d.values)
    && bits[p..] == Encode(base, d.values, div) + rest && IsRest(rest, d.whole, div)
  }

  lemma OnlyRest(bits: seq<bool>, p: nat, base: nat, div: nat)
    requires p <= |bits| && (NextOne(bits, p) == |bits| || NextOne(bits, p) + 1 + div > |bits|)
    ensures IsCoded(bits, p, base, Decoded([], NextOne(bits, p) == |bits|), div, bits[p..])
  {
    RestIs(bits, p, div);
    assert [] + bits[p..] == bits[p..];
  }

  // One codeword, and behind it the code of the other values.
  lemma WordBefore(bits: seq<bool>, p: nat, next: nat, base: nat, v: nat, d: Decoded, div: nat, rest: seq<bool>)
    requires base <= v && Reads(bits, p, next, v - base, div) && IsCoded(bits, next, v, d, div, rest)
    ensures IsCoded(bits, p, base, Prepend(v, d), div, rest)
  {
    ReadsItsWord(bits, p, next, v - base, div);
    EncodeCons(base, v, d.values, div);
    InThree(bits, p, next, Codeword(v - base, div), Encode(v, d.values, div), rest);
  }

  lemma InThree<T>(s: seq<T>, p: nat, next: nat, a: seq<T>, b: seq<T>, c: seq<T>)
    requires p <= next <= |s| && s[p..next] == a && s[next..] == b + c
    ensures s[p..] == (a + b) + c
  {
    assert s[p..] == s[p..next] + s[next..];
    ConcatAssociative(a, b, c);
  }

  // The codeword that decoding meets first, and what it makes of the rest.
  lemma FirstWord(bits: seq<bool>, p: nat, base: nat, div: nat) returns (next: nat, v: nat)
    requires p <= |bits| && NextOne(bits, p) < |bits| && NextOne(bits, p) + 1 + div <= |bits|
    ensures p < next <= |bits| && base <= v && Reads(bits, p, next, v - base, div)
    ensures Decode(bits, p, base, div) == Prepend(v, Decode(bits, next, v, div))
  {
    var u := NextOne(bits, p);
    next, v := u + 1 + div, base + Shl(u - p, div) + Number(bits, u + 1, div);
  }

  /**
    Decoding is undone by encoding, on any bits: they are the code of the values decoded, and then
    zeros, or a codeword that the end cuts short.
   */
  lemma {:induction false} DecodedIsCoded(bits: seq<bool>, p: nat, base: nat, div: nat) returns (rest: seq<bool>)
    requires p <= |bits|
    ensures IsCoded(bits, p, base, Decode(bits, p, base, div), div, rest)
    decreases |bits| - p
  {
    if NextOne(bits, p) == |bits| || NextOne(bits, p) + 1 + div > |bits| {
      OnlyRest(bits, p, base, div);
      rest := bits[p..];
    } else {
      var next, v := FirstWord(bits, p, base, div);
      rest := DecodedIsCoded(bits, next, v, div);
      WordBefore(bits, p, next, base, v, Decode(bits, next, v, div), div, rest);
    }
  }

  /** So a string that decodes to its end, and no shorter, is the code of its values. */
  lemma WholeIsCode(s: seq<byte>, div: nat)
    requires Values(s, div).whole && (s != [] ==> s[|s|-1] != 0)
    ensures IsCode(s, Values(s, div).values, div)
  {
    var bits, vs := ByteBits(s), Values(s, div).values;
    var rest := DecodedIsCoded(bits, 0, 0, div);
    assert bits[0..] == bits;
    LastByteHolds(s, rest, |Encode(0, vs, div)|);
    forall p | 0 <= p < |bits|
      ensures BitAt(s, p) == bits[p]
    {
    }
  }

  // Zeros that a string ends in are less than a byte of them, if its last byte is not 0.
  lemma LastByteHolds(s: seq<byte>, rest: seq<bool>, n: nat)
    requires n + |rest| == 8 * |s| && (s != [] ==> s[|s|-1] != 0)
    requires forall k :: 0 <= k < |rest| ==> !rest[k] && ByteBits(s)[n + k] == rest[k]
    ensures |rest| < 8
  {
    if |rest| >= 8 {
      var b := s[|s|-1];
      forall k: nat
        ensures !Bit(b, k)
      {
        if k < 8 {
          assert ByteBits(s)[8 * (|s| - 1) + k] == BitAt(s, 8 * (|s| - 1) + k);
          assert !rest[8 * (|s| - 1) + k - n];
        } else {
          ByteFits(b, k);
        }
      }
      ZeroIffClear(b);
    }
  }

  lemma {:induction false} NextOneHolds(bits: seq<bool>, p: nat)
    requires p <= |bits|
    ensures NextOne(bits, p) < |bits| ==> bits[NextOne(bits, p)]
    decreases |bits| - p
  {
    if p < |bits| && !bits[p] {
      NextOneHolds(bits, p + 1);
    }
  }

  /** The list 7 with div 2 is the byte 14: one zero, a one, and two bits of 3. */
  lemma SevenIsFourteen(s: seq<byte>)
    ensures IsCode(s, [7], 2) <==> s == [14]
  {
    var word := Codeword(7, 2);
    assert Shr(7, 2) == 1 && Low(7, 2) == 3;
    assert [7][1..] == [];
    assert Encode(0, [7], 2) == word + [] == word;
    assert word == [false, true, true, true];
    var fourteen: seq<byte> := [14];
    BitsOfFourteen();
    forall p | 0 <= p < 8
      ensures BitAt(fourteen, p) == (1 <= p <= 3)
    {
    }
    assert IsCode(fourteen, [7], 2);
    if IsCode(s, [7], 2) {
      CodeIsUnique(s, fourteen, [7], 2);
    }
  }

  lemma BitsOfFourteen()
    ensures forall p :: 0 <= p < 8 ==> (Bit(14, p) <==> 1 <= p <= 3)
  {
    forall p | 0 <= p < 8
      ensures Bit(14, p) <==> 1 <= p <= 3
    {
      if p >= 4 {
        assert Bit(14, p) == Bit(7, p - 1);
        assert Bit(7, p - 1) == Bit(3, p - 2);
        assert Bit(3, p - 2) == Bit(1, p - 3);
        BitZero(p - 4);
      }
    }
  }
}
