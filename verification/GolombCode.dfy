/**
  The Golomb-Rice code as a bit string, least significant bit of each byte first: a value is
  sent as its distance from the one before, floor(distance / 2^div) zeros, a one, and the
  distance's low div bits.
 */
module GolombCode {
  import opened Bytes
  import opened Bits

  // A byte holds 8 bits: bit p of a string is bit p % 8 of its byte p / 8.

  predicate BitAt(s: seq<byte>, p: nat)
    requires p < 8 * |s|
  {
    Bit(s[p / 8], p % 8)
  }

  function ByteBits(s: seq<byte>): (bits: seq<bool>)
    ensures |bits| == 8 * |s|
    ensures forall p :: 0 <= p < |bits| ==> bits[p] == BitAt(s, p)
  {
    if s == [] then [] else ByteBits(s[..|s|-1]) + Binary(s[|s|-1], 8)
  }

  function Zeros(n: nat): (bits: seq<bool>)
    ensures |bits| == n && forall k :: 0 <= k < n ==> !bits[k]
  {
    if n == 0 then [] else [false] + Zeros(n - 1)
  }

  function Binary(r: nat, w: nat): (bits: seq<bool>)
    ensures |bits| == w && forall k :: 0 <= k < w ==> bits[k] == Bit(r, k)
  {
    if w == 0 then [] else Binary(r, w - 1) + [Bit(r, w - 1)]
  }

  // The number whose w bits stand at bit p.
  function Number(bits: seq<bool>, p: nat, w: nat): nat
    requires p + w <= |bits|
    decreases w
  {
    if w == 0 then 0 else (if bits[p] then 1 else 0) + 2 * Number(bits, p + 1, w - 1)
  }

  function Codeword(delta: nat, div: nat): (bits: seq<bool>)
    ensures |bits| == Shr(delta, div) + 1 + div
  {
    Zeros(Shr(delta, div)) + [true] + Binary(Low(delta, div), div)
  }

  // The values never fall below `base`, nor below one another.
  predicate AscendingFrom(base: nat, vs: seq<nat>)
    decreases |vs|
  {
    vs == [] || (base <= vs[0] && AscendingFrom(vs[0], vs[1..]))
  }

  function Encode(base: nat, vs: seq<nat>, div: nat): seq<bool>
    requires AscendingFrom(base, vs)
    decreases |vs|
  {
    if vs == [] then [] else Codeword(vs[0] - base, div) + Encode(vs[0], vs[1..], div)
  }

  // The byte string holds these bits, padded with zeros to a whole byte and no further.
  ghost predicate HoldsBits(s: seq<byte>, bits: seq<bool>) {
    && |bits| <= 8 * |s| < |bits| + 8
    && (forall p :: 0 <= p < |bits| ==> BitAt(s, p) == bits[p])
    && (forall p :: |bits| <= p < 8 * |s| ==> !BitAt(s, p))
  }

  ghost predicate IsCode(s: seq<byte>, vs: seq<nat>, div: nat) {
    AscendingFrom(0, vs) && HoldsBits(s, Encode(0, vs, div))
  }

  function NextOne(bits: seq<bool>, p: nat): (u: nat)
    requires p <= |bits|
    ensures p <= u <= |bits|
    decreases |bits| - p
  {
    if p == |bits| || bits[p] then p else NextOne(bits, p + 1)
  }

  // NextOne is the first 1 bit at p or after it, or the end of the string.
  lemma {:induction false} NextOneIs(bits: seq<bool>, p: nat, u: nat)
    requires p <= u <= |bits| && (u < |bits| ==> bits[u])
    requires forall k :: p <= k < u ==> !bits[k]
    ensures NextOne(bits, p) == u
    decreases u - p
  {
    if p < u {
      NextOneIs(bits, p + 1, u);
    }
  }

  lemma {:induction false} NoneBeforeNextOne(bits: seq<bool>, p: nat)
    requires p <= |bits|
    ensures forall k :: p <= k < NextOne(bits, p) ==> !bits[k]
    decreases |bits| - p
  {
    if p < |bits| && !bits[p] {
      NoneBeforeNextOne(bits, p + 1);
    }
  }

  // The values of the complete codewords, and whether only padding follows them. If not, the
  // string ends inside one more codeword.
  datatype Decoded = Decoded(values: seq<nat>, whole: bool)

  function Decode(bits: seq<bool>, p: nat, base: nat, div: nat): Decoded
    requires p <= |bits|
    decreases |bits| - p
  {
    var u := NextOne(bits, p);
    if u == |bits| then Decoded([], true)
    else if u + 1 + div > |bits| then Decoded([], false)
    else
      var v := base + Shl(u - p, div) + Number(bits, u + 1, div);
      Prepend(v, Decode(bits, u + 1 + div, v, div))
  }

  function Prepend(v: nat, rest: Decoded): Decoded {
    Decoded([v] + rest.values, rest.whole)
  }

  function Values(s: seq<byte>, div: nat): Decoded {
    Decode(ByteBits(s), 0, 0, div)
  }

  // A codeword stands at bit p: it reads as delta and ends before bit next.
  predicate Reads(bits: seq<bool>, p: nat, next: nat, delta: nat, div: nat) {
    && p <= |bits|
    && var u := NextOne(bits, p);
    && u < |bits|
    && next == u + 1 + div <= |bits|
    && delta == Shl(u - p, div) + Number(bits, u + 1, div)
  }

  function Before(base: nat, vs: seq<nat>, k: nat): nat
    requires k <= |vs|
  {
    if k == 0 then base else vs[k - 1]
  }

  // The codeword of value k stands between ps[k] and ps[k + 1].
  predicate CodewordOf(bits: seq<bool>, ps: seq<nat>, base: nat, vs: seq<nat>, k: nat, div: nat)
    requires k < |vs| && |ps| == |vs| + 1
  {
    Before(base, vs, k) <= vs[k] && Reads(bits, ps[k], ps[k + 1], vs[k] - Before(base, vs, k), div)
  }

  // From bit p on there is a codeword that the string ends inside.
  predicate IsCut(bits: seq<bool>, p: nat, div: nat) {
    p <= |bits| && NextOne(bits, p) < |bits| < NextOne(bits, p) + 1 + div
  }

  // ps lists where each value's codeword starts, and where what follows them starts.
  ghost predicate IsLayout(bits: seq<bool>, ps: seq<nat>, base: nat, d: Decoded, div: nat) {
    && |ps| == |d.values| + 1
    && (forall k :: 0 <= k < |d.values| ==> CodewordOf(bits, ps, base, d.values, k, div))
    && ps[|d.values|] <= |bits|
    && (if d.whole then NextOne(bits, ps[|d.values|]) == |bits| else IsCut(bits, ps[|d.values|], div))
  }

  // A codeword read where value k's stands is that codeword.
  lemma ReadIsNext(bits: seq<bool>, ps: seq<nat>, d: Decoded, k: nat, next: nat, delta: nat, div: nat)
    requires IsLayout(bits, ps, 0, d, div) && k < |d.values| && Reads(bits, ps[k], next, delta, div)
    ensures Before(0, d.values, k) + delta == d.values[k] && next == ps[k + 1]
    ensures Last(0, d.values[..k]) == Before(0, d.values, k)
  {
    assert CodewordOf(bits, ps, 0, d.values, k, div);
  }

  // Before value k's codeword there is one to read; after the last there is none, or a cut one.
  lemma CodewordLeft(bits: seq<bool>, ps: seq<nat>, d: Decoded, k: nat, div: nat)
    requires IsLayout(bits, ps, 0, d, div) && k <= |d.values|
    ensures ps[k] <= |bits|
    ensures NextOne(bits, ps[k]) == |bits| <==> k == |d.values| && d.whole
    ensures IsCut(bits, ps[k], div) <==> k == |d.values| && !d.whole
  {
    if k < |d.values| {
      assert CodewordOf(bits, ps, 0, d.values, k, div);
    }
  }

  lemma {:induction false} Layout(bits: seq<bool>, p: nat, base: nat, div: nat) returns (ps: seq<nat>)
    requires p <= |bits|
    ensures IsLayout(bits, ps, base, Decode(bits, p, base, div), div) && ps[0] == p
    decreases |bits| - p
  {
    var u := NextOne(bits, p);
    if u == |bits| || u + 1 + div > |bits| {
      ps := [p];
    } else {
      var v := base + Shl(u - p, div) + Number(bits, u + 1, div);
      var rest := Layout(bits, u + 1 + div, v, div);
      ps := [p] + rest;
      LayoutCons(bits, ps, base, v, Decode(bits, u + 1 + div, v, div), div);
    }
  }

  lemma LayoutCons(bits: seq<bool>, ps: seq<nat>, base: nat, v: nat, rest: Decoded, div: nat)
    requires |ps| > 1 && IsLayout(bits, ps[1..], v, rest, div)
    requires base <= v && Reads(bits, ps[0], ps[1], v - base, div)
    ensures IsLayout(bits, ps, base, Prepend(v, rest), div)
  {
    var vs := [v] + rest.values;
    forall k | 0 <= k < |vs|
      ensures CodewordOf(bits, ps, base, vs, k, div)
    {
      if k > 0 {
        assert CodewordOf(bits, ps[1..], v, rest.values, k - 1, div);
      }
    }
  }

  /** What is decoded never descends. */
  lemma {:induction false} LayoutAscends(bits: seq<bool>, ps: seq<nat>, d: Decoded, div: nat)
    requires IsLayout(bits, ps, 0, d, div)
    ensures forall i, j :: 0 <= i < j < |d.values| ==> d.values[i] <= d.values[j]
  {
    forall i, j | 0 <= i < j < |d.values|
      ensures d.values[i] <= d.values[j]
    {
      LayoutStepsUp(bits, ps, d, div, i, j);
    }
  }

  lemma {:induction false} LayoutStepsUp(bits: seq<bool>, ps: seq<nat>, d: Decoded, div: nat, i: nat, j: nat)
    requires IsLayout(bits, ps, 0, d, div) && i <= j < |d.values|
    ensures d.values[i] <= d.values[j]
    decreases j
  {
    if i < j {
      LayoutStepsUp(bits, ps, d, div, i, j - 1);
      assert CodewordOf(bits, ps, 0, d.values, j, div);
    }
  }

  lemma {:induction false} NumberIsBinary(bits: seq<bool>, p: nat, w: nat, r: nat)
    requires p + w <= |bits| && r < Shl(1, w)
    requires forall k :: 0 <= k < w ==> bits[p + k] == Bit(r, k)
    ensures Number(bits, p, w) == r
    decreases w
  {
    if w > 0 {
      assert bits[p + 0] == Bit(r, 0);
      forall k | 0 <= k < w - 1
        ensures bits[p + 1 + k] == Bit(r / 2, k)
      {
        assert bits[p + (k + 1)] == Bit(r, k + 1);
      }
      NumberIsBinary(bits, p + 1, w - 1, r / 2);
    }
  }

  lemma {:induction false} NumberOfZeros(bits: seq<bool>, p: nat, w: nat)
    requires p + w <= |bits| && forall k :: p <= k < p + w ==> !bits[k]
    ensures Number(bits, p, w) == 0
    decreases w
  {
    if w > 0 {
      NumberOfZeros(bits, p + 1, w - 1);
    }
  }

  // A codeword standing at bit p is read back as its distance.
  lemma ReadCodeword(bits: seq<bool>, p: nat, delta: nat, div: nat)
    requires p + |Codeword(delta, div)| <= |bits|
    requires bits[p..p + |Codeword(delta, div)|] == Codeword(delta, div)
    ensures NextOne(bits, p) == p + Shr(delta, div) < |bits|
    ensures var u := p + Shr(delta, div);
            Shl(u - p, div) + Number(bits, u + 1, div) == delta
  {
    var code := Codeword(delta, div);
    var u := p + Shr(delta, div);
    forall k | 0 <= k < |code|
      ensures bits[p + k] == code[k]
    {
      assert bits[p + k] == bits[p..p + |code|][k];
    }
    assert code[u - p];
    assert forall k :: p <= k < u ==> bits[k] == code[k - p];
    NextOneIs(bits, p, u);
    forall k | 0 <= k < div
      ensures bits[u + 1 + k] == Bit(Low(delta, div), k)
    {
      assert bits[p + (u - p + 1 + k)] == code[u - p + 1 + k];
    }
    LowFits(delta, div);
    NumberIsBinary(bits, u + 1, div, Low(delta, div));
    SplitJoin(delta, div);
  }

  lemma DecodeOne(bits: seq<bool>, p: nat, base: nat, v: nat, div: nat, code: seq<bool>)
    requires base <= v && code == Codeword(v - base, div)
    requires p + |code| <= |bits| && bits[p..p + |code|] == code
    ensures Decode(bits, p, base, div) == Prepend(v, Decode(bits, p + |code|, v, div))
  {
    ReadCodeword(bits, p, v - base, div);
  }

  lemma PrefixAt<T>(s: seq<T>, p: nat, a: seq<T>, b: seq<T>)
    requires p <= |s| && s[p..] == a + b
    ensures p + |a| <= |s| && s[p..p + |a|] == a && s[p + |a|..] == b
  {
    assert s[p..p + |a|] == s[p..][..|a|];
    assert s[p + |a|..] == s[p..][|a|..];
  }

  // From bit p on, the string holds the codewords of vs and then only zeros.
  ghost predicate CodeAt(bits: seq<bool>, p: nat, base: nat, vs: seq<nat>, div: nat)
    decreases |vs|
  {
    if vs == [] then
      p <= |bits| && forall k :: 0 <= k < |bits[p..]| ==> !bits[p..][k]
    else
      && base <= vs[0]
      && p + |Codeword(vs[0] - base, div)| <= |bits|
      && bits[p..p + |Codeword(vs[0] - base, div)|] == Codeword(vs[0] - base, div)
      && CodeAt(bits, p + |Codeword(vs[0] - base, div)|, vs[0], vs[1..], div)
  }

  lemma {:induction false} EncodedIsCodeAt(bits: seq<bool>, p: nat, base: nat, vs: seq<nat>, div: nat, pad: nat)
    requires p <= |bits| && AscendingFrom(base, vs)
    requires bits[p..] == Encode(base, vs, div) + Zeros(pad)
    ensures CodeAt(bits, p, base, vs, div)
    decreases |vs|
  {
    if vs != [] {
      var code, rest := Codeword(vs[0] - base, div), Encode(vs[0], vs[1..], div) + Zeros(pad);
      assert bits[p..] == code + rest;
      PrefixAt(bits, p, code, rest);
      EncodedIsCodeAt(bits, p + |code|, vs[0], vs[1..], div, pad);
    }
  }

  // Decoding undoes encoding and stops on the padding.
  lemma {:induction false} DecodeReadsCode(bits: seq<bool>, p: nat, base: nat, vs: seq<nat>, div: nat)
    requires p <= |bits| && CodeAt(bits, p, base, vs, div)
    ensures Decode(bits, p, base, div) == Decoded(vs, true)
    decreases |vs|
  {
    if vs == [] {
      DecodePadding(bits, p, base, div);
    } else {
      var next := p + |Codeword(vs[0] - base, div)|;
      DecodeReadsCode(bits, next, vs[0], vs[1..], div);
      DecodeFirst(bits, p, base, vs, div, next);
    }
  }

  lemma DecodeFirst(bits: seq<bool>, p: nat, base: nat, vs: seq<nat>, div: nat, next: nat)
    requires vs != [] && CodeAt(bits, p, base, vs, div) && next == p + |Codeword(vs[0] - base, div)|
    requires Decode(bits, next, vs[0], div) == Decoded(vs[1..], true)
    ensures Decode(bits, p, base, div) == Decoded(vs, true)
  {
    DecodeOne(bits, p, base, vs[0], div, Codeword(vs[0] - base, div));
    assert vs == [vs[0]] + vs[1..];
  }

  lemma DecodePadding(bits: seq<bool>, p: nat, base: nat, div: nat)
    requires p <= |bits| && forall k :: 0 <= k < |bits[p..]| ==> !bits[p..][k]
    ensures Decode(bits, p, base, div) == Decoded([], true)
  {
    assert forall k :: p <= k < |bits| ==> bits[k] == bits[p..][k - p];
    NextOneIs(bits, p, |bits|);
  }

  /** Round trip of the code: a byte string holding the code of vs decodes to exactly vs. */
  lemma RoundTrip(s: seq<byte>, vs: seq<nat>, div: nat)
    requires IsCode(s, vs, div)
    ensures Values(s, div) == Decoded(vs, true)
  {
    var bits, pad := ByteBits(s), 8 * |s| - |Encode(0, vs, div)|;
    assert bits[0..] == bits == Encode(0, vs, div) + Zeros(pad);
    EncodedIsCodeAt(bits, 0, 0, vs, div, pad);
    DecodeReadsCode(bits, 0, 0, vs, div);
  }

  lemma BytesWithEqualBits(a: seq<byte>, b: seq<byte>)
    requires ByteBits(a) == ByteBits(b)
    ensures a == b
  {
    assert |a| == |b|;
    forall i | 0 <= i < |a|
      ensures a[i] == b[i]
    {
      forall k: nat
        ensures Bit(a[i], k) == Bit(b[i], k)
      {
        if k < 8 {
          var p := 8 * i + k;
          assert p / 8 == i && p % 8 == k;
          assert ByteBits(a)[p] == ByteBits(b)[p];
        } else {
          ByteFits(a[i], k);
          ByteFits(b[i], k);
        }
      }
      BitsDetermine(a[i], b[i]);
    }
  }

  lemma ByteFits(b: byte, k: nat)
    requires k >= 8
    ensures !Bit(b, k)
  {
    assert Shl(1, 8) == 256;
    FitsIffClear(b, 8);
  }

  /** One list of values has exactly one code. */
  lemma CodeIsUnique(a: seq<byte>, b: seq<byte>, vs: seq<nat>, div: nat)
    requires IsCode(a, vs, div) && IsCode(b, vs, div)
    ensures a == b
  {
    HoldingDetermines(a, b, Encode(0, vs, div));
    BytesWithEqualBits(a, b);
  }

  lemma HoldingDetermines(a: seq<byte>, b: seq<byte>, bits: seq<bool>)
    requires HoldsBits(a, bits) && HoldsBits(b, bits)
    ensures ByteBits(a) == ByteBits(b)
  {
    assert |a| == |b|;
    forall p | 0 <= p < 8 * |a|
      ensures BitAt(a, p) == BitAt(b, p)
    {
    }
  }

  function Last(base: nat, vs: seq<nat>): nat {
    if vs == [] then base else vs[|vs|-1]
  }

  lemma EncodeCons(base: nat, v: nat, vs: seq<nat>, div: nat)
    requires base <= v && AscendingFrom(v, vs)
    ensures AscendingFrom(base, [v] + vs)
    ensures Encode(base, [v] + vs, div) == Codeword(v - base, div) + Encode(v, vs, div)
  {
    assert ([v] + vs)[1..] == vs;
  }

  lemma ConsSnoc(vs: seq<nat>, v: nat)
    requires vs != []
    ensures vs + [v] == [vs[0]] + (vs[1..] + [v])
  {
  }

  lemma {:induction false} EncodeSnoc(base: nat, vs: seq<nat>, v: nat, div: nat)
    requires AscendingFrom(base, vs) && Last(base, vs) <= v
    ensures AscendingFrom(base, vs + [v])
    ensures Encode(base, vs + [v], div) == Encode(base, vs, div) + Codeword(v - Last(base, vs), div)
    decreases |vs|
  {
    if vs == [] {
      EncodeOne(base, v, div);
    } else {
      EncodeSnoc(vs[0], vs[1..], v, div);
      ConsSnoc(vs, v);
      SnocBehind(base, vs[0], vs[1..], v, div, Codeword(v - Last(vs[0], vs[1..]), div));
      EncodeCons(base, vs[0], vs[1..], div);
      assert vs == [vs[0]] + vs[1..] && Last(base, vs) == Last(vs[0], vs[1..]);
    }
  }

  // What holds of the rest holds with one value before it.
  lemma SnocBehind(base: nat, first: nat, rest: seq<nat>, v: nat, div: nat, word: seq<bool>)
    requires base <= first && AscendingFrom(first, rest) && AscendingFrom(first, rest + [v])
    requires Encode(first, rest + [v], div) == Encode(first, rest, div) + word
    ensures AscendingFrom(base, [first] + (rest + [v]))
    ensures Encode(base, [first] + (rest + [v]), div) == (Codeword(first - base, div) + Encode(first, rest, div)) + word
  {
    EncodeCons(base, first, rest + [v], div);
    ConcatAssociative(Codeword(first - base, div), Encode(first, rest, div), word);
  }

  lemma EncodeOne(base: nat, v: nat, div: nat)
    requires base <= v
    ensures AscendingFrom(base, [] + [v]) && Encode(base, [] + [v], div) == [] + Codeword(v - base, div)
  {
    EncodeCons(base, v, [], div);
    assert [] + [v] == [v] + [];
    NothingAround(Codeword(v - base, div));
  }

  lemma NothingAround<T>(a: seq<T>)
    ensures a + [] == a && [] + a == a
  {
  }

  lemma ConcatAssociative<T>(a: seq<T>, b: seq<T>, c: seq<T>)
    ensures a + (b + c) == (a + b) + c
  {
  }

  lemma {:induction false} EncodeLength(base: nat, vs: seq<nat>, div: nat)
    requires AscendingFrom(base, vs)
    ensures base <= Last(base, vs)
    ensures |Encode(base, vs, div)| <= Shr(Last(base, vs) - base, div) + |vs| * (div + 1)
    decreases |vs|
  {
    if vs != [] {
      EncodeLength(vs[0], vs[1..], div);
      ShrSuperadditive(vs[0] - base, Last(base, vs) - vs[0], div);
      OneMoreTime(|vs| - 1, div + 1);
    }
  }

  lemma OneMoreTime(n: nat, m: nat)
    ensures (n + 1) * m == n * m + m
  {
  }

  /** Size of the code of n values up to m: at most m / 2^div + n (div + 1) bits, rounded up to a byte. */
  lemma SizeBound(s: seq<byte>, vs: seq<nat>, div: nat)
    requires IsCode(s, vs, div) && vs != []
    ensures 8 * |s| < Shr(vs[|vs|-1], div) + |vs| * (div + 1) + 8
  {
    EncodeLength(0, vs, div);
  }
}
