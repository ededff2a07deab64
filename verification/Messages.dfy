/**
  The grammar of the messages: varints as in "Base 128 Varints" and entries as in
  "Length-Delimited Records" of the Protocol Buffers encoding. What the reader takes and what
  the grammar allows are the same.
 */
module Messages {
  import opened Bytes
  import opened Bits
  import opened Wire

  // ---- Grammar ----

  // A field's number, and above what type of value it holds; 2 is a length-delimited one.
  function Tag(field: nat, wireType: nat): byte
    requires field < 16 && wireType < 8
  {
    8 * field + wireType
  }

  function Weighted(v: seq<byte>): nat {
    if v == [] then 0 else v[0] % 128 + 128 * Weighted(v[1..])
  }

  // One to five bytes, all but the last with the top bit, the fifth with four bits at most.
  // Longer forms than needed are allowed.
  ghost predicate IsVarint32(v: seq<byte>, n: nat) {
    EndsVarint(v, 0) && n == Weighted(v)
  }

  ghost predicate IsEntry(b: seq<byte>, e: Element) {
    exists v :: IsVarint32(v, |e|) && b == [Tag(1, 2)] + v + e
  }

  ghost predicate AreEntries(parts: seq<seq<byte>>, es: seq<Element>) {
    |parts| == |es| && forall k :: 0 <= k < |es| ==> IsEntry(parts[k], es[k])
  }

  ghost predicate IsEntries(body: seq<byte>, es: seq<Element>) {
    exists parts :: AreEntries(parts, es) && body == Concat(parts)
  }

  ghost predicate IsSetupMessage(bytes: seq<byte>, es: seq<Element>) {
    exists v, body :: IsVarint32(v, |body|) && IsEntries(body, es) && bytes == [Tag(1, 2)] + v + body
  }

  // Of the length of a compressed point at most: a byte for its sign and 256 bits.
  predicate Short(es: seq<Element>) {
    forall k :: 0 <= k < |es| ==> |es[k]| <= 1 + 256 / 8
  }

  // ---- Varints ----

  // Reading v from the state (value, n) completes with its last byte and gives total.
  ghost predicate VarintRead(v: seq<byte>, n: nat, value: nat, total: nat)
    decreases |v|
  {
    && v != []
    && match VarintByte(value, n, v[0])
       case TooWide => false
       case More(w) => VarintRead(v[1..], n + 1, w, total)
       case Complete(w) => |v| == 1 && w == total
  }

  // The bytes of a varint from its n-th on, the value read before them being `value`.
  ghost predicate VarintRest(v: seq<byte>, n: nat, value: nat, total: nat) {
    EndsVarint(v, n) && total == value + Shl(Weighted(v), 7 * n)
  }

  // From the n-th byte on, the shape of a varint.
  ghost predicate EndsVarint(v: seq<byte>, n: nat) {
    && 1 <= |v| <= 5 - n
    && (forall k :: 0 <= k < |v| - 1 ==> v[k] >= 128) && v[|v|-1] < 128
    && (|v| == 5 - n ==> v[|v|-1] < 16)
  }

  lemma OneMoreByte(v: seq<byte>, n: nat)
    requires |v| > 1 && v[0] >= 128
    ensures EndsVarint(v, n) <==> EndsVarint(v[1..], n + 1)
  {
    assert v[1..][|v|-2] == v[|v|-1];
    assert forall k :: 0 < k < |v| - 1 ==> v[k] == v[1..][k - 1];
  }

  lemma WeightedCons(v: seq<byte>, n: nat)
    requires v != []
    ensures Shl(Weighted(v), 7 * n) == Shl(v[0] % 128, 7 * n) + Shl(Weighted(v[1..]), 7 * (n + 1))
  {
    ShlSum(v[0] % 128, 128 * Weighted(v[1..]), 7 * n);
    ShlBy128(Weighted(v[1..]), 7 * n);
  }

  lemma {:induction false} VarintReadIs(v: seq<byte>, n: nat, value: nat, total: nat)
    requires n <= 4 && value < Shl(1, 7 * n)
    ensures VarintRead(v, n, value, total) <==> VarintRest(v, n, value, total)
    decreases |v|
  {
    if v != [] {
      var step := VarintByte(value, n, v[0]);
      WeightedCons(v, n);
      if step.More? {
        VarintFits(value, n, v[0]);
        VarintReadIs(v[1..], n + 1, step.value, total);
        if |v| > 1 {
          OneMoreByte(v, n);
        }
      } else if |v| == 1 {
        LastByte(v, n);
      }
    }
  }

  lemma LastByte(v: seq<byte>, n: nat)
    requires |v| == 1
    ensures Shl(Weighted(v[1..]), 7 * (n + 1)) == 0
  {
    assert v[1..] == [];
    ShlZero(7 * (n + 1));
  }

  lemma {:induction false} ShlZero(s: nat)
    ensures Shl(0, s) == 0
  {
    if s > 0 {
      ShlZero(s - 1);
    }
  }

  lemma {:induction false} ShlSum(a: nat, b: nat, s: nat)
    ensures Shl(a + b, s) == Shl(a, s) + Shl(b, s)
  {
    if s > 0 {
      ShlSum(a, b, s - 1);
    }
  }

  lemma ShlBy128(a: nat, s: nat)
    ensures Shl(128 * a, s) == Shl(a, s + 7)
  {
    Shl128(a, 0);
    ShlAdds(7, s, a);
  }

  lemma VarintIffRead(v: seq<byte>, total: nat)
    ensures VarintRead(v, 0, 0, total) <==> IsVarint32(v, total)
    ensures IsVarint32(v, total) <==>
              && 1 <= |v| <= 5
              && (forall k :: 0 <= k < |v| - 1 ==> v[k] >= 128) && v[|v|-1] < 128 && (|v| == 5 ==> v[4] < 16)
              && total == v[0] as int % 128
                          + (if |v| > 1 then (v[1] as int % 128) * 0x80 else 0)
                          + (if |v| > 2 then (v[2] as int % 128) * 0x4000 else 0)
                          + (if |v| > 3 then (v[3] as int % 128) * 0x20_0000 else 0)
                          + (if |v| > 4 then (v[4] as int % 128) * 0x1000_0000 else 0)
  {
    VarintReadIs(v, 0, 0, total);
    if 1 <= |v| <= 5 {
      WeightedUpToFive(v);
    }
  }

  lemma WeightedUpToFive(v: seq<byte>)
    requires 1 <= |v| <= 5
    ensures Weighted(v) == v[0] as int % 128
                           + (if |v| > 1 then (v[1] as int % 128) * 0x80 else 0)
                           + (if |v| > 2 then (v[2] as int % 128) * 0x4000 else 0)
                           + (if |v| > 3 then (v[3] as int % 128) * 0x20_0000 else 0)
                           + (if |v| > 4 then (v[4] as int % 128) * 0x1000_0000 else 0)
    decreases |v|
  {
    if |v| > 1 {
      WeightedUpToFive(v[1..]);
    }
  }

  // The encoding the library writes.
  function Varint(n: nat): (v: seq<byte>)
    ensures |v| >= 1
  {
    if n < 128 then [n] else [n % 128 + 128] + Varint(n / 128)
  }

  lemma QuotientIsLess(n: nat, k: nat)
    requires k > 0 && n < Shl(16, 7 * k)
    ensures n / 128 < Shl(16, 7 * (k - 1))
  {
    Shl128(16, 7 * (k - 1));
  }

  lemma {:induction false} VarintShape(n: nat, k: nat)
    requires k <= 4 && n < Shl(16, 7 * k)
    ensures EndsVarint(Varint(n), 4 - k) && Weighted(Varint(n)) == n
    decreases k
  {
    if n >= 128 {
      QuotientIsLess(n, k);
      VarintShape(n / 128, k - 1);
      ByteBefore(n % 128 + 128, Varint(n / 128), 4 - k);
    } else {
      assert Varint(n)[1..] == [];
    }
  }

  /** The library writes a number as the shortest of its varints. */
  lemma {:induction false} VarintIsShortest(v: seq<byte>, n: nat)
    requires v != [] && n == Weighted(v)
    ensures |Varint(n)| <= |v|
    decreases |v|
  {
    if n >= 128 {
      assert n / 128 == Weighted(v[1..]);
      VarintIsShortest(v[1..], n / 128);
    }
  }

  lemma ByteBefore(b: byte, rest: seq<byte>, n: nat)
    requires b >= 128 && EndsVarint(rest, n + 1)
    ensures EndsVarint([b] + rest, n) && Weighted([b] + rest) == b % 128 + 128 * Weighted(rest)
  {
    var v := [b] + rest;
    assert v[1..] == rest;
    OneMoreByte(v, n);
  }

  lemma {:induction false} Shl128(a: nat, s: nat)
    ensures Shl(a, s + 7) == 128 * Shl(a, s)
  {
    assert Shl(a, s + 7) == 4 * Shl(a, s + 5) == 16 * Shl(a, s + 3) == 64 * Shl(a, s + 1);
  }

  lemma VarintIsVarint32(n: nat)
    requires n < 0x1_0000_0000
    ensures IsVarint32(Varint(n), n)
  {
    FourByteWeights();
    ShlAdds(4, 28, 1);
    assert Shl(1, 4) == 16;
    VarintShape(n, 4);
  }

  // ---- Entries: what the grammar allows, the reader takes ----

  // The entries offered to the callback one after the other, up to its first refusal.
  function OfferAll(f: Feed, es: seq<Element>, onEntry: Callback): Feed
    decreases |es|
  {
    if es == [] || f.status != Ok then f else OfferAll(Offer(f, es[0], onEntry), es[1..], onEntry)
  }

  lemma {:induction false} AcceptedOffers(f: Feed, es: seq<Element>, onEntry: Callback)
    requires f.status == Ok && OfferAll(f, es, onEntry).status == Ok
    ensures OfferAll(f, es, onEntry).entries == f.entries + es
    decreases |es|
  {
    if es != [] {
      AcceptedOffers(Offer(f, es[0], onEntry), es[1..], onEntry);
      assert f.entries + [es[0]] + es[1..] == f.entries + es;
    } else {
      assert f.entries + es == f.entries;
    }
  }

  lemma {:induction false} FeedVarint(f: Feed, v: seq<byte>, total: nat, onEntry: Callback)
    requires FeedOk(f) && f.status == Ok && f.reader.InLength? && total <= MAX_ELEMENT_BYTES
    requires VarintRead(v, f.reader.n, f.reader.value, total)
    ensures FeedBytes(f, v, onEntry)
         == if total == 0 then Offer(f.(reader := AtTag), [], onEntry) else f.(reader := InBody(total, []))
    decreases |v|
  {
    var step := VarintByte(f.reader.value, f.reader.n, v[0]);
    if step.More? {
      VarintFits(f.reader.value, f.reader.n, v[0]);
      FeedVarint(FeedByte(f, v[0], onEntry), v[1..], total, onEntry);
    } else {
      assert v[1..] == [];
    }
  }

  lemma FeedTag(f: Feed, rest: seq<byte>, onEntry: Callback)
    requires FeedOk(f) && f.status == Ok && f.reader == AtTag
    ensures FeedBytes(f, [FIELD_1_LENGTH_DELIMITED] + rest, onEntry) == FeedBytes(f.(reader := InLength(0, 0)), rest, onEntry)
  {
    assert ([FIELD_1_LENGTH_DELIMITED] + rest)[1..] == rest;
  }

  // The body that follows a length.
  lemma FeedElement(f: Feed, e: Element, onEntry: Callback)
    requires f.status == Ok && f.reader == InBody(|e|, []) && 0 < |e| <= MAX_ELEMENT_BYTES
    ensures FeedBytes(f, e, onEntry) == Offer(f.(reader := AtTag), e, onEntry)
  {
    assert [] + e == e;
    FeedBody(f, e, onEntry);
  }

  lemma FeedLengthAndElement(f: Feed, v: seq<byte>, e: Element, onEntry: Callback)
    requires f.status == Ok && f.reader == InLength(0, 0) && IsVarint32(v, |e|) && |e| <= MAX_ELEMENT_BYTES
    ensures FeedBytes(f, v + e, onEntry) == Offer(f.(reader := AtTag), e, onEntry)
  {
    VarintIffRead(v, |e|);
    FeedInTwo(f, v, e, onEntry);
    FeedVarint(f, v, |e|, onEntry);
    if e != [] {
      FeedElement(f.(reader := InBody(|e|, [])), e, onEntry);
    }
  }

  lemma FeedEntry(f: Feed, b: seq<byte>, e: Element, onEntry: Callback)
    requires f.status == Ok && f.reader == AtTag && IsEntry(b, e) && |e| <= MAX_ELEMENT_BYTES
    ensures FeedBytes(f, b, onEntry) == Offer(f, e, onEntry)
  {
    var v :| IsVarint32(v, |e|) && b == [Tag(1, 2)] + v + e;
    assert b == [Tag(1, 2)] + (v + e);
    FeedTag(f, v + e, onEntry);
    FeedLengthAndElement(f.(reader := InLength(0, 0)), v, e, onEntry);
  }

  /** Every run of entries is read as its elements, each offered once and in order. */
  lemma {:induction false} FeedEntries(f: Feed, parts: seq<seq<byte>>, es: seq<Element>, onEntry: Callback)
    requires f.status == Ok && f.reader == AtTag && AreEntries(parts, es) && Short(es)
    ensures FeedBytes(f, Concat(parts), onEntry) == OfferAll(f, es, onEntry)
    decreases |es|
  {
    if es != [] {
      FeedInTwo(f, parts[0], Concat(parts[1..]), onEntry);
      FeedEntry(f, parts[0], es[0], onEntry);
      var g := Offer(f, es[0], onEntry);
      if g.status == Ok {
        FeedEntries(g, parts[1..], es[1..], onEntry);
      } else {
        FeedStops(g, Concat(parts[1..]), onEntry);
      }
    }
  }

  // ---- Entries: what the reader takes, the grammar allows ----

  // A length that is read to its end is a varint of that length.
  lemma {:induction false} LengthRead(f: Feed, bytes: seq<byte>, onEntry: Callback) returns (n: nat, total: nat)
    requires FeedOk(f) && f.status == Ok && f.reader.InLength?
    requires FeedBytes(f, bytes, onEntry).status == Ok && FeedBytes(f, bytes, onEntry).reader == AtTag
    ensures n <= |bytes| && VarintRead(bytes[..n], f.reader.n, f.reader.value, total) && total <= MAX_ELEMENT_BYTES
    decreases |bytes|
  {
    var step := VarintByte(f.reader.value, f.reader.n, bytes[0]);
    var f1 := FeedByte(f, bytes[0], onEntry);
    if f1.status != Ok {
      FeedStops(f1, bytes[1..], onEntry);
    }
    if step.More? {
      n, total := LengthRead(f1, bytes[1..], onEntry);
      n := n + 1;
      assert bytes[..n][1..] == bytes[1..][..n - 1];
    } else {
      n, total := 1, step.value;
    }
  }

  // The first entry of what the reader takes.
  lemma FirstParts<T>(s: seq<T>, k: nat, n: nat)
    requires 1 + k + n <= |s|
    ensures s[..1 + k + n] == [s[0]] + s[1..][..k] + s[1..][k..][..n]
  {
  }

  // All the bytes announced are there if the reading ends behind an entry.
  lemma BodyIsThere(f: Feed, v: seq<byte>, tail: seq<byte>, total: nat, onEntry: Callback)
    requires f.status == Ok && f.reader == InLength(0, 0) && VarintRead(v, 0, 0, total) && total <= MAX_ELEMENT_BYTES
    requires FeedBytes(f, v + tail, onEntry).status == Ok && FeedBytes(f, v + tail, onEntry).reader == AtTag
    ensures total <= |tail|
  {
    FeedInTwo(f, v, tail, onEntry);
    FeedVarint(f, v, total, onEntry);
    if total > |tail| {
      FeedBody(f.(reader := InBody(total, [])), tail, onEntry);
    }
  }

  lemma EntryFound(f: Feed, bytes: seq<byte>, onEntry: Callback) returns (n: nat, e: Element)
    requires f.status == Ok && f.reader == AtTag && bytes != []
    requires FeedBytes(f, bytes, onEntry).status == Ok && FeedBytes(f, bytes, onEntry).reader == AtTag
    ensures 0 < n <= |bytes| && IsEntry(bytes[..n], e) && |e| <= MAX_ELEMENT_BYTES
  {
    var f1 := FeedByte(f, bytes[0], onEntry);
    if f1.status != Ok {
      FeedStops(f1, bytes[1..], onEntry);
    }
    var rest := bytes[1..];
    var k, total := LengthRead(f1, rest, onEntry);
    var v, tail := rest[..k], rest[k..];
    assert rest == v + tail;
    BodyIsThere(f1, v, tail, total, onEntry);
    e := tail[..total];
    n := 1 + k + total;
    VarintIffRead(v, total);
    FirstParts(bytes, k, total);
  }

  // ... and what is left after it.
  lemma EntryRead(f: Feed, bytes: seq<byte>, onEntry: Callback) returns (n: nat, e: Element)
    requires f.status == Ok && f.reader == AtTag && bytes != []
    requires FeedBytes(f, bytes, onEntry).status == Ok && FeedBytes(f, bytes, onEntry).reader == AtTag
    ensures 0 < n <= |bytes| && IsEntry(bytes[..n], e) && |e| <= MAX_ELEMENT_BYTES
    ensures FeedBytes(f, bytes, onEntry) == FeedBytes(f.(entries := f.entries + [e]), bytes[n..], onEntry)
  {
    n, e := EntryFound(f, bytes, onEntry);
    assert bytes == bytes[..n] + bytes[n..];
    FeedInTwo(f, bytes[..n], bytes[n..], onEntry);
    FeedEntry(f, bytes[..n], e, onEntry);
    var g := Offer(f, e, onEntry);
    if g.status != Ok {
      FeedStops(g, bytes[n..], onEntry);
    }
  }

  lemma {:induction false} EntriesFound(f: Feed, bytes: seq<byte>, onEntry: Callback)
    returns (parts: seq<seq<byte>>, es: seq<Element>)
    requires f.status == Ok && f.reader == AtTag
    requires FeedBytes(f, bytes, onEntry).status == Ok && FeedBytes(f, bytes, onEntry).reader == AtTag
    ensures AreEntries(parts, es) && bytes == Concat(parts) && Short(es)
    decreases |bytes|
  {
    parts, es := [], [];
    if bytes != [] {
      var n, e := EntryRead(f, bytes, onEntry);
      parts, es := EntriesFound(f.(entries := f.entries + [e]), bytes[n..], onEntry);
      OneMoreEntry(bytes, n, e, parts, es);
      parts, es := [bytes[..n]] + parts, [e] + es;
    }
  }

  /** Whatever the reader takes to an entry boundary is a run of entries, and it takes their elements. */
  lemma EntriesRead(f: Feed, bytes: seq<byte>, onEntry: Callback)
    returns (parts: seq<seq<byte>>, es: seq<Element>)
    requires f.status == Ok && f.reader == AtTag
    requires FeedBytes(f, bytes, onEntry).status == Ok && FeedBytes(f, bytes, onEntry).reader == AtTag
    ensures AreEntries(parts, es) && bytes == Concat(parts) && Short(es)
    ensures FeedBytes(f, bytes, onEntry).entries == f.entries + es
  {
    parts, es := EntriesFound(f, bytes, onEntry);
    FeedEntries(f, parts, es, onEntry);
    AcceptedOffers(f, es, onEntry);
  }

  lemma OneMoreEntry(bytes: seq<byte>, n: nat, e: Element, parts: seq<seq<byte>>, es: seq<Element>)
    requires n <= |bytes| && IsEntry(bytes[..n], e) && |e| <= MAX_ELEMENT_BYTES
    requires AreEntries(parts, es) && bytes[n..] == Concat(parts) && Short(es)
    ensures AreEntries([bytes[..n]] + parts, [e] + es) && bytes == Concat([bytes[..n]] + parts) && Short([e] + es)
  {
    assert ([bytes[..n]] + parts)[1..] == parts;
  }
}
