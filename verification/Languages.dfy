/** The two messages the streaming matcher accepts, and those the library serializes. */
module Languages {
  import opened Bytes
  import opened Sorting
  import opened Bits
  import opened Wire
  import opened MatchSpec
  import opened Messages

  // ---- The response language ----

  lemma {:induction false} ResponseOffers(f: Feed, es: seq<Element>)
    requires f.status == Ok && |f.entries| + |es| <= MAX_ELEMENTS
    ensures OfferAll(f, es, AcceptResponseElement) == f.(entries := f.entries + es)
    decreases |es|
  {
    if es != [] {
      ResponseOffers(Offer(f, es[0], AcceptResponseElement), es[1..]);
      assert f.entries + es == f.entries + [es[0]] + es[1..];
    } else {
      assert f.entries + es == f.entries;
    }
  }

  lemma ResponseFits(bytes: seq<byte>)
    ensures |FeedBytes(Feed(AtTag, [], Ok), bytes, AcceptResponseElement).entries| <= MAX_ELEMENTS
  {
    FeedKeeps(Feed(AtTag, [], Ok), bytes, AcceptResponseElement, ElementsFit);
  }

  /**
    The response is accepted, with these elements, if and only if it is a run of entries holding
    exactly them, each of 33 bytes at most, and no more than an index can count.
   */
  lemma ResponseLanguage(bytes: seq<byte>, es: seq<Element>)
    ensures FeedBytes(Feed(AtTag, [], Ok), bytes, AcceptResponseElement) == Feed(AtTag, es, Ok)
       <==> IsEntries(bytes, es) && (forall k :: 0 <= k < |es| ==> |es[k]| <= 1 + 256 / 8) && |es| < 0x1_0000_0000
  {
    var f := Feed(AtTag, [], Ok);
    if FeedBytes(f, bytes, AcceptResponseElement) == Feed(AtTag, es, Ok) {
      var parts, read := EntriesRead(f, bytes, AcceptResponseElement);
      assert [] + read == read;
      ResponseFits(bytes);
    }
    if IsEntries(bytes, es) && Short(es) && |es| <= MAX_ELEMENTS {
      var parts :| AreEntries(parts, es) && bytes == Concat(parts);
      FeedEntries(f, parts, es, AcceptResponseElement);
      ResponseOffers(f, es);
      assert [] + es == es;
    }
  }

  // ---- The setup language ----

  lemma {:induction false} SetupLengthEnds(s: Setup, v: seq<byte>, total: nat)
    requires SetupOk(s) && s.status == Ok && s.frame.FrameLength? && VarintRead(v, s.frame.n, s.frame.value, total)
    ensures SetupBytes(s, v) == s.(frame := if total == 0 then FrameDone else FrameBody(total, AtTag))
    decreases |v|
  {
    var step := VarintByte(s.frame.value, s.frame.n, v[0]);
    VarintFits(s.frame.value, s.frame.n, v[0]);
    if step.More? {
      SetupLengthEnds(SetupByte(s, v[0]), v[1..], total);
    } else {
      assert v[1..] == [];
    }
  }

  lemma {:induction false} SetupLengthRead(s: Setup, bytes: seq<byte>) returns (n: nat, total: nat)
    requires SetupOk(s) && s.status == Ok && s.frame.FrameLength?
    requires SetupBytes(s, bytes).status == Ok && SetupBytes(s, bytes).frame == FrameDone
    ensures n <= |bytes| && VarintRead(bytes[..n], s.frame.n, s.frame.value, total)
    decreases |bytes|
  {
    var step := VarintByte(s.frame.value, s.frame.n, bytes[0]);
    var s1 := SetupByte(s, bytes[0]);
    if s1.status != Ok {
      SetupStops(s1, bytes[1..]);
    }
    if step.More? {
      n, total := SetupLengthRead(s1, bytes[1..]);
      n := n + 1;
      assert bytes[..n][1..] == bytes[1..][..n - 1];
    } else {
      n, total := 1, step.value;
    }
  }

  lemma SetupTag(bytes: seq<byte>)
    requires bytes != [] && bytes[0] == FIELD_1_LENGTH_DELIMITED
    ensures SetupBytes(EMPTY_SETUP, bytes) == SetupBytes(Setup(FrameLength(0, 0), [], Ok), bytes[1..])
  {
  }

  // The raw field read whole.
  function WholeBody(body: seq<byte>): Setup
    requires |body| < 0x1_0000_0000
  {
    if body == [] then Setup(FrameDone, [], Ok)
    else AfterBody(0, FeedBytes(Feed(AtTag, [], Ok), body, AcceptSetupElement))
  }

  // A well-framed setup does what its raw field does.
  lemma FramedSetup(v: seq<byte>, body: seq<byte>)
    requires IsVarint32(v, |body|)
    ensures |body| < 0x1_0000_0000
    ensures SetupBytes(EMPTY_SETUP, [Tag(1, 2)] + v + body) == WholeBody(body)
  {
    VarintIffRead(v, |body|);
    VarintTotalFits(v, 0, 0, |body|);
    var bytes := [Tag(1, 2)] + v + body;
    SetupTag(bytes);
    assert bytes[1..] == v + body;
    var s1 := Setup(FrameLength(0, 0), [], Ok);
    SetupInTwo(s1, v, body);
    SetupLengthEnds(s1, v, |body|);
    if body != [] {
      SetupBodyBytes(Setup(FrameBody(|body|, AtTag), [], Ok), body);
    }
  }

  lemma {:induction false} VarintTotalFits(v: seq<byte>, n: nat, value: nat, total: nat)
    requires n <= 4 && value < Shl(1, 7 * n) && VarintRead(v, n, value, total)
    ensures total < 0x1_0000_0000
    decreases |v|
  {
    VarintFits(value, n, v[0]);
    if VarintByte(value, n, v[0]).More? {
      VarintTotalFits(v[1..], n + 1, VarintByte(value, n, v[0]).value, total);
    }
  }

  // A whole setup is well framed: nothing is missing from its raw field, nothing follows it.
  lemma SetupFraming(bytes: seq<byte>) returns (v: seq<byte>, body: seq<byte>)
    requires SetupBytes(EMPTY_SETUP, bytes).status == Ok && SetupBytes(EMPTY_SETUP, bytes).frame == FrameDone
    ensures IsVarint32(v, |body|) && bytes == [Tag(1, 2)] + v + body
  {
    var s0 := SetupByte(EMPTY_SETUP, bytes[0]);
    if s0.status != Ok {
      SetupStops(s0, bytes[1..]);
    }
    var rest := bytes[1..];
    var n, total := SetupLengthRead(s0, rest);
    v, body := rest[..n], rest[n..];
    assert rest == v + body && bytes == [bytes[0]] + rest;
    VarintIffRead(v, total);
    LengthIsBodys(v, body, total);
  }

  // The length read is that of what follows it.
  lemma LengthIsBodys(v: seq<byte>, body: seq<byte>, total: nat)
    requires VarintRead(v, 0, 0, total)
    requires var s := SetupBytes(Setup(FrameLength(0, 0), [], Ok), v + body); s.status == Ok && s.frame == FrameDone
    ensures |body| == total
  {
    var s0 := Setup(FrameLength(0, 0), [], Ok);
    VarintTotalFits(v, 0, 0, total);
    SetupInTwo(s0, v, body);
    SetupLengthEnds(s0, v, total);
    BodyIsWhole(body, total);
  }

  lemma BodyIsWhole(body: seq<byte>, total: nat)
    requires total < 0x1_0000_0000
    requires var s := Setup(if total == 0 then FrameDone else FrameBody(total, AtTag), [], Ok);
             SetupBytes(s, body).status == Ok && SetupBytes(s, body).frame == FrameDone
    ensures |body| == total
  {
    var s := Setup(if total == 0 then FrameDone else FrameBody(total, AtTag), [], Ok);
    if |body| > total {
      assert body == body[..total] + body[total..];
      SetupInTwo(s, body[..total], body[total..]);
      if total > 0 {
        SetupBodyBytes(s, body[..total]);
      } else {
        assert body[..total] == [];
      }
      NothingFollows(SetupBytes(s, body[..total]), body[total..]);
    } else if 0 < |body| < total {
      SetupBodyBytes(s, body);
    }
  }

  lemma NothingFollows(s: Setup, b: seq<byte>)
    requires SetupOk(s) && (s.status == Ok ==> s.frame == FrameDone) && b != []
    ensures SetupBytes(s, b).status != Ok
  {
    SetupStops(SetupByte(s, b[0]), b[1..]);
  }

  // Each entry takes two bytes at least.
  lemma {:induction false} EntriesAreFewer(parts: seq<seq<byte>>, es: seq<Element>)
    requires AreEntries(parts, es)
    ensures 2 * |es| <= |Concat(parts)|
    decreases |es|
  {
    if es != [] {
      assert IsEntry(parts[0], es[0]);
      EntriesAreFewer(parts[1..], es[1..]);
    }
  }

  lemma {:induction false} SetupOffers(f: Feed, es: seq<Element>)
    requires f.status == Ok && StrictlyAscending(f.entries + es) && |f.entries| + |es| <= MAX_ELEMENTS
    ensures OfferAll(f, es, AcceptSetupElement) == f.(entries := f.entries + es)
    decreases |es|
  {
    if es != [] {
      var n := |f.entries|;
      assert n > 0 ==> (f.entries + es)[n - 1] == f.entries[n - 1] && (f.entries + es)[n] == es[0];
      assert f.entries + es == f.entries + [es[0]] + es[1..];
      SetupOffers(Offer(f, es[0], AcceptSetupElement), es[1..]);
    } else {
      assert f.entries + es == f.entries;
    }
  }

  /**
    The setup is accepted, with these elements, if and only if it is one raw field whose body is
    a run of entries holding exactly them, strictly ascending and of 33 bytes at most.
   */
  lemma SetupLanguage(bytes: seq<byte>, es: seq<Element>)
    ensures SetupBytes(EMPTY_SETUP, bytes) == Setup(FrameDone, es, Ok)
       <==> IsSetupMessage(bytes, es) && StrictlyAscending(es) && forall k :: 0 <= k < |es| ==> |es[k]| <= 1 + 256 / 8
  {
    if SetupBytes(EMPTY_SETUP, bytes) == Setup(FrameDone, es, Ok) {
      AcceptedSetupIsMessage(bytes, es);
    }
    if IsSetupMessage(bytes, es) && StrictlyAscending(es) && Short(es) {
      var v, body :| IsVarint32(v, |body|) && IsEntries(body, es) && bytes == [Tag(1, 2)] + v + body;
      MessageIsAccepted(v, body, es);
    }
  }

  lemma AcceptedSetupIsMessage(bytes: seq<byte>, es: seq<Element>)
    requires SetupBytes(EMPTY_SETUP, bytes) == Setup(FrameDone, es, Ok)
    ensures IsSetupMessage(bytes, es) && StrictlyAscending(es) && Short(es)
  {
    SetupBytesKeepGood(EMPTY_SETUP, bytes);
    var v, body := SetupFraming(bytes);
    FramedSetup(v, body);
    assert IsEntries(body, es) by {
      if body == [] {
        assert AreEntries([], es) && body == Concat([]);
      } else {
        var parts, read := EntriesRead(Feed(AtTag, [], Ok), body, AcceptSetupElement);
        assert [] + read == read;
      }
    }
  }

  lemma MessageIsAccepted(v: seq<byte>, body: seq<byte>, es: seq<Element>)
    requires IsVarint32(v, |body|) && IsEntries(body, es) && StrictlyAscending(es) && Short(es)
    ensures SetupBytes(EMPTY_SETUP, [Tag(1, 2)] + v + body) == Setup(FrameDone, es, Ok)
  {
    FramedSetup(v, body);
    if body == [] {
      NoBytesNoEntries(es);
    } else {
      BodyIsAccepted(body, es);
    }
  }

  lemma NoBytesNoEntries(es: seq<Element>)
    requires IsEntries([], es)
    ensures es == []
  {
    var parts :| AreEntries(parts, es) && [] == Concat(parts);
    EntriesAreFewer(parts, es);
  }

  lemma BodyIsAccepted(body: seq<byte>, es: seq<Element>)
    requires IsEntries(body, es) && |body| < 0x1_0000_0000 && StrictlyAscending(es) && Short(es)
    ensures FeedBytes(Feed(AtTag, [], Ok), body, AcceptSetupElement) == Feed(AtTag, es, Ok)
  {
    var f := Feed(AtTag, [], Ok);
    var parts :| AreEntries(parts, es) && body == Concat(parts);
    EntriesAreFewer(parts, es);
    FeedEntries(f, parts, es, AcceptSetupElement);
    assert [] + es == es;
    SetupOffers(f, es);
  }

  // ---- Serialization ----

  function SerializeEntry(e: Element): seq<byte> {
    [Tag(1, 2)] + Varint(|e|) + e
  }

  function EntryParts(es: seq<Element>): (r: seq<seq<byte>>)
    ensures |r| == |es| && forall k :: 0 <= k < |es| ==> r[k] == SerializeEntry(es[k])
  {
    seq(|es|, k requires 0 <= k < |es| => SerializeEntry(es[k]))
  }

  // psi_proto::Response, and the body of psi_proto::ServerSetup's raw field.
  function SerializeEntries(es: seq<Element>): seq<byte> {
    Concat(EntryParts(es))
  }

  // psi_proto::ServerSetup with its raw field set.
  function SerializeSetup(es: seq<Element>): seq<byte> {
    [Tag(1, 2)] + Varint(|SerializeEntries(es)|) + SerializeEntries(es)
  }

  lemma SerializedEntries(es: seq<Element>)
    requires Short(es)
    ensures IsEntries(SerializeEntries(es), es)
  {
    var parts := EntryParts(es);
    forall k | 0 <= k < |es|
      ensures IsEntry(parts[k], es[k])
    {
      VarintIsVarint32(|es[k]|);
    }
    assert AreEntries(parts, es);
  }

  /** Round trip of the setup: serializing a strictly ascending list and reading it stores exactly that list. */
  lemma SetupRoundTrip(es: seq<Element>)
    requires StrictlyAscending(es) && Short(es) && |SerializeEntries(es)| < 0x1_0000_0000
    ensures SetupBytes(EMPTY_SETUP, SerializeSetup(es)) == Setup(FrameDone, es, Ok)
  {
    SerializedEntries(es);
    VarintIsVarint32(|SerializeEntries(es)|);
    MessageIsAccepted(Varint(|SerializeEntries(es)|), SerializeEntries(es), es);
  }

  lemma ResponseRoundTrip(es: seq<Element>)
    requires Short(es) && |es| <= MAX_ELEMENTS
    ensures FeedBytes(Feed(AtTag, [], Ok), SerializeEntries(es), AcceptResponseElement) == Feed(AtTag, es, Ok)
  {
    SerializedEntries(es);
    ResponseLanguage(SerializeEntries(es), es);
  }

  /**
    A serialized list of short elements in the container's order is accepted as a setup if and
    only if no element repeats.
   */
  lemma SortedSetupAcceptedIffDistinct(es: seq<Element>)
    requires Ascending(es) && Short(es) && |SerializeEntries(es)| < 0x1_0000_0000
    ensures var s := SetupBytes(EMPTY_SETUP, SerializeSetup(es));
            s.status == Ok && s.frame == FrameDone <==> AllDistinct(es)
  {
    StrictlyAscendingIffDistinct(es);
    if AllDistinct(es) {
      SetupRoundTrip(es);
    }
    var s := SetupBytes(EMPTY_SETUP, SerializeSetup(es));
    if s.status == Ok && s.frame == FrameDone {
      SerializedEntries(es);
      VarintIsVarint32(|SerializeEntries(es)|);
      FramedSetup(Varint(|SerializeEntries(es)|), SerializeEntries(es));
      AcceptedListIsWhole(es);
      SetupBytesKeepGood(EMPTY_SETUP, SerializeSetup(es));
    }
  }

  // An accepted serialized setup stores the very list that was serialized.
  lemma AcceptedListIsWhole(es: seq<Element>)
    requires Short(es) && |SerializeEntries(es)| < 0x1_0000_0000
    requires WholeBody(SerializeEntries(es)).status == Ok
    ensures WholeBody(SerializeEntries(es)).elements == es
  {
    var parts := EntryParts(es);
    SerializedEntries(es);
    assert AreEntries(parts, es) by {
      forall k | 0 <= k < |es|
        ensures IsEntry(parts[k], es[k])
      {
        VarintIsVarint32(|es[k]|);
      }
    }
    EntriesAreFewer(parts, es);
    FeedEntries(Feed(AtTag, [], Ok), parts, es, AcceptSetupElement);
    AcceptedOffers(Feed(AtTag, [], Ok), es, AcceptSetupElement);
    assert [] + es == es;
  }

  /** Lengths may be written longer than needed, so reading and serializing again need not restore the bytes. */
  lemma OverlongLengthIsAccepted()
    ensures var bytes: seq<byte> := [0x0A, 0x80, 0x00];
            SetupBytes(EMPTY_SETUP, bytes) == Setup(FrameDone, [], Ok) && bytes != SerializeSetup([])
  {
    var v: seq<byte> := [0x80, 0x00];
    assert v[1..] == [0x00] && v[1..][1..] == [];
    assert Weighted(v[1..]) == 0 && Weighted(v) == 0;
    assert AreEntries([], []) && Concat([]) == [];
    MessageIsAccepted(v, [], []);
    assert [Tag(1, 2)] + v + [] == [0x0A, 0x80, 0x00];
    assert SerializeEntries([]) == [] && |SerializeSetup([])| == 2;
  }
}
