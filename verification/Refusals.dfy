/** Which bytes are refused, and with which status: the counterpart of the languages that are accepted. */
module Refusals {
  import opened Bytes
  import opened Bits
  import opened Wire
  import opened MatchSpec
  import opened Messages
  import opened Languages

  // ---- Where a reader stands ----

  // p is what a reader in this state has read of the entry it is in.
  ghost predicate Partly(reader: ReaderState, p: seq<byte>) {
    match reader
    case AtTag => p == []
    case InLength(value, n) =>
      && n <= 4 && |p| == 1 + n && p[0] == Tag(1, 2)
      && (forall k :: 1 <= k < |p| ==> p[k] >= 128) && value == Weighted(p[1..])
    case InBody(length, body) =>
      |body| < length <= 1 + 256 / 8 && exists v :: IsVarint32(v, length) && p == [Tag(1, 2)] + v + body
  }

  // The bytes from an entry's tag to the one that is refused, and the status: another tag, a length
  // of more than 32 bits, a length of more than 33 bytes, or an entry that the callback refuses.
  ghost predicate Breaks(bad: seq<byte>, es: seq<Element>, status: Status, onEntry: Callback) {
    || BreaksReading(bad, status)
    || exists e :: IsEntry(bad, e) && |e| <= 1 + 256 / 8 && status == onEntry(es, e) && status != Ok
  }

  ghost predicate BreaksReading(bad: seq<byte>, status: Status) {
    || (|bad| == 1 && bad[0] != 0x0A && status == UnexpectedField)
    || (|bad| == 6 && bad[0] == 0x0A && (forall k :: 1 <= k < 5 ==> bad[k] >= 128) && bad[5] >= 16
        && status == LengthTooWide(ElementLength))
    || (status.ElementTooLong? && status.length > 1 + 256 / 8
        && exists v :: IsVarint32(v, status.length) && bad == [0x0A] + v)
  }

  // ---- Byte by byte ----

  lemma {:induction false} FeedSnoc(f: Feed, bytes: seq<byte>, b: byte, onEntry: Callback)
    requires FeedOk(f)
    ensures FeedBytes(f, bytes + [b], onEntry) == FeedByte(FeedBytes(f, bytes, onEntry), b, onEntry)
  {
    FeedInTwo(f, bytes, [b], onEntry);
    var g := FeedBytes(f, bytes, onEntry);
    assert [b][1..] == [];
    assert FeedBytes(g, [b], onEntry) == FeedBytes(FeedByte(g, b, onEntry), [], onEntry);
  }

  lemma {:induction false} WeightedSnoc(v: seq<byte>, b: byte)
    ensures Weighted(v + [b]) == Weighted(v) + Shl(b % 128, 7 * |v|)
    decreases |v|
  {
    if v == [] {
      assert (v + [b])[1..] == [];
    } else {
      assert (v + [b])[1..] == v[1..] + [b];
      WeightedSnoc(v[1..], b);
      Shl128(b % 128, 7 * (|v| - 1));
    }
  }

  // One more byte of a length.
  lemma LengthByte(value: nat, n: nat, p: seq<byte>, b: byte)
    requires Partly(InLength(value, n), p)
    ensures var q := p + [b];
            match VarintByte(value, n, b)
            case TooWide => |q| == 6 && q[0] == Tag(1, 2) && (forall k :: 1 <= k < 5 ==> q[k] >= 128) && q[5] >= 16
            case More(w) => n < 4 ==> Partly(InLength(w, n + 1), q)
            case Complete(w) => IsVarint32(q[1..], w) && q == [Tag(1, 2)] + q[1..]
  {
    var q := p + [b];
    assert q[1..] == p[1..] + [b];
    WeightedSnoc(p[1..], b);
    assert forall k :: 0 <= k < n ==> q[1..][k] == p[1 + k];
  }

  // What one byte does to what has been read.
  lemma ByteReads(reader: ReaderState, p: seq<byte>, b: byte)
    requires ReaderOk(reader) && Partly(reader, p)
    ensures var (after, out) := ReadByte(reader, b);
            match out
            case Nothing => Partly(after, p + [b])
            case Entry(e) => after == AtTag && IsEntry(p + [b], e) && |e| <= 1 + 256 / 8
            case Refuse(status) => BreaksReading(p + [b], status)
  {
    var q := p + [b];
    match reader {
      case AtTag =>
        assert q == [b] && q[1..] == [];
      case InLength(value, n) =>
        LengthByte(value, n, p, b);
        if !VarintByte(value, n, b).TooWide? {
          VarintFits(value, n, b);
          assert [Tag(1, 2)] + q[1..] + [] == q;
        }
      case InBody(length, body) =>
        var v :| IsVarint32(v, length) && p == [Tag(1, 2)] + v + body;
        assert q == [Tag(1, 2)] + v + (body + [b]);
    }
  }

  // ---- Whatever has been read ----

  // Whole entries that the callback took, and part of one more, in which the reader stands.
  ghost predicate SoFar(bytes: seq<byte>, f: Feed, parts: seq<seq<byte>>, p: seq<byte>, onEntry: Callback) {
    && bytes == Concat(parts) + p && AreEntries(parts, f.entries) && Short(f.entries) && Partly(f.reader, p)
    && OfferAll(Feed(AtTag, [], Ok), f.entries, onEntry).status == Ok
  }

  lemma EntryTaken(bytes: seq<byte>, f: Feed, parts: seq<seq<byte>>, p: seq<byte>, b: byte, e: Element, onEntry: Callback)
    requires SoFar(bytes, f, parts, p, onEntry) && IsEntry(p + [b], e) && |e| <= 1 + 256 / 8
    requires onEntry(f.entries, e) == Ok
    ensures SoFar(bytes + [b], Feed(AtTag, f.entries + [e], Ok), parts + [p + [b]], [], onEntry)
  {
    assert bytes + [b] == Concat(parts) + (p + [b]) + [];
    ConcatSnoc(parts, p + [b]);
    assert [] + f.entries == f.entries;
    OfferSnoc(Feed(AtTag, [], Ok), f.entries, e, onEntry);
  }

  lemma ByteTaken(bytes: seq<byte>, f: Feed, parts: seq<seq<byte>>, p: seq<byte>, b: byte, onEntry: Callback)
    requires FeedOk(f) && f.status == Ok && SoFar(bytes, f, parts, p, onEntry)
    ensures var out := ReadByte(f.reader, b).1;
            match out
            case Nothing => SoFar(bytes + [b], FeedByte(f, b, onEntry), parts, p + [b], onEntry)
            case Entry(e) =>
              onEntry(f.entries, e) == Ok ==> SoFar(bytes + [b], FeedByte(f, b, onEntry), parts + [p + [b]], [], onEntry)
            case Refuse(_) => true
  {
    ByteReads(f.reader, p, b);
    var out := ReadByte(f.reader, b).1;
    match out {
      case Nothing =>
        assert bytes + [b] == Concat(parts) + (p + [b]);
      case Entry(e) =>
        if onEntry(f.entries, e) == Ok {
          EntryTaken(bytes, f, parts, p, b, e, onEntry);
        }
      case Refuse(_) =>
    }
  }

  /** Bytes that are not refused are whole entries and part of one more; the reader stands in it. */
  lemma {:induction false} ReadSoFar(bytes: seq<byte>, onEntry: Callback) returns (parts: seq<seq<byte>>, p: seq<byte>)
    requires FeedBytes(Feed(AtTag, [], Ok), bytes, onEntry).status == Ok
    ensures SoFar(bytes, FeedBytes(Feed(AtTag, [], Ok), bytes, onEntry), parts, p, onEntry)
    decreases |bytes|
  {
    var f0 := Feed(AtTag, [], Ok);
    if bytes == [] {
      parts, p := [], [];
    } else {
      var init, b := bytes[..|bytes|-1], bytes[|bytes|-1];
      assert bytes == init + [b];
      FeedSnoc(f0, init, b, onEntry);
      parts, p := ReadSoFar(init, onEntry);
      var f := FeedBytes(f0, init, onEntry);
      ByteTaken(init, f, parts, p, b, onEntry);
      if ReadByte(f.reader, b).1.Entry? {
        parts, p := parts + [p + [b]], [];
      } else {
        p := p + [b];
      }
    }
  }

  lemma {:induction false} OfferSnoc(f: Feed, es: seq<Element>, e: Element, onEntry: Callback)
    requires f.status == Ok && OfferAll(f, es, onEntry).status == Ok && onEntry(f.entries + es, e) == Ok
    ensures OfferAll(f, es + [e], onEntry).status == Ok
    decreases |es|
  {
    if es == [] {
      assert f.entries + es == f.entries && (es + [e])[1..] == [];
      assert OfferAll(f, es + [e], onEntry) == OfferAll(Offer(f, e, onEntry), [], onEntry);
    } else {
      assert (es + [e])[1..] == es[1..] + [e];
      assert f.entries + es == f.entries + [es[0]] + es[1..];
      OfferSnoc(Offer(f, es[0], onEntry), es[1..], e, onEntry);
    }
  }

  lemma {:induction false} OffersKeepReader(f: Feed, es: seq<Element>, onEntry: Callback)
    ensures OfferAll(f, es, onEntry).reader == f.reader
    decreases |es|
  {
    if es != [] && f.status == Ok {
      OffersKeepReader(Offer(f, es[0], onEntry), es[1..], onEntry);
    }
  }

  lemma {:induction false} ConcatSnoc(parts: seq<seq<byte>>, p: seq<byte>)
    ensures Concat(parts + [p]) == Concat(parts) + p
    decreases |parts|
  {
    if parts == [] {
      assert (parts + [p])[1..] == [];
    } else {
      assert (parts + [p])[1..] == parts[1..] + [p];
      ConcatSnoc(parts[1..], p);
    }
  }

  // Whole entries that the callback took, one that breaks off with the status, and whatever follows.
  ghost predicate RefusedAt(bytes: seq<byte>, f: Feed, parts: seq<seq<byte>>, bad: seq<byte>, rest: seq<byte>, onEntry: Callback) {
    && bytes == Concat(parts) + bad + rest && AreEntries(parts, f.entries) && Short(f.entries)
    && OfferAll(Feed(AtTag, [], Ok), f.entries, onEntry).status == Ok
    && Breaks(bad, f.entries, f.status, onEntry)
  }

  lemma ByteRefused(bytes: seq<byte>, f: Feed, parts: seq<seq<byte>>, p: seq<byte>, b: byte, onEntry: Callback)
    requires FeedOk(f) && f.status == Ok && SoFar(bytes, f, parts, p, onEntry)
    ensures FeedByte(f, b, onEntry).status != Ok ==>
              RefusedAt(bytes + [b], FeedByte(f, b, onEntry), parts, p + [b], [], onEntry)
  {
    ByteReads(f.reader, p, b);
    assert bytes + [b] == Concat(parts) + (p + [b]) + [];
  }

  lemma OneMoreBehind(bytes: seq<byte>, f: Feed, parts: seq<seq<byte>>, bad: seq<byte>, rest: seq<byte>, b: byte, onEntry: Callback)
    requires RefusedAt(bytes, f, parts, bad, rest, onEntry)
    ensures RefusedAt(bytes + [b], f, parts, bad, rest + [b], onEntry)
  {
    assert bytes + [b] == Concat(parts) + bad + (rest + [b]);
  }

  // The refused byte, what was read of its entry, and the entries before.
  lemma {:induction false} RefusedByte(bytes: seq<byte>, onEntry: Callback)
    returns (parts: seq<seq<byte>>, bad: seq<byte>, rest: seq<byte>)
    requires FeedBytes(Feed(AtTag, [], Ok), bytes, onEntry).status != Ok
    ensures RefusedAt(bytes, FeedBytes(Feed(AtTag, [], Ok), bytes, onEntry), parts, bad, rest, onEntry)
    decreases |bytes|
  {
    var f0 := Feed(AtTag, [], Ok);
    var init, b := bytes[..|bytes|-1], bytes[|bytes|-1];
    assert bytes == init + [b];
    FeedSnoc(f0, init, b, onEntry);
    var f := FeedBytes(f0, init, onEntry);
    if f.status != Ok {
      parts, bad, rest := RefusedByte(init, onEntry);
      OneMoreBehind(init, f, parts, bad, rest, b, onEntry);
      rest := rest + [b];
    } else {
      var p;
      parts, p := ReadSoFar(init, onEntry);
      ByteRefused(init, f, parts, p, b, onEntry);
      bad, rest := p + [b], [];
    }
  }

  // ---- What breaks is refused ----

  lemma {:induction false} FeedLengthBytes(f: Feed, w: seq<byte>, onEntry: Callback)
    requires FeedOk(f) && f.status == Ok && f.reader.InLength? && f.reader.n + |w| <= 4
    requires forall k :: 0 <= k < |w| ==> w[k] >= 128
    ensures var g := FeedBytes(f, w, onEntry);
            g.status == Ok && g.entries == f.entries && g.reader.InLength? && g.reader.n == f.reader.n + |w|
    decreases |w|
  {
    if w != [] {
      VarintFits(f.reader.value, f.reader.n, w[0]);
      FeedLengthBytes(FeedByte(f, w[0], onEntry), w[1..], onEntry);
    }
  }

  lemma TooWideIsRefused(f: Feed, bad: seq<byte>, onEntry: Callback)
    requires f.status == Ok && f.reader == AtTag
    requires |bad| == 6 && bad[0] == 0x0A && (forall k :: 1 <= k < 5 ==> bad[k] >= 128) && bad[5] >= 16
    ensures FeedBytes(f, bad, onEntry).status == LengthTooWide(ElementLength)
    ensures FeedBytes(f, bad, onEntry).entries == f.entries
  {
    var w := bad[1..5];
    assert bad == [Tag(1, 2)] + (w + [bad[5]]);
    FeedTag(f, w + [bad[5]], onEntry);
    FeedLengthBytes(f.(reader := InLength(0, 0)), w, onEntry);
    FeedSnoc(f.(reader := InLength(0, 0)), w, bad[5], onEntry);
  }

  lemma {:induction false} FeedTooLong(f: Feed, v: seq<byte>, total: nat, onEntry: Callback)
    requires FeedOk(f) && f.status == Ok && f.reader.InLength? && total > 1 + 256 / 8
    requires VarintRead(v, f.reader.n, f.reader.value, total)
    ensures FeedBytes(f, v, onEntry).status == ElementTooLong(total) && FeedBytes(f, v, onEntry).entries == f.entries
    decreases |v|
  {
    var step := VarintByte(f.reader.value, f.reader.n, v[0]);
    if step.More? {
      VarintFits(f.reader.value, f.reader.n, v[0]);
      FeedTooLong(FeedByte(f, v[0], onEntry), v[1..], total, onEntry);
    } else {
      assert v[1..] == [];
    }
  }

  lemma BrokenEntryIsRefused(f: Feed, bad: seq<byte>, status: Status, onEntry: Callback)
    requires f.status == Ok && f.reader == AtTag && Breaks(bad, f.entries, status, onEntry)
    ensures FeedBytes(f, bad, onEntry).status == status && FeedBytes(f, bad, onEntry).entries == f.entries
  {
    if |bad| == 1 && bad[0] != 0x0A && status == UnexpectedField {
      assert bad[1..] == [];
    } else if |bad| == 6 && bad[0] == 0x0A && (forall k :: 1 <= k < 5 ==> bad[k] >= 128) && bad[5] >= 16
              && status == LengthTooWide(ElementLength) {
      TooWideIsRefused(f, bad, onEntry);
    } else if exists e :: IsEntry(bad, e) && |e| <= 1 + 256 / 8 && status == onEntry(f.entries, e) && status != Ok {
      var e :| IsEntry(bad, e) && |e| <= 1 + 256 / 8 && status == onEntry(f.entries, e) && status != Ok;
      FeedEntry(f, bad, e, onEntry);
    } else {
      var v :| IsVarint32(v, status.length) && bad == [0x0A] + v;
      VarintIffRead(v, status.length);
      FeedTag(f, v, onEntry);
      FeedTooLong(f.(reader := InLength(0, 0)), v, status.length, onEntry);
    }
  }

  /**
    A run of bytes is refused with this status, after these entries, if and only if it is a run of
    entries holding them, then an entry that breaks off with it, then whatever.
   */
  lemma RefusedIff(bytes: seq<byte>, es: seq<Element>, status: Status, onEntry: Callback)
    requires status != Ok
    ensures var f := FeedBytes(Feed(AtTag, [], Ok), bytes, onEntry);
            f.status == status && f.entries == es
            <==> exists parts, bad, rest ::
                   && AreEntries(parts, es) && (forall k :: 0 <= k < |es| ==> |es[k]| <= 1 + 256 / 8)
                   && OfferAll(Feed(AtTag, [], Ok), es, onEntry).status == Ok
                   && bytes == Concat(parts) + bad + rest && Breaks(bad, es, status, onEntry)
  {
    var f0 := Feed(AtTag, [], Ok);
    var f := FeedBytes(f0, bytes, onEntry);
    if f.status == status && f.entries == es {
      var parts, bad, rest := RefusedByte(bytes, onEntry);
    }
    if parts, bad, rest :| && AreEntries(parts, es) && (forall k :: 0 <= k < |es| ==> |es[k]| <= 1 + 256 / 8)
                           && OfferAll(f0, es, onEntry).status == Ok
                           && bytes == Concat(parts) + bad + rest && Breaks(bad, es, status, onEntry)
    {
      FeedInTwo(f0, Concat(parts) + bad, rest, onEntry);
      FeedInTwo(f0, Concat(parts), bad, onEntry);
      FeedEntries(f0, parts, es, onEntry);
      AcceptedOffers(f0, es, onEntry);
      OffersKeepReader(f0, es, onEntry);
      assert [] + es == es;
      BrokenEntryIsRefused(FeedBytes(f0, Concat(parts), onEntry), bad, status, onEntry);
      FeedStops(FeedBytes(f0, Concat(parts) + bad, onEntry), rest, onEntry);
    }
  }

  // ---- The setup ----

  // What follows the setup's length, of which it announces n bytes.
  function AfterLength(n: nat, rest: seq<byte>): (r: Status) {
    var body := if |rest| < n then rest else rest[..n];
    var f := FeedBytes(Feed(AtTag, [], Ok), body, AcceptSetupElement);
    if f.status != Ok then f.status
    else if |rest| < n then Ok
    else if f.reader != AtTag then EntryPastEnd
    else if |rest| > n then TrailingBytes
    else Ok
  }

  lemma {:induction false} SetupLengthBytes(s: Setup, w: seq<byte>)
    requires SetupOk(s) && s.status == Ok && s.frame.FrameLength? && s.frame.n + |w| <= 4
    requires forall k :: 0 <= k < |w| ==> w[k] >= 128
    ensures var t := SetupBytes(s, w);
            t.status == Ok && t.frame.FrameLength? && t.frame.n == s.frame.n + |w|
    decreases |w|
  {
    if w != [] {
      VarintFits(s.frame.value, s.frame.n, w[0]);
      SetupLengthBytes(SetupByte(s, w[0]), w[1..]);
    }
  }

  lemma SetupTooWide(bytes: seq<byte>)
    requires |bytes| >= 6 && bytes[0] == 0x0A && (forall k :: 1 <= k < 5 ==> bytes[k] >= 128) && bytes[5] >= 16
    ensures SetupBytes(EMPTY_SETUP, bytes).status == LengthTooWide(SetupLength)
  {
    var s0, w, tail := Setup(FrameLength(0, 0), [], Ok), bytes[1..5], bytes[5..];
    SetupTag(bytes);
    assert bytes[1..] == w + tail;
    SetupInTwo(s0, w, tail);
    SetupLengthBytes(s0, w);
    SetupStops(SetupByte(SetupBytes(s0, w), tail[0]), tail[1..]);
  }

  lemma SetupAfterLength(v: seq<byte>, n: nat, rest: seq<byte>)
    requires IsVarint32(v, n)
    ensures SetupBytes(EMPTY_SETUP, [Tag(1, 2)] + v + rest).status == AfterLength(n, rest)
  {
    assert ([Tag(1, 2)] + v + rest)[1..] == v + rest;
    SetupTag([Tag(1, 2)] + v + rest);
    SetupInTwo(Setup(FrameLength(0, 0), [], Ok), v, rest);
    LengthAnnounces(v, n);
    BodyAndMore(n, rest);
  }

  lemma LengthAnnounces(v: seq<byte>, n: nat)
    requires IsVarint32(v, n)
    ensures n < 0x1_0000_0000
    ensures SetupBytes(Setup(FrameLength(0, 0), [], Ok), v) == Setup(if n == 0 then FrameDone else FrameBody(n, AtTag), [], Ok)
  {
    VarintIffRead(v, n);
    VarintTotalFits(v, 0, 0, n);
    SetupLengthEnds(Setup(FrameLength(0, 0), [], Ok), v, n);
  }

  lemma BodyAndMore(n: nat, rest: seq<byte>)
    requires n < 0x1_0000_0000
    ensures SetupBytes(Setup(if n == 0 then FrameDone else FrameBody(n, AtTag), [], Ok), rest).status == AfterLength(n, rest)
  {
    var s := Setup(if n == 0 then FrameDone else FrameBody(n, AtTag), [], Ok);
    var body := if |rest| < n then rest else rest[..n];
    var more := if |rest| < n then [] else rest[n..];
    assert rest == body + more;
    SetupInTwo(s, body, more);
    if body != [] {
      SetupBodyBytes(s, body);
    }
    MoreIsTrailing(SetupBytes(s, body), more);
  }

  // After a whole setup anything more is refused; after a refusal nothing changes.
  lemma MoreIsTrailing(s: Setup, more: seq<byte>)
    requires SetupOk(s) && (s.status != Ok || s.frame == FrameDone || more == [])
    ensures SetupBytes(s, more).status == if s.status == Ok && more != [] then TrailingBytes else s.status
  {
    if s.status != Ok {
      SetupStops(s, more);
    } else if more != [] {
      SetupStops(SetupByte(s, more[0]), more[1..]);
    }
  }

  // Every string either does not begin with the tag, or goes on with bytes of a length that is not
  // over, is too wide, or is whole.
  lemma LengthForms(w: seq<byte>) returns (m: nat)
    ensures m <= |w| && m <= 4 && forall k :: 0 <= k < m ==> w[k] >= 128
    ensures m == |w| || (m == 4 && w[m] >= 16) || IsVarint32(w[..m + 1], Weighted(w[..m + 1]))
  {
    m := 0;
    while m < |w| && m < 4 && w[m] >= 128
      invariant m <= |w| && m <= 4 && forall k :: 0 <= k < m ==> w[k] >= 128
    {
      m := m + 1;
    }
  }

  // Whatever the status, only these bytes are refused before the length is over.
  ghost predicate BreaksBeforeLength(bytes: seq<byte>, status: Status) {
    || (bytes != [] && bytes[0] != 0x0A && status == NotSingleRaw)
    || (|bytes| >= 6 && bytes[0] == 0x0A && (forall k :: 1 <= k < 5 ==> bytes[k] >= 128) && bytes[5] >= 16
        && status == LengthTooWide(SetupLength))
  }

  ghost predicate Announces(bytes: seq<byte>, v: seq<byte>, n: nat, rest: seq<byte>) {
    IsVarint32(v, n) && bytes == [0x0A] + v + rest
  }

  // Of n bytes announced: an entry among them is refused, they end inside an entry, or there are more.
  predicate BreaksAfterLength(n: nat, rest: seq<byte>, status: Status) {
    var f := FeedBytes(Feed(AtTag, [], Ok), if |rest| < n then rest else rest[..n], AcceptSetupElement);
    || f.status == status
    || (f.status == Ok && |rest| >= n && f.reader != AtTag && status == EntryPastEnd)
    || (f.status == Ok && |rest| > n && f.reader == AtTag && status == TrailingBytes)
  }

  /**
    The bytes of a setup, however cut, are refused with this status if and only if they begin with
    another tag than that of the raw field; or its length has more than 32 bits; or what follows
    the length is refused: an entry of the field, an entry that the field ends inside, or anything
    behind the field.
   */
  lemma SetupRefusedIff(bytes: seq<byte>, status: Status)
    requires status != Ok
    ensures SetupBytes(EMPTY_SETUP, bytes).status == status <==>
              || BreaksBeforeLength(bytes, status)
              || exists v, n, rest :: Announces(bytes, v, n, rest) && BreaksAfterLength(n, rest, status)
  {
    BrokenStartIsRefused(bytes, status);
    forall v, n, rest | Announces(bytes, v, n, rest)
      ensures SetupBytes(EMPTY_SETUP, bytes).status == status <==> BreaksAfterLength(n, rest, status)
    {
      SetupAfterLength(v, n, rest);
    }
    if SetupBytes(EMPTY_SETUP, bytes).status == status {
      var v, n, rest := SetupForms(bytes, status);
    }
  }

  lemma BrokenStartIsRefused(bytes: seq<byte>, status: Status)
    ensures BreaksBeforeLength(bytes, status) ==> SetupBytes(EMPTY_SETUP, bytes).status == status
  {
    if |bytes| >= 6 && bytes[0] == 0x0A && (forall k :: 1 <= k < 5 ==> bytes[k] >= 128) && bytes[5] >= 16 {
      SetupTooWide(bytes);
    }
    if bytes != [] && bytes[0] != 0x0A {
      SetupStops(SetupByte(EMPTY_SETUP, bytes[0]), bytes[1..]);
    }
  }

  // A refused string breaks before its length is over, or has one.
  lemma SetupForms(bytes: seq<byte>, status: Status) returns (v: seq<byte>, n: nat, rest: seq<byte>)
    requires status != Ok && SetupBytes(EMPTY_SETUP, bytes).status == status
    ensures BreaksBeforeLength(bytes, status) || Announces(bytes, v, n, rest)
  {
    v, n, rest := [], 0, [];
    if bytes[0] != 0x0A {
      SetupStops(SetupByte(EMPTY_SETUP, bytes[0]), bytes[1..]);
    } else {
      var w := bytes[1..];
      assert bytes == [0x0A] + w;
      var m := LengthForms(w);
      if m == |w| {
        SetupTag(bytes);
        SetupLengthBytes(Setup(FrameLength(0, 0), [], Ok), w);
      } else if m == 4 && w[m] >= 16 {
        assert forall k :: 1 <= k < 5 ==> bytes[k] == w[k - 1];
        SetupTooWide(bytes);
      } else {
        v, n, rest := w[..m + 1], Weighted(w[..m + 1]), w[m + 1..];
        assert w == v + rest;
      }
    }
  }

  /**
    And those of a response exactly when an entry among them breaks off, or there is one more than
    2^32 - 1.
   */
  lemma ResponseRefusedIff(bytes: seq<byte>, es: seq<Element>, status: Status)
    requires status != Ok
    ensures var f := FeedBytes(Feed(AtTag, [], Ok), bytes, AcceptResponseElement);
            f.status == status && f.entries == es
            <==> exists parts, bad, rest ::
                   && AreEntries(parts, es) && (forall k :: 0 <= k < |es| ==> |es[k]| <= 1 + 256 / 8) && |es| < 0x1_0000_0000
                   && bytes == Concat(parts) + bad + rest && BreaksResponse(bad, |es|, status)
  {
    RefusedIff(bytes, es, status, AcceptResponseElement);
    var f0 := Feed(AtTag, [], Ok);
    if OfferAll(f0, es, AcceptResponseElement).status == Ok {
      OffersFit(f0, es);
    }
    if |es| < 0x1_0000_0000 {
      ResponseOffers(f0, es);
    }
    forall bad: seq<byte> | |es| < 0x1_0000_0000
      ensures Breaks(bad, es, status, AcceptResponseElement) <==> BreaksResponse(bad, |es|, status)
    {
    }
  }

  ghost predicate BreaksResponse(bad: seq<byte>, before: nat, status: Status) {
    || BreaksReading(bad, status)
    || (before == 0x1_0000_0000 - 1 && status == TooManyResponseElements && exists e :: IsEntry(bad, e) && |e| <= 1 + 256 / 8)
  }

  lemma {:induction false} OffersFit(f: Feed, es: seq<Element>)
    requires f.status == Ok && |f.entries| < 0x1_0000_0000 && OfferAll(f, es, AcceptResponseElement).status == Ok
    ensures |f.entries| + |es| < 0x1_0000_0000
    decreases |es|
  {
    if es != [] {
      OffersFit(Offer(f, es[0], AcceptResponseElement), es[1..]);
    }
  }

  // A run of entries that is not refused leaves the reader between entries.
  lemma {:induction false} EntriesEndAtTag(f: Feed, parts: seq<seq<byte>>, es: seq<Element>, onEntry: Callback)
    requires f.status == Ok && f.reader == AtTag && AreEntries(parts, es)
    ensures var g := FeedBytes(f, Concat(parts), onEntry); g.status == Ok ==> g.reader == AtTag
    decreases |es|
  {
    if es != [] {
      FeedInTwo(f, parts[0], Concat(parts[1..]), onEntry);
      var g := FeedBytes(f, parts[0], onEntry);
      EntryEndsAtTag(f, parts[0], es[0], onEntry);
      if g.status == Ok {
        EntriesEndAtTag(g, parts[1..], es[1..], onEntry);
      } else {
        FeedStops(g, Concat(parts[1..]), onEntry);
      }
    }
  }

  lemma EntryEndsAtTag(f: Feed, part: seq<byte>, e: Element, onEntry: Callback)
    requires f.status == Ok && f.reader == AtTag && IsEntry(part, e)
    ensures var g := FeedBytes(f, part, onEntry); g.status == Ok ==> g.reader == AtTag
  {
    if |e| <= 1 + 256 / 8 {
      FeedEntry(f, part, e, onEntry);
    } else {
      var v :| IsVarint32(v, |e|) && part == [Tag(1, 2)] + v + e;
      VarintIffRead(v, |e|);
      assert part == [Tag(1, 2)] + (v + e);
      FeedTag(f, v + e, onEntry);
      FeedInTwo(f.(reader := InLength(0, 0)), v, e, onEntry);
      FeedTooLong(f.(reader := InLength(0, 0)), v, |e|, onEntry);
      FeedStops(FeedBytes(f.(reader := InLength(0, 0)), v, onEntry), e, onEntry);
    }
  }
}
