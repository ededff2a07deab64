/**
  The wire shape the streaming matcher reads, one byte at a time: a run of length-delimited
  entries of field 1, and a setup holding one such run as its `raw` field.
 */
module Wire {
  import opened Bytes
  import opened Bits

  // Field 1, wire type 2.
  const FIELD_1_LENGTH_DELIMITED: byte := 0x0A
  const MAX_ELEMENT_BYTES := 33
  // More elements than this could not be numbered with 32 bits.
  const MAX_ELEMENTS := 0xFFFF_FFFF

  datatype Which = ElementLength | SetupLength

  datatype CallKind = AddSetupBytesCall | SealSetupCall | MatchResponsePieceCall | FinishCall

  datatype Status =
    | Ok
    | UnexpectedField
    | LengthTooWide(which: Which)
    | ElementTooLong(length: nat)
    | NotSingleRaw
    | EntryPastEnd
    | TrailingBytes
    | SetupIncomplete
    | TooManySetupElements
    | NotStrictlyAscending
    | TooManyResponseElements
    | ResponseIncomplete
    | OutOfOrder(call: CallKind)
    | CipherError(code: int)
    | ShardFailed(code: int)

  // ---- Varints ----

  datatype VarintStep = More(value: nat) | Complete(value: nat) | TooWide

  // The byte's low seven bits go above those already read; a fifth byte may hold four.
  function VarintByte(value: nat, n: nat, b: byte): VarintStep {
    if n == 4 && b >= 16 then TooWide
    else
      var v := value + Shl(b % 128, 7 * n);
      if b < 128 then Complete(v) else More(v)
  }

  lemma SevenMoreBits(value: nat, n: nat, b: byte)
    requires value < Shl(1, 7 * n)
    ensures value + Shl(b % 128, 7 * n) < Shl(1, 7 * (n + 1))
  {
    assert Shl(1, 7) == 128;
    ShlAdds(7, 7 * n, 1);
    ShlLess(b % 128, 128, 7 * n);
  }

  lemma FourMoreBits(b: byte)
    requires b < 16
    ensures Shl(b, 28) + Shl(1, 28) <= Shl(1, 32)
  {
    assert Shl(1, 4) == 16;
    ShlLess(b, 16, 28);
    ShlAdds(4, 28, 1);
  }

  // n bytes hold 7 n bits, and a complete varint fits 32.
  lemma VarintFits(value: nat, n: nat, b: byte)
    requires n <= 4 && value < Shl(1, 7 * n) && !VarintByte(value, n, b).TooWide?
    ensures VarintByte(value, n, b).value < Shl(1, 7 * (n + 1))
    ensures VarintByte(value, n, b).value < 0x1_0000_0000
    ensures VarintByte(value, n, b).More? ==> n < 4
  {
    SevenMoreBits(value, n, b);
    FourByteWeights();
    if n == 4 {
      FourMoreBits(b);
    } else {
      ShlOneGrows(7 * (n + 1), 28);
    }
  }

  lemma FourByteWeights()
    ensures Shl(1, 28) == 0x1000_0000 && Shl(1, 32) == 0x1_0000_0000
  {
    assert Shl(1, 7) == 128;
    assert Shl(1, 14) == 0x4000;
    assert Shl(1, 21) == 0x20_0000;
    assert Shl(1, 28) == 0x1000_0000;
  }

  lemma {:induction false} ShlOneGrows(s: nat, t: nat)
    requires s <= t
    ensures Shl(1, s) <= Shl(1, t)
    decreases t
  {
    if s < t {
      ShlOneGrows(s, t - 1);
    }
  }

  // ---- Entries ----

  datatype ReaderState = AtTag | InLength(value: nat, n: nat) | InBody(length: nat, body: seq<byte>)

  datatype ReadOut = Nothing | Entry(element: Element) | Refuse(status: Status)

  predicate ReaderOk(st: ReaderState) {
    match st
    case AtTag => true
    case InLength(v, n) => n <= 4 && v < Shl(1, 7 * n)
    case InBody(length, body) => |body| < length <= MAX_ELEMENT_BYTES
  }

  function ReadByte(st: ReaderState, b: byte): (r: (ReaderState, ReadOut))
    requires ReaderOk(st)
    ensures ReaderOk(r.0)
  {
    match st
    case AtTag =>
      if b != FIELD_1_LENGTH_DELIMITED then (AtTag, Refuse(UnexpectedField)) else (InLength(0, 0), Nothing)
    case InLength(value, n) => (
      match VarintByte(value, n, b)
      case TooWide => (st, Refuse(LengthTooWide(ElementLength)))
      case More(v) => VarintFits(value, n, b); (InLength(v, n + 1), Nothing)
      case Complete(v) =>
        if v > MAX_ELEMENT_BYTES then (st, Refuse(ElementTooLong(v)))
        else if v == 0 then (AtTag, Entry([]))
        else (InBody(v, []), Nothing)
      )
    case InBody(length, body) =>
      if |body| + 1 == length then (AtTag, Entry(body + [b])) else (InBody(length, body + [b]), Nothing)
  }

  // What the reader and the callback it feeds have accepted so far. The callback sees the
  // entries before the new one, and either accepts it or refuses.
  datatype Feed = Feed(reader: ReaderState, entries: seq<Element>, status: Status)

  type Callback = (seq<Element>, Element) -> Status

  predicate FeedOk(f: Feed) {
    ReaderOk(f.reader)
  }

  function FeedByte(f: Feed, b: byte, onEntry: Callback): (r: Feed)
    requires FeedOk(f)
    ensures FeedOk(r)
  {
    if f.status != Ok then f
    else
      var (reader, out) := ReadByte(f.reader, b);
      match out
      case Nothing => f.(reader := reader)
      case Refuse(status) => f.(status := status)
      case Entry(e) => Offer(f.(reader := reader), e, onEntry)
  }

  function Offer(f: Feed, e: Element, onEntry: Callback): (r: Feed)
    ensures r.reader == f.reader
  {
    var status := onEntry(f.entries, e);
    if status == Ok then f.(entries := f.entries + [e]) else f.(status := status)
  }

  function FeedBytes(f: Feed, bytes: seq<byte>, onEntry: Callback): (r: Feed)
    requires FeedOk(f)
    ensures FeedOk(r)
    decreases |bytes|
  {
    if bytes == [] then f else FeedBytes(FeedByte(f, bytes[0], onEntry), bytes[1..], onEntry)
  }

  lemma {:induction false} FeedInTwo(f: Feed, a: seq<byte>, b: seq<byte>, onEntry: Callback)
    requires FeedOk(f)
    ensures FeedBytes(f, a + b, onEntry) == FeedBytes(FeedBytes(f, a, onEntry), b, onEntry)
    decreases |a|
  {
    if a == [] {
      assert a + b == b;
    } else {
      assert (a + b)[1..] == a[1..] + b;
      FeedInTwo(FeedByte(f, a[0], onEntry), a[1..], b, onEntry);
    }
  }

  lemma {:induction false} FeedStops(f: Feed, bytes: seq<byte>, onEntry: Callback)
    requires FeedOk(f) && f.status != Ok
    ensures FeedBytes(f, bytes, onEntry) == f
    decreases |bytes|
  {
    if bytes != [] {
      FeedStops(f, bytes[1..], onEntry);
    }
  }

  // Entries once accepted stay.
  lemma {:induction false} FeedKeepsEntries(f: Feed, bytes: seq<byte>, onEntry: Callback)
    requires FeedOk(f)
    ensures f.entries <= FeedBytes(f, bytes, onEntry).entries
    decreases |bytes|
  {
    if bytes != [] {
      FeedKeepsEntries(FeedByte(f, bytes[0], onEntry), bytes[1..], onEntry);
    }
  }

  // A stretch of body bytes that ends at or before the entry's last byte.
  lemma {:induction false} FeedBody(f: Feed, chunk: seq<byte>, onEntry: Callback)
    requires FeedOk(f) && f.status == Ok && f.reader.InBody?
    requires |f.reader.body| + |chunk| <= f.reader.length
    ensures FeedBytes(f, chunk, onEntry)
         == if |f.reader.body| + |chunk| == f.reader.length
            then Offer(f.(reader := AtTag), f.reader.body + chunk, onEntry)
            else f.(reader := InBody(f.reader.length, f.reader.body + chunk))
    decreases |chunk|
  {
    var body := f.reader.body;
    if chunk == [] {
      assert body + chunk == body;
    } else {
      var next := FeedByte(f, chunk[0], onEntry);
      assert body + chunk == (body + [chunk[0]]) + chunk[1..];
      if |chunk| > 1 {
        FeedBody(next, chunk[1..], onEntry);
      } else {
        assert chunk == [chunk[0]] && chunk[1..] == [];
      }
    }
  }

  // ---- The setup message ----

  datatype SetupFrame = FrameTag | FrameLength(value: nat, n: nat) | FrameBody(remaining: nat, reader: ReaderState) | FrameDone

  datatype Setup = Setup(frame: SetupFrame, elements: seq<Element>, status: Status)

  const EMPTY_SETUP := Setup(FrameTag, [], Ok)

  predicate SetupOk(s: Setup) {
    match s.frame
    case FrameLength(v, n) => n <= 4 && v < Shl(1, 7 * n)
    case FrameBody(remaining, reader) => 0 < remaining < 0x1_0000_0000 && ReaderOk(reader)
    case _ => true
  }

  function AcceptSetupElement(elements: seq<Element>, e: Element): Status {
    if |elements| >= MAX_ELEMENTS then TooManySetupElements
    else if |elements| > 0 && !Precedes(elements[|elements|-1], e) then NotStrictlyAscending
    else Ok
  }

  // There are fewer than 2^32 - 1 elements, and where e and the last of them first differ, e has
  // the greater byte, or the last one ends.
  ghost predicate MayFollow(elements: seq<Element>, e: Element) {
    && |elements| < 0x1_0000_0000 - 1
    && (elements != [] ==>
          var last := elements[|elements|-1];
          || last < e
          || exists k :: 0 <= k < |last| && k < |e| && last[..k] == e[..k] && last[k] as int < e[k] as int)
  }

  /**
    A setup element is accepted exactly when fewer than 2^32 - 1 are held and it comes after the
    last of them: where the two first differ its byte is the greater, or the last ends there.
   */
  lemma SetupElementAcceptedIff(elements: seq<Element>, e: Element)
    ensures AcceptSetupElement(elements, e) == TooManySetupElements <==> |elements| >= 0x1_0000_0000 - 1
    ensures AcceptSetupElement(elements, e) == Ok <==> MayFollow(elements, e)
    ensures AcceptSetupElement(elements, e) in {Ok, TooManySetupElements, NotStrictlyAscending}
  {
    if elements != [] {
      PrecedesWhereTheyDiffer(elements[|elements|-1], e);
    }
  }

  function Refused(elements: seq<Element>, status: Status): Setup {
    Setup(FrameDone, elements, status)
  }

  // The setup once the entry reader has been fed some of the raw field's bytes.
  function AfterBody(remaining: nat, f: Feed): (r: Setup)
    requires FeedOk(f) && remaining < 0x1_0000_0000
    ensures SetupOk(r)
  {
    if f.status != Ok then Refused(f.entries, f.status)
    else if remaining > 0 then Setup(FrameBody(remaining, f.reader), f.entries, Ok)
    else if f.reader != AtTag then Refused(f.entries, EntryPastEnd)
    else Setup(FrameDone, f.entries, Ok)
  }

  function SetupByte(s: Setup, b: byte): (r: Setup)
    requires SetupOk(s)
    ensures SetupOk(r)
  {
    if s.status != Ok then s
    else
      match s.frame
      case FrameTag =>
        if b != FIELD_1_LENGTH_DELIMITED then Refused(s.elements, NotSingleRaw) else s.(frame := FrameLength(0, 0))
      case FrameLength(value, n) => (
        match VarintByte(value, n, b)
        case TooWide => Refused(s.elements, LengthTooWide(SetupLength))
        case More(v) => VarintFits(value, n, b); s.(frame := FrameLength(v, n + 1))
        case Complete(v) =>
          VarintFits(value, n, b);
          s.(frame := if v == 0 then FrameDone else FrameBody(v, AtTag))
        )
      case FrameBody(remaining, reader) =>
        AfterBody(remaining - 1, FeedByte(Feed(reader, s.elements, Ok), b, AcceptSetupElement))
      case FrameDone => Refused(s.elements, TrailingBytes)
  }

  function SetupBytes(s: Setup, bytes: seq<byte>): (r: Setup)
    requires SetupOk(s)
    ensures SetupOk(r)
    decreases |bytes|
  {
    if bytes == [] then s else SetupBytes(SetupByte(s, bytes[0]), bytes[1..])
  }

  lemma {:induction false} SetupInTwo(s: Setup, a: seq<byte>, b: seq<byte>)
    requires SetupOk(s)
    ensures SetupBytes(s, a + b) == SetupBytes(SetupBytes(s, a), b)
    decreases |a|
  {
    if a == [] {
      assert a + b == b;
    } else {
      assert (a + b)[1..] == a[1..] + b;
      SetupInTwo(SetupByte(s, a[0]), a[1..], b);
    }
  }

  lemma {:induction false} SetupStops(s: Setup, bytes: seq<byte>)
    requires SetupOk(s) && s.status != Ok
    ensures SetupBytes(s, bytes) == s
    decreases |bytes|
  {
    if bytes != [] {
      SetupStops(s, bytes[1..]);
    }
  }

  lemma SetupPassInWindow(s: Setup, bytes: seq<byte>, at: nat, next: nat)
    requires SetupOk(s) && at <= next <= |bytes|
    ensures var t := SetupBytes(s, bytes[at..next]);
            SetupBytes(s, bytes[at..]) == if t.status == Ok then SetupBytes(t, bytes[next..]) else t
  {
    assert bytes[at..] == bytes[at..next] + bytes[next..];
    SetupInTwo(s, bytes[at..next], bytes[next..]);
    var t := SetupBytes(s, bytes[at..next]);
    if t.status != Ok {
      SetupStops(t, bytes[next..]);
    }
  }

  // Reading a stretch inside the raw field is feeding it to the entry reader.
  lemma {:induction false} SetupBodyBytes(s: Setup, chunk: seq<byte>)
    requires SetupOk(s) && s.status == Ok && s.frame.FrameBody? && 0 < |chunk| <= s.frame.remaining
    ensures SetupBytes(s, chunk)
         == AfterBody(s.frame.remaining - |chunk|,
                      FeedBytes(Feed(s.frame.reader, s.elements, Ok), chunk, AcceptSetupElement))
    decreases |chunk|
  {
    var f := Feed(s.frame.reader, s.elements, Ok);
    var f1 := FeedByte(f, chunk[0], AcceptSetupElement);
    var s1 := SetupByte(s, chunk[0]);
    if |chunk| == 1 {
      assert chunk[1..] == [];
    } else if f1.status != Ok {
      FeedStops(f1, chunk[1..], AcceptSetupElement);
      SetupStops(s1, chunk[1..]);
    } else {
      SetupBodyBytes(s1, chunk[1..]);
    }
  }
}
