/**
  What a match session is, call by call, as a function of the bytes: its phases, its refusals
  and its result. The class PsiMatch is proved to do exactly this.
 */
module MatchSpec {
  import opened Bytes
  import opened Wire
  import opened EcCipher

  const BATCH_ELEMENTS := 0x1_0000

  // ---- The result ----

  datatype PsiMatchResult = PsiMatchResult(
    decryptedCount: nat, intersectionSize: nat, responseIndices: seq<nat>, setupIndices: seq<nat>)

  // Where x stands among the elements, or -1.
  function IndexIn(elements: seq<Element>, x: Element): (r: int)
    ensures -1 <= r < |elements|
    ensures r >= 0 ==> elements[r] == x
    ensures r < 0 ==> x !in elements
  {
    if elements == [] then -1
    else if elements[|elements|-1] == x then |elements| - 1
    else IndexIn(elements[..|elements|-1], x)
  }

  // The response positions that match, and what they match, in response order.
  function ResponseRows(elements: seq<Element>, plains: seq<Element>): seq<nat> {
    if plains == [] then []
    else
      ResponseRows(elements, plains[..|plains|-1])
      + (if IndexIn(elements, plains[|plains|-1]) >= 0 then [|plains| - 1] else [])
  }

  function SetupCols(elements: seq<Element>, plains: seq<Element>): seq<nat> {
    if plains == [] then []
    else
      SetupCols(elements, plains[..|plains|-1])
      + (if IndexIn(elements, plains[|plains|-1]) >= 0 then [IndexIn(elements, plains[|plains|-1])] else [])
  }

  // The setup positions equal to some decrypted response element.
  ghost function MatchedSetup(elements: seq<Element>, plains: seq<Element>): set<nat> {
    set i: nat | i < |elements| && elements[i] in plains
  }

  ghost function ResultOf(elements: seq<Element>, plains: seq<Element>, revealIntersection: bool): PsiMatchResult {
    PsiMatchResult(|plains|, |MatchedSetup(elements, plains)|,
                   if revealIntersection then ResponseRows(elements, plains) else [],
                   if revealIntersection then SetupCols(elements, plains) else [])
  }

  // What one more decrypted element changes; index is where it stands in the setup, or -1.
  lemma OneMoreMatched(elements: seq<Element>, plains: seq<Element>, plain: Element, index: int)
    requires StrictlyAscending(elements) && -1 <= index < |elements|
    requires if index >= 0 then elements[index] == plain else plain !in elements
    ensures var after := plains + [plain];
            && MatchedSetup(elements, after)
               == MatchedSetup(elements, plains) + (if index >= 0 then {index} else {})
            && ResponseRows(elements, after) == ResponseRows(elements, plains) + (if index >= 0 then [|plains|] else [])
            && SetupCols(elements, after) == SetupCols(elements, plains) + (if index >= 0 then [index] else [])
  {
    StrictlyAscendingIsAscending(elements);
    var after := plains + [plain];
    assert after[..|after|-1] == plains;
    assert IndexIn(elements, plain) == index;
    assert forall x :: x in after <==> x in plains || x == plain;
  }

  // ---- Sessions ----

  // Between two calls every response entry read so far has been decrypted and matched.
  datatype Session =
    | SettingUp(frame: SetupFrame, elements: seq<Element>)
    | Matching(elements: seq<Element>, reader: ReaderState, entries: seq<Element>)
    | Finished(setupSize: nat, result: PsiMatchResult)
    | Failed(setupSize: nat, status: Status)

  datatype Call = AddSetupBytes(bytes: seq<byte>) | SealSetup | MatchResponsePiece(bytes: seq<byte>) | Finish

  // The key and the mode of a match.
  datatype Client = Client(decrypt: Op, revealIntersection: bool)

  const NEW_SESSION := SettingUp(FrameTag, [])

  function SetupSize(s: Session): nat {
    match s
    case SettingUp(_, elements) => |elements|
    case Matching(elements, _, _) => |elements|
    case Finished(n, _) => n
    case Failed(n, _) => n
  }

  function StatusOf(s: Session): Status {
    if s.Failed? then s.status else Ok
  }

  predicate ElementsFit(elements: seq<Element>) {
    |elements| <= MAX_ELEMENTS && forall k :: 0 <= k < |elements| ==> |elements[k]| <= MAX_ELEMENT_BYTES
  }

  ghost predicate SessionOk(s: Session, client: Client) {
    match s
    case SettingUp(frame, elements) =>
      SetupOk(Setup(frame, elements, Ok)) && StrictlyAscending(elements) && ElementsFit(elements)
    case Matching(elements, reader, entries) =>
      && StrictlyAscending(elements) && ElementsFit(elements)
      && ReaderOk(reader) && ElementsFit(entries) && TransformAll(entries, client.decrypt).AllDone?
    case _ => true
  }

  function AcceptResponseElement(entries: seq<Element>, e: Element): Status {
    if |entries| >= MAX_ELEMENTS then TooManyResponseElements else Ok
  }

  function ReadSetup(frame: SetupFrame, elements: seq<Element>, bytes: seq<byte>): Session
    requires SetupOk(Setup(frame, elements, Ok))
  {
    var r := SetupBytes(Setup(frame, elements, Ok), bytes);
    if r.status == Ok then SettingUp(r.frame, r.elements) else Failed(|r.elements|, r.status)
  }

  ghost function DoAddSetup(s: Session, client: Client, bytes: seq<byte>): Session
    requires SessionOk(s, client)
  {
    match s
    case Failed(_, _) => s
    case SettingUp(frame, elements) => ReadSetup(frame, elements, bytes)
    case _ => Failed(SetupSize(s), OutOfOrder(AddSetupBytesCall))
  }

  function DoSeal(s: Session): Session {
    match s
    case Failed(_, _) => s
    case SettingUp(frame, elements) =>
      if frame == FrameDone then Matching(elements, AtTag, []) else Failed(|elements|, SetupIncomplete)
    case _ => Failed(SetupSize(s), OutOfOrder(SealSetupCall))
  }

  // All the entries a window completes are read before the last of them are decrypted: on a
  // refused byte only whole batches have been.
  function BatchesDone(f: Feed, added: nat): (n: nat)
    ensures n <= added
  {
    if f.status == Ok then added else added - added % BATCH_ELEMENTS
  }

  function ReadPiece(elements: seq<Element>, reader: ReaderState, entries: seq<Element>, decrypt: Op, bytes: seq<byte>): Session
    requires ReaderOk(reader)
  {
    var f := FeedBytes(Feed(reader, entries, Ok), bytes, AcceptResponseElement);
    FeedKeepsEntries(Feed(reader, entries, Ok), bytes, AcceptResponseElement);
    var added := f.entries[|entries|..];
    match TransformAll(added[..BatchesDone(f, |added|)], decrypt)
    case FirstFailure(code) => Failed(|elements|, CipherError(code))
    case AllDone(_) => if f.status != Ok then Failed(|elements|, f.status) else Matching(elements, f.reader, f.entries)
  }

  ghost function DoPiece(s: Session, client: Client, bytes: seq<byte>): Session
    requires SessionOk(s, client)
  {
    match s
    case Failed(_, _) => s
    case Matching(elements, reader, entries) => ReadPiece(elements, reader, entries, client.decrypt, bytes)
    case _ => Failed(SetupSize(s), OutOfOrder(MatchResponsePieceCall))
  }

  ghost function DoFinish(s: Session, client: Client): Session
    requires SessionOk(s, client)
  {
    match s
    case Failed(_, _) => s
    case Matching(elements, reader, entries) =>
      if reader != AtTag then Failed(|elements|, ResponseIncomplete)
      else Finished(|elements|, ResultOf(elements, TransformAll(entries, client.decrypt).outputs, client.revealIntersection))
    case _ => Failed(SetupSize(s), OutOfOrder(FinishCall))
  }

  ghost function Step(s: Session, client: Client, call: Call): (r: Session)
    requires SessionOk(s, client)
    ensures SessionOk(r, client)
  {
    match call
    case AddSetupBytes(bytes) => AddSetupKeepsOk(s, client, bytes); DoAddSetup(s, client, bytes)
    case SealSetup => DoSeal(s)
    case MatchResponsePiece(bytes) => PieceKeepsOk(s, client, bytes); DoPiece(s, client, bytes)
    case Finish => DoFinish(s, client)
  }

  ghost function Run(s: Session, client: Client, calls: seq<Call>): (r: Session)
    requires SessionOk(s, client)
    ensures SessionOk(r, client)
    decreases |calls|
  {
    if calls == [] then s else Run(Step(s, client, calls[0]), client, calls[1..])
  }

  // ---- What every call keeps ----

  // What the callback keeps, the reader keeps.
  lemma {:induction false} FeedKeeps(f: Feed, bytes: seq<byte>, onEntry: Callback, P: seq<Element> -> bool)
    requires FeedOk(f) && P(f.entries)
    requires forall es, e :: P(es) && |e| <= MAX_ELEMENT_BYTES && onEntry(es, e) == Ok ==> P(es + [e])
    ensures P(FeedBytes(f, bytes, onEntry).entries)
    decreases |bytes|
  {
    if bytes != [] {
      FeedKeeps(FeedByte(f, bytes[0], onEntry), bytes[1..], onEntry, P);
    }
  }

  ghost predicate GoodSetup(elements: seq<Element>) {
    StrictlyAscending(elements) && ElementsFit(elements)
  }

  lemma AcceptKeepsGood(es: seq<Element>, e: Element)
    requires GoodSetup(es) && |e| <= MAX_ELEMENT_BYTES && AcceptSetupElement(es, e) == Ok
    ensures GoodSetup(es + [e])
  {
    StrictlyAscendingSnoc(es, e);
  }

  lemma {:induction false} SetupBytesKeepGood(s: Setup, bytes: seq<byte>)
    requires SetupOk(s) && GoodSetup(s.elements)
    ensures GoodSetup(SetupBytes(s, bytes).elements)
    decreases |bytes|
  {
    if bytes != [] {
      var s1 := SetupByte(s, bytes[0]);
      if s.status == Ok && s.frame.FrameBody? {
        var f := Feed(s.frame.reader, s.elements, Ok);
        var out := ReadByte(f.reader, bytes[0]).1;
        if out.Entry? && AcceptSetupElement(s.elements, out.element) == Ok {
          AcceptKeepsGood(s.elements, out.element);
        }
      }
      SetupBytesKeepGood(s1, bytes[1..]);
    }
  }

  lemma AddSetupKeepsOk(s: Session, client: Client, bytes: seq<byte>)
    requires SessionOk(s, client)
    ensures SessionOk(DoAddSetup(s, client, bytes), client)
  {
    if s.SettingUp? {
      SetupBytesKeepGood(Setup(s.frame, s.elements, Ok), bytes);
    }
  }

  lemma {:induction false} PieceKeepsOk(s: Session, client: Client, bytes: seq<byte>)
    requires SessionOk(s, client)
    ensures SessionOk(DoPiece(s, client, bytes), client)
  {
    if s.Matching? {
      var f0 := Feed(s.reader, s.entries, Ok);
      var f := FeedBytes(f0, bytes, AcceptResponseElement);
      FeedKeeps(f0, bytes, AcceptResponseElement, ElementsFit);
      FeedKeepsEntries(f0, bytes, AcceptResponseElement);
      if f.status == Ok {
        var added := f.entries[|s.entries|..];
        assert added[..|added|] == added && s.entries + added == f.entries;
        TransformInTwo(s.entries, added, client.decrypt);
      }
    }
  }
}
