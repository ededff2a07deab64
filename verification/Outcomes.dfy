/** What a session comes to, said of its messages and its calls: the result, and every refusal. */
module Outcomes {
  import opened Bytes
  import opened Wire
  import opened EcCipher
  import opened MatchSpec
  import opened Sessions
  import opened Messages
  import opened Languages
  import opened Refusals
  import opened Agreement

  // ---- The result ----

  // What a match of these elements with these decrypted ones learns: how many were decrypted, how
  // many elements are among them, and, if it may, each pair of equal ones once, in response order.
  ghost predicate IsLearnt(es: seq<Element>, plains: seq<Element>, revealIntersection: bool, r: PsiMatchResult) {
    && r.decryptedCount == |plains|
    && r.intersectionSize == |set i | 0 <= i < |es| && es[i] in plains|
    && |r.responseIndices| == |r.setupIndices|
    && (!revealIntersection ==> r.responseIndices == [])
    && (forall k :: 0 <= k < |r.responseIndices| ==>
          && r.responseIndices[k] < |plains| && r.setupIndices[k] < |es|
          && plains[r.responseIndices[k]] == es[r.setupIndices[k]])
    && (forall k, l :: 0 <= k < l < |r.responseIndices| ==> r.responseIndices[k] < r.responseIndices[l])
    && (revealIntersection ==> forall p :: 0 <= p < |plains| && plains[p] in es ==> p in r.responseIndices)
  }

  // Two messages that a session can finish with.
  ghost predicate Finishes(client: Client, setup: seq<byte>, response: seq<byte>, es: seq<Element>, entries: seq<Element>) {
    && IsSetupMessage(setup, es) && StrictlyAscending(es) && (forall k :: 0 <= k < |es| ==> |es[k]| <= 1 + 256 / 8)
    && IsEntries(response, entries) && (forall k :: 0 <= k < |entries| ==> |entries[k]| <= 1 + 256 / 8)
    && |entries| < 0x1_0000_0000
    && forall k :: 0 <= k < |entries| ==> client.decrypt(entries[k]).Success?
  }

  lemma ResultIsLearnt(es: seq<Element>, plains: seq<Element>, revealIntersection: bool)
    requires StrictlyAscending(es)
    ensures IsLearnt(es, plains, revealIntersection, ResultOf(es, plains, revealIntersection))
  {
    ColumnsAre(es, plains);
    var found := set i | 0 <= i < |es| && es[i] in plains;
    assert forall i :: i in found <==> i in MatchedSetup(es, plains);
    assert MatchedSetup(es, plains) == found;
  }

  /**
    A session called in order finishes if and only if its two messages, however they are cut, are
    a setup and a response of this form and every element decrypts; and what it learns is what
    they hold.
   */
  lemma FinishesIff(client: Client, ws: seq<seq<byte>>, rs: seq<seq<byte>>)
    ensures var r := Run(NEW_SESSION, client, InOrder(ws, rs));
            && (r.Finished? <==> exists es, entries :: Finishes(client, Concat(ws), Concat(rs), es, entries))
            && (r.Finished? ==> exists es, entries, plains ::
                  && Finishes(client, Concat(ws), Concat(rs), es, entries) && |plains| == |entries|
                  && (forall k :: 0 <= k < |entries| ==> client.decrypt(entries[k]) == Success(plains[k]))
                  && IsLearnt(es, plains, client.revealIntersection, r.result))
  {
    var setup, response := Concat(ws), Concat(rs);
    InOrderGivesOutcome(client, ws, rs);
    forall es, entries | Finishes(client, setup, response, es, entries)
      ensures Outcome(client, setup, response).Some?
    {
      SetupLanguage(setup, es);
      ResponseLanguage(response, entries);
      TransformAllIs(entries, client.decrypt);
    }
    if Outcome(client, setup, response).Some? {
      var es := SetupBytes(EMPTY_SETUP, setup).elements;
      var entries := FeedBytes(Feed(AtTag, [], Ok), response, AcceptResponseElement).entries;
      SetupLanguage(setup, es);
      ResponseLanguage(response, entries);
      TransformAllIs(entries, client.decrypt);
      var plains := TransformAll(entries, client.decrypt).outputs;
      ResultIsLearnt(es, plains, client.revealIntersection);
      assert Finishes(client, setup, response, es, entries);
    }
  }

  // ---- Refused calls ----

  // The kinds of error the interface tells apart.
  datatype Code = InvalidArgument | FailedPrecondition | OfTheCipher

  function CodeOf(status: Status): Code
    requires status != Ok
  {
    match status
    case OutOfOrder(_) => FailedPrecondition
    case CipherError(_) => OfTheCipher
    case ShardFailed(_) => OfTheCipher
    case _ => InvalidArgument
  }

  // A refusal for what the bytes are.
  predicate OfBytes(status: Status) {
    !status.OutOfOrder? && !status.CipherError? && !status.ShardFailed?
  }

  lemma {:induction false} FeedRefusesBytes(f: Feed, bytes: seq<byte>, onEntry: Callback)
    requires FeedOk(f) && OfBytes(f.status) && forall es, e :: OfBytes(onEntry(es, e))
    ensures OfBytes(FeedBytes(f, bytes, onEntry).status)
    decreases |bytes|
  {
    if bytes != [] {
      FeedRefusesBytes(FeedByte(f, bytes[0], onEntry), bytes[1..], onEntry);
    }
  }

  lemma {:induction false} SetupRefusesBytes(s: Setup, bytes: seq<byte>)
    requires SetupOk(s) && OfBytes(s.status)
    ensures OfBytes(SetupBytes(s, bytes).status)
    decreases |bytes|
  {
    if bytes != [] {
      SetupRefusesBytes(SetupByte(s, bytes[0]), bytes[1..]);
    }
  }

  // The call does not come in the documented order.
  predicate OutOfTurn(s: Session, call: Call) {
    match call
    case AddSetupBytes(_) => s.Matching? || s.Finished?
    case SealSetup => s.Matching? || s.Finished?
    case MatchResponsePiece(_) => s.SettingUp? || s.Finished?
    case Finish => s.SettingUp? || s.Finished?
  }

  function KindOf(call: Call): CallKind {
    match call
    case AddSetupBytes(_) => AddSetupBytesCall
    case SealSetup => SealSetupCall
    case MatchResponsePiece(_) => MatchResponsePieceCall
    case Finish => FinishCall
  }

  /**
    A call is refused with FAILED_PRECONDITION if and only if it is out of turn, and always if it
    is; with the cipher's error only when it decrypts; with INVALID_ARGUMENT otherwise.
   */
  lemma RefusedCall(s: Session, client: Client, call: Call)
    requires SessionOk(s, client) && !s.Failed?
    ensures var r := Step(s, client, call);
            && (OutOfTurn(s, call) ==> r == Failed(SetupSize(s), OutOfOrder(KindOf(call))))
            && (r.Failed? ==> r.status != Ok)
            && (r.Failed? ==> (CodeOf(r.status) == FailedPrecondition <==> OutOfTurn(s, call)))
            && (r.Failed? && CodeOf(r.status) == OfTheCipher ==> call.MatchResponsePiece?)
  {
    match call {
      case AddSetupBytes(bytes) =>
        if s.SettingUp? {
          SetupRefusesBytes(Setup(s.frame, s.elements, Ok), bytes);
        }
      case MatchResponsePiece(bytes) =>
        if s.Matching? {
          FeedRefusesBytes(Feed(s.reader, s.entries, Ok), bytes, AcceptResponseElement);
        }
      case _ =>
    }
  }

  /**
    Sealing is refused with SetupIncomplete if and only if the bytes so far were not refused and
    are no setup.
   */
  lemma SealIncompleteIff(client: Client, ws: seq<seq<byte>>)
    ensures var s := Run(NEW_SESSION, client, AddCalls(ws));
            var r := Run(NEW_SESSION, client, AddCalls(ws) + [SealSetup]);
            r.Failed? && r.status == SetupIncomplete
            <==> s.SettingUp? && !exists es :: IsSetupMessage(Concat(ws), es) && StrictlyAscending(es) && Short(es)
  {
    AddsAreOne(FrameTag, [], client, ws);
    RunInTwo(NEW_SESSION, client, AddCalls(ws), [SealSetup]);
    OneStep(Run(NEW_SESSION, client, AddCalls(ws)), client, SealSetup);
    var built := SetupBytes(EMPTY_SETUP, Concat(ws));
    SetupRefusesSetupBytes(EMPTY_SETUP, Concat(ws));
    forall es
      ensures built == Setup(FrameDone, es, Ok) <==> IsSetupMessage(Concat(ws), es) && StrictlyAscending(es) && Short(es)
    {
      SetupLanguage(Concat(ws), es);
    }
    assert built.status == Ok && built.frame == FrameDone ==> built == Setup(FrameDone, built.elements, Ok);
  }

  lemma {:induction false} SetupRefusesSetupBytes(s: Setup, bytes: seq<byte>)
    requires SetupOk(s) && s.status != SetupIncomplete
    ensures SetupBytes(s, bytes).status != SetupIncomplete
    decreases |bytes|
  {
    if bytes != [] {
      SetupRefusesSetupBytes(SetupByte(s, bytes[0]), bytes[1..]);
    }
  }

  /** Finishing is refused with ResponseIncomplete if and only if the response read is no run of entries. */
  lemma FinishIncompleteIff(s: Session, client: Client, rs: seq<seq<byte>>)
    requires SessionOk(s, client) && s.Matching? && s.reader == AtTag && s.entries == []
    requires Run(s, client, PieceCalls(rs)).Matching?
    ensures var r := Run(s, client, PieceCalls(rs) + [Finish]);
            && (r.Finished? || (r.Failed? && r.status == ResponseIncomplete))
            && (r.Failed? <==> !exists entries :: IsEntries(Concat(rs), entries))
  {
    ReadToHere(s, client, rs);
    LastIsFinish(s, client, rs);
    AtTagIff(Concat(rs));
  }

  lemma LastIsFinish(s: Session, client: Client, rs: seq<seq<byte>>)
    requires SessionOk(s, client)
    ensures Run(s, client, PieceCalls(rs) + [Finish]) == DoFinish(Run(s, client, PieceCalls(rs)), client)
  {
    RunInTwo(s, client, PieceCalls(rs), [Finish]);
    OneStep(Run(s, client, PieceCalls(rs)), client, Finish);
  }

  lemma ReadToHere(s: Session, client: Client, rs: seq<seq<byte>>)
    requires SessionOk(s, client) && s.Matching? && s.reader == AtTag && s.entries == []
    requires Run(s, client, PieceCalls(rs)).Matching?
    ensures var read := FeedBytes(Feed(AtTag, [], Ok), Concat(rs), AcceptResponseElement);
            read.status == Ok && Run(s, client, PieceCalls(rs)) == Matching(s.elements, read.reader, read.entries)
  {
    PiecesOutcome(s, client, rs);
  }

  lemma AtTagIff(bytes: seq<byte>)
    requires FeedBytes(Feed(AtTag, [], Ok), bytes, AcceptResponseElement).status == Ok
    ensures FeedBytes(Feed(AtTag, [], Ok), bytes, AcceptResponseElement).reader == AtTag <==>
              exists entries :: IsEntries(bytes, entries)
  {
    var read := FeedBytes(Feed(AtTag, [], Ok), bytes, AcceptResponseElement);
    if read.reader == AtTag {
      ResponseLanguage(bytes, read.entries);
      assert IsEntries(bytes, read.entries);
    }
    if entries :| IsEntries(bytes, entries) {
      var parts :| AreEntries(parts, entries) && bytes == Concat(parts);
      EntriesEndAtTag(Feed(AtTag, [], Ok), parts, entries, AcceptResponseElement);
    }
  }

  // ---- One window ----

  /**
    A window that is refused decrypts its elements 65536 at a time before that: its status is the
    cipher's if one of the whole batches of them does not decrypt, and else that of its bytes. A
    window that is not refused decrypts them all.
   */
  lemma WindowStatusIs(s: Session, client: Client, bytes: seq<byte>)
    requires SessionOk(s, client) && s.Matching?
    ensures var f := FeedBytes(Feed(s.reader, s.entries, Ok), bytes, AcceptResponseElement);
            && s.entries <= f.entries
            && var n := |f.entries| - |s.entries|;
            && var whole := if f.status == Ok then n else n - n % 65536;
            && var decrypted := TransformAll(f.entries[|s.entries|..|s.entries| + whole], client.decrypt);
            StatusOf(DoPiece(s, client, bytes)) == if decrypted.FirstFailure? then CipherError(decrypted.code) else f.status
  {
    var f := FeedBytes(Feed(s.reader, s.entries, Ok), bytes, AcceptResponseElement);
    FeedKeepsEntries(Feed(s.reader, s.entries, Ok), bytes, AcceptResponseElement);
    var added := f.entries[|s.entries|..];
    assert added[..BatchesDone(f, |added|)] == f.entries[|s.entries|..|s.entries| + BatchesDone(f, |added|)];
  }
}
