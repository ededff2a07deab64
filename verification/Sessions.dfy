/** Whole runs of a match session: how the bytes are cut does not matter, and only one order of calls succeeds. */
module Sessions {
  import opened Bytes
  import opened Wire
  import opened MatchSpec
  import opened EcCipher
  import opened Wrappers

  function AddCalls(windows: seq<seq<byte>>): (r: seq<Call>)
    ensures |r| == |windows| && forall k :: 0 <= k < |r| ==> r[k] == AddSetupBytes(windows[k])
  {
    if windows == [] then [] else [AddSetupBytes(windows[0])] + AddCalls(windows[1..])
  }

  function PieceCalls(windows: seq<seq<byte>>): (r: seq<Call>)
    ensures |r| == |windows| && forall k :: 0 <= k < |r| ==> r[k] == MatchResponsePiece(windows[k])
  {
    if windows == [] then [] else [MatchResponsePiece(windows[0])] + PieceCalls(windows[1..])
  }

  lemma {:induction false} RunInTwo(s: Session, client: Client, a: seq<Call>, b: seq<Call>)
    requires SessionOk(s, client)
    ensures Run(s, client, a + b) == Run(Run(s, client, a), client, b)
    decreases |a|
  {
    if a == [] {
      assert a + b == b;
    } else {
      assert (a + b)[1..] == a[1..] + b;
      RunInTwo(Step(s, client, a[0]), client, a[1..], b);
    }
  }

  /** After a refusal every later call gives the same status again, whatever it is. */
  lemma {:induction false} RefusalsStick(s: Session, client: Client, calls: seq<Call>)
    requires SessionOk(s, client) && s.Failed?
    ensures Run(s, client, calls) == s
    decreases |calls|
  {
    if calls != [] {
      RefusalsStick(s, client, calls[1..]);
    }
  }

  // ---- The setup, however it is cut ----

  lemma {:induction false} AddsAreOne(frame: SetupFrame, elements: seq<Element>, client: Client, windows: seq<seq<byte>>)
    requires SessionOk(SettingUp(frame, elements), client)
    ensures Run(SettingUp(frame, elements), client, AddCalls(windows)) == ReadSetup(frame, elements, Concat(windows))
    decreases |windows|
  {
    var s := Setup(frame, elements, Ok);
    if windows != [] {
      var w, rest := windows[0], windows[1..];
      var calls := AddCalls(windows);
      assert calls[0] == AddSetupBytes(w) && calls[1..] == AddCalls(rest);
      SetupInTwo(s, w, Concat(rest));
      var s1 := ReadSetup(frame, elements, w);
      assert Step(SettingUp(frame, elements), client, calls[0]) == s1;
      if s1.SettingUp? {
        AddsAreOne(s1.frame, s1.elements, client, rest);
      } else {
        SetupStops(SetupBytes(s, w), Concat(rest));
        RefusalsStick(s1, client, AddCalls(rest));
      }
    }
  }

  /**
    The setup may be cut at any byte, with empty windows too: the session is the same after
    any two cuts of the same bytes, and a refusal carries the same status.
   */
  lemma SetupCutsDoNotMatter(client: Client, windows: seq<seq<byte>>, windows': seq<seq<byte>>)
    requires Concat(windows) == Concat(windows')
    ensures Run(NEW_SESSION, client, AddCalls(windows)) == Run(NEW_SESSION, client, AddCalls(windows'))
  {
    AddsAreOne(FrameTag, [], client, windows);
    AddsAreOne(FrameTag, [], client, windows');
  }

  // ---- The response, however it is cut ----

  // The whole response read as one window.
  ghost function WholeResponse(s: Session, bytes: seq<byte>): Feed
    requires s.Matching? && ReaderOk(s.reader)
  {
    FeedBytes(Feed(s.reader, s.entries, Ok), bytes, AcceptResponseElement)
  }

  // What the whole response allows a session to come to: it is accepted, or refused for its
  // bytes, or refused for an element that does not decrypt.
  ghost predicate ResponseOutcome(s: Session, client: Client, bytes: seq<byte>, r: Session)
    requires s.Matching? && SessionOk(s, client)
  {
    var f := WholeResponse(s, bytes);
    var decrypted := TransformAll(f.entries, client.decrypt);
    if f.status == Ok && decrypted.AllDone? then r == Matching(s.elements, f.reader, f.entries)
    else
      && r.Failed? && r.setupSize == |s.elements|
      && (|| (f.status != Ok && r.status == f.status
              && TransformAll(f.entries[..Settled(|f.entries|)], client.decrypt).AllDone?)
          || (decrypted.FirstFailure? && r.status == CipherError(decrypted.code)))
  }

  // Of n entries, all but the last BATCH_ELEMENTS - 1 have been decrypted however they were cut.
  function Settled(n: nat): (r: nat)
    ensures r <= n
  {
    if n < BATCH_ELEMENTS - 1 then 0 else n - (BATCH_ELEMENTS - 1)
  }

  // If a list decrypts, so does any prefix of it.
  lemma PrefixDecrypts(entries: seq<Element>, n: nat, m: nat, decrypt: Op)
    requires n <= m <= |entries| && TransformAll(entries[..m], decrypt).AllDone?
    ensures TransformAll(entries[..n], decrypt).AllDone?
  {
    assert entries[..m] == entries[..n] + entries[n..m];
    TransformInTwo(entries[..n], entries[n..m], decrypt);
  }

  lemma PieceOutcome(s: Session, client: Client, bytes: seq<byte>)
    requires s.Matching? && SessionOk(s, client)
    ensures ResponseOutcome(s, client, bytes, DoPiece(s, client, bytes))
  {
    var f := WholeResponse(s, bytes);
    FeedKeepsEntries(Feed(s.reader, s.entries, Ok), bytes, AcceptResponseElement);
    var added := f.entries[|s.entries|..];
    var n := BatchesDone(f, |added|);
    assert s.entries + added == f.entries;
    TransformInTwo(s.entries, added, client.decrypt);
    TransformInTwo(added[..n], added[n..], client.decrypt);
    assert added[..n] + added[n..] == added;
    assert n == |added| ==> added[..n] == added;
    if f.status != Ok && TransformAll(added[..n], client.decrypt).AllDone? {
      BatchesSettle(s.entries, added, client.decrypt);
    }
  }

  lemma BatchesSettle(entries: seq<Element>, added: seq<Element>, decrypt: Op)
    requires TransformAll(entries, decrypt).AllDone?
    requires TransformAll(added[..|added| - |added| % BATCH_ELEMENTS], decrypt).AllDone?
    ensures var all := entries + added; TransformAll(all[..Settled(|all|)], decrypt).AllDone?
  {
    var all, n := entries + added, |added| - |added| % BATCH_ELEMENTS;
    TransformInTwo(entries, added[..n], decrypt);
    assert entries + added[..n] == all[..|entries| + n];
    PrefixDecrypts(all, Settled(|all|), |entries| + n, decrypt);
  }

  lemma {:induction false} PiecesOutcome(s: Session, client: Client, windows: seq<seq<byte>>)
    requires s.Matching? && SessionOk(s, client)
    ensures ResponseOutcome(s, client, Concat(windows), Run(s, client, PieceCalls(windows)))
    decreases |windows|
  {
    if windows != [] {
      var w, rest := windows[0], windows[1..];
      var calls := PieceCalls(windows);
      assert calls[0] == MatchResponsePiece(w) && calls[1..] == PieceCalls(rest);
      var f0 := Feed(s.reader, s.entries, Ok);
      FeedInTwo(f0, w, Concat(rest), AcceptResponseElement);
      PieceOutcome(s, client, w);
      var s1 := DoPiece(s, client, w);
      assert Step(s, client, calls[0]) == s1;
      if s1.Matching? {
        PiecesOutcome(s1, client, rest);
      } else {
        RefusedPieceDecides(s, client, w, Concat(rest), s1);
        RefusalsStick(s1, client, PieceCalls(rest));
      }
    }
  }

  // A refusal within the first bytes is a possible outcome of all of them.
  lemma RefusedPieceDecides(s: Session, client: Client, a: seq<byte>, b: seq<byte>, r: Session)
    requires s.Matching? && SessionOk(s, client) && r.Failed? && ResponseOutcome(s, client, a, r)
    ensures ResponseOutcome(s, client, a + b, r)
  {
    var f0 := Feed(s.reader, s.entries, Ok);
    var fa := FeedBytes(f0, a, AcceptResponseElement);
    FeedInTwo(f0, a, b, AcceptResponseElement);
    var f := FeedBytes(fa, b, AcceptResponseElement);
    if fa.status != Ok {
      FeedStops(fa, b, AcceptResponseElement);
    } else {
      FeedKeepsEntries(fa, b, AcceptResponseElement);
      var more := f.entries[|fa.entries|..];
      assert f.entries == fa.entries + more;
      TransformInTwo(fa.entries, more, client.decrypt);
    }
  }

  /**
    The response may be cut at any byte: two cuts of the same bytes both succeed or both fail,
    and when they succeed they come to the same session.
   */
  lemma ResponseCutsDoNotMatter(s: Session, client: Client, windows: seq<seq<byte>>, windows': seq<seq<byte>>)
    requires s.Matching? && SessionOk(s, client) && Concat(windows) == Concat(windows')
    ensures var r, r' := Run(s, client, PieceCalls(windows)), Run(s, client, PieceCalls(windows'));
            (r.Matching? || r'.Matching? ==> r == r') && (r.Matching? || r.Failed?)
  {
    PiecesOutcome(s, client, windows);
    PiecesOutcome(s, client, windows');
  }

  // ---- Which refusal a bad response gets ----

  // Whether the bytes come to the same session however they are cut, refusals included.
  ghost predicate CutFree(s: Session, client: Client, bytes: seq<byte>)
    requires s.Matching? && SessionOk(s, client)
  {
    forall windows, windows' :: Concat(windows) == bytes && Concat(windows') == bytes ==>
      Run(s, client, PieceCalls(windows)) == Run(s, client, PieceCalls(windows'))
  }

  // The bytes up to the refused one, and the rest.
  lemma {:induction false} BeforeRefusal(f: Feed, bytes: seq<byte>) returns (a: seq<byte>, b: seq<byte>)
    requires FeedOk(f) && f.status == Ok
    ensures bytes == a + b && FeedBytes(f, a, AcceptResponseElement).status == Ok
    ensures FeedBytes(f, a, AcceptResponseElement).entries == FeedBytes(f, bytes, AcceptResponseElement).entries
    decreases |bytes|
  {
    a, b := [], bytes;
    if bytes != [] {
      var f1 := FeedByte(f, bytes[0], AcceptResponseElement);
      if f1.status != Ok {
        FeedStops(f1, bytes[1..], AcceptResponseElement);
      } else {
        a, b := BeforeRefusal(f1, bytes[1..]);
        a := [bytes[0]] + a;
        assert a[1..] + b == bytes[1..] && bytes == [bytes[0]] + bytes[1..];
      }
    }
  }

  // The bytes that complete the first k entries, and the rest.
  lemma {:induction false} UpToEntry(f: Feed, bytes: seq<byte>, k: nat) returns (a: seq<byte>, b: seq<byte>)
    requires FeedOk(f) && f.status == Ok
    requires |f.entries| <= k <= |FeedBytes(f, bytes, AcceptResponseElement).entries|
    ensures bytes == a + b && FeedBytes(f, a, AcceptResponseElement).status == Ok
    ensures FeedBytes(f, a, AcceptResponseElement).entries == FeedBytes(f, bytes, AcceptResponseElement).entries[..k]
    decreases |bytes|
  {
    FeedKeepsEntries(f, bytes, AcceptResponseElement);
    a, b := [], bytes;
    if |f.entries| < k {
      var f1 := FeedByte(f, bytes[0], AcceptResponseElement);
      if f1.status != Ok {
        FeedStops(f1, bytes[1..], AcceptResponseElement);
      }
      a, b := UpToEntry(f1, bytes[1..], k);
      a := [bytes[0]] + a;
      assert a[1..] + b == bytes[1..] && bytes == [bytes[0]] + bytes[1..];
    }
  }

  lemma {:induction false} BytesNeverGiveCipherErrors(f: Feed, bytes: seq<byte>)
    requires FeedOk(f) && !f.status.CipherError?
    ensures !FeedBytes(f, bytes, AcceptResponseElement).status.CipherError?
    decreases |bytes|
  {
    if bytes != [] {
      BytesNeverGiveCipherErrors(FeedByte(f, bytes[0], AcceptResponseElement), bytes[1..]);
    }
  }

  lemma RunPieces(s: Session, client: Client, a: seq<byte>, b: seq<byte>)
    requires SessionOk(s, client)
    ensures Concat([a, b]) == a + b
    ensures Run(s, client, PieceCalls([a, b])) == DoPiece(Step(s, client, MatchResponsePiece(a)), client, b)
  {
    var tail := [b];
    assert [a, b][1..] == tail && tail[1..] == [];
    assert Concat(tail) == b + [] == b;
    var calls := PieceCalls([a, b]);
    assert calls[1..] == [MatchResponsePiece(b)];
    assert Run(s, client, calls) == Run(Step(s, client, calls[0]), client, calls[1..]);
    OneStep(Step(s, client, calls[0]), client, MatchResponsePiece(b));
  }

  // Cut just before the refused byte, every element is decrypted first.
  lemma CutForCipher(s: Session, client: Client, bytes: seq<byte>) returns (windows: seq<seq<byte>>)
    requires s.Matching? && SessionOk(s, client)
    requires TransformAll(WholeResponse(s, bytes).entries, client.decrypt).FirstFailure?
    ensures Concat(windows) == bytes
    ensures Run(s, client, PieceCalls(windows)).Failed?
    ensures Run(s, client, PieceCalls(windows)).status.CipherError?
  {
    var a, b := BeforeRefusal(Feed(s.reader, s.entries, Ok), bytes);
    windows := [a, b];
    RunPieces(s, client, a, b);
    PieceOutcome(s, client, a);
  }

  // Cut so that the last window holds less than a batch, its bytes are refused first.
  lemma CutForBytes(s: Session, client: Client, bytes: seq<byte>) returns (windows: seq<seq<byte>>)
    requires s.Matching? && SessionOk(s, client)
    requires var f := WholeResponse(s, bytes);
             f.status != Ok && TransformAll(f.entries[..Settled(|f.entries|)], client.decrypt).AllDone?
    ensures Concat(windows) == bytes
    ensures Run(s, client, PieceCalls(windows)) == Failed(|s.elements|, WholeResponse(s, bytes).status)
  {
    var f0 := Feed(s.reader, s.entries, Ok);
    var f := WholeResponse(s, bytes);
    FeedKeepsEntries(f0, bytes, AcceptResponseElement);
    var k := if |s.entries| > Settled(|f.entries|) then |s.entries| else Settled(|f.entries|);
    assert f.entries[..|s.entries|] == s.entries;
    var a, b := UpToEntry(f0, bytes, k);
    windows := [a, b];
    RunPieces(s, client, a, b);
    PieceOutcome(s, client, a);
    FeedInTwo(f0, a, b, AcceptResponseElement);
    var s1 := DoPiece(s, client, a);
    var added := f.entries[k..];
    assert s1.Matching? && s1.entries == f.entries[..k];
    SmallPieceIsRefused(s1, client, b, f);
  }

  lemma SmallPieceIsRefused(s: Session, client: Client, bytes: seq<byte>, f: Feed)
    requires s.Matching? && SessionOk(s, client)
    requires f == WholeResponse(s, bytes) && f.status != Ok && |f.entries| - |s.entries| < BATCH_ELEMENTS
    ensures DoPiece(s, client, bytes) == Failed(|s.elements|, f.status)
  {
    FeedKeepsEntries(Feed(s.reader, s.entries, Ok), bytes, AcceptResponseElement);
    var added := f.entries[|s.entries|..];
    assert BatchesDone(f, |added|) == 0 && added[..0] == [];
  }

  /**
    The status a response is refused with is the same for every cut if and only if it does not
    hold both a refused byte and, among the last BATCH_ELEMENTS - 1 elements before that byte
    and not earlier, one that does not decrypt.
   */
  lemma CutFreeExactly(s: Session, client: Client, bytes: seq<byte>)
    requires s.Matching? && SessionOk(s, client)
    ensures var f := WholeResponse(s, bytes);
            CutFree(s, client, bytes) <==>
              || f.status == Ok
              || TransformAll(f.entries, client.decrypt).AllDone?
              || TransformAll(f.entries[..if |f.entries| < 65535 then 0 else |f.entries| - 65535], client.decrypt).FirstFailure?
  {
    var f := WholeResponse(s, bytes);
    forall windows | Concat(windows) == bytes
      ensures ResponseOutcome(s, client, bytes, Run(s, client, PieceCalls(windows)))
    {
      PiecesOutcome(s, client, windows);
    }
    if && f.status != Ok
       && TransformAll(f.entries, client.decrypt).FirstFailure?
       && TransformAll(f.entries[..Settled(|f.entries|)], client.decrypt).AllDone?
    {
      var windows := CutForCipher(s, client, bytes);
      var windows' := CutForBytes(s, client, bytes);
      BytesNeverGiveCipherErrors(Feed(s.reader, s.entries, Ok), bytes);
      assert Run(s, client, PieceCalls(windows)) != Run(s, client, PieceCalls(windows'));
    }
  }

  // An empty element, then a byte that is no tag.
  lemma GoodThenBad()
    ensures var f := FeedBytes(Feed(AtTag, [], Ok), [0x0A, 0x00, 0xFF], AcceptResponseElement);
            f.status == UnexpectedField && f.entries == [[]]
  {
    var bytes: seq<byte> := [0x0A, 0x00, 0xFF];
    var f1 := Feed(InLength(0, 0), [], Ok);
    assert FeedByte(Feed(AtTag, [], Ok), 0x0A, AcceptResponseElement) == f1;
    var f2 := Feed(AtTag, [[]], Ok);
    assert VarintByte(0, 0, 0x00) == Complete(0);
    assert FeedByte(f1, 0x00, AcceptResponseElement) == f2;
    var f3 := Feed(AtTag, [[]], UnexpectedField);
    assert FeedByte(f2, 0xFF, AcceptResponseElement) == f3;
    assert bytes[1..] == [0x00, 0xFF] && bytes[1..][1..] == [0xFF] && bytes[1..][1..][1..] == [];
    FeedStops(f3, [], AcceptResponseElement);
    assert FeedBytes(f2, [0xFF], AcceptResponseElement) == f3 by {
      var last: seq<byte> := [0xFF];
      assert last[1..] == [];
    }
    assert FeedBytes(f1, [0x00, 0xFF], AcceptResponseElement) == FeedBytes(f2, [0xFF], AcceptResponseElement) by {
      var last: seq<byte> := [0x00, 0xFF];
      assert last[1..] == [0xFF];
    }
  }

  /** One response whose refusal does depend on the cut. */
  lemma StatusDependsOnCut()
    ensures !CutFree(Matching([], AtTag, []), Client(e => Failure(7), false), [0x0A, 0x00, 0xFF])
  {
    var client := Client(e => Failure(7), false);
    var s := Matching([], AtTag, []);
    GoodThenBad();
    CutFreeExactly(s, client, [0x0A, 0x00, 0xFF]);
    var entries: seq<Element> := [[]];
    assert entries[..0] == [];
    assert TransformAll(entries, client.decrypt) == FirstFailure(7);
  }

  // ---- Whole sessions ----

  function InOrder(setup: seq<seq<byte>>, response: seq<seq<byte>>): seq<Call> {
    AddCalls(setup) + [SealSetup] + PieceCalls(response) + [Finish]
  }

  // The result as a function of the two messages alone.
  ghost function Outcome(client: Client, setup: seq<byte>, response: seq<byte>): Option<PsiMatchResult> {
    var built := SetupBytes(EMPTY_SETUP, setup);
    if built.status != Ok || built.frame != FrameDone then None
    else
      var read := FeedBytes(Feed(AtTag, [], Ok), response, AcceptResponseElement);
      if read.status != Ok || read.reader != AtTag then None
      else
        match TransformAll(read.entries, client.decrypt)
        case FirstFailure(_) => None
        case AllDone(plains) => Some(ResultOf(built.elements, plains, client.revealIntersection))
  }

  // The session once the setup is sealed.
  lemma SealedSetup(client: Client, setup: seq<seq<byte>>)
    ensures var s := Run(NEW_SESSION, client, AddCalls(setup) + [SealSetup]);
            var built := SetupBytes(EMPTY_SETUP, Concat(setup));
            if built.status == Ok && built.frame == FrameDone then s == Matching(built.elements, AtTag, [])
            else s.Failed?
  {
    RunInTwo(NEW_SESSION, client, AddCalls(setup), [SealSetup]);
    AddsAreOne(FrameTag, [], client, setup);
    OneStep(Run(NEW_SESSION, client, AddCalls(setup)), client, SealSetup);
  }

  // The session once the response is read and finished.
  lemma FinishedResponse(s: Session, client: Client, response: seq<seq<byte>>)
    requires SessionOk(s, client) && s.Matching? && s.reader == AtTag && s.entries == []
    ensures var r := Run(s, client, PieceCalls(response) + [Finish]);
            var read := FeedBytes(Feed(AtTag, [], Ok), Concat(response), AcceptResponseElement);
            var decrypted := TransformAll(read.entries, client.decrypt);
            if read.status == Ok && read.reader == AtTag && decrypted.AllDone? then
              r == Finished(|s.elements|, ResultOf(s.elements, decrypted.outputs, client.revealIntersection))
            else r.Failed?
  {
    RunInTwo(s, client, PieceCalls(response), [Finish]);
    PiecesOutcome(s, client, response);
    OneStep(Run(s, client, PieceCalls(response)), client, Finish);
  }

  /**
    A session called in order succeeds exactly when the two messages have an outcome, and then
    its result is that outcome: it depends on no cut.
   */
  lemma InOrderGivesOutcome(client: Client, setup: seq<seq<byte>>, response: seq<seq<byte>>)
    ensures var r := Run(NEW_SESSION, client, InOrder(setup, response));
            var o := Outcome(client, Concat(setup), Concat(response));
            if o.Some? then r.Finished? && r.result == o.value else r.Failed?
  {
    var calls := AddCalls(setup) + [SealSetup];
    assert InOrder(setup, response) == calls + (PieceCalls(response) + [Finish]);
    RunInTwo(NEW_SESSION, client, calls, PieceCalls(response) + [Finish]);
    SealedSetup(client, setup);
    var s := Run(NEW_SESSION, client, calls);
    if s.Matching? {
      FinishedResponse(s, client, response);
    } else {
      RefusalsStick(s, client, PieceCalls(response) + [Finish]);
    }
  }

  lemma OneStep(s: Session, client: Client, call: Call)
    requires SessionOk(s, client)
    ensures Run(s, client, [call]) == Step(s, client, call)
  {
    assert [call][1..] == [];
    assert Run(s, client, [call]) == Run(Step(s, client, call), client, []);
  }

  // Where a session that has not failed stands, its calls say.
  ghost predicate CallsSay(calls: seq<Call>, s: Session) {
    match s
    case SettingUp(_, _) => exists ws :: calls == AddCalls(ws)
    case Matching(_, _, _) => exists ws, rs :: calls == AddCalls(ws) + [SealSetup] + PieceCalls(rs)
    case Finished(_, _) => exists ws, rs :: calls == InOrder(ws, rs)
    case Failed(_, _) => true
  }

  lemma {:induction false} RunsSay(client: Client, calls: seq<Call>)
    ensures CallsSay(calls, Run(NEW_SESSION, client, calls))
    decreases |calls|
  {
    if calls == [] {
      assert calls == AddCalls([]);
    } else {
      var n := |calls| - 1;
      RunsSay(client, calls[..n]);
      assert calls == calls[..n] + [calls[n]];
      RunInTwo(NEW_SESSION, client, calls[..n], [calls[n]]);
      var s := Run(NEW_SESSION, client, calls[..n]);
      OneStep(s, client, calls[n]);
      NextCallSays(client, calls[..n], calls[n], s);
    }
  }

  lemma NextSetupCallSays(client: Client, calls: seq<Call>, call: Call, s: Session, ws: seq<seq<byte>>)
    requires SessionOk(s, client) && s.SettingUp? && calls == AddCalls(ws)
    ensures CallsSay(calls + [call], Step(s, client, call))
  {
    if call.AddSetupBytes? {
      AddCallsSnoc(ws, call.bytes);
    } else if call.SealSetup? {
      assert calls + [call] == AddCalls(ws) + [SealSetup] + PieceCalls([]);
    }
  }

  lemma NextPieceCallSays(client: Client, calls: seq<Call>, call: Call, s: Session, ws: seq<seq<byte>>, rs: seq<seq<byte>>)
    requires SessionOk(s, client) && s.Matching? && calls == AddCalls(ws) + [SealSetup] + PieceCalls(rs)
    ensures CallsSay(calls + [call], Step(s, client, call))
  {
    if call.MatchResponsePiece? {
      PieceCallsSnoc(rs, call.bytes);
      assert calls + [call] == AddCalls(ws) + [SealSetup] + PieceCalls(rs + [call.bytes]);
    } else if call.Finish? {
      assert calls + [call] == InOrder(ws, rs);
    }
  }

  lemma NextCallSays(client: Client, calls: seq<Call>, call: Call, s: Session)
    requires SessionOk(s, client) && CallsSay(calls, s)
    ensures CallsSay(calls + [call], Step(s, client, call))
  {
    if s.SettingUp? {
      var ws :| calls == AddCalls(ws);
      NextSetupCallSays(client, calls, call, s, ws);
    } else if s.Matching? {
      var ws, rs :| calls == AddCalls(ws) + [SealSetup] + PieceCalls(rs);
      NextPieceCallSays(client, calls, call, s, ws, rs);
    }
  }

  lemma AddCallsSnoc(ws: seq<seq<byte>>, w: seq<byte>)
    ensures AddCalls(ws + [w]) == AddCalls(ws) + [AddSetupBytes(w)]
  {
  }

  lemma PieceCallsSnoc(ws: seq<seq<byte>>, w: seq<byte>)
    ensures PieceCalls(ws + [w]) == PieceCalls(ws) + [MatchResponsePiece(w)]
  {
  }

  /**
    Of all sequences of calls, exactly those in order whose two messages have an outcome end
    with a result, and the result is that outcome.
   */
  lemma FinishedExactlyInOrder(client: Client, calls: seq<Call>)
    ensures Run(NEW_SESSION, client, calls).Finished? <==>
              exists ws, rs :: calls == InOrder(ws, rs) && Outcome(client, Concat(ws), Concat(rs)).Some?
    ensures forall ws, rs :: calls == InOrder(ws, rs) && Outcome(client, Concat(ws), Concat(rs)).Some? ==>
              Run(NEW_SESSION, client, calls).result == Outcome(client, Concat(ws), Concat(rs)).value
  {
    RunsSay(client, calls);
    forall ws, rs | calls == InOrder(ws, rs)
      ensures var r, o := Run(NEW_SESSION, client, calls), Outcome(client, Concat(ws), Concat(rs));
              if o.Some? then r.Finished? && r.result == o.value else r.Failed?
    {
      InOrderGivesOutcome(client, ws, rs);
    }
  }
}
