/** The whole protocol with the streaming matcher at its end, its messages serialized and cut anywhere. */
module StreamedProtocol {
  import opened Bytes
  import opened Sorting
  import opened EcCipher
  import opened Permute
  import opened MatchSpec
  import opened Languages
  import opened RawContainer
  import opened Agreement
  import Sessions
  import Protocol
  import Rounds

  function MatcherOf(client: Protocol.Party): Client {
    Client(client.decrypt, client.revealIntersection)
  }

  // The sizes the wire format can carry.
  predicate FitsWire(setupElements: seq<Element>, sent: seq<Element>) {
    && (forall k :: 0 <= k < |setupElements| ==> |setupElements[k]| <= 1 + 256 / 8)
    && (forall k :: 0 <= k < |sent| ==> |sent[k]| <= 1 + 256 / 8)
    && |SerializeEntries(setupElements)| < 0x1_0000_0000
    && |sent| < 0x1_0000_0000
  }

  // What a session reads from two serialized messages.
  lemma SerializedOutcome(client: Client, es: seq<Element>, sent: seq<Element>)
    requires FitsWire(es, sent) && StrictlyAscending(es) && TransformAll(sent, client.decrypt).AllDone?
    ensures var o := Sessions.Outcome(client, SerializeSetup(es), SerializeEntries(sent));
            o.Some? && o.value == ResultOf(es, TransformAll(sent, client.decrypt).outputs, client.revealIntersection)
  {
    SetupRoundTrip(es);
    ResponseRoundTrip(sent);
  }

  // Distinct inputs under an injective key stay distinct.
  lemma SetupIsDistinct(server: Protocol.Party, serverInputs: seq<Element>, setup: Protocol.ServerSetup, perm: seq<nat>)
    requires Rounds.Injective(server.encrypt) && TransformAll(serverInputs, server.encrypt).AllDone?
    requires Protocol.IsSetupOf(server, serverInputs, setup, perm)
    ensures AllDistinct(setup.encryptedElements) <==> AllDistinct(serverInputs)
  {
    var encrypted := TransformAll(serverInputs, server.encrypt).outputs;
    TransformAllIs(serverInputs, server.encrypt);
    PermutedDistinct(encrypted, perm);
    assert forall i, j :: 0 <= i < j < |serverInputs| ==> (encrypted[i] == encrypted[j] <==> serverInputs[i] == serverInputs[j]) by {
      forall i, j | 0 <= i < j < |serverInputs|
        ensures encrypted[i] == encrypted[j] <==> serverInputs[i] == serverInputs[j]
      {
        assert server.encrypt(serverInputs[i]) == Success(encrypted[i]);
        assert server.encrypt(serverInputs[j]) == Success(encrypted[j]);
        assert Rounds.Separates(server.encrypt, serverInputs[i], serverInputs[j]);
      }
    }
  }

  /**
    The setup the server serializes is accepted by the streaming matcher, however it is cut, if
    and only if the server's inputs are pairwise distinct.
   */
  lemma SetupAcceptedIffInputsDistinct(client: Client, server: Protocol.Party, serverInputs: seq<Element>,
                                       setup: Protocol.ServerSetup, perm: seq<nat>, windows: seq<seq<byte>>)
    requires Rounds.Injective(server.encrypt) && TransformAll(serverInputs, server.encrypt).AllDone?
    requires Protocol.IsSetupOf(server, serverInputs, setup, perm)
    requires FitsWire(setup.encryptedElements, []) && Concat(windows) == SerializeSetup(setup.encryptedElements)
    ensures Run(NEW_SESSION, client, Sessions.AddCalls(windows) + [SealSetup]).Matching? <==> AllDistinct(serverInputs)
  {
    SetupIsDistinct(server, serverInputs, setup, perm);
    Sessions.SealedSetup(client, windows);
    SortedSetupAcceptedIffDistinct(setup.encryptedElements);
  }

  /**
    End to end through the streaming matcher: for distinct server inputs, however the two
    messages are cut, the session succeeds; every client element is decrypted once, the size is
    that of the multiset intersection of the inputs, and, when matches are revealed, the pairs
    recorded are exactly the pairs of equal inputs.
   */
  lemma StreamedProtocolIsExact(client: Protocol.Party, server: Protocol.Party,
                                clientInputs: seq<Element>, serverInputs: seq<Element>,
                                setup: Protocol.ServerSetup, perm: seq<nat>, reencrypted: seq<Element>, plains: seq<Element>,
                                sent: seq<Element>, setupWindows: seq<seq<byte>>, responseWindows: seq<seq<byte>>)
    requires Rounds.Commute(client, server) && Rounds.Injective(server.encrypt)
    requires Rounds.IsRound(client, server, clientInputs, serverInputs, setup, perm, reencrypted, plains)
    requires AllDistinct(serverInputs)
    requires if client.revealIntersection then sent == reencrypted else multiset(sent) == multiset(reencrypted)
    requires FitsWire(setup.encryptedElements, sent)
    requires Concat(setupWindows) == SerializeSetup(setup.encryptedElements)
    requires Concat(responseWindows) == SerializeEntries(sent)
    ensures var r := Run(NEW_SESSION, MatcherOf(client), Sessions.InOrder(setupWindows, responseWindows));
            && r.Finished?
            && r.result.decryptedCount == |clientInputs|
            && r.result.intersectionSize == |multiset(clientInputs) * multiset(serverInputs)|
            && (forall k :: 0 <= k < |r.result.setupIndices| ==> r.result.setupIndices[k] < |perm|)
            && if client.revealIntersection then
                 IsAssociationTable(clientInputs, serverInputs, r.result.responseIndices, Rounds.Through(r.result.setupIndices, perm))
               else r.result.responseIndices == [] && r.result.setupIndices == []
  {
    var matcher, es := MatcherOf(client), setup.encryptedElements;
    SetupIsDistinct(server, serverInputs, setup, perm);
    StrictlyAscendingIffDistinct(es);
    Rounds.SizeIsExact(client, server, clientInputs, serverInputs, setup, perm, reencrypted, plains, sent);
    Rounds.BothSides(client, server, clientInputs, serverInputs, setup, perm, reencrypted, plains);
    var read := TransformAll(sent, client.decrypt).outputs;
    RearrangedHasSameMembers(reencrypted, sent);
    Sessions.InOrderGivesOutcome(matcher, setupWindows, responseWindows);
    SerializedOutcome(matcher, es, sent);
    SizeOfMatched(es, read);
    if client.revealIntersection {
      PairsAreTheLibrarys(es, read);
      Rounds.AssociationIsExact(client, server, clientInputs, serverInputs, setup, perm, reencrypted, plains,
                                  ResponseRows(es, read), SetupCols(es, read));
    }
  }

  /** Whatever was called, the counts and positions of a result fit the 32-bit indices it is made of. */
  lemma IndicesFit(client: Client, calls: seq<Call>)
    requires Run(NEW_SESSION, client, calls).Finished?
    ensures var result := Run(NEW_SESSION, client, calls).result;
            && result.decryptedCount < 0x1_0000_0000 && result.intersectionSize < 0x1_0000_0000
            && |result.responseIndices| == |result.setupIndices|
            && forall k :: 0 <= k < |result.responseIndices| ==>
                 result.responseIndices[k] < 0x1_0000_0000 && result.setupIndices[k] < 0x1_0000_0000
  {
    Sessions.FinishedExactlyInOrder(client, calls);
    var ws, rs :| calls == Sessions.InOrder(ws, rs) && Sessions.Outcome(client, Concat(ws), Concat(rs)).Some?;
    var es := Wire.SetupBytes(Wire.EMPTY_SETUP, Concat(ws)).elements;
    var entries := Wire.FeedBytes(Wire.Feed(Wire.AtTag, [], Wire.Ok), Concat(rs), AcceptResponseElement).entries;
    SetupBytesKeepGood(Wire.EMPTY_SETUP, Concat(ws));
    ResponseFits(Concat(rs));
    var plains := TransformAll(entries, client.decrypt).outputs;
    ColumnsAre(es, plains);
    StrictlyAscendingIsAscending(es);
    SubsetSize(MatchedSetup(es, plains), IndexSet(|es|));
  }
}
