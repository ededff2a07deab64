/** The matcher object called as a caller calls it: any list of calls, and the two messages window by window. */
module MatchDriver {
  import opened Bytes
  import opened Wire
  import opened Bulk
  import opened MatchSpec
  import opened PsiMatches
  import opened Sessions

  // The session has ended because a shard was aborted.
  predicate IsLost(s: Session) {
    s.Failed? && s.status.ShardFailed?
  }

  // One call on the object.
  method Perform(m: PsiMatch, call: Call) returns (status: Status)
    requires m.Valid()
    modifies m.Repr()
    ensures m.Valid() && fresh(m.Repr() - old(m.Repr()))
    ensures SessionOk(old(m.State()), m.client)
    ensures m.State() == Step(old(m.State()), m.client, call) || (!NeverAborts(m.build) && IsLost(m.State()))
    ensures IsLost(old(m.State())) ==> m.State() == old(m.State())
    ensures status == StatusOf(m.State())
  {
    m.ValidIsSessionOk();
    match call {
      case AddSetupBytes(bytes) =>
        status := m.AddSetupBytes(bytes);
      case SealSetup =>
        status := m.SealSetup();
      case MatchResponsePiece(bytes) =>
        status := m.MatchResponsePiece(bytes, null);
      case Finish =>
        var res;
        status, res := m.Finish();
    }
  }

  /**
    An object driven through any list of calls comes to what the run of the session comes to,
    whatever the build; on threads a shard that is aborted can end the session before.
   */
  method Drive(client: Client, build: Build, calls: seq<Call>) returns (m: PsiMatch)
    ensures fresh(m) && fresh(m.Repr()) && m.Valid() && m.client == client && m.build == build
    ensures m.State() == Run(NEW_SESSION, client, calls) || (!NeverAborts(build) && IsLost(m.State()))
  {
    m := new PsiMatch(client, build);
    assert calls[..0] == [];
    for k := 0 to |calls|
      invariant fresh(m) && fresh(m.Repr()) && m.Valid() && m.client == client && m.build == build
      invariant m.State() == Run(NEW_SESSION, client, calls[..k]) || (!NeverAborts(build) && IsLost(m.State()))
    {
      NextCall(client, calls, k);
      var _ := Perform(m, calls[k]);
    }
    assert calls[..|calls|] == calls;
  }

  lemma NextCall(client: Client, calls: seq<Call>, k: nat)
    requires k < |calls|
    ensures Run(NEW_SESSION, client, calls[..k + 1]) == Step(Run(NEW_SESSION, client, calls[..k]), client, calls[k])
  {
    assert calls[..k + 1] == calls[..k] + [calls[k]];
    OneCallMore(client, calls[..k], calls[k]);
  }

  // The session before the last call, and what that call makes of it.
  lemma LastCall(client: Client, setup: seq<seq<byte>>, response: seq<seq<byte>>, s: Session)
    requires s == Run(NEW_SESSION, client, AddCalls(setup) + [SealSetup] + PieceCalls(response)) && SessionOk(s, client)
    ensures var o, r := Outcome(client, Concat(setup), Concat(response)), DoFinish(s, client);
            if o.Some? then r.Finished? && r.result == o.value else r.Failed?
  {
    var calls := AddCalls(setup) + [SealSetup] + PieceCalls(response);
    assert InOrder(setup, response) == calls + [Finish];
    OneCallMore(client, calls, Finish);
    InOrderGivesOutcome(client, setup, response);
  }

  lemma OneCallMore(client: Client, calls: seq<Call>, call: Call)
    ensures Run(NEW_SESSION, client, calls + [call]) == Step(Run(NEW_SESSION, client, calls), client, call)
  {
    RunInTwo(NEW_SESSION, client, calls, [call]);
    OneStep(Run(NEW_SESSION, client, calls), client, call);
  }

  /**
    The documented use of the class: the setup's windows, the seal, the response's windows, the
    end. Whatever the build and however the messages are cut, it returns a result exactly when they
    have an outcome, and that outcome, unless a shard was aborted; the cipher has then been called
    once for every entry.
   */
  method MatchInWindows(client: Client, build: Build, setup: seq<seq<byte>>, response: seq<seq<byte>>)
    returns (m: PsiMatch, status: Status, res: PsiMatchResult)
    ensures m.Valid()
    ensures var o := Outcome(client, Concat(setup), Concat(response));
            || (!NeverAborts(build) && status.ShardFailed?)
            || if o.Some? then status == Ok && res == o.value && |m.cipher.calls| == res.decryptedCount else status != Ok
  {
    var calls := AddCalls(setup) + [SealSetup] + PieceCalls(response);
    m := Drive(client, build, calls);
    m.ValidIsSessionOk();
    if m.State() == Run(NEW_SESSION, client, calls) {
      LastCall(client, setup, response, m.State());
    }
    status, res := m.Finish();
  }
}
