/** Whole runs of the threaded loop: they end, they do what the sequential loop does, and the progress slot counts them. */
module ParallelRuns {
  import opened EcCipher
  import opened Shards
  import opened Wrappers
  import opened Parallel

  // ---- Every run ends ----

  function Left(range: (nat, nat), shard: Shard): int {
    match shard
    case Waiting => range.1 - range.0 + 2
    case Running(done, _) => range.1 - range.0 - done + 1
    case Ended(_, _) => 0
  }

  function TotalLeft(ranges: seq<(nat, nat)>, shards: seq<Shard>): int
    requires |ranges| == |shards|
  {
    if shards == [] then 0
    else
      var last := |shards| - 1;
      TotalLeft(ranges[..last], shards[..last]) + Left(ranges[last], shards[last])
  }

  function CallerLeft(caller: Caller, threads: nat): int {
    match caller
    case Spawning => threads + 2
    case Calling(_) => threads + 2
    case Joining(k) => threads + 1 - k
    case Returned(_) => 0
  }

  // Bounds the steps still to come.
  ghost function Measure(job: Job, s: State): int
    requires Fits(job, s)
  {
    TotalLeft(job.ranges, s.shards) + CallerLeft(s.caller, |s.shards|)
  }

  lemma {:induction false} LeftUpdated(ranges: seq<(nat, nat)>, shards: seq<Shard>, t: nat, shard: Shard)
    requires |ranges| == |shards| && t < |shards|
    ensures TotalLeft(ranges, shards[t := shard])
         == TotalLeft(ranges, shards) - Left(ranges[t], shards[t]) + Left(ranges[t], shard)
    decreases |shards|
  {
    var last := |shards| - 1;
    if t == last {
      assert shards[t := shard][..last] == shards[..last];
    } else {
      assert shards[t := shard][..last] == shards[..last][t := shard];
      LeftUpdated(ranges[..last], shards[..last], t, shard);
    }
  }

  lemma {:induction false} LeftIsNonnegative(ranges: seq<(nat, nat)>, shards: seq<Shard>)
    requires |ranges| == |shards|
    requires forall t :: 0 <= t < |shards| ==> Left(ranges[t], shards[t]) >= 0
    ensures TotalLeft(ranges, shards) >= 0
    decreases |shards|
  {
    if shards != [] {
      var last := |shards| - 1;
      LeftIsNonnegative(ranges[..last], shards[..last]);
    }
  }

  lemma MeasureIsNonnegative(job: Job, s: State)
    requires Inv(job, s)
    ensures Measure(job, s) >= 0
  {
    forall t | 0 <= t < |s.shards|
      ensures Left(job.ranges[t], s.shards[t]) >= 0
    {
      assert ShardInv(job, s, t);
    }
    LeftIsNonnegative(job.ranges, s.shards);
  }

  lemma BeginDecreases(job: Job, s: State, t: nat)
    requires Inv(job, s) && t < |s.shards| && Placed(s.caller, s.nextShard, t, Waiting)
    ensures TotalLeft(job.ranges, Begin(job, s, t).shards) == TotalLeft(job.ranges, s.shards) - 1
  {
    assert Placed(s.caller, s.nextShard, t, s.shards[t]);
    LeftUpdated(job.ranges, s.shards, t, Running(0, 0));
  }

  lemma EndDecreases(job: Job, s: State, t: nat, status: ShardStatus)
    requires Inv(job, s) && t < |s.shards| && s.shards[t].Running?
    ensures TotalLeft(job.ranges, End(job, s, t, status).shards) < TotalLeft(job.ranges, s.shards)
  {
    assert ShardInv(job, s, t);
    LeftUpdated(job.ranges, s.shards, t, Ended(s.shards[t].done, status));
  }

  lemma WorkDecreases(job: Job, s: State, t: nat)
    requires Inv(job, s) && WorkStep(job, s, t).Some?
    ensures Measure(job, WorkStep(job, s, t).value) < Measure(job, s)
  {
    assert ShardInv(job, s, t);
    LeftUpdated(job.ranges, s.shards, t, WorkStep(job, s, t).value.shards[t]);
  }

  lemma CallNextDecreases(job: Job, s: State)
    requires Inv(job, s) && CallNextStep(job, s).Some?
    ensures Measure(job, CallNextStep(job, s).value) < Measure(job, s)
  {
    var next := if s.caller.t == 0 then s.nextShard else s.caller.t + 1;
    if next < |s.shards| {
      BeginDecreases(job, s, next);
    }
  }

  lemma StepDecreases(job: Job, s: State, e: Event)
    requires Inv(job, s) && Step(job, s, e).Some?
    ensures Measure(job, Step(job, s, e).value) < Measure(job, s)
  {
    match e
    case Spawn => BeginDecreases(job, s, s.nextShard);
    case StopSpawning => BeginDecreases(job, s, 0);
    case CallNext => CallNextDecreases(job, s);
    case Join =>
    case Work(t) => WorkDecreases(job, s, t);
    case Leave(t) => EndDecreases(job, s, t, ShardOk);
    case Abort(t, code) => EndDecreases(job, s, t, Aborted(code));
  }

  /** No schedule can go on for ever, whatever the scheduler and the failures do. */
  lemma {:induction false} RunsAreBounded(job: Job, events: seq<Event>)
    requires IsJob(job) && Run(job, events).Some?
    ensures |events| + Measure(job, Run(job, events).value) <= Measure(job, Initial(job))
    ensures |events| <= Measure(job, Initial(job))
    decreases |events|
  {
    RunKeeps(job, events);
    MeasureIsNonnegative(job, Run(job, events).value);
    if events != [] {
      var before := events[..|events|-1];
      RunsAreBounded(job, before);
      RunKeeps(job, before);
      StepDecreases(job, Run(job, before).value, events[|events|-1]);
    }
  }

  // A step of a running shard that nothing but a failing input can hinder.
  function Willing(job: Job, t: nat, shard: Shard): Event
    requires shard.Running? && t < |job.ranges|
  {
    if job.ranges[t].0 + shard.done < job.ranges[t].1 then Work(t) else Leave(t)
  }

  // A step that can be taken wherever the operation stands.
  function Next(job: Job, s: State): Event {
    match s.caller
    case Spawning => if s.nextShard < |s.shards| then Spawn else StopSpawning
    case Calling(t) =>
      if t < |s.shards| && t < |job.ranges| && s.shards[t].Running? then Willing(job, t, s.shards[t]) else CallNext
    case Joining(k) =>
      if k < s.nextShard && k < |s.shards| && k < |job.ranges| && s.shards[k].Running? then Willing(job, k, s.shards[k]) else Join
    case Returned(_) => Join
  }

  /** The operation stops nowhere short of the return, even if nothing fails that need not. */
  lemma NoDeadlock(job: Job, s: State)
    requires Inv(job, s) && !s.caller.Returned?
    ensures Step(job, s, Next(job, s)).Some? && !Next(job, s).Abort?
  {
    match s.caller
    case Spawning =>
    case Calling(t) =>
      assert Placed(s.caller, s.nextShard, t, s.shards[t]);
    case Joining(k) =>
      if k < s.nextShard {
        assert Placed(s.caller, s.nextShard, k, s.shards[k]);
      }
  }

  /**
    Nothing in the system makes the threads wait for one another: creating a thread may fail
    wherever it is tried, and a running shard can go on, or be aborted, whatever the others do.
   */
  lemma ThreadsDoNotWait(job: Job, s: State)
    requires Inv(job, s)
    ensures s.caller.Spawning? ==>
              Step(job, s, StopSpawning).Some? && (s.nextShard < |s.shards| ==> Step(job, s, Spawn).Some?)
    ensures forall t: nat :: t < |s.shards| && s.shards[t].Running? ==>
              Step(job, s, Willing(job, t, s.shards[t])).Some? && forall code :: Step(job, s, Abort(t, code)).Some?
  {
    forall t: nat | t < |s.shards| && s.shards[t].Running?
      ensures Step(job, s, Willing(job, t, s.shards[t])).Some? && forall code :: Step(job, s, Abort(t, code)).Some?
    {
      assert ShardInv(job, s, t);
    }
  }

  // A shard that has worked leaves another where it was.
  lemma StillWorks(job: Job, s: State, t: nat, u: nat)
    requires Fits(job, s) && t != u && Step(job, s, Work(t)).Some? && Step(job, s, Work(u)).Some?
    ensures var st := Step(job, s, Work(t)).value;
            u < |st.shards| && st.shards[u] == s.shards[u] && Step(job, st, Work(u)).Some?
  {
    WorkDoes(job, s, t);
  }

  // Both shards' inputs called, each once more, and their outputs stored.
  ghost predicate BothWorked(job: Job, s: State, i: nat, j: nat, r: State)
    requires Fits(job, s) && i < |job.inputs| && j < |job.inputs|
  {
    && r.calls == s.calls[i := s.calls[i] + 1][j := s.calls[j] + 1]
    && var first := if job.op(job.inputs[i]).Success? then s.outputs[i := job.op(job.inputs[i]).element] else s.outputs;
       r.outputs == if job.op(job.inputs[j]).Success? then first[j := job.op(job.inputs[j]).element] else first
  }

  lemma WorkAfter(job: Job, s: State, t: nat, u: nat)
    requires Inv(job, s) && t != u && Step(job, s, Work(t)).Some? && Step(job, s, Work(u)).Some?
    ensures var st, i, j := Step(job, s, Work(t)).value, job.ranges[t].0 + s.shards[t].done, job.ranges[u].0 + s.shards[u].done;
            && i < |job.inputs| && j < |job.inputs| && i != j
            && Step(job, st, Work(u)).Some? && BothWorked(job, s, i, j, Step(job, st, Work(u)).value)
  {
    if t < u {
      RangesAscend(job.ranges, |job.inputs|, t, u);
    } else {
      RangesAscend(job.ranges, |job.inputs|, u, t);
    }
    StillWorks(job, s, t, u);
    WorkDoes(job, s, t);
    WorkDoes(job, Step(job, s, Work(t)).value, u);
  }

  /** Two shards that work come to the same outputs in either order. */
  lemma ShardsDoNotMeet(job: Job, s: State, t: nat, u: nat)
    requires Inv(job, s) && t != u && Step(job, s, Work(t)).Some? && Step(job, s, Work(u)).Some?
    ensures var a, b := Step(job, Step(job, s, Work(t)).value, Work(u)), Step(job, Step(job, s, Work(u)).value, Work(t));
            a.Some? && b.Some? && a.value.outputs == b.value.outputs && a.value.calls == b.value.calls
  {
    WorkAfter(job, s, t, u);
    WorkAfter(job, s, u, t);
    var i, j := job.ranges[t].0 + s.shards[t].done, job.ranges[u].0 + s.shards[u].done;
    SwapUpdates(s.calls, i, s.calls[i] + 1, j, s.calls[j] + 1);
    if job.op(job.inputs[i]).Success? && job.op(job.inputs[j]).Success? {
      SwapUpdates(s.outputs, i, job.op(job.inputs[i]).element, j, job.op(job.inputs[j]).element);
    }
  }

  // What one input does: it is called, and its output stored or the shard ended; the others stay.
  lemma WorkDoes(job: Job, s: State, t: nat)
    requires Fits(job, s) && Step(job, s, Work(t)).Some?
    ensures var s', i := Step(job, s, Work(t)).value, job.ranges[t].0 + s.shards[t].done;
            && i < |job.inputs| && s'.calls == s.calls[i := s.calls[i] + 1]
            && (forall v :: 0 <= v < |s.shards| && v != t ==> s'.shards[v] == s.shards[v])
            && match job.op(job.inputs[i])
               case Success(e) =>
                 && s'.outputs == s.outputs[i := e]
                 && Done(s'.shards[t]) == s.shards[t].done + 1 && StatusOf(s'.shards[t]) == ShardOk
               case Failure(code) =>
                 && s'.outputs == s.outputs
                 && Done(s'.shards[t]) == s.shards[t].done && StatusOf(s'.shards[t]) == OpFailed(code)
  {
  }

  lemma SwapUpdates<T>(s: seq<T>, i: nat, x: T, j: nat, y: T)
    requires i < |s| && j < |s| && i != j
    ensures s[i := x][j := y] == s[j := y][i := x]
  {
  }

  // ---- What a finished run has done ----

  lemma {:induction false} FirstErrorIs(statuses: seq<ShardStatus>)
    ensures FirstError(statuses) == ShardOk ==> forall t :: 0 <= t < |statuses| ==> statuses[t] == ShardOk
    ensures FirstError(statuses) != ShardOk ==>
              exists t :: 0 <= t < |statuses| && statuses[t] == FirstError(statuses)
                          && forall u :: 0 <= u < t ==> statuses[u] == ShardOk
    decreases |statuses|
  {
    if statuses != [] {
      var before := statuses[..|statuses|-1];
      FirstErrorIs(before);
      if FirstError(before) != ShardOk {
        var t :| 0 <= t < |before| && before[t] == FirstError(before)
                 && forall u :: 0 <= u < t ==> before[u] == ShardOk;
        assert statuses[t] == FirstError(statuses);
        assert forall u :: 0 <= u < t ==> statuses[u] == before[u];
      } else {
        assert forall u :: 0 <= u < |before| ==> statuses[u] == before[u];
      }
    }
  }

  lemma AllShardsOk(job: Job, s: State)
    requires Inv(job, s) && s.caller == Returned(ShardOk)
    ensures TransformAll(job.inputs, job.op) == AllDone(s.outputs)
    ensures forall i :: 0 <= i < |job.inputs| ==> s.calls[i] == 1
  {
    AllPlaced(s);
    FirstErrorIs(Statuses(s.shards));
    forall i | 0 <= i < |job.inputs|
      ensures job.op(job.inputs[i]) == Success(s.outputs[i]) && s.calls[i] == 1
    {
      var t := SomeRange(job.ranges, |job.inputs|, i, |job.ranges|);
      assert ShardInv(job, s, t);
    }
    TransformAllIs(job.inputs, job.op);
  }

  lemma AllPlaced(s: State)
    requires CallerInv(s) && s.caller.Returned?
    ensures forall t :: 0 <= t < |s.shards| ==> s.shards[t].Ended?
  {
    forall t | 0 <= t < |s.shards|
      ensures s.shards[t].Ended?
    {
      assert Placed(s.caller, s.nextShard, t, s.shards[t]);
    }
  }

  // With every earlier shard done, shard t stopped at the first input that fails.
  lemma FirstFailureIs(job: Job, s: State, t: nat)
    requires Inv(job, s) && t < |s.shards| && s.shards[t].Ended? && s.shards[t].status.OpFailed?
    requires forall u :: 0 <= u < t ==> s.shards[u].Ended? && s.shards[u].status == ShardOk
    ensures TransformAll(job.inputs, job.op) == FirstFailure(s.shards[t].status.code)
  {
    assert ShardInv(job, s, t);
    var k := job.ranges[t].0 + s.shards[t].done;
    forall i | 0 <= i < k
      ensures job.op(job.inputs[i]).Success?
    {
      var u := SomeRange(job.ranges, |job.inputs|, i, t + 1);
      assert ShardInv(job, s, u);
    }
    TransformAllIs(job.inputs, job.op);
  }

  // Only an abort makes a shard aborted.
  lemma AbortedByAbort(job: Job, s: State, e: Event, t: nat)
    requires Fits(job, s) && Step(job, s, e).Some? && t < |s.shards| && !e.Abort?
    requires StatusOf(Step(job, s, e).value.shards[t]).Aborted?
    ensures StatusOf(s.shards[t]).Aborted?
  {
  }

  lemma {:induction false} AbortsAreEvents(job: Job, events: seq<Event>, t: nat)
    requires IsJob(job) && Run(job, events).Some?
    requires t < |job.ranges| && StatusOf(Run(job, events).value.shards[t]).Aborted?
    ensures exists k :: 0 <= k < |events| && events[k].Abort?
    decreases |events|
  {
    var before, last := events[..|events|-1], events[|events|-1];
    if !last.Abort? {
      AbortedByAbort(job, Run(job, before).value, last, t);
      AbortsAreEvents(job, before, t);
      var k :| 0 <= k < |before| && before[k].Abort?;
      assert events[k].Abort?;
    }
  }

  // The shard whose error a call has returned.
  lemma FirstToFail(job: Job, s: State) returns (t: nat)
    requires Inv(job, s) && s.caller.Returned? && s.caller.status != ShardOk
    ensures t < |s.shards| && s.shards[t].Ended? && s.shards[t].status == s.caller.status
    ensures forall u :: 0 <= u < t ==> s.shards[u].Ended? && s.shards[u].status == ShardOk
  {
    AllPlaced(s);
    FirstErrorIs(Statuses(s.shards));
    t :| 0 <= t < |s.shards| && Statuses(s.shards)[t] == FirstError(Statuses(s.shards))
         && forall u :: 0 <= u < t ==> Statuses(s.shards)[u] == ShardOk;
    assert forall u :: 0 <= u < t ==> s.shards[u].status == Statuses(s.shards)[u];
  }

  /**
    Whatever the schedule, the number of shards and the point at which thread creation fails,
    a call that returns has done what the sequential loop does: the same outputs, or the error
    at the smallest failing position. Only a shard that was aborted can make it return another
    error.
   */
  lemma ParallelRefinesSequential(job: Job, events: seq<Event>)
    requires IsJob(job) && Run(job, events).Some? && Run(job, events).value.caller.Returned?
    ensures var s := Run(job, events).value;
            match s.caller.status
            case ShardOk => TransformAll(job.inputs, job.op) == AllDone(s.outputs)
            case OpFailed(code) => TransformAll(job.inputs, job.op) == FirstFailure(code)
            case Aborted(_) => exists k :: 0 <= k < |events| && events[k].Abort?
  {
    RunKeeps(job, events);
    var s := Run(job, events).value;
    if s.caller.status == ShardOk {
      AllShardsOk(job, s);
    } else {
      var t := FirstToFail(job, s);
      if s.shards[t].status.OpFailed? {
        FirstFailureIs(job, s, t);
      } else {
        AbortsAreEvents(job, events, t);
      }
    }
  }

  /** Every shard runs exactly once, and no input is transformed twice. */
  lemma EachExactlyOnce(job: Job, events: seq<Event>)
    requires IsJob(job) && Run(job, events).Some? && Run(job, events).value.caller.Returned?
    ensures var s := Run(job, events).value;
            && (forall t :: 0 <= t < |s.starts| ==> s.starts[t] == 1)
            && (forall i :: 0 <= i < |s.calls| ==> s.calls[i] <= 1)
            && (s.caller.status == ShardOk ==> forall i :: 0 <= i < |s.calls| ==> s.calls[i] == 1)
  {
    RunKeeps(job, events);
    var s := Run(job, events).value;
    AllPlaced(s);
    forall t | 0 <= t < |s.starts|
      ensures s.starts[t] == 1
    {
      assert ShardInv(job, s, t);
    }
    forall i | 0 <= i < |s.calls|
      ensures s.calls[i] <= 1
    {
      var t := SomeRange(job.ranges, |job.inputs|, i, |job.ranges|);
      assert ShardInv(job, s, t);
    }
    if s.caller.status == ShardOk {
      AllShardsOk(job, s);
    }
  }

  /** The hypotheses are not empty: from any reachable state, a run without aborts returns. */
  lemma {:induction false} SomeRunReturns(job: Job, events: seq<Event>) returns (more: seq<Event>)
    requires IsJob(job) && Run(job, events).Some?
    ensures events <= more && Run(job, more).Some? && Run(job, more).value.caller.Returned?
    ensures forall k :: |events| <= k < |more| ==> !more[k].Abort?
    decreases Measure(job, Run(job, events).value)
  {
    RunKeeps(job, events);
    var s := Run(job, events).value;
    if s.caller.Returned? {
      more := events;
    } else {
      var e := Next(job, s);
      NoDeadlock(job, s);
      assert (events + [e])[..|events|] == events;
      MeasureIsNonnegative(job, s);
      StepDecreases(job, s, e);
      more := SomeRunReturns(job, events + [e]);
    }
  }

  // ---- Progress ----

  function Published(shards: seq<Shard>): int {
    TotalDone(shards) - TotalPending(shards)
  }

  lemma {:induction false} TotalsWithin(job: Job, s: State, t: nat)
    requires Inv(job, s) && t <= |s.shards|
    ensures TotalPending(s.shards[..t]) <= TotalDone(s.shards[..t]) <= (if t == 0 then 0 else job.ranges[t-1].1)
    ensures s.caller == Returned(ShardOk) ==>
              TotalPending(s.shards[..t]) == 0
              && TotalDone(s.shards[..t]) == (if t == 0 then 0 else job.ranges[t-1].1)
  {
    if t > 0 {
      TotalsWithin(job, s, t - 1);
      assert ShardInv(job, s, t - 1);
      assert s.shards[..t][..t-1] == s.shards[..t-1];
      if s.caller == Returned(ShardOk) {
        AllPlaced(s);
        FirstErrorIs(Statuses(s.shards));
      }
    }
  }

  lemma PublishedWithin(job: Job, s: State)
    requires Inv(job, s)
    ensures 0 <= Published(s.shards) <= TotalDone(s.shards) <= |job.inputs|
    ensures s.caller == Returned(ShardOk) ==> Published(s.shards) == |job.inputs|
  {
    assert s.shards[..|s.shards|] == s.shards;
    TotalsWithin(job, s, |s.shards|);
  }

  lemma StepPublishes(job: Job, s: State, e: Event)
    requires Inv(job, s) && Step(job, s, e).Some?
    ensures Published(s.shards) <= Published(Step(job, s, e).value.shards)
  {
    var s' := Step(job, s, e).value;
    if e.Work? || e.Leave? || e.Abort? {
      assert ShardInv(job, s, e.t);
      TotalsUpdated(s.shards, e.t, s'.shards[e.t]);
    } else if e.Spawn? || e.StopSpawning? || (e.CallNext? && s'.caller.Calling?) {
      var t := if e.Spawn? then s.nextShard else s'.caller.t;
      assert Placed(s.caller, s.nextShard, t, s.shards[t]);
      TotalsUpdated(s.shards, t, Running(0, 0));
    }
  }

  /** From a slot reset to 0: slot plus what is buffered is what has been transformed. */
  lemma SlotPlusPendingIsDone(job: Job, events: seq<Event>)
    requires IsJob(job) && Run(job, events).Some? && job.slot == Some(0) && |job.inputs| < 0x8000_0000
    ensures var s := Run(job, events).value;
            && s.slot.Some? && s.slot.value + TotalPending(s.shards) == TotalDone(s.shards) <= |job.inputs|
            && (s.caller == Returned(ShardOk) ==> s.slot.value == |job.inputs|)
  {
    RunKeeps(job, events);
    PublishedWithin(job, Run(job, events).value);
  }

  /** And a poller never sees it fall. */
  lemma {:induction false} SlotNeverFalls(job: Job, events: seq<Event>, k: nat)
    requires IsJob(job) && Run(job, events).Some? && job.slot == Some(0) && |job.inputs| < 0x8000_0000
    requires k <= |events|
    ensures Run(job, events[..k]).Some? && Run(job, events[..k]).value.slot.Some?
    ensures Run(job, events).value.slot.Some?
    ensures Run(job, events[..k]).value.slot.value <= Run(job, events).value.slot.value
    decreases |events|
  {
    SlotPlusPendingIsDone(job, events);
    if k == |events| {
      assert events[..k] == events;
    } else {
      var before := events[..|events|-1];
      assert before[..k] == events[..k];
      SlotNeverFalls(job, before, k);
      RunKeeps(job, before);
      SlotPlusPendingIsDone(job, before);
      StepPublishes(job, Run(job, before).value, events[|events|-1]);
    }
  }
}
