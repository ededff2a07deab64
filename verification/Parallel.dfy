/**
  The threaded loop as a transition system: one program counter for the calling thread and one
  for each shard, with a scheduler that may pick any enabled step, and with thread creation
  failing wherever it likes.
 */
module Parallel {
  import opened Bytes
  import opened EcCipher
  import opened Progress
  import opened Shards
  import opened Wrappers

  // slot is the word progress is published to as the call finds it; None is the null slot.
  datatype Job = Job(inputs: seq<Element>, op: Op, ranges: seq<(nat, nat)>, slot: Option<Word>)

  // Aborted: the shard's cipher could not be built, or an exception was caught.
  datatype ShardStatus = ShardOk | OpFailed(code: int) | Aborted(code: int)

  // done counts the shard's inputs already transformed and stored.
  datatype Shard = Waiting | Running(done: nat, pending: nat) | Ended(done: nat, status: ShardStatus)

  // Calling(t): running shard t itself. Joining(k): waiting for the thread of shard k.
  datatype Caller = Spawning | Calling(t: nat) | Joining(k: nat) | Returned(status: ShardStatus)

  // Shards 1 to nextShard - 1 have a thread. starts and calls count, for each shard, how often
  // it was started and, for each input, how often the operation returned on it.
  datatype State = State(caller: Caller, nextShard: nat, shards: seq<Shard>, outputs: seq<Element>,
                         slot: Option<Word>, starts: seq<nat>, calls: seq<nat>)

  // StopSpawning: the creation loop is over, or creating the next thread failed.
  datatype Event =
    | Spawn | StopSpawning | CallNext | Join
    | Work(t: nat) | Leave(t: nat) | Abort(t: nat, code: int)

  ghost predicate IsJob(job: Job) {
    && IsSplit(job.ranges, |job.inputs|)
    && forall t :: 0 <= t < |job.ranges| ==> job.ranges[t].1 <= |job.inputs|
  }

  lemma SplitMakesAJob(inputs: seq<Element>, op: Op, ranges: seq<(nat, nat)>, slot: Option<Word>)
    requires IsSplit(ranges, |inputs|)
    ensures IsJob(Job(inputs, op, ranges, slot))
  {
    forall t | 0 <= t < |ranges|
      ensures ranges[t].1 <= |inputs|
    {
      RangesEnd(ranges, |inputs|, t);
    }
  }

  ghost predicate Fits(job: Job, s: State) {
    && IsJob(job)
    && |s.shards| == |s.starts| == |job.ranges|
    && |s.outputs| == |s.calls| == |job.inputs|
  }

  function Done(shard: Shard): nat {
    if shard.Waiting? then 0 else shard.done
  }

  function Pending(shard: Shard): nat {
    if shard.Running? then shard.pending else 0
  }

  function StatusOf(shard: Shard): ShardStatus {
    if shard.Ended? then shard.status else ShardOk
  }

  // The statuses in shard order; a shard that has not ended has reported no error.
  function Statuses(shards: seq<Shard>): (r: seq<ShardStatus>)
    ensures |r| == |shards| && forall t :: 0 <= t < |r| ==> r[t] == StatusOf(shards[t])
  {
    if shards == [] then [] else Statuses(shards[..|shards|-1]) + [StatusOf(shards[|shards|-1])]
  }

  // The first status in shard order that is an error.
  function FirstError(statuses: seq<ShardStatus>): ShardStatus {
    if statuses == [] then ShardOk
    else
      var before := FirstError(statuses[..|statuses|-1]);
      if before != ShardOk then before else statuses[|statuses|-1]
  }

  function Begin(job: Job, s: State, t: nat): (r: State)
    requires Fits(job, s) && t < |s.shards|
    ensures Fits(job, r)
  {
    s.(shards := s.shards[t := Running(0, 0)], starts := s.starts[t := s.starts[t] + 1])
  }

  // The shard's counter publishes what it buffered when the shard ends.
  function End(job: Job, s: State, t: nat, status: ShardStatus): (r: State)
    requires Fits(job, s) && t < |s.shards| && s.shards[t].Running?
    ensures Fits(job, r)
  {
    s.(shards := s.shards[t := Ended(s.shards[t].done, status)],
       slot := Flushed(Counter(s.shards[t].pending, s.slot)).slot)
  }

  function Called(job: Job, s: State, i: nat): (r: State)
    requires Fits(job, s) && i < |s.calls|
    ensures Fits(job, r)
  {
    s.(calls := s.calls[i := s.calls[i] + 1])
  }

  function Stored(job: Job, s: State, t: nat, i: nat, e: Element): (r: State)
    requires Fits(job, s) && t < |s.shards| && s.shards[t].Running? && i < |s.outputs|
    ensures Fits(job, r)
  {
    var c := Incremented(Counter(s.shards[t].pending, s.slot));
    s.(outputs := s.outputs[i := e], slot := c.slot,
       shards := s.shards[t := Running(s.shards[t].done + 1, c.pending)])
  }

  // The calling thread turns to its next shard, or to waiting for the threads.
  function CallNextStep(job: Job, s: State): (r: Option<State>)
    requires Fits(job, s)
    ensures r.Some? ==> Fits(job, r.value)
  {
    if s.caller.Calling? && s.caller.t < |s.shards| && s.shards[s.caller.t].Ended? then
      var next := if s.caller.t == 0 then s.nextShard else s.caller.t + 1;
      if next < |s.shards| then Some(Begin(job, s, next).(caller := Calling(next)))
      else Some(s.(caller := Joining(1)))
    else None
  }

  // Shard t calls the operation on its next input.
  function WorkStep(job: Job, s: State, t: nat): (r: Option<State>)
    requires Fits(job, s)
    ensures r.Some? ==> Fits(job, r.value)
  {
    if t < |s.shards| && s.shards[t].Running? && job.ranges[t].0 + s.shards[t].done < job.ranges[t].1 then
      var i := job.ranges[t].0 + s.shards[t].done;
      match job.op(job.inputs[i])
      case Success(e) => Some(Stored(job, Called(job, s, i), t, i, e))
      case Failure(code) => Some(End(job, Called(job, s, i), t, OpFailed(code)))
    else None
  }

  // What one scheduled step does; None when it is not enabled.
  function Step(job: Job, s: State, e: Event): (r: Option<State>)
    requires Fits(job, s)
    ensures r.Some? ==> Fits(job, r.value)
  {
    match e
    case Spawn =>
      if s.caller.Spawning? && s.nextShard < |s.shards|
      then Some(Begin(job, s, s.nextShard).(nextShard := s.nextShard + 1))
      else None
    case StopSpawning =>
      if s.caller.Spawning? then Some(Begin(job, s, 0).(caller := Calling(0))) else None
    case CallNext => CallNextStep(job, s)
    case Join =>
      if s.caller.Joining? && s.caller.k >= s.nextShard then Some(s.(caller := Returned(FirstError(Statuses(s.shards)))))
      else if s.caller.Joining? && s.caller.k < |s.shards| && s.shards[s.caller.k].Ended?
      then Some(s.(caller := Joining(s.caller.k + 1)))
      else None
    case Work(t) => WorkStep(job, s, t)
    case Leave(t) =>
      if t < |s.shards| && s.shards[t].Running? && job.ranges[t].0 + s.shards[t].done >= job.ranges[t].1
      then Some(End(job, s, t, ShardOk))
      else None
    case Abort(t, code) =>
      if t < |s.shards| && s.shards[t].Running? then Some(End(job, s, t, Aborted(code))) else None
  }

  function Repeat<T>(n: nat, x: T): (r: seq<T>)
    ensures |r| == n && forall i :: 0 <= i < n ==> r[i] == x
  {
    if n == 0 then [] else Repeat(n - 1, x) + [x]
  }

  function Initial(job: Job): (r: State)
    requires IsJob(job)
    ensures Fits(job, r)
  {
    var threads, n := |job.ranges|, |job.inputs|;
    State(Spawning, 1, Repeat(threads, Waiting), Repeat(n, []), job.slot, Repeat(threads, 0), Repeat(n, 0))
  }

  // The state after the events, if each was enabled when it came.
  ghost function Run(job: Job, events: seq<Event>): (r: Option<State>)
    requires IsJob(job)
    ensures r.Some? ==> Fits(job, r.value)
    decreases |events|
  {
    if events == [] then Some(Initial(job))
    else
      match Run(job, events[..|events|-1])
      case None => None
      case Some(s) => Step(job, s, events[|events|-1])
  }

  // ---- What every step keeps ----

  // Which threads may be where in shard t, given where the caller is.
  predicate Placed(caller: Caller, nextShard: nat, t: nat, shard: Shard) {
    match caller
    case Spawning => shard.Waiting? <==> !(1 <= t < nextShard)
    case Calling(u) =>
      if 1 <= t < nextShard || t == u then !shard.Waiting?
      else if t == 0 || t < u then shard.Ended?
      else shard.Waiting?
    case Joining(k) => if k <= t < nextShard then !shard.Waiting? else shard.Ended?
    case Returned(_) => shard.Ended?
  }

  ghost predicate CallerInv(s: State) {
    && 1 <= s.nextShard <= |s.shards|
    && (s.caller.Calling? ==> s.caller.t < |s.shards| && (s.caller.t == 0 || s.nextShard <= s.caller.t))
    && (s.caller.Joining? ==> 1 <= s.caller.k <= s.nextShard)
    && (s.caller.Returned? ==> s.caller.status == FirstError(Statuses(s.shards)))
    && forall t :: 0 <= t < |s.shards| ==> Placed(s.caller, s.nextShard, t, s.shards[t])
  }

  // How many of its inputs the shard has called the operation on.
  function Reached(shard: Shard): nat {
    Done(shard) + if shard.Ended? && shard.status.OpFailed? then 1 else 0
  }

  // What a shard has written to its own range.
  ghost predicate Wrote(job: Job, range: (nat, nat), shard: Shard, outputs: seq<Element>, calls: seq<nat>)
    requires range.1 <= |job.inputs| == |outputs| == |calls|
  {
    && range.0 + Done(shard) <= range.1
    && (forall i :: range.0 <= i < range.0 + Done(shard) ==> job.op(job.inputs[i]) == Success(outputs[i]))
    && (forall i :: InRange(range, i) ==> calls[i] == if i < range.0 + Reached(shard) then 1 else 0)
  }

  ghost predicate ShardInv(job: Job, s: State, t: nat)
    requires Fits(job, s) && t < |s.shards|
  {
    var range, shard := job.ranges[t], s.shards[t];
    && s.starts[t] == (if shard.Waiting? then 0 else 1)
    && Wrote(job, range, shard, s.outputs, s.calls)
    && IsCounter(Counter(Pending(shard), s.slot)) && Pending(shard) <= Done(shard)
    && (shard.Ended? && shard.status.ShardOk? ==> range.0 + shard.done == range.1)
    && (shard.Ended? && shard.status.OpFailed? ==>
          range.0 + shard.done < range.1
          && job.op(job.inputs[range.0 + shard.done]) == Failure(shard.status.code))
  }

  function TotalDone(shards: seq<Shard>): nat {
    if shards == [] then 0 else TotalDone(shards[..|shards|-1]) + Done(shards[|shards|-1])
  }

  function TotalPending(shards: seq<Shard>): nat {
    if shards == [] then 0 else TotalPending(shards[..|shards|-1]) + Pending(shards[|shards|-1])
  }

  // What the slot says and what the shards still buffer make up what has been transformed.
  ghost predicate SlotInv(job: Job, s: State) {
    match job.slot
    case None => s.slot.None?
    case Some(base) => s.slot == Some(Wrapped(base + TotalDone(s.shards) - TotalPending(s.shards)))
  }

  ghost predicate Inv(job: Job, s: State) {
    && Fits(job, s)
    && CallerInv(s)
    && (forall t :: 0 <= t < |s.shards| ==> ShardInv(job, s, t))
    && SlotInv(job, s)
  }

  lemma {:induction false} TotalsUpdated(shards: seq<Shard>, t: nat, shard: Shard)
    requires t < |shards|
    ensures TotalDone(shards[t := shard]) == TotalDone(shards) - Done(shards[t]) + Done(shard)
    ensures TotalPending(shards[t := shard]) == TotalPending(shards) - Pending(shards[t]) + Pending(shard)
    decreases |shards|
  {
    var last := |shards| - 1;
    if t == last {
      assert shards[t := shard][..last] == shards[..last];
    } else {
      assert shards[t := shard][..last] == shards[..last][t := shard];
      TotalsUpdated(shards[..last], t, shard);
    }
  }

  lemma {:induction false} NothingStarted(shards: seq<Shard>)
    requires forall t :: 0 <= t < |shards| ==> shards[t].Waiting?
    ensures TotalDone(shards) == TotalPending(shards) == 0
    decreases |shards|
  {
    if shards != [] {
      NothingStarted(shards[..|shards|-1]);
    }
  }

  lemma InitialInv(job: Job)
    requires IsJob(job)
    ensures Inv(job, Initial(job))
  {
    NothingStarted(Initial(job).shards);
  }

  // A step of shard t that writes only to t's range leaves the other shards' state as it was.
  lemma OthersKept(job: Job, s: State, s': State, t: nat)
    requires Inv(job, s) && Fits(job, s') && t < |s.shards|
    requires s'.slot.Some? == s.slot.Some?
    requires forall u :: 0 <= u < |s.shards| && u != t ==> s'.shards[u] == s.shards[u] && s'.starts[u] == s.starts[u]
    requires forall i :: 0 <= i < |s.outputs| && !InRange(job.ranges[t], i) ==>
               s'.outputs[i] == s.outputs[i] && s'.calls[i] == s.calls[i]
    ensures forall u :: 0 <= u < |s.shards| && u != t ==> ShardInv(job, s', u)
  {
    forall u | 0 <= u < |s.shards| && u != t
      ensures ShardInv(job, s', u)
    {
      assert ShardInv(job, s, u);
      if u < t {
        RangesAscend(job.ranges, |job.inputs|, u, t);
      } else {
        RangesAscend(job.ranges, |job.inputs|, t, u);
      }
      assert forall i :: InRange(job.ranges[u], i) ==> !InRange(job.ranges[t], i);
    }
  }

  lemma BeginKeeps(job: Job, s: State, t: nat)
    requires Inv(job, s) && t < |s.shards| && s.shards[t].Waiting?
    ensures var s' := Begin(job, s, t);
            SlotInv(job, s') && forall u :: 0 <= u < |s.shards| ==> ShardInv(job, s', u)
  {
    assert ShardInv(job, s, t);
    OthersKept(job, s, Begin(job, s, t), t);
    TotalsUpdated(s.shards, t, Running(0, 0));
  }

  lemma SlotAfterEnd(job: Job, s: State, t: nat, status: ShardStatus)
    requires Inv(job, s) && t < |s.shards| && s.shards[t].Running?
    ensures SlotInv(job, End(job, s, t, status))
  {
    assert ShardInv(job, s, t);
    var shard := s.shards[t];
    TotalsUpdated(s.shards, t, Ended(shard.done, status));
    if job.slot.Some? {
      NothingIsLost(Counter(shard.pending, s.slot), job.slot.value - TotalPending(s.shards) + shard.pending, TotalDone(s.shards));
    }
  }

  lemma SlotAfterStore(job: Job, s: State, t: nat, i: nat, e: Element)
    requires Inv(job, s) && t < |s.shards| && s.shards[t].Running? && i < |s.outputs|
    ensures SlotInv(job, Stored(job, Called(job, s, i), t, i, e))
  {
    assert ShardInv(job, s, t);
    var shard := s.shards[t];
    var c := Incremented(Counter(shard.pending, s.slot));
    TotalsUpdated(s.shards, t, Running(shard.done + 1, c.pending));
    if job.slot.Some? {
      NothingIsLost(Counter(shard.pending, s.slot), job.slot.value - TotalPending(s.shards) + shard.pending, TotalDone(s.shards));
    }
  }

  lemma EndKeeps(job: Job, s: State, t: nat, status: ShardStatus)
    requires Inv(job, s) && t < |s.shards| && s.shards[t].Running?
    requires status.ShardOk? ==> job.ranges[t].0 + s.shards[t].done == job.ranges[t].1
    requires !status.OpFailed?
    ensures Inv(job, End(job, s, t, status))
  {
    var s' := End(job, s, t, status);
    assert ShardInv(job, s, t);
    OthersKept(job, s, s', t);
    SlotAfterEnd(job, s, t, status);
    PlacedStill(s, t, s'.shards[t]);
  }

  // A running shard may step on or end without the caller noticing.
  lemma PlacedStill(s: State, t: nat, shard: Shard)
    requires CallerInv(s) && t < |s.shards| && s.shards[t].Running? && !shard.Waiting?
    ensures CallerInv(s.(shards := s.shards[t := shard]))
  {
    assert Placed(s.caller, s.nextShard, t, s.shards[t]);
    assert Placed(s.caller, s.nextShard, t, shard);
  }

  lemma FailureKeeps(job: Job, s: State, t: nat, i: nat, code: int)
    requires Inv(job, s) && t < |s.shards| && s.shards[t].Running?
    requires i == job.ranges[t].0 + s.shards[t].done < job.ranges[t].1
    requires job.op(job.inputs[i]) == Failure(code)
    ensures Inv(job, End(job, Called(job, s, i), t, OpFailed(code)))
  {
    var s' := End(job, Called(job, s, i), t, OpFailed(code));
    assert ShardInv(job, s, t);
    OthersKept(job, s, s', t);
    SlotAfterEnd(job, s, t, OpFailed(code));
    PlacedStill(s, t, s'.shards[t]);
  }

  lemma StoreKeeps(job: Job, s: State, t: nat, i: nat, e: Element)
    requires Inv(job, s) && t < |s.shards| && s.shards[t].Running?
    requires i == job.ranges[t].0 + s.shards[t].done < job.ranges[t].1
    requires job.op(job.inputs[i]) == Success(e)
    ensures Inv(job, Stored(job, Called(job, s, i), t, i, e))
  {
    var s' := Stored(job, Called(job, s, i), t, i, e);
    assert ShardInv(job, s, t);
    OthersKept(job, s, s', t);
    SlotAfterStore(job, s, t, i, e);
    PlacedStill(s, t, s'.shards[t]);
  }

  lemma SpawnKeeps(job: Job, s: State)
    requires Inv(job, s) && s.caller.Spawning? && s.nextShard < |s.shards|
    ensures Inv(job, Begin(job, s, s.nextShard).(nextShard := s.nextShard + 1))
  {
    var t := s.nextShard;
    var s' := Begin(job, s, t).(nextShard := t + 1);
    assert Placed(s.caller, s.nextShard, t, s.shards[t]);
    BeginKeeps(job, s, t);
    forall u | 0 <= u < |s.shards|
      ensures ShardInv(job, s', u) && Placed(s'.caller, s'.nextShard, u, s'.shards[u])
    {
      assert ShardInv(job, Begin(job, s, t), u);
      assert Placed(s.caller, s.nextShard, u, s.shards[u]);
    }
  }

  lemma CallKeeps(job: Job, s: State, next: nat)
    requires Inv(job, s) && next < |s.shards|
    requires s.caller.Spawning? ==> next == 0
    requires !s.caller.Spawning? ==>
               s.caller.Calling? && s.shards[s.caller.t].Ended?
               && next == if s.caller.t == 0 then s.nextShard else s.caller.t + 1
    ensures Inv(job, Begin(job, s, next).(caller := Calling(next)))
  {
    var s' := Begin(job, s, next).(caller := Calling(next));
    assert Placed(s.caller, s.nextShard, next, s.shards[next]);
    BeginKeeps(job, s, next);
    forall u | 0 <= u < |s.shards|
      ensures ShardInv(job, s', u) && Placed(s'.caller, s'.nextShard, u, s'.shards[u])
    {
      assert ShardInv(job, Begin(job, s, next), u);
      assert Placed(s.caller, s.nextShard, u, s.shards[u]);
    }
  }

  // A move of the caller touches no shard.
  lemma ShardsKept(job: Job, s: State, to: Caller)
    requires Inv(job, s)
    ensures forall u :: 0 <= u < |s.shards| ==> ShardInv(job, s.(caller := to), u)
  {
    forall u | 0 <= u < |s.shards|
      ensures ShardInv(job, s.(caller := to), u)
    {
      assert ShardInv(job, s, u);
    }
  }

  lemma AllCalled(s: State)
    requires CallerInv(s) && s.caller.Calling? && s.shards[s.caller.t].Ended?
    requires (if s.caller.t == 0 then s.nextShard else s.caller.t + 1) >= |s.shards|
    ensures CallerInv(s.(caller := Joining(1)))
  {
    forall u | 0 <= u < |s.shards|
      ensures Placed(Joining(1), s.nextShard, u, s.shards[u])
    {
      assert Placed(s.caller, s.nextShard, u, s.shards[u]);
    }
  }

  lemma Joined(s: State)
    requires CallerInv(s) && s.caller.Joining?
    ensures s.caller.k >= s.nextShard ==> CallerInv(s.(caller := Returned(FirstError(Statuses(s.shards)))))
    ensures s.caller.k < s.nextShard && s.shards[s.caller.k].Ended? ==> CallerInv(s.(caller := Joining(s.caller.k + 1)))
  {
    forall u | 0 <= u < |s.shards|
      ensures s.caller.k >= s.nextShard ==> s.shards[u].Ended?
      ensures s.caller.k < s.nextShard && s.shards[s.caller.k].Ended? ==>
                Placed(Joining(s.caller.k + 1), s.nextShard, u, s.shards[u])
    {
      assert Placed(s.caller, s.nextShard, u, s.shards[u]);
    }
  }

  lemma CallNextKeeps(job: Job, s: State)
    requires Inv(job, s) && CallNextStep(job, s).Some?
    ensures Inv(job, CallNextStep(job, s).value)
  {
    var next := if s.caller.t == 0 then s.nextShard else s.caller.t + 1;
    if next < |s.shards| {
      CallKeeps(job, s, next);
    } else {
      AllCalled(s);
      ShardsKept(job, s, Joining(1));
    }
  }

  lemma WorkKeeps(job: Job, s: State, t: nat)
    requires Inv(job, s) && WorkStep(job, s, t).Some?
    ensures Inv(job, WorkStep(job, s, t).value)
  {
    var i := job.ranges[t].0 + s.shards[t].done;
    match job.op(job.inputs[i]) {
      case Success(x) => StoreKeeps(job, s, t, i, x);
      case Failure(code) => FailureKeeps(job, s, t, i, code);
    }
  }

  lemma JoinKeeps(job: Job, s: State)
    requires Inv(job, s) && Step(job, s, Join).Some?
    ensures Inv(job, Step(job, s, Join).value)
  {
    Joined(s);
    ShardsKept(job, s, Step(job, s, Join).value.caller);
  }

  lemma LeaveKeeps(job: Job, s: State, t: nat)
    requires Inv(job, s) && Step(job, s, Leave(t)).Some?
    ensures Inv(job, Step(job, s, Leave(t)).value)
  {
    assert ShardInv(job, s, t);
    EndKeeps(job, s, t, ShardOk);
  }

  lemma StepKeeps(job: Job, s: State, e: Event)
    requires Inv(job, s) && Step(job, s, e).Some?
    ensures Inv(job, Step(job, s, e).value)
  {
    match e
    case Spawn => SpawnKeeps(job, s);
    case StopSpawning => CallKeeps(job, s, 0);
    case CallNext => CallNextKeeps(job, s);
    case Join => JoinKeeps(job, s);
    case Work(t) => WorkKeeps(job, s, t);
    case Leave(t) => LeaveKeeps(job, s, t);
    case Abort(t, code) => EndKeeps(job, s, t, Aborted(code));
  }

  lemma {:induction false} RunKeeps(job: Job, events: seq<Event>)
    requires IsJob(job) && Run(job, events).Some?
    ensures Inv(job, Run(job, events).value)
    decreases |events|
  {
    if events == [] {
      InitialInv(job);
    } else {
      RunKeeps(job, events[..|events|-1]);
      StepKeeps(job, Run(job, events[..|events|-1]).value, events[|events|-1]);
    }
  }
}
