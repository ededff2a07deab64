/** The whole bulk operation: how many threads, what each gets, the run over any schedule, and the result. */
module Transform {
  import opened Bytes
  import opened EcCipher
  import opened Progress
  import opened Shards
  import opened Parallel
  import opened ParallelRuns
  import opened ShardLoops
  import opened Wrappers

  // The inputs dealt out as the operation does it on this hardware.
  ghost predicate IsDealt(n: nat, hardware: nat, ranges: seq<(nat, nat)>) {
    && |ranges| == ChooseThreadCount(n, hardware)
    && IsSplit(ranges, n) && IsEven(ranges, n / |ranges|)
  }

  /** With more than one thread every thread gets 512 inputs or more, and none over one more than another. */
  lemma DealtFairly(n: nat, hardware: nat, ranges: seq<(nat, nat)>)
    requires IsDealt(n, hardware, ranges)
    ensures |ranges| > 1 ==> forall t :: 0 <= t < |ranges| ==> ranges[t].1 - ranges[t].0 >= 512
    ensures forall t, u :: 0 <= t < |ranges| && 0 <= u < |ranges| ==>
              ranges[t].1 - ranges[t].0 <= ranges[u].1 - ranges[u].0 + 1
  {
    EvenLengths(ranges, n, |ranges|);
  }

  // What the sequential loop comes to.
  ghost predicate IsSequential(inputs: seq<Element>, op: Op, status: ShardStatus, outputs: seq<Element>) {
    && !status.Aborted?
    && TransformAll(inputs, op) == if status == ShardOk then AllDone(outputs) else FirstFailure(status.code)
  }

  /**
    Dealt out on any hardware and run over any schedule, the operation returns what the
    sequential loop does, unless a shard was aborted; and it returns success only with its
    outputs. From a slot at 0, success leaves the slot at the number of inputs.
   */
  lemma ThreadedIsSequential(inputs: seq<Element>, op: Op, hardware: nat, ranges: seq<(nat, nat)>,
                             slot: Option<Word>, events: seq<Event>)
    requires IsDealt(|inputs|, hardware, ranges)
    ensures IsJob(Job(inputs, op, ranges, slot))
    ensures var run := Run(Job(inputs, op, ranges, slot), events);
            run.Some? && run.value.caller.Returned? ==>
              var status := run.value.caller.status;
              && (status.Aborted? || IsSequential(inputs, op, status, run.value.outputs))
              && (status.Aborted? ==> exists k :: 0 <= k < |events| && events[k].Abort?)
              && (slot == Some(0) && |inputs| < 0x8000_0000 && status == ShardOk ==> run.value.slot == Some(|inputs|))
  {
    SplitMakesAJob(inputs, op, ranges, slot);
    var job := Job(inputs, op, ranges, slot);
    var run := Run(job, events);
    if run.Some? && run.value.caller.Returned? {
      ParallelRefinesSequential(job, events);
      if slot == Some(0) && |inputs| < 0x8000_0000 {
        SlotPlusPendingIsDone(job, events);
      }
    }
  }

  // A run in which the schedule picks the next step; what it cannot have is passed over.
  method RunSchedule(job: Job, schedule: State -> Event) returns (s: State, ghost events: seq<Event>)
    requires IsJob(job)
    ensures Run(job, events) == Some(s) && s.caller.Returned? && s.caller.status == FirstError(Statuses(s.shards))
    ensures (forall t :: !schedule(t).Abort?) ==> forall k :: 0 <= k < |events| ==> !events[k].Abort?
  {
    s, events := Initial(job), [];
    InitialInv(job);
    while !s.caller.Returned?
      invariant Run(job, events) == Some(s) && Inv(job, s)
      invariant (forall t :: !schedule(t).Abort?) ==> forall k :: 0 <= k < |events| ==> !events[k].Abort?
      decreases Measure(job, s)
    {
      NoDeadlock(job, s);
      var e := if Step(job, s, schedule(s)).Some? then schedule(s) else Next(job, s);
      MeasureIsNonnegative(job, s);
      StepKeeps(job, s, e);
      StepDecreases(job, s, e);
      assert (events + [e])[..|events|] == events;
      events := events + [e];
      s := Step(job, s, e).value;
    }
  }

  // The inputs that the operation was called on, listed by position.
  function CalledOn(inputs: seq<Element>, calls: seq<nat>): (r: seq<Element>)
    requires |inputs| == |calls|
    ensures |r| <= |inputs|
  {
    if inputs == [] then []
    else
      var last := |inputs| - 1;
      CalledOn(inputs[..last], calls[..last]) + if calls[last] > 0 then [inputs[last]] else []
  }

  lemma {:induction false} CalledOnSome(inputs: seq<Element>, calls: seq<nat>)
    requires |inputs| == |calls|
    ensures multiset(CalledOn(inputs, calls)) <= multiset(inputs)
    decreases |inputs|
  {
    if inputs != [] {
      var last := |inputs| - 1;
      CalledOnSome(inputs[..last], calls[..last]);
      UpToLast(inputs);
      OneMoreOfSome(CalledOn(inputs[..last], calls[..last]), inputs[..last], inputs[last], inputs);
    }
  }

  lemma UpToLast<T>(s: seq<T>)
    requires s != []
    ensures s == s[..|s|-1] + [s[|s|-1]]
  {
  }

  lemma OneMoreOfSome<T>(a: seq<T>, b: seq<T>, x: T, whole: seq<T>)
    requires multiset(a) <= multiset(b) && whole == b + [x]
    ensures multiset(a + []) <= multiset(whole) && multiset(a + [x]) <= multiset(whole)
  {
    assert a + [] == a;
  }

  lemma {:induction false} CalledOnAll(inputs: seq<Element>, calls: seq<nat>)
    requires |inputs| == |calls| && forall i :: 0 <= i < |calls| ==> calls[i] > 0
    ensures CalledOn(inputs, calls) == inputs
    decreases |inputs|
  {
    if inputs != [] {
      var last := |inputs| - 1;
      CalledOnAll(inputs[..last], calls[..last]);
      assert inputs == inputs[..last] + [inputs[last]];
    }
  }

  // What a run leaves behind it: the log of its calls, and the slot.
  ghost predicate IsLeft(inputs: seq<Element>, status: ShardStatus, called: seq<Element>, counted: int) {
    && multiset(called) <= multiset(inputs) && 0 <= counted <= |inputs|
    && (status == ShardOk ==> called == inputs && counted == |inputs|)
  }

  lemma RunLeaves(job: Job, events: seq<Event>, s: State)
    requires IsJob(job) && Run(job, events) == Some(s) && s.caller.Returned?
    ensures IsLeft(job.inputs, s.caller.status, CalledOn(job.inputs, s.calls), Published(s.shards))
  {
    EachExactlyOnce(job, events);
    CalledOnSome(job.inputs, s.calls);
    if s.caller.status == ShardOk {
      CalledOnAll(job.inputs, s.calls);
    }
    RunPublishes(job, events, s);
  }

  lemma RunPublishes(job: Job, events: seq<Event>, s: State)
    requires IsJob(job) && Run(job, events) == Some(s)
    ensures 0 <= Published(s.shards) <= |job.inputs|
    ensures s.caller == Returned(ShardOk) ==> Published(s.shards) == |job.inputs|
  {
    RunKeeps(job, events);
    PublishedWithin(job, s);
  }

  lemma RunRaises(job: Job, events: seq<Event>, s: State)
    requires IsJob(job) && Run(job, events) == Some(s)
    ensures s.slot == match job.slot case None => None case Some(base) => Some(Wrapped(base + Published(s.shards)))
  {
    RunKeeps(job, events);
    SlotSays(job, s);
  }

  lemma SlotSays(job: Job, s: State)
    requires SlotInv(job, s)
    ensures s.slot == match job.slot case None => None case Some(base) => Some(Wrapped(base + Published(s.shards)))
  {
    if job.slot.Some? {
      SameSum(job.slot.value, TotalDone(s.shards), TotalPending(s.shards), Published(s.shards));
    }
  }

  lemma SameSum(base: int, done: int, pending: int, published: int)
    requires published == done - pending
    ensures Wrapped(base + done - pending) == Wrapped(base + published)
  {
  }

  // What a returned run comes to: outputs or error, the log of its calls, and the slot.
  ghost predicate IsRunOf(job: Job, s: State, status: ShardStatus) {
    && |s.calls| == |job.inputs| == |s.outputs|
    && (status.Aborted? || IsSequential(job.inputs, job.op, status, s.outputs))
    && IsLeft(job.inputs, status, CalledOn(job.inputs, s.calls), Published(s.shards))
    && s.slot == match job.slot case None => None case Some(base) => Some(Wrapped(base + Published(s.shards)))
  }

  method RunJob(job: Job, ghost hardware: nat, schedule: State -> Event) returns (status: ShardStatus, s: State)
    requires IsDealt(|job.inputs|, hardware, job.ranges) && IsJob(job)
    ensures IsRunOf(job, s, status)
    ensures (forall t :: !schedule(t).Abort?) ==> !status.Aborted?
  {
    ghost var events;
    s, events := RunSchedule(job, schedule);
    status := SelectStatus(Statuses(s.shards));
    RunComesTo(job, hardware, events, s, status);
  }

  // The build with threads: the run over a split, its calls logged with the cipher's.
  method TransformThreaded(inputs: seq<Element>, cipher: Cipher, ranges: seq<(nat, nat)>, ghost hardware: nat,
                           outputs: array<Element>, slot: Slot?, schedule: State -> Event)
    returns (status: ShardStatus, ghost called: seq<Element>, ghost counted: int)
    requires outputs.Length == |inputs| && IsDealt(|inputs|, hardware, ranges)
    modifies outputs, slot, cipher
    ensures status.Aborted? || IsSequential(inputs, cipher.op, status, outputs[..])
    ensures (forall t :: !schedule(t).Abort?) ==> !status.Aborted?
    ensures cipher.calls == old(cipher.calls) + called && IsLeft(inputs, status, called, counted)
    ensures slot != null ==> slot.value == Wrapped(old(slot.value) + counted)
  {
    var job := Job(inputs, cipher.op, ranges, if slot == null then None else Some(slot.value));
    SplitMakesAJob(inputs, cipher.op, ranges, job.slot);
    var s;
    status, s := RunJob(job, hardware, schedule);
    called, counted := CalledOn(inputs, s.calls), Published(s.shards);
    cipher.calls := cipher.calls + called;
    CopyOut(s.outputs, outputs);
    if slot != null {
      slot.value := s.slot.value;
    }
  }

  lemma RunComesTo(job: Job, hardware: nat, events: seq<Event>, s: State, status: ShardStatus)
    requires IsDealt(|job.inputs|, hardware, job.ranges) && IsJob(job) && Run(job, events) == Some(s)
    requires s.caller == Returned(status)
    ensures IsRunOf(job, s, status)
    ensures status.Aborted? ==> exists k :: 0 <= k < |events| && events[k].Abort?
  {
    ThreadedIsSequential(job.inputs, job.op, hardware, job.ranges, job.slot, events);
    RunLeaves(job, events, s);
    RunRaises(job, events, s);
  }

  method CopyOut(from: seq<Element>, outputs: array<Element>)
    requires outputs.Length == |from|
    modifies outputs
    ensures outputs[..] == from
  {
    forall i | 0 <= i < |from| {
      outputs[i] := from[i];
    }
  }

  /**
    TransformElements: on any hardware, over any schedule and wherever thread creation fails,
    the outputs or the error of the sequential loop, unless a shard was aborted. No input is
    handed to a cipher more than once, and on success each is; the slot is raised by as many
    inputs as were transformed, on success by all.
   */
  method TransformElements(inputs: seq<Element>, cipher: Cipher, hardware: nat, outputs: array<Element>, slot: Slot?,
                           schedule: State -> Event)
    returns (status: ShardStatus, ghost called: seq<Element>, ghost counted: int)
    requires outputs.Length == |inputs|
    modifies outputs, slot, cipher
    ensures status.Aborted? || IsSequential(inputs, cipher.op, status, outputs[..])
    ensures (forall t :: !schedule(t).Abort?) ==> !status.Aborted?
    ensures cipher.calls == old(cipher.calls) + called && IsLeft(inputs, status, called, counted)
    ensures slot != null ==> slot.value == Wrapped(old(slot.value) + counted)
  {
    var n := |inputs|;
    if n == 0 {
      assert outputs[..] == inputs;
      return ShardOk, [], 0;
    }
    var threads := ChooseThreadCount(n, hardware);
    if threads <= 1 {
      status, counted := TransformSequentially(inputs, cipher, outputs, slot);
      called := inputs[..if status == ShardOk then counted else counted + 1];
      PrefixIsSome(inputs, |called|);
    } else {
      var ranges := SplitRanges(n, threads);
      status, called, counted := TransformThreaded(inputs, cipher, ranges, hardware, outputs, slot, schedule);
    }
  }

  lemma PrefixIsSome<T>(s: seq<T>, n: nat)
    requires n <= |s|
    ensures multiset(s[..n]) <= multiset(s) && s[..|s|] == s
  {
    assert s == s[..n] + s[n..];
  }
}
