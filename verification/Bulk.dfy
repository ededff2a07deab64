/** One key's operation on a whole list, as the build at hand does it: in one loop, or on threads. */
module Bulk {
  import opened Bytes
  import opened EcCipher
  import opened Progress
  import opened Parallel
  import opened Transform

  // With threads: the hardware there is, and the scheduler, which decides where thread creation
  // and shards fail, too.
  datatype Build = SingleThreaded | Threaded(hardware: nat, schedule: State -> Event)

  // No shard is ever aborted.
  ghost predicate NeverAborts(build: Build) {
    build.Threaded? ==> forall s :: !build.schedule(s).Abort?
  }

  type SteadyBuild = build: Build | NeverAborts(build) witness SingleThreaded

  // Done up to the end or the first failure, or a shard was aborted.
  datatype BulkResult = Ran(t: Transformed) | ShardLost(code: int)

  predicate RanThrough(r: BulkResult) {
    r.Ran? && r.t.AllDone?
  }

  // The log has grown by inputs that the cipher was called on, none more often than it is listed;
  // by all of them if all could be transformed. In one loop they are those up to the failure.
  ghost predicate Handed(build: Build, inputs: seq<Element>, op: Op, r: BulkResult, before: seq<Element>, calls: seq<Element>) {
    && before <= calls && multiset(calls[|before|..]) <= multiset(inputs)
    && (RanThrough(r) ==> calls == before + inputs)
    && (build.SingleThreaded? ==> calls == before + inputs[..Attempted(inputs, op)])
  }

  // The slot is raised by as many as were transformed; in one loop by one less than was called if
  // the last call failed.
  ghost predicate Counted(build: Build, inputs: seq<Element>, op: Op, r: BulkResult, value: Word, value': Word) {
    && (RanThrough(r) ==> value' == Wrapped(value + |inputs|))
    && (build.SingleThreaded? ==> value' == Wrapped(value + Succeeded(inputs, op)))
  }

  lemma LoopHands(inputs: seq<Element>, op: Op, before: seq<Element>, calls: seq<Element>)
    requires calls == before + inputs[..Attempted(inputs, op)]
    ensures Handed(SingleThreaded, inputs, op, Ran(TransformAll(inputs, op)), before, calls)
  {
    PrefixIsSome(inputs, Attempted(inputs, op));
    AllAttempted(inputs, op);
    assert calls[|before|..] == inputs[..Attempted(inputs, op)];
  }

  lemma AllAttempted(inputs: seq<Element>, op: Op)
    ensures Attempted(inputs, op) == Succeeded(inputs, op) + if TransformAll(inputs, op).AllDone? then 0 else 1
    ensures TransformAll(inputs, op).AllDone? ==> Succeeded(inputs, op) == |inputs|
  {
  }

  lemma RunHands(build: Build, inputs: seq<Element>, op: Op, r: BulkResult, before: seq<Element>, called: seq<Element>)
    requires build.Threaded? && multiset(called) <= multiset(inputs) && (RanThrough(r) ==> called == inputs)
    ensures Handed(build, inputs, op, r, before, before + called)
  {
    assert (before + called)[|before|..] == called;
  }

  /**
    Whatever the build, the outputs or the first failure, unless a shard was aborted; no input is
    handed to a cipher twice, and on success each is and the slot is raised by their number.
   */
  method ApplyBulk(build: Build, cipher: Cipher, inputs: seq<Element>, progress: Slot?)
    returns (r: BulkResult)
    modifies cipher, progress
    ensures r.ShardLost? ==> !NeverAborts(build)
    ensures r.Ran? ==> r.t == TransformAll(inputs, cipher.op)
    ensures Handed(build, inputs, cipher.op, r, old(cipher.calls), cipher.calls)
    ensures progress != null ==> Counted(build, inputs, cipher.op, r, old(progress.value), progress.value)
  {
    match build {
      case SingleThreaded =>
        var t := cipher.ApplyAll(inputs, progress);
        r := Ran(t);
        LoopHands(inputs, cipher.op, old(cipher.calls), cipher.calls);
      case Threaded(hardware, schedule) =>
        r := ApplyThreaded(build, cipher, inputs, progress);
    }
  }

  method ApplyThreaded(build: Build, cipher: Cipher, inputs: seq<Element>, progress: Slot?)
    returns (r: BulkResult)
    requires build.Threaded?
    modifies cipher, progress
    ensures r.ShardLost? ==> !NeverAborts(build)
    ensures r.Ran? ==> r.t == TransformAll(inputs, cipher.op)
    ensures Handed(build, inputs, cipher.op, r, old(cipher.calls), cipher.calls)
    ensures progress != null ==> Counted(build, inputs, cipher.op, r, old(progress.value), progress.value)
  {
    var outputs := new Element[|inputs|](_ => []);
    var status;
    ghost var called, counted;
    status, called, counted := TransformElements(inputs, cipher, build.hardware, outputs, progress, build.schedule);
    r := match status
         case ShardOk => Ran(AllDone(outputs[..]))
         case OpFailed(code) => Ran(FirstFailure(code))
         case Aborted(code) => ShardLost(code);
    RunHands(build, inputs, cipher.op, r, old(cipher.calls), called);
  }

  /** The same on a cipher of its own, with no one to watch the progress and no shard aborted. */
  method Apply(build: SteadyBuild, inputs: seq<Element>, op: Op) returns (t: Transformed)
    ensures t == TransformAll(inputs, op)
  {
    var cipher := new Cipher(op);
    var r := ApplyBulk(build, cipher, inputs, null);
    t := r.t;
  }
}
