/** The loops of the threaded operation itself: one shard's, the single-threaded one, and the choice of the status. */
module ShardLoops {
  import opened Bytes
  import opened EcCipher
  import opened Progress
  import opened Parallel

  /** The loop that picks the status to return: the first, in shard order, that is an error. */
  method SelectStatus(statuses: seq<ShardStatus>) returns (status: ShardStatus)
    ensures status == FirstError(statuses)
    ensures if status == ShardOk then forall t :: 0 <= t < |statuses| ==> statuses[t] == ShardOk
            else exists t :: 0 <= t < |statuses| && statuses[t] == status && forall u :: 0 <= u < t ==> statuses[u] == ShardOk
  {
    for t := 0 to |statuses|
      invariant FirstError(statuses[..t]) == ShardOk && forall u :: 0 <= u < t ==> statuses[u] == ShardOk
    {
      assert statuses[..t + 1][..t] == statuses[..t];
      if statuses[t] != ShardOk {
        FirstErrorStays(statuses, t + 1);
        return statuses[t];
      }
    }
    assert statuses[..|statuses|] == statuses;
    return ShardOk;
  }

  // Later statuses do not matter once there is an error.
  lemma {:induction false} FirstErrorStays(statuses: seq<ShardStatus>, t: nat)
    requires t <= |statuses| && FirstError(statuses[..t]) != ShardOk
    ensures FirstError(statuses) == FirstError(statuses[..t])
    decreases |statuses|
  {
    if t == |statuses| {
      assert statuses[..t] == statuses;
    } else {
      assert statuses[..|statuses|-1][..t] == statuses[..t];
      FirstErrorStays(statuses[..|statuses|-1], t);
    }
  }

  // What was written and counted when the loop has done `done` inputs of its range.
  ghost predicate RangeDone(inputs: seq<Element>, op: Op, first: nat, done: nat, before: seq<Element>, outputs: seq<Element>) {
    && first + done <= |inputs| == |outputs| == |before|
    && (forall i :: first <= i < first + done ==> op(inputs[i]) == Success(outputs[i]))
    && (forall i :: 0 <= i < |inputs| && !(first <= i < first + done) ==> outputs[i] == before[i])
  }

  lemma OneMoreDone(inputs: seq<Element>, op: Op, first: nat, done: nat, before: seq<Element>, outputs: seq<Element>, e: Element)
    requires RangeDone(inputs, op, first, done, before, outputs)
    requires first + done < |inputs| && op(inputs[first + done]) == Success(e)
    ensures RangeDone(inputs, op, first, done + 1, before, outputs[first + done := e])
  {
  }

  // An exception that is caught once so many inputs of the range are done, with the status it
  // is turned into.
  datatype Exception = NoException | Thrown(at: nat, code: int)

  // The inputs from first on that the cipher has been called on.
  ghost predicate Handed(inputs: seq<Element>, first: nat, n: nat, before: seq<Element>, calls: seq<Element>) {
    first + n <= |inputs| && calls == before + inputs[first..first + n]
  }

  lemma OneMoreHanded(inputs: seq<Element>, first: nat, n: nat, before: seq<Element>, calls: seq<Element>)
    requires Handed(inputs, first, n, before, calls) && first + n < |inputs|
    ensures Handed(inputs, first, n + 1, before, calls + [inputs[first + n]])
  {
    assert inputs[first..first + n + 1] == inputs[first..first + n] + [inputs[first + n]];
  }

  // Where the loop of a range stands: how many inputs are done, what was written and handed to
  // the cipher for them, and why it has ended if it has.
  ghost predicate RangeState(inputs: seq<Element>, op: Op, first: nat, last: nat, exception: Exception,
                             status: ShardStatus, done: nat,
                             before: seq<Element>, outputs: seq<Element>, called: seq<Element>, calls: seq<Element>) {
    && first + done <= last <= |inputs|
    && RangeDone(inputs, op, first, done, before, outputs)
    && Handed(inputs, first, done + (if status.OpFailed? then 1 else 0), called, calls)
    && (status.OpFailed? ==> first + done < last && op(inputs[first + done]) == Failure(status.code))
    && (status.Aborted? ==> exception == Thrown(done, status.code))
    && (exception.Thrown? ==> done <= exception.at)
    && (status.OpFailed? && exception.Thrown? ==> done != exception.at)
  }

  lemma RangeFails(inputs: seq<Element>, op: Op, first: nat, last: nat, exception: Exception, done: nat,
                   before: seq<Element>, outputs: seq<Element>, called: seq<Element>, calls: seq<Element>, code: int)
    requires RangeState(inputs, op, first, last, exception, ShardOk, done, before, outputs, called, calls)
    requires first + done < last && op(inputs[first + done]) == Failure(code)
    requires exception.Thrown? ==> exception.at != done
    ensures RangeState(inputs, op, first, last, exception, OpFailed(code), done, before, outputs, called, calls + [inputs[first + done]])
  {
    OneMoreHanded(inputs, first, done, called, calls);
  }

  lemma RangeGoesOn(inputs: seq<Element>, op: Op, first: nat, last: nat, exception: Exception, done: nat,
                    before: seq<Element>, outputs: seq<Element>, called: seq<Element>, calls: seq<Element>, e: Element)
    requires RangeState(inputs, op, first, last, exception, ShardOk, done, before, outputs, called, calls)
    requires first + done < last && op(inputs[first + done]) == Success(e)
    requires exception.Thrown? ==> exception.at != done
    ensures RangeState(inputs, op, first, last, exception, ShardOk, done + 1, before,
                       outputs[first + done := e], called, calls + [inputs[first + done]])
  {
    OneMoreHanded(inputs, first, done, called, calls);
    OneMoreDone(inputs, op, first, done, before, outputs, e);
  }

  // One input: transformed, written by absolute index and counted, if it does not fail.
  method TransformOne(inputs: seq<Element>, cipher: Cipher, at: nat, outputs: array<Element>, counter: ProgressCounter,
                      ghost base: int, ghost done: nat)
    returns (r: OpResult)
    requires at < |inputs| == outputs.Length && CountedTo(counter.State(), base, done)
    modifies cipher, outputs, counter, counter.slot
    ensures r == cipher.op(inputs[at]) && cipher.calls == old(cipher.calls) + [inputs[at]]
    ensures r.Success? ==> outputs[..] == old(outputs[..])[at := r.element] && CountedTo(counter.State(), base, done + 1)
    ensures r.Failure? ==> outputs[..] == old(outputs[..]) && CountedTo(counter.State(), base, done)
  {
    r := cipher.Apply(inputs[at]);
    if r.Success? {
      outputs[at] := r.element;
      CountedOn(counter.State(), base, done);
      counter.Increment();
    }
  }

  // The loop itself, counting on the counter it is given.
  method RunRange(inputs: seq<Element>, cipher: Cipher, first: nat, last: nat, outputs: array<Element>,
                  counter: ProgressCounter, exception: Exception, ghost base: int)
    returns (status: ShardStatus, done: nat)
    requires first <= last <= |inputs| == outputs.Length && CountedTo(counter.State(), base, 0)
    modifies outputs, cipher, counter, counter.slot
    ensures RangeState(inputs, cipher.op, first, last, exception, status, done,
                       old(outputs[..]), outputs[..], old(cipher.calls), cipher.calls)
    ensures status == ShardOk ==> first + done == last
    ensures CountedTo(counter.State(), base, done)
  {
    ghost var before, called := outputs[..], cipher.calls;
    done := 0;
    status := ShardOk;
    while status == ShardOk && first + done < last
      invariant CountedTo(counter.State(), base, done)
      invariant RangeState(inputs, cipher.op, first, last, exception, status, done, before, outputs[..], called, cipher.calls)
      decreases status == ShardOk, last - done
    {
      if exception.Thrown? && exception.at == done {
        status := Aborted(exception.code);
      } else {
        ghost var written, handed := outputs[..], cipher.calls;
        var encrypted := TransformOne(inputs, cipher, first + done, outputs, counter, base, done);
        if encrypted.Failure? {
          RangeFails(inputs, cipher.op, first, last, exception, done, before, written, called, handed, encrypted.code);
          status := OpFailed(encrypted.code);
          assert outputs[..] == written && cipher.calls == handed + [inputs[first + done]];
        } else {
          assert outputs[..] == written[first + done := encrypted.element] && cipher.calls == handed + [inputs[first + done]];
          RangeGoesOn(inputs, cipher.op, first, last, exception, done, before, written, called, handed, encrypted.element);
          done := done + 1;
        }
      }
    }
  }

  /**
    The loop of one shard and, over the whole input, of the single-threaded path: outputs are
    written by absolute index, up to the first input that fails, and counted as they are. An
    exception ends the loop with its status.
   */
  method TransformRange(inputs: seq<Element>, cipher: Cipher, first: nat, last: nat, outputs: array<Element>, slot: Slot?,
                        exception: Exception)
    returns (status: ShardStatus, done: nat)
    requires first <= last <= |inputs| == outputs.Length
    modifies outputs, slot, cipher
    ensures RangeState(inputs, cipher.op, first, last, exception, status, done,
                       old(outputs[..]), outputs[..], old(cipher.calls), cipher.calls)
    ensures status == ShardOk ==> first + done == last
    ensures slot != null ==> slot.value == Wrapped(old(slot.value) + done)
  {
    var counter := new ProgressCounter(slot);
    ghost var base := if slot == null then 0 else slot.value;
    status, done := RunRange(inputs, cipher, first, last, outputs, counter, exception, base);
    CountedOn(counter.State(), base, done);
    counter.Flush();
  }

  // Over the whole input, that loop is the sequential one.
  lemma WholeRangeIsSequential(inputs: seq<Element>, op: Op, before: seq<Element>, outputs: seq<Element>, status: ShardStatus, done: nat)
    requires RangeDone(inputs, op, 0, done, before, outputs) && !status.Aborted?
    requires status == ShardOk ==> done == |inputs|
    requires status.OpFailed? ==> done < |inputs| && op(inputs[done]) == Failure(status.code)
    ensures TransformAll(inputs, op) == if status == ShardOk then AllDone(outputs) else FirstFailure(status.code)
  {
    TransformAllIs(inputs, op);
  }

  /** With one thread the loop runs on the calling thread, on the cipher there is. */
  method TransformSequentially(inputs: seq<Element>, cipher: Cipher, outputs: array<Element>, slot: Slot?)
    returns (status: ShardStatus, ghost done: nat)
    requires |inputs| == outputs.Length
    modifies outputs, slot, cipher
    ensures !status.Aborted? && if status == ShardOk then done == |inputs| else done < |inputs|
    ensures TransformAll(inputs, cipher.op) == if status == ShardOk then AllDone(outputs[..]) else FirstFailure(status.code)
    ensures cipher.calls == old(cipher.calls) + inputs[..if status == ShardOk then done else done + 1]
    ensures slot != null ==> slot.value == Wrapped(old(slot.value) + done)
  {
    var transformed;
    status, transformed := TransformRange(inputs, cipher, 0, |inputs|, outputs, slot, NoException);
    done := transformed;
    WholeRangeIsSequential(inputs, cipher.op, old(outputs[..]), outputs[..], status, done);
  }
}
