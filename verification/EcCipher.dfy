/**
  The commutative cipher as the library uses it: three deterministic operations that may fail,
  and the loop that applies one of them to a list.
 */
module EcCipher {
  import opened Bytes
  import opened Progress

  datatype OpResult = Success(element: Element) | Failure(code: int)

  type Op = Element -> OpResult

  datatype Transformed = AllDone(outputs: seq<Element>) | FirstFailure(code: int)

  // The operation on every element in order, up to the first that fails.
  function TransformAll(inputs: seq<Element>, op: Op): (r: Transformed)
    ensures r.AllDone? ==> |r.outputs| == |inputs|
  {
    if inputs == [] then AllDone([])
    else
      match TransformAll(inputs[..|inputs|-1], op)
      case FirstFailure(code) => FirstFailure(code)
      case AllDone(outputs) => (
        match op(inputs[|inputs|-1])
        case Failure(code) => FirstFailure(code)
        case Success(e) => AllDone(outputs + [e])
        )
  }

  lemma {:induction false} TransformInTwo(a: seq<Element>, b: seq<Element>, op: Op)
    ensures TransformAll(a + b, op)
         == match TransformAll(a, op)
            case FirstFailure(code) => FirstFailure(code)
            case AllDone(outputs) => (
              match TransformAll(b, op)
              case FirstFailure(code) => FirstFailure(code)
              case AllDone(more) => AllDone(outputs + more)
              )
    decreases |b|
  {
    if b == [] {
      assert a + b == a;
    } else {
      var all, rest, e := a + b, b[..|b|-1], b[|b|-1];
      assert all[..|all|-1] == a + rest && all[|all|-1] == e;
      TransformInTwo(a, rest, op);
      var first, second := TransformAll(a, op), TransformAll(rest, op);
      if first.AllDone? && second.AllDone? && op(e).Success? {
        AppendLater(first.outputs, second.outputs, op(e).element);
      }
    }
  }

  lemma AppendLater<T>(a: seq<T>, b: seq<T>, x: T)
    ensures a + b + [x] == a + (b + [x])
  {
  }

  /**
    The loop ends well exactly when every element can be transformed, with the elements
    transformed one by one; otherwise with the failure at the smallest failing position.
   */
  lemma {:induction false} TransformAllIs(inputs: seq<Element>, op: Op)
    ensures TransformAll(inputs, op).AllDone? <==> forall k :: 0 <= k < |inputs| ==> op(inputs[k]).Success?
    ensures TransformAll(inputs, op).AllDone? ==>
              forall k :: 0 <= k < |inputs| ==> op(inputs[k]) == Success(TransformAll(inputs, op).outputs[k])
    ensures TransformAll(inputs, op).FirstFailure? ==>
              exists k :: 0 <= k < |inputs| && op(inputs[k]) == Failure(TransformAll(inputs, op).code)
                          && forall j :: 0 <= j < k ==> op(inputs[j]).Success?
    decreases |inputs|
  {
    if inputs != [] {
      var n := |inputs| - 1;
      TransformAllIs(inputs[..n], op);
      if TransformAll(inputs[..n], op).FirstFailure? {
        var k :| 0 <= k < n && op(inputs[..n][k]) == Failure(TransformAll(inputs[..n], op).code)
                 && forall j :: 0 <= j < k ==> op(inputs[..n][j]).Success?;
        assert inputs[k] == inputs[..n][k];
        assert forall j :: 0 <= j < k ==> inputs[j] == inputs[..n][j];
      } else {
        assert forall j :: 0 <= j < n ==> inputs[j] == inputs[..n][j];
      }
    }
  }

  // How many elements come before the first that fails.
  function Succeeded(inputs: seq<Element>, op: Op): (n: nat)
    ensures n <= |inputs|
    ensures TransformAll(inputs, op).AllDone? <==> n == |inputs|
    ensures forall i :: 0 <= i < n ==> op(inputs[i]).Success?
    ensures n < |inputs| ==> op(inputs[n]).Failure?
  {
    if inputs == [] then 0
    else
      var last := |inputs| - 1;
      var n := Succeeded(inputs[..last], op);
      if n == last && op(inputs[last]).Success? then |inputs| else n
  }

  // How many are handed to the operation: those, and the one that fails.
  function Attempted(inputs: seq<Element>, op: Op): (n: nat)
    ensures n <= |inputs|
  {
    if Succeeded(inputs, op) < |inputs| then Succeeded(inputs, op) + 1 else |inputs|
  }

  // Where the loop stops is decided by the elements up to there.
  lemma {:induction false} StopsAt(inputs: seq<Element>, k: nat, op: Op)
    requires k < |inputs| && Succeeded(inputs[..k], op) == k && op(inputs[k]).Failure?
    ensures Succeeded(inputs, op) == k
    ensures TransformAll(inputs, op) == FirstFailure(op(inputs[k]).code)
    decreases |inputs|
  {
    var last := |inputs| - 1;
    if k < last {
      assert inputs[..last][..k] == inputs[..k];
      StopsAt(inputs[..last], k, op);
    }
  }

  // The loop has gone through the first k elements, handing each to the cipher.
  ghost predicate GoneThrough(inputs: seq<Element>, k: nat, op: Op, outputs: seq<Element>, before: seq<Element>, calls: seq<Element>) {
    && k <= |inputs| && TransformAll(inputs[..k], op) == AllDone(outputs)
    && calls == before + inputs[..k]
  }

  lemma GoesFrom(inputs: seq<Element>, op: Op, before: seq<Element>)
    ensures GoneThrough(inputs, 0, op, [], before, before)
  {
    assert inputs[..0] == [];
  }

  lemma GoesOn(inputs: seq<Element>, k: nat, op: Op, outputs: seq<Element>, before: seq<Element>, calls: seq<Element>)
    requires GoneThrough(inputs, k, op, outputs, before, calls) && k < |inputs| && op(inputs[k]).Success?
    ensures GoneThrough(inputs, k + 1, op, outputs + [op(inputs[k]).element], before, calls + [inputs[k]])
  {
    assert inputs[..k + 1][..k] == inputs[..k];
    OneMoreCall(inputs, k, before);
  }

  lemma OneMoreCall<T>(inputs: seq<T>, k: nat, before: seq<T>)
    requires k < |inputs|
    ensures before + inputs[..k] + [inputs[k]] == before + inputs[..k + 1]
  {
  }

  lemma GoesNoFurther(inputs: seq<Element>, k: nat, op: Op, outputs: seq<Element>, before: seq<Element>, calls: seq<Element>)
    requires GoneThrough(inputs, k, op, outputs, before, calls) && k < |inputs| && op(inputs[k]).Failure?
    ensures TransformAll(inputs, op) == FirstFailure(op(inputs[k]).code)
    ensures Succeeded(inputs, op) == k && Attempted(inputs, op) == k + 1
    ensures calls + [inputs[k]] == before + inputs[..k + 1]
  {
    assert Succeeded(inputs[..k], op) == |inputs[..k]|;
    StopsAt(inputs, k, op);
    OneMoreCall(inputs, k, before);
  }

  lemma GoesToTheEnd(inputs: seq<Element>, op: Op, outputs: seq<Element>, before: seq<Element>, calls: seq<Element>)
    requires GoneThrough(inputs, |inputs|, op, outputs, before, calls)
    ensures TransformAll(inputs, op) == AllDone(outputs)
    ensures Succeeded(inputs, op) == |inputs| && calls == before + inputs[..Attempted(inputs, op)]
  {
    assert inputs[..|inputs|] == inputs;
  }

  // One operation of the cipher. Nothing is computed under the key but by a call of it.
  class Cipher {
    const op: Op
    // What it was called on, in order.
    ghost var calls: seq<Element>

    constructor (op: Op)
      ensures this.op == op && calls == []
    {
      this.op := op;
      calls := [];
    }

    method Apply(e: Element) returns (r: OpResult)
      modifies this
      ensures r == op(e) && calls == old(calls) + [e]
    {
      calls := calls + [e];
      r := op(e);
    }

    // The loop itself, counting on the counter it is given.
    method RunAll(inputs: seq<Element>, counter: ProgressCounter, ghost base: int) returns (r: Transformed)
      requires CountedTo(counter.State(), base, 0)
      modifies this, counter, counter.slot
      ensures r == TransformAll(inputs, op)
      ensures calls == old(calls) + inputs[..Attempted(inputs, op)]
      ensures CountedTo(counter.State(), base, Succeeded(inputs, op))
    {
      ghost var before := calls;
      var outputs: seq<Element> := [];
      GoesFrom(inputs, op, before);
      for k := 0 to |inputs|
        invariant GoneThrough(inputs, k, op, outputs, before, calls)
        invariant CountedTo(counter.State(), base, k)
      {
        ghost var called := calls;
        var encrypted := Apply(inputs[k]);
        match encrypted {
          case Failure(code) =>
            GoesNoFurther(inputs, k, op, outputs, before, called);
            return FirstFailure(code);
          case Success(e) =>
            CountedOn(counter.State(), base, k);
            GoesOn(inputs, k, op, outputs, before, called);
            outputs := outputs + [e];
            counter.Increment();
        }
      }
      GoesToTheEnd(inputs, op, outputs, before, calls);
      return AllDone(outputs);
    }

    /**
      The single-threaded loop: each element once, in order, up to the first that fails; the
      progress slot, if there is one, is raised by the number that did not.
     */
    method ApplyAll(inputs: seq<Element>, progress: Slot?) returns (r: Transformed)
      modifies this, progress
      ensures r == TransformAll(inputs, op)
      ensures calls == old(calls) + inputs[..Attempted(inputs, op)]
      ensures progress != null ==> progress.value == Wrapped(old(progress.value) + Succeeded(inputs, op))
    {
      var counter := new ProgressCounter(progress);
      ghost var base := if progress == null then 0 else progress.value;
      r := RunAll(inputs, counter, base);
      CountedOn(counter.State(), base, Succeeded(inputs, op));
      counter.Flush();
    }
  }
}
