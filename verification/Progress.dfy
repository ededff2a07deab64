/** The shared progress slot and the per-shard counter that publishes to it in batches. */
module Progress {
  import opened Wrappers

  predicate IsWord(x: int) {
    -0x8000_0000 <= x < 0x8000_0000
  }

  // What a caller-owned 32-bit slot holds.
  type Word = x: int | IsWord(x)

  // A 32-bit two's complement addition wraps.
  function Wrapped(x: int): (r: Word)
    ensures IsWord(x) ==> r == x
  {
    (x + 0x8000_0000) % 0x1_0000_0000 - 0x8000_0000
  }

  lemma WrappedTwice(x: int, y: int)
    ensures Wrapped(Wrapped(x) + y) == Wrapped(x + y)
  {
    assert Wrapped(x) + y + 0x8000_0000 == (x + 0x8000_0000) % 0x1_0000_0000 + y;
  }

  // A counter's buffered count, and the slot it shares; None is the null slot.
  datatype Counter = Counter(pending: nat, slot: Option<Word>)

  predicate IsCounter(c: Counter) {
    c.pending < 256 && (c.slot.None? ==> c.pending == 0)
  }

  function Flushed(c: Counter): (r: Counter)
    ensures r.slot.Some? <==> c.slot.Some?
    ensures IsCounter(c) ==> r.pending == 0
  {
    if c.slot.None? || c.pending == 0 then c
    else Counter(0, Some(Wrapped(c.slot.value + c.pending)))
  }

  function Incremented(c: Counter): (r: Counter)
    ensures r.slot.Some? <==> c.slot.Some?
    ensures IsCounter(c) ==> IsCounter(r)
    ensures r.pending <= c.pending + 1
  {
    if c.slot.None? then c
    else if c.pending + 1 >= 256 then Flushed(c.(pending := c.pending + 1))
    else c.(pending := c.pending + 1)
  }

  /** Neither call loses a count: what is published and what is buffered make up what was counted. */
  lemma NothingIsLost(c: Counter, base: int, counted: nat)
    requires IsCounter(c) && c.slot == Some(Wrapped(base + counted - c.pending))
    ensures Flushed(c) == Counter(0, Some(Wrapped(base + counted)))
    ensures var r := Incremented(c);
            r.slot == Some(Wrapped(base + counted + 1 - r.pending))
  {
    var published := base + counted - c.pending;
    WrappedTwice(published, c.pending);
    WrappedTwice(published, c.pending + 1);
  }

  /** Wrapping moves a number by a multiple of 2^32, into the range of 32 bits with a sign. */
  lemma WrappedIs(x: int)
    ensures (Wrapped(x) - x) % 0x1_0000_0000 == 0 && -0x8000_0000 <= Wrapped(x) < 0x8000_0000
  {
  }

  function IncrementedTimes(c: Counter, k: nat): Counter {
    if k == 0 then c else Incremented(IncrementedTimes(c, k - 1))
  }

  /** Of k elements counted since the slot held a value, all but the last k mod 256 are published. */
  lemma {:induction false} PublishesEvery256(value: Word, k: nat)
    ensures IncrementedTimes(Counter(0, Some(value)), k) == Counter(k % 256, Some(Wrapped(value + k - k % 256)))
    decreases k
  {
    if k > 0 {
      PublishesEvery256(value, k - 1);
      NextOf256(k - 1);
      WrappedTwice(value + (k - 1) - (k - 1) % 256, 256);
    }
  }

  lemma NextOf256(k: nat)
    ensures (k + 1) % 256 == if k % 256 == 255 then 0 else k % 256 + 1
  {
  }

  // The counter has counted so many since the slot, if there is one, held base.
  ghost predicate CountedTo(c: Counter, base: int, counted: nat) {
    IsCounter(c) && (c.slot.Some? ==> c.slot.value == Wrapped(base + counted - c.pending))
  }

  lemma CountedOn(c: Counter, base: int, counted: nat)
    requires CountedTo(c, base, counted)
    ensures Flushed(c).slot.Some? ==> Flushed(c).slot.value == Wrapped(base + counted)
    ensures CountedTo(Incremented(c), base, counted + 1)
  {
    if c.slot.Some? {
      NothingIsLost(c, base, counted);
    }
  }

  // The caller's 32-bit word.
  class Slot {
    var value: Word

    constructor ()
      ensures value == 0
    {
      value := 0;
    }

    method FetchAdd(n: int)
      modifies this
      ensures value == Wrapped(old(value) + n)
    {
      value := Wrapped(value + n);
    }
  }

  class ProgressCounter {
    const slot: Slot?
    var pending: nat

    constructor (slot: Slot?)
      ensures this.slot == slot && pending == 0
    {
      this.slot := slot;
      pending := 0;
    }

    function State(): Counter
      reads this, slot
    {
      Counter(pending, if slot == null then None else Some(slot.value))
    }

    method Increment()
      modifies this, slot
      ensures State() == Incremented(old(State()))
      ensures slot == null ==> pending == old(pending)
      ensures slot != null ==>
                if old(pending) + 1 < 256 then pending == old(pending) + 1 && slot.value == old(slot.value)
                else pending == 0 && slot.value == Wrapped(old(slot.value) + old(pending) + 1)
    {
      if slot == null {
        return;
      }
      pending := pending + 1;
      if pending >= 256 {
        Flush();
      }
    }

    // Also what the destructor does.
    method Flush()
      modifies this, slot
      ensures State() == Flushed(old(State()))
    {
      if slot == null || pending == 0 {
        return;
      }
      slot.FetchAdd(pending);
      pending := 0;
    }
  }

  method ResetProgress(slot: Slot?)
    modifies slot
    ensures slot != null ==> slot.value == 0
  {
    if slot != null {
      slot.value := 0;
    }
  }
}
