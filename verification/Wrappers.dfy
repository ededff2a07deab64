/** Results that may be absent, or that the source does not define. */
module Wrappers {
  datatype Option<+T> = None | Some(value: T)

  // The first number that a signed 64-bit word cannot hold.
  const LIMIT := 0x8000_0000_0000_0000

  // What the source goes into without noticing it: a read past the end of a string, arithmetic
  // that leaves 64 bits, bits shifted by more than a word has or by less than nothing, a
  // floating-point number made a 64-bit one that is none, or hashing into an empty range. What it
  // does from there on is not part of this model.
  datatype Fault = PastEnd | Overflow | BadShift | BadCast | NoHash

  // What looking a list up in a container gives: positions in the list, or a fault.
  datatype LookedUp = Found(positions: seq<int>) | Fails(fault: Fault)
}
