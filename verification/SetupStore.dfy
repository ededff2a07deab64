/** The setup elements in fixed slots, in blocks that are never moved, and the search over them. */
module SetupStores {
  import opened Bytes
  import opened Wire

  // Every element takes as much room as the longest can; its first byte says how much of it is used.
  const SLOT_BYTES := 1 + MAX_ELEMENT_BYTES
  const BLOCK_SLOTS := 65536
  const BLOCK_BYTES := BLOCK_SLOTS * SLOT_BYTES

  function Block(index: nat): nat {
    index / BLOCK_SLOTS
  }

  function SlotStart(index: nat): (r: nat)
    ensures r + SLOT_BYTES <= BLOCK_BYTES
  {
    (index % BLOCK_SLOTS) * SLOT_BYTES
  }

  lemma SlotsAreDisjoint(i: nat, j: nat)
    requires i < j && Block(i) == Block(j)
    ensures SlotStart(i) + SLOT_BYTES <= SlotStart(j)
  {
  }

  class SetupStore {
    var blocks: seq<array<byte>>
    var count: nat
    // The elements held, in order.
    ghost var contents: seq<Element>

    constructor ()
      ensures Holds() && contents == [] && fresh(this) && blocks == []
    {
      blocks, count, contents := [], 0, [];
    }

    ghost predicate SlotHolds(index: nat, e: Element)
      requires Block(index) < |blocks| && blocks[Block(index)].Length == BLOCK_BYTES
      reads this, blocks[Block(index)]
    {
      && |e| <= MAX_ELEMENT_BYTES
      && blocks[Block(index)][SlotStart(index)] == |e|
      && forall k :: 0 <= k < |e| ==> blocks[Block(index)][SlotStart(index) + 1 + k] == e[k]
    }

    ghost predicate Shaped()
      reads this
    {
      && |blocks| == (count + BLOCK_SLOTS - 1) / BLOCK_SLOTS
      && (forall b :: 0 <= b < |blocks| ==> blocks[b].Length == BLOCK_BYTES)
      && (forall b, c :: 0 <= b < c < |blocks| ==> blocks[b] != blocks[c])
      && |contents| == count
    }

    ghost predicate Holds()
      reads this, blocks
    {
      Shaped() && forall i :: 0 <= i < count ==> SlotHolds(i, contents[i])
    }

    method SetupElement(index: nat) returns (e: Element)
      requires Holds() && index < count
      ensures e == contents[index]
    {
      var slot := blocks[Block(index)];
      var start := SlotStart(index);
      assert SlotHolds(index, contents[index]);
      e := slot[start + 1..start + 1 + slot[start]];
    }

    /** Accepts an element that follows the last one, and writes it to the next slot. */
    method AddSetupElement(element: Element) returns (status: Status)
      requires Holds() && |element| <= MAX_ELEMENT_BYTES
      modifies this, blocks
      ensures Holds() && fresh(set b | b in blocks && b !in old(blocks))
      ensures status == AcceptSetupElement(old(contents), element)
      ensures contents == if status == Ok then old(contents) + [element] else old(contents)
      ensures status == Ok <==> MayFollow(old(contents), element)
    {
      SetupElementAcceptedIff(contents, element);
      status := CheckElement(element);
      if status == Ok {
        AppendElement(element);
      }
    }

    // Whether an element can come next.
    method CheckElement(element: Element) returns (status: Status)
      requires Holds()
      ensures status == AcceptSetupElement(contents, element)
    {
      if count >= MAX_ELEMENTS {
        return TooManySetupElements;
      }
      if count > 0 {
        var last := SetupElement(count - 1);
        CompareElementsIsByteOrder(last, element);
        if CompareElements(last, element) >= 0 {
          return NotStrictlyAscending;
        }
      }
      return Ok;
    }

    method AppendElement(element: Element)
      requires Holds() && |element| <= MAX_ELEMENT_BYTES
      modifies this, blocks
      ensures Holds() && fresh(set b | b in blocks && b !in old(blocks))
      ensures contents == old(contents) + [element]
    {
      if Block(count) == |blocks| {
        AddBlock();
      }
      Write(element);
    }

    method AddBlock()
      requires Holds()
      modifies this`blocks
      ensures |blocks| == |old(blocks)| + 1 && blocks[..|old(blocks)|] == old(blocks)
      ensures fresh(blocks[|blocks| - 1])
      ensures forall b :: 0 <= b < |blocks| ==> blocks[b].Length == BLOCK_BYTES
      ensures forall b, c :: 0 <= b < c < |blocks| ==> blocks[b] != blocks[c]
      ensures forall i :: 0 <= i < count ==> SlotHolds(i, contents[i])
    {
      var block := new byte[BLOCK_BYTES](_ => 0);
      blocks := blocks + [block];
      forall i | 0 <= i < count
        ensures SlotHolds(i, contents[i])
      {
        assert old(SlotHolds(i, contents[i]));
      }
    }

    method Write(element: Element)
      requires Block(count) < |blocks| && |contents| == count && |element| <= MAX_ELEMENT_BYTES
      requires forall b :: 0 <= b < |blocks| ==> blocks[b].Length == BLOCK_BYTES
      requires forall b, c :: 0 <= b < c < |blocks| ==> blocks[b] != blocks[c]
      requires forall i :: 0 <= i < count ==> SlotHolds(i, contents[i])
      modifies this`count, this`contents, blocks[Block(count)]
      ensures count == old(count) + 1 && contents == old(contents) + [element]
      ensures forall i :: 0 <= i < count ==> SlotHolds(i, contents[i])
    {
      var slot := blocks[Block(count)];
      var start := SlotStart(count);
      slot[start] := |element|;
      forall k | 0 <= k < |element| {
        slot[start + 1 + k] := element[k];
      }
      forall i | 0 <= i < count
        ensures SlotHolds(i, contents[i])
      {
        assert old(SlotHolds(i, contents[i]));
        if Block(i) == Block(count) {
          SlotsAreDisjoint(i, count);
        }
      }
      contents := contents + [element];
      count := count + 1;
    }

    /** The setup position of an element, or -1: binary search over a strictly ascending store. */
    method FindInSetup(element: Element) returns (index: int)
      requires Holds() && StrictlyAscending(contents)
      ensures -1 <= index < count
      ensures index >= 0 ==> contents[index] == element
      ensures index == -1 <==> element !in contents
    {
      PrecedesIsStrictTotalOrder();
      var low, high := 0, count;
      while low < high
        invariant 0 <= low <= high <= count
        invariant forall k :: 0 <= k < low ==> Precedes(contents[k], element)
        invariant forall k :: high <= k < count ==> Precedes(element, contents[k])
      {
        var mid := low + (high - low) / 2;
        var e := SetupElement(mid);
        CompareElementsIsByteOrder(e, element);
        var order := CompareElements(e, element);
        if order == 0 {
          return mid;
        }
        if order < 0 {
          low := mid + 1;
        } else {
          high := mid;
        }
      }
      return -1;
    }
  }
}
