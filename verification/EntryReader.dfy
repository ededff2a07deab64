/** The resumable entry reader: the same entries as reading byte by byte, but whole elements at once. */
module EntryReaders {
  import opened Bytes
  import opened Bits
  import opened Wire

  /**
    Accumulates one byte of a varint. The new bits never overlap those already there, so "or"
    is addition.
   */
  method AddVarint32Byte(b: byte, valueIn: nat, bytesReadIn: nat, which: Which)
    returns (status: Status, done: bool, value: nat, bytesRead: nat)
    requires bytesReadIn <= 4 && valueIn < Shl(1, 7 * bytesReadIn)
    ensures match VarintByte(valueIn, bytesReadIn, b)
            case TooWide => status == LengthTooWide(which)
            case More(v) => status == Ok && !done && value == v && bytesRead == bytesReadIn + 1
            case Complete(v) => status == Ok && done && value == v
  {
    value, bytesRead := valueIn, bytesReadIn;
    if bytesRead == 4 && b >= 16 {
      return LengthTooWide(which), false, value, bytesRead;
    }
    OrIsSum(b % 128, 7 * bytesRead, value);
    value := Or(Shl(b % 128, 7 * bytesRead), value);
    bytesRead := bytesRead + 1;
    return Ok, b < 128, value, bytesRead;
  }

  // Reading `chunk` byte by byte takes the reader from one state to the other, and gives `out`
  // with the last byte and nothing before. After a refusal the reader's state is of no account.
  ghost predicate Consumes(before: ReaderState, chunk: seq<byte>, after: ReaderState, out: ReadOut) {
    ReaderOk(before) && (ConsumesByte(before, chunk, after, out) || ConsumesBody(before, chunk, after, out))
  }

  ghost predicate ConsumesByte(before: ReaderState, chunk: seq<byte>, after: ReaderState, out: ReadOut)
    requires ReaderOk(before)
  {
    |chunk| == 1 && ReadByte(before, chunk[0]).1 == out && (out.Refuse? || ReadByte(before, chunk[0]).0 == after)
  }

  ghost predicate ConsumesBody(before: ReaderState, chunk: seq<byte>, after: ReaderState, out: ReadOut) {
    && before.InBody? && chunk != [] && |before.body| + |chunk| <= before.length
    && if |before.body| + |chunk| == before.length
       then out == Entry(before.body + chunk) && after == AtTag
       else out == Nothing && after == InBody(before.length, before.body + chunk)
  }

  function AfterOut(f: Feed, after: ReaderState, out: ReadOut, onEntry: Callback): Feed {
    match out
    case Nothing => f.(reader := after)
    case Refuse(status) => f.(status := status)
    case Entry(e) => Offer(f.(reader := after), e, onEntry)
  }

  /** A pass over several bytes at once is the byte-by-byte automaton run over them. */
  lemma ConsumedIsFed(f: Feed, chunk: seq<byte>, after: ReaderState, out: ReadOut, onEntry: Callback)
    requires f.status == Ok && Consumes(f.reader, chunk, after, out)
    ensures FeedBytes(f, chunk, onEntry) == AfterOut(f, after, out, onEntry)
  {
    if ConsumesByte(f.reader, chunk, after, out) {
      assert chunk == [chunk[0]] && chunk[1..] == [];
      assert FeedBytes(FeedByte(f, chunk[0], onEntry), [], onEntry) == FeedByte(f, chunk[0], onEntry);
    } else {
      FeedBody(f, chunk, onEntry);
    }
  }

  /** One pass inside a window: what follows is fed to the state the pass left, unless it refused. */
  lemma PassInWindow(f: Feed, bytes: seq<byte>, at: nat, next: nat, after: ReaderState, out: ReadOut, onEntry: Callback)
    requires at <= next <= |bytes| && f.status == Ok && Consumes(f.reader, bytes[at..next], after, out)
    requires !out.Refuse? ==> ReaderOk(after)
    ensures var g := AfterOut(f, after, out, onEntry);
            FeedBytes(f, bytes[at..], onEntry) == if g.status == Ok then FeedBytes(g, bytes[next..], onEntry) else g
  {
    assert bytes[at..] == bytes[at..next] + bytes[next..];
    FeedInTwo(f, bytes[at..next], bytes[next..], onEntry);
    ConsumedIsFed(f, bytes[at..next], after, out, onEntry);
    var g := AfterOut(f, after, out, onEntry);
    if g.status != Ok {
      FeedStops(g, bytes[next..], onEntry);
    }
  }

  datatype State = KTag | KLength | KBody

  class EntryReader {
    var state: State
    var length: nat
    var lengthBytes: nat
    var body: seq<byte>

    constructor ()
      ensures Valid() && Reads() == AtTag
    {
      state, length, lengthBytes, body := KTag, 0, 0, [];
    }

    ghost function Reads(): ReaderState
      reads this
    {
      match state
      case KTag => AtTag
      case KLength => InLength(length, lengthBytes)
      case KBody => InBody(length, body)
    }

    ghost predicate Valid()
      reads this
    {
      ReaderOk(Reads())
    }

    predicate AtEntryBoundary()
      reads this
    {
      state == KTag
    }

    /**
      One pass of the reading loop: takes one framing byte, a whole element still lying in the
      window, or as much of an element as the window has. The callback's part of the pass is
      the caller's, who gets the completed entry.
     */
    method Advance(bytes: seq<byte>, at: nat) returns (next: nat, out: ReadOut)
      requires Valid() && at < |bytes|
      modifies this
      ensures at < next <= |bytes|
      ensures Consumes(old(Reads()), bytes[at..next], Reads(), out)
      ensures !out.Refuse? ==> Valid()
      ensures out.Entry? ==> |out.element| <= 1 + 256 / 8
      ensures out.Refuse? && out.status.ElementTooLong? ==> out.status.length > 1 + 256 / 8
    {
      ghost var before := Reads();
      match state {
        case KTag =>
          next := at + 1;
          if bytes[at] != FIELD_1_LENGTH_DELIMITED {
            out := Refuse(UnexpectedField);
          } else {
            state, length, lengthBytes, out := KLength, 0, 0, Nothing;
          }
          assert ConsumesByte(before, bytes[at..next], Reads(), out);
        case KLength =>
          next := at + 1;
          var status, done, value, bytesRead := AddVarint32Byte(bytes[at], length, lengthBytes, ElementLength);
          if status != Ok {
            out := Refuse(status);
          } else {
            length, lengthBytes := value, bytesRead;
            if !done {
              out := Nothing;
            } else if length > MAX_ELEMENT_BYTES {
              out := Refuse(ElementTooLong(length));
            } else {
              body := [];
              state := KBody;
              out := Nothing;
              if length == 0 {
                state := KTag;
                out := Entry([]);
              }
            }
          }
          assert ConsumesByte(before, bytes[at..next], Reads(), out);
        case KBody =>
          var wanted := length - |body|;
          var available := |bytes| - at;
          if body == [] && available >= wanted {
            next := at + wanted;
            state := KTag;
            out := Entry(bytes[at..next]);
            assert before.body + bytes[at..next] == bytes[at..next];
          } else {
            var take := if wanted < available then wanted else available;
            body := body + bytes[at..at + take];
            next := at + take;
            out := Nothing;
            if |body| == length {
              state := KTag;
              out := Entry(body);
            }
          }
          assert ConsumesBody(before, bytes[at..next], Reads(), out);
      }
    }
  }
}
