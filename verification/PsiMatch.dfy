/** The streaming matcher, with the fields and the control flow it has. */
module PsiMatches {
  import opened Bytes
  import opened Bits
  import opened Wire
  import opened MatchSpec
  import opened Windows
  import opened EcCipher
  import opened Bulk
  import opened EntryReaders
  import opened SetupStores
  import opened Bitmap
  import opened Progress

  datatype Phase = KSetup | KMatching | KFinished

  datatype Frame = KFrameTag | KFrameLength | KFrameBody | KFrameDone

  // The bitmap and the two columns hold what the decrypted elements match, and nothing else.
  ghost predicate RecordedIn(words: seq<nat>, rows: seq<nat>, cols: seq<nat>,
                             elements: seq<Element>, plains: seq<Element>, pairs: bool) {
    && Marks(words, |elements|, MatchedSetup(elements, plains))
    && rows == (if pairs then ResponseRows(elements, plains) else [])
    && cols == (if pairs then SetupCols(elements, plains) else [])
  }

  lemma RecordMiss(words: seq<nat>, rows: seq<nat>, cols: seq<nat>,
                   elements: seq<Element>, plains: seq<Element>, pairs: bool, plain: Element)
    requires RecordedIn(words, rows, cols, elements, plains, pairs)
    requires StrictlyAscending(elements) && plain !in elements
    ensures RecordedIn(words, rows, cols, elements, plains + [plain], pairs)
  {
    OneMoreMatched(elements, plains, plain, -1);
  }

  lemma RecordMatch(words: seq<nat>, rows: seq<nat>, cols: seq<nat>,
                    elements: seq<Element>, plains: seq<Element>, pairs: bool, plain: Element, index: nat)
    requires RecordedIn(words, rows, cols, elements, plains, pairs)
    requires StrictlyAscending(elements) && index < |elements| && elements[index] == plain
    ensures RecordedIn(Mark(words, index), if pairs then rows + [|plains|] else rows,
                       if pairs then cols + [index] else cols, elements, plains + [plain], pairs)
  {
    OneMoreMatched(elements, plains, plain, index);
    MarkAdds(words, |elements|, MatchedSetup(elements, plains), index);
  }

  // What a call with these bytes may call the cipher on: none of the entries that was decrypted
  // before, each other no more often than it comes, in one loop in their order; outside the
  // matching phase nothing.
  ghost predicate CalledFor(build: Build, s: Session, bytes: seq<byte>, before: seq<Element>, calls: seq<Element>) {
    if s.Matching? && ReaderOk(s.reader) then
      && before == s.entries
      && Logged(build.SingleThreaded?, before, calls, FeedBytes(Feed(s.reader, s.entries, Ok), bytes, AcceptResponseElement).entries)
    else calls == before
  }

  // What a call for a window comes to. Only a build with threads can lose a shard; its status is
  // then the session's end.
  ghost predicate PieceResult(build: Build, client: Client, s: Session, bytes: seq<byte>, before: seq<Element>,
                              status: Status, s': Session, calls: seq<Element>)
    requires SessionOk(s, client)
  {
    if s.Matching? && status.ShardFailed? then !NeverAborts(build) && s' == Failed(|s.elements|, status)
    else s' == DoPiece(s, client, bytes) && status == StatusOf(s') && CalledFor(build, s, bytes, before, calls)
  }

  // The window's result is the session's next state.
  lemma WindowIsPiece(build: Build, client: Client, elements: seq<Element>, start: Reading, bytes: seq<byte>, status: Status, r: Reading)
    requires InStep(start) && SessionOk(Matching(elements, start.reader, start.entries), client)
    requires WindowResult(build, client.decrypt, elements, start, bytes, status, r)
    ensures PieceResult(build, client, Matching(elements, start.reader, start.entries), bytes, start.calls, status,
                        if status == Ok then Matching(elements, r.reader, r.entries) else Failed(|elements|, status), r.calls)
  {
  }

  // What a slot comes to when the cipher is called so often: the last call does not count if it failed.
  function Raised(value: Word, calls: int, status: Status): Word {
    Wrapped(value + calls - (if status.CipherError? then 1 else 0))
  }

  // Whether the calls say what the slot comes to: on threads not if one of them failed.
  predicate IsCounted(build: Build, status: Status) {
    !status.ShardFailed? && (status.CipherError? ==> build.SingleThreaded?)
  }

  lemma CountedIsRaised(value: Word, before: nat, after: nat, status: Status)
    ensures Wrapped((if status.CipherError? then value - before - 1 else value - before) + after)
         == Raised(value, after - before, status)
  {
  }

  // What decrypting a batch says of the session.
  function AsStatus(r: BulkResult): Status {
    match r
    case ShardLost(code) => ShardFailed(code)
    case Ran(FirstFailure(code)) => CipherError(code)
    case Ran(AllDone(_)) => Ok
  }

  // How many were transformed, where the calls tell.
  function Transforms(r: BulkResult, called: int): int {
    if AsStatus(r).CipherError? then called - 1 else called
  }

  lemma BatchCounted(build: Build, batch: seq<Element>, decrypt: Op, r: BulkResult, value: Word, value': Word,
                     before: seq<Element>, calls: seq<Element>)
    requires Counted(build, batch, decrypt, r, value, value') && Handed(build, batch, decrypt, r, before, calls)
    requires IsCounted(build, AsStatus(r)) && (r.Ran? ==> r.t == TransformAll(batch, decrypt))
    ensures value' == Wrapped(value + Transforms(r, |calls| - |before|))
  {
    CallsTell(build, batch, decrypt, r, before, calls);
    assert Transforms(r, |calls| - |before|) == if RanThrough(r) then |batch| else Succeeded(batch, decrypt);
  }

  lemma CallsTell(build: Build, batch: seq<Element>, decrypt: Op, r: BulkResult, before: seq<Element>, calls: seq<Element>)
    requires Handed(build, batch, decrypt, r, before, calls)
    requires IsCounted(build, AsStatus(r)) && (r.Ran? ==> r.t == TransformAll(batch, decrypt))
    ensures Transforms(r, |calls| - |before|) == if RanThrough(r) then |batch| else Succeeded(batch, decrypt)
    ensures !RanThrough(r) ==> build.SingleThreaded?
  {
    AllAttempted(batch, decrypt);
  }

  lemma SlotRaised(value: Word, value': Word, base: int, before: nat, n: int, x: int)
    requires value == Wrapped(base + before) && value' == Wrapped(value + n) && x == base + before + n
    ensures value' == Wrapped(x)
  {
    WrappedTwice(base + before, n);
  }

  // The log after a batch, in step with the entries if it could be decrypted.
  lemma BatchDecrypted(build: Build, decrypt: Op, r: Reading, bulk: BulkResult, calls: seq<Element>)
    requires r.calls == r.entries && Handed(build, r.batch, decrypt, bulk, r.calls, calls)
    requires bulk.ShardLost? ==> !NeverAborts(build)
    requires bulk.Ran? ==> bulk.t == TransformAll(r.batch, decrypt)
    ensures BatchResult(build, decrypt, r, AsStatus(bulk),
                        if AsStatus(bulk) == Ok then Reading(r.reader, r.entries + r.batch, [], calls) else r.(calls := calls))
    ensures AsStatus(bulk) == Ok ==> calls == r.entries + r.batch
  {
    HandedIsLogged(r.calls, r.batch, calls);
  }

  lemma HandedIsLogged(before: seq<Element>, batch: seq<Element>, calls: seq<Element>)
    requires before <= calls && multiset(calls[|before|..]) <= multiset(batch)
    ensures multiset(calls) <= multiset(before + batch)
    ensures forall k :: 0 <= k <= |batch| && calls == before + batch[..k] ==> calls <= before + batch
  {
    assert calls == before + calls[|before|..];
  }

  // One element more, refused, queued, or the last of a batch.
  lemma ElementTaken(build: Build, decrypt: Op, r: Reading, element: Element, status: Status, r': Reading)
    requires r.calls == r.entries
    requires if |r.entries| + |r.batch| >= MAX_ELEMENTS then status == TooManyResponseElements && r' == r
             else if |r.batch| + 1 < BATCH_ELEMENTS then status == Ok && r' == r.(batch := r.batch + [element])
             else BatchResult(build, decrypt, r.(batch := r.batch + [element]), status, r')
    ensures TakeResult(build, decrypt, r, element, status, r')
  {
    var all := r.entries + r.batch;
    QueuedAtTheEnd(r.entries, r.batch, element);
    if |all| >= MAX_ELEMENTS || |r.batch| + 1 < BATCH_ELEMENTS {
      LoggedAll(build.SingleThreaded?, r.calls, all + [element]);
    }
  }

  lemma NothingWaits(build: Build, decrypt: Op, r: Reading)
    requires r.calls == r.entries && r.batch == []
    ensures BatchResult(build, decrypt, r, Ok, r)
  {
    assert r.entries + [] == r.entries;
    LoggedAll(build.SingleThreaded?, r.calls, r.entries + r.batch);
  }

  class PsiMatch {
    const client: Client
    const cipher: Cipher
    const build: Build
    var phase: Phase
    var failure: Status

    var setupFrame: Frame
    var rawLength: nat
    var rawLengthBytes: nat
    var rawRemaining: nat
    const setupReader: EntryReader
    const store: SetupStore

    const responseReader: EntryReader
    var batch: seq<Element>
    var decryptedCount: nat
    var matchedSetup: seq<nat>
    var responseIndices: seq<nat>
    var setupIndices: seq<nat>

    // The response elements decrypted so far, and the result once there is one.
    ghost var entries: seq<Element>
    ghost var result: PsiMatchResult

    // ---- Abstraction ----

    ghost function FrameNow(): SetupFrame
      reads this, setupReader
    {
      match setupFrame
      case KFrameTag => FrameTag
      case KFrameLength => FrameLength(rawLength, rawLengthBytes)
      case KFrameBody => FrameBody(rawRemaining, setupReader.Reads())
      case KFrameDone => FrameDone
    }

    ghost function SetupNow(): Setup
      reads this, setupReader, store
    {
      Setup(FrameNow(), store.contents, Ok)
    }

    ghost function State(): Session
      reads this, setupReader, responseReader, store
    {
      if failure != Ok then Failed(store.count, failure)
      else
        match phase
        case KSetup => SettingUp(FrameNow(), store.contents)
        case KMatching => Matching(store.contents, responseReader.Reads(), entries)
        case KFinished => Finished(store.count, result)
    }

    ghost function Repr(): set<object>
      reads this, store
    {
      {this, setupReader, responseReader, store, cipher} + set b | b in store.blocks
    }

    // ---- Invariants ----

    ghost predicate SetupInv()
      reads this, setupReader, store, store.blocks
    {
      && store.Holds() && GoodSetup(store.contents) && SetupOk(SetupNow())
      && (setupFrame == KFrameTag ==> rawLength == 0 && rawLengthBytes == 0)
      && (setupFrame == KFrameTag || setupFrame == KFrameLength ==> setupReader.Reads() == AtTag)
    }

    // Everything recorded is what the elements decrypted so far give: the bitmap marks exactly
    // the setup positions equal to one of them.
    ghost predicate Matched()
      reads this, store, store.blocks
    {
      && store.Holds() && GoodSetup(store.contents)
      && TransformAll(entries, client.decrypt).AllDone?
      && decryptedCount == |entries|
      && Recorded(TransformAll(entries, client.decrypt).outputs)
    }

    // And the cipher has been called on the entries, each once, and on nothing else.
    ghost predicate MatchInv()
      reads this, cipher, store, store.blocks
    {
      Matched() && cipher.op == client.decrypt && cipher.calls == entries
    }

    ghost predicate Recorded(plains: seq<Element>)
      reads this, store
    {
      RecordedIn(matchedSetup, responseIndices, setupIndices, store.contents, plains, client.revealIntersection)
    }

    // The slot, if there is one, has counted the calls since it held base.
    ghost predicate Counts(progress: Slot?, base: int)
      reads cipher, progress
    {
      progress != null ==> progress.value == Wrapped(base + |cipher.calls|)
    }

    ghost predicate Valid()
      reads this, cipher, setupReader, responseReader, store, store.blocks
    {
      && setupReader != responseReader && cipher.op == client.decrypt
      && |store.contents| == store.count
      && (failure == Ok ==>
            match phase
            case KSetup =>
              && SetupInv()
              && responseReader.Reads() == AtTag && entries == [] && batch == [] && decryptedCount == 0
              && responseIndices == [] && setupIndices == [] && cipher.calls == []
            case KMatching =>
              MatchInv() && batch == [] && responseReader.Valid() && ElementsFit(entries)
            case KFinished => true)
    }

    // The same after a call with this status.
    ghost predicate CountsAfter(progress: Slot?, base: int, status: Status)
      reads cipher, progress
    {
      IsCounted(build, status) ==> Counts(progress, if status.CipherError? then base - 1 else base)
    }

    lemma ValidIsSessionOk()
      requires Valid()
      ensures SessionOk(State(), client)
    {
    }

    constructor (client: Client, build: Build)
      ensures Valid() && State() == NEW_SESSION && this.client == client && this.build == build
      ensures fresh(Repr())
    {
      this.client := client;
      this.build := build;
      phase, failure := KSetup, Ok;
      setupFrame, rawLength, rawLengthBytes, rawRemaining := KFrameTag, 0, 0, 0;
      batch, decryptedCount, matchedSetup, responseIndices, setupIndices := [], 0, [], [], [];
      entries := [];
      cipher := new Cipher(client.decrypt);
      store := new SetupStore();
      setupReader := new EntryReader();
      responseReader := new EntryReader();
      new;
      NothingYet();
      assert fresh(cipher) && fresh(store) && fresh(setupReader) && fresh(responseReader);
    }

    lemma NothingYet()
      requires phase == KSetup && failure == Ok && setupFrame == KFrameTag && rawLength == 0 && rawLengthBytes == 0
      requires setupReader != responseReader && setupReader.Reads() == AtTag && responseReader.Reads() == AtTag
      requires store.Holds() && store.contents == [] && cipher.op == client.decrypt && cipher.calls == []
      requires entries == [] && batch == [] && decryptedCount == 0 && responseIndices == [] && setupIndices == []
      requires store.blocks == []
      ensures Valid() && State() == NEW_SESSION
      ensures Repr() == {this, setupReader, responseReader, store, cipher}
    {
      assert (set b | b in store.blocks) == {};
    }

    method Fail(refusal: Status) returns (status: Status)
      requires refusal != Ok && setupReader != responseReader && |store.contents| == store.count
      requires cipher.op == client.decrypt
      modifies this`failure
      ensures Valid() && State() == Failed(store.count, refusal) && status == refusal
    {
      failure := refusal;
      return refusal;
    }

    // ---- The setup ----

    // One pass of the entry reader, its entry going to the store.
    method FeedSetupPass(bytes: seq<byte>, at: nat) returns (next: nat, status: Status)
      requires store.Holds() && setupReader.Valid() && at < |bytes|
      modifies setupReader, store, store.blocks
      ensures at < next <= |bytes|
      ensures store.Holds() && fresh(set b | b in store.blocks && b !in old(store.blocks))
      ensures status == Ok ==> setupReader.Valid()
      ensures var f := FeedBytes(Feed(old(setupReader.Reads()), old(store.contents), Ok), bytes[at..], AcceptSetupElement);
              if status == Ok then
                f == FeedBytes(Feed(setupReader.Reads(), store.contents, Ok), bytes[next..], AcceptSetupElement)
              else
                f.status == status && f.entries == store.contents
    {
      ghost var f := Feed(setupReader.Reads(), store.contents, Ok);
      var out;
      next, out := setupReader.Advance(bytes, at);
      PassInWindow(f, bytes, at, next, setupReader.Reads(), out, AcceptSetupElement);
      match out {
        case Nothing =>
          return next, Ok;
        case Refuse(refusal) =>
          return next, refusal;
        case Entry(element) =>
          status := store.AddSetupElement(element);
          return next, status;
      }
    }

    // Feeds a window inside the raw field to the entry reader, the elements to the store.
    method FeedSetup(bytes: seq<byte>) returns (status: Status)
      requires store.Holds() && setupReader.Valid()
      modifies setupReader, store, store.blocks
      ensures store.Holds() && fresh(set b | b in store.blocks && b !in old(store.blocks))
      ensures var f := FeedBytes(Feed(old(setupReader.Reads()), old(store.contents), Ok), bytes, AcceptSetupElement);
              && status == f.status && store.contents == f.entries
              && (status == Ok ==> setupReader.Valid() && setupReader.Reads() == f.reader)
    {
      var at := 0;
      ghost var f0 := Feed(setupReader.Reads(), store.contents, Ok);
      assert bytes[0..] == bytes;
      while at < |bytes|
        invariant 0 <= at <= |bytes| && store.Holds() && setupReader.Valid()
        invariant fresh(set b | b in store.blocks && b !in old(store.blocks))
        invariant FeedBytes(f0, bytes, AcceptSetupElement)
               == FeedBytes(Feed(setupReader.Reads(), store.contents, Ok), bytes[at..], AcceptSetupElement)
      {
        at, status := FeedSetupPass(bytes, at);
        if status != Ok {
          return status;
        }
      }
      return Ok;
    }

    // One byte of the setup's framing.
    method FramePass(b: byte) returns (status: Status)
      requires SetupInv() && setupFrame != KFrameBody
      modifies this`setupFrame, this`rawLength, this`rawLengthBytes, this`rawRemaining
      ensures var s := SetupByte(old(SetupNow()), b);
              && status == s.status && store.contents == s.elements
              && (status == Ok ==> SetupInv() && SetupNow() == s)
    {
      status := Ok;
      match setupFrame {
        case KFrameTag =>
          if b != FIELD_1_LENGTH_DELIMITED {
            status := NotSingleRaw;
          } else {
            setupFrame := KFrameLength;
          }
        case KFrameLength =>
          if !VarintByte(rawLength, rawLengthBytes, b).TooWide? {
            VarintFits(rawLength, rawLengthBytes, b);
          }
          var done;
          status, done, rawLength, rawLengthBytes := AddVarint32Byte(b, rawLength, rawLengthBytes, SetupLength);
          if status == Ok && done {
            rawRemaining := rawLength;
            setupFrame := if rawRemaining == 0 then KFrameDone else KFrameBody;
          }
        case KFrameDone =>
          status := TrailingBytes;
      }
    }

    // One pass of the loop over the setup's framing.
    method SetupPass(bytes: seq<byte>, at: nat) returns (next: nat, status: Status)
      requires SetupInv() && at < |bytes|
      modifies this`setupFrame, this`rawLength, this`rawLengthBytes, this`rawRemaining, setupReader, store, store.blocks
      ensures at < next <= |bytes|
      ensures |store.contents| == store.count && fresh(set b | b in store.blocks && b !in old(store.blocks))
      ensures var s := SetupBytes(old(SetupNow()), bytes[at..next]);
              && status == s.status && store.contents == s.elements
              && (status == Ok ==> SetupInv() && SetupNow() == s)
    {
      if setupFrame == KFrameBody {
        next, status := BodyPass(bytes, at);
      } else {
        OneSetupByte(SetupNow(), bytes, at);
        status := FramePass(bytes[at]);
        next := at + 1;
      }
    }

    lemma BodyWindow(s: Setup, part: seq<byte>)
      requires SetupOk(s) && s.status == Ok && s.frame.FrameBody? && part != [] && |part| <= s.frame.remaining
      requires GoodSetup(s.elements)
      ensures SetupBytes(s, part)
           == AfterBody(s.frame.remaining - |part|, FeedBytes(Feed(s.frame.reader, s.elements, Ok), part, AcceptSetupElement))
      ensures GoodSetup(SetupBytes(s, part).elements) && SetupOk(SetupBytes(s, part))
    {
      SetupBodyBytes(s, part);
      SetupBytesKeepGood(s, part);
    }

    // The bytes of the window that lie inside the raw field.
    method BodyPass(bytes: seq<byte>, at: nat) returns (next: nat, status: Status)
      requires SetupInv() && setupFrame == KFrameBody && at < |bytes|
      modifies this`setupFrame, this`rawRemaining, setupReader, store, store.blocks
      ensures at < next <= |bytes|
      ensures |store.contents| == store.count && fresh(set b | b in store.blocks && b !in old(store.blocks))
      ensures var s := SetupBytes(old(SetupNow()), bytes[at..next]);
              && status == s.status && store.contents == s.elements
              && (status == Ok ==> SetupInv() && SetupNow() == s)
    {
      var take := if rawRemaining < |bytes| - at then rawRemaining else |bytes| - at;
      next := at + take;
      var part := bytes[at..next];
      BodyWindow(SetupNow(), part);
      status := FeedSetup(part);
      if status == Ok {
        status := EndField(take);
      }
    }

    // So many bytes of the raw field are read; its end must be an entry's.
    method EndField(take: nat) returns (status: Status)
      requires setupFrame == KFrameBody && take <= rawRemaining < 0x1_0000_0000 && setupReader.Valid()
      modifies this`setupFrame, this`rawRemaining
      ensures var s := AfterBody(old(rawRemaining) - take, Feed(setupReader.Reads(), store.contents, Ok));
              && status == s.status && store.contents == s.elements
              && (status == Ok ==> SetupNow() == s && (setupFrame == KFrameBody || setupFrame == KFrameDone))
    {
      status := Ok;
      rawRemaining := rawRemaining - take;
      if rawRemaining == 0 {
        if setupReader.AtEntryBoundary() {
          setupFrame := KFrameDone;
        } else {
          status := EntryPastEnd;
        }
      }
    }

    lemma OneSetupByte(s: Setup, bytes: seq<byte>, at: nat)
      requires SetupOk(s) && at < |bytes|
      ensures SetupBytes(s, bytes[at..at + 1]) == SetupByte(s, bytes[at])
    {
      var one := bytes[at..at + 1];
      assert one[0] == bytes[at] && one[1..] == [];
    }

    // A call in the setup phase: the window, and the refusal if it ends in one.
    method ContinueSetup(bytes: seq<byte>) returns (status: Status)
      requires Valid() && failure == Ok && phase == KSetup
      modifies this, setupReader, store, store.blocks
      ensures Valid()
      ensures fresh(set b | b in store.blocks && b !in old(store.blocks))
      ensures State() == ReadSetup(old(FrameNow()), old(store.contents), bytes) && status == StatusOf(State())
    {
      status := ReadSetupWindow(bytes);
      if status != Ok {
        status := Fail(status);
      }
    }

    // The loop over a window of the setup.
    method ReadSetupWindow(bytes: seq<byte>) returns (status: Status)
      requires SetupInv()
      modifies this`setupFrame, this`rawLength, this`rawLengthBytes, this`rawRemaining, setupReader, store, store.blocks
      ensures |store.contents| == store.count && fresh(set b | b in store.blocks && b !in old(store.blocks))
      ensures var s := SetupBytes(old(SetupNow()), bytes);
              && status == s.status && store.contents == s.elements
              && (status == Ok ==> SetupInv() && SetupNow() == s)
    {
      ghost var s0 := SetupNow();
      var at := 0;
      assert bytes[0..] == bytes;
      while at < |bytes|
        invariant 0 <= at <= |bytes| && SetupInv()
        invariant fresh(set b | b in store.blocks && b !in old(store.blocks))
        invariant SetupBytes(s0, bytes) == SetupBytes(SetupNow(), bytes[at..])
      {
        ghost var s := SetupNow();
        var next;
        next, status := SetupPass(bytes, at);
        SetupPassInWindow(s, bytes, at, next);
        if status != Ok {
          return status;
        }
        at := next;
      }
      return Ok;
    }

    method AddSetupBytes(bytes: seq<byte>) returns (status: Status)
      requires Valid()
      modifies Repr()
      ensures Valid() && fresh(Repr() - old(Repr()))
      ensures old(Valid()) && State() == DoAddSetup(old(State()), client, bytes) && status == StatusOf(State())
      ensures cipher.calls == old(cipher.calls)
    {
      if failure != Ok {
        status := failure;
      } else if phase != KSetup {
        status := Fail(OutOfOrder(AddSetupBytesCall));
      } else {
        status := ContinueSetup(bytes);
      }
    }

    method SealSetup() returns (status: Status)
      requires Valid()
      modifies Repr()
      ensures Valid() && fresh(Repr() - old(Repr()))
      ensures State() == DoSeal(old(State())) && status == StatusOf(State())
      ensures cipher.calls == old(cipher.calls)
    {
      if failure != Ok {
        return failure;
      }
      if phase != KSetup {
        status := Fail(OutOfOrder(SealSetupCall));
        return status;
      }
      if setupFrame != KFrameDone {
        status := Fail(SetupIncomplete);
        return status;
      }
      StartMatching();
      return Ok;
    }

    method StartMatching()
      requires Valid() && failure == Ok && phase == KSetup && setupFrame == KFrameDone
      modifies this`matchedSetup, this`phase
      ensures Valid() && State() == Matching(store.contents, AtTag, [])
    {
      matchedSetup := Zeroed((store.count + 63) / 64);
      NothingRecorded();
      phase := KMatching;
    }

    lemma NothingRecorded()
      requires store.Holds() && matchedSetup == Zeroed((store.count + 63) / 64)
      requires responseIndices == [] && setupIndices == []
      ensures Recorded([])
    {
      NothingMarked(store.count);
      assert MatchedSetup(store.contents, []) == {};
    }

    // ---- The response ----

    // Looks one decrypted element up and records what it matches.
    method RecordOne(plain: Element, row: nat, ghost plains: seq<Element>)
      requires store.Holds() && GoodSetup(store.contents) && Recorded(plains) && row == |plains|
      modifies this`matchedSetup, this`responseIndices, this`setupIndices
      ensures Recorded(plains + [plain])
    {
      var index := store.FindInSetup(plain);
      if index < 0 {
        RecordMiss(matchedSetup, responseIndices, setupIndices, store.contents, plains, client.revealIntersection, plain);
        return;
      }
      RecordMatch(matchedSetup, responseIndices, setupIndices, store.contents, plains, client.revealIntersection, plain, index);
      matchedSetup := Mark(matchedSetup, index);
      if client.revealIntersection {
        responseIndices := responseIndices + [row];
        setupIndices := setupIndices + [index];
      }
    }

    method RecordNext(decrypted: seq<Element>, k: nat, ghost plains: seq<Element>)
      requires k < |decrypted| && store.Holds() && GoodSetup(store.contents)
      requires Recorded(plains + decrypted[..k]) && decryptedCount == |plains|
      modifies this`matchedSetup, this`responseIndices, this`setupIndices
      ensures Recorded(plains + decrypted[..k + 1])
    {
      assert plains + decrypted[..k + 1] == plains + decrypted[..k] + [decrypted[k]];
      RecordOne(decrypted[k], decryptedCount + k, plains + decrypted[..k]);
    }

    method RecordAll(decrypted: seq<Element>, ghost plains: seq<Element>)
      requires store.Holds() && GoodSetup(store.contents) && Recorded(plains) && decryptedCount == |plains|
      modifies this`matchedSetup, this`responseIndices, this`setupIndices
      ensures Recorded(plains + decrypted)
    {
      assert plains + decrypted[..0] == plains;
      for k := 0 to |decrypted|
        invariant Recorded(plains + decrypted[..k])
      {
        RecordNext(decrypted, k, plains);
      }
      assert decrypted[..|decrypted|] == decrypted;
    }

    // Decrypts the elements waiting, and counts those that could be.
    method DecryptBatch(progress: Slot?, ghost base: int) returns (r: BulkResult)
      requires cipher.op == client.decrypt && Counts(progress, base)
      modifies cipher, progress
      ensures r.ShardLost? ==> !NeverAborts(build)
      ensures r.Ran? ==> r.t == TransformAll(batch, client.decrypt)
      ensures Handed(build, batch, client.decrypt, r, old(cipher.calls), cipher.calls)
      ensures CountsAfter(progress, base, AsStatus(r))
    {
      ghost var value: Word := if progress == null then 0 else progress.value;
      ghost var before := cipher.calls;
      r := ApplyBulk(build, cipher, batch, progress);
      if progress != null && IsCounted(build, AsStatus(r)) {
        BatchCounted(build, batch, client.decrypt, r, value, progress.value, before, cipher.calls);
        SlotRaised(value, progress.value, base, |before|, Transforms(r, |cipher.calls| - |before|),
                   (if AsStatus(r).CipherError? then base - 1 else base) + |cipher.calls|);
      }
    }

    // Nothing waits any longer, and the elements that did are among those recorded.
    method ClearBatch(ghost all: seq<Element>)
      requires store.Holds() && GoodSetup(store.contents) && decryptedCount + |batch| == |all|
      requires TransformAll(all, client.decrypt).AllDone? && Recorded(TransformAll(all, client.decrypt).outputs)
      modifies this`batch, this`decryptedCount, this`entries
      ensures Matched() && batch == [] && entries == all
    {
      decryptedCount := decryptedCount + |batch|;
      entries := all;
      batch := [];
    }

    // Matches the elements that were waiting and are now decrypted.
    method RecordBatch(decrypted: seq<Element>)
      requires Matched() && TransformAll(batch, client.decrypt) == AllDone(decrypted)
      modifies this`batch, this`decryptedCount, this`matchedSetup, this`responseIndices, this`setupIndices, this`entries
      ensures Matched() && batch == [] && entries == old(entries) + old(batch)
    {
      TransformInTwo(entries, batch, client.decrypt);
      RecordAll(decrypted, TransformAll(entries, client.decrypt).outputs);
      ClearBatch(entries + batch);
    }

    ghost function ReadingNow(): Reading
      reads this, cipher, responseReader
    {
      Reading(responseReader.Reads(), entries, batch, cipher.calls)
    }

    // Decrypts the elements waiting and matches them if that fails nowhere.
    method MatchWaiting(progress: Slot?, ghost base: int) returns (r: BulkResult)
      requires MatchInv() && Counts(progress, base)
      modifies cipher, progress, this`batch, this`decryptedCount, this`matchedSetup, this`responseIndices, this`setupIndices, this`entries
      ensures r.ShardLost? ==> !NeverAborts(build)
      ensures r.Ran? ==> r.t == TransformAll(old(batch), client.decrypt)
      ensures Handed(build, old(batch), client.decrypt, r, old(cipher.calls), cipher.calls)
      ensures if AsStatus(r) == Ok then Matched() && batch == [] && entries == old(entries) + old(batch)
              else entries == old(entries) && batch == old(batch)
      ensures CountsAfter(progress, base, AsStatus(r))
    {
      r := DecryptBatch(progress, base);
      if AsStatus(r) == Ok {
        RecordBatch(r.t.outputs);
      }
    }

    // Decrypts and matches the elements waiting, if there are any.
    method MatchBatch(progress: Slot?, ghost base: int) returns (status: Status)
      requires MatchInv() && Counts(progress, base)
      modifies cipher, progress, this`batch, this`decryptedCount, this`matchedSetup, this`responseIndices, this`setupIndices, this`entries
      ensures BatchResult(build, client.decrypt, old(ReadingNow()), status, ReadingNow())
      ensures status == Ok ==> MatchInv()
      ensures CountsAfter(progress, base, status)
    {
      ghost var waiting := ReadingNow();
      status := Ok;
      if batch == [] {
        NothingWaits(build, client.decrypt, waiting);
      } else {
        var r := MatchWaiting(progress, base);
        BatchDecrypted(build, client.decrypt, waiting, r, cipher.calls);
        status := AsStatus(r);
      }
    }

    // The callback of the response reader: queues the element, and decrypts a full batch.
    method TakeResponseElement(element: Element, progress: Slot?, ghost base: int) returns (status: Status)
      requires MatchInv() && Counts(progress, base) && |batch| < BATCH_ELEMENTS
      modifies cipher, progress, this`batch, this`decryptedCount, this`matchedSetup, this`responseIndices, this`setupIndices, this`entries
      ensures TakeResult(build, client.decrypt, old(ReadingNow()), element, status, ReadingNow())
      ensures status == Ok ==> MatchInv()
      ensures CountsAfter(progress, base, status)
    {
      ghost var r := ReadingNow();
      if decryptedCount + |batch| >= MAX_ELEMENTS {
        status := TooManyResponseElements;
      } else {
        batch := batch + [element];
        status := Ok;
        if |batch| >= BATCH_ELEMENTS {
          status := MatchBatch(progress, base);
        }
      }
      ElementTaken(build, client.decrypt, r, element, status, ReadingNow());
    }

    // One pass of the entry reader, its entry going to the batch.
    method FeedResponsePass(bytes: seq<byte>, at: nat, progress: Slot?, ghost base: int)
      returns (next: nat, status: Status)
      requires MatchInv() && Counts(progress, base) && InStep(ReadingNow()) && at < |bytes|
      modifies responseReader, cipher, progress, this`batch, this`decryptedCount, this`matchedSetup, this`responseIndices, this`setupIndices, this`entries
      ensures at < next <= |bytes|
      ensures PassResult(build, client.decrypt, old(ReadingNow()), bytes[at..], bytes[next..], status, ReadingNow())
      ensures status == Ok ==> MatchInv()
      ensures CountsAfter(progress, base, status)
    {
      ghost var r := ReadingNow();
      var out;
      next, out := responseReader.Advance(bytes, at);
      ghost var reader := responseReader.Reads();
      match out {
        case Nothing =>
          NothingPasses(build, client.decrypt, r, bytes, at, next, reader);
          return next, Ok;
        case Refuse(refusal) =>
          RefusalPasses(build, client.decrypt, r, bytes, at, next, reader, refusal);
          return next, refusal;
        case Entry(element) =>
          status := TakeResponseElement(element, progress, base);
          EntryPasses(build, client.decrypt, r, bytes, at, next, reader, element, status, ReadingNow());
      }
    }

    // Feeds a whole window, leaving the elements of the last, unfilled batch waiting.
    method FeedResponse(bytes: seq<byte>, progress: Slot?, ghost base: int) returns (status: Status)
      requires MatchInv() && Counts(progress, base) && InStep(ReadingNow()) && batch == []
      modifies responseReader, cipher, progress, this`batch, this`decryptedCount, this`matchedSetup, this`responseIndices, this`setupIndices, this`entries
      ensures if status == Ok then MatchInv() && InWindow(client.decrypt, old(ReadingNow()), bytes, |bytes|, ReadingNow())
              else WindowResult(build, client.decrypt, store.contents, old(ReadingNow()), bytes, status, ReadingNow())
      ensures CountsAfter(progress, base, status)
    {
      var at := 0;
      ghost var start := ReadingNow();
      WindowStarts(client.decrypt, start, bytes);
      while at < |bytes|
        invariant at <= |bytes| && MatchInv() && Counts(progress, base)
        invariant InWindow(client.decrypt, start, bytes, at, ReadingNow())
      {
        ghost var at0, r := at, ReadingNow();
        at, status := FeedResponsePass(bytes, at, progress, base);
        if status != Ok {
          WindowFails(build, client.decrypt, store.contents, start, bytes, at0, r, at, status, ReadingNow());
          return status;
        }
        WindowGoesOn(build, client.decrypt, start, bytes, at0, r, at, ReadingNow());
      }
      return Ok;
    }

    // The work of a call in the matching phase: feed the window, then match what is waiting.
    method ReadWindow(bytes: seq<byte>, progress: Slot?, ghost base: int) returns (status: Status)
      requires MatchInv() && Counts(progress, base) && InStep(ReadingNow()) && batch == []
      modifies responseReader, cipher, progress, this`batch, this`decryptedCount, this`matchedSetup, this`responseIndices, this`setupIndices, this`entries
      ensures WindowResult(build, client.decrypt, store.contents, old(ReadingNow()), bytes, status, ReadingNow())
      ensures status == Ok ==> responseReader.Valid() && MatchInv() && batch == []
      ensures CountsAfter(progress, base, status)
    {
      ghost var start := ReadingNow();
      status := FeedResponse(bytes, progress, base);
      if status == Ok {
        ghost var r := ReadingNow();
        status := MatchBatch(progress, base);
        WindowEnds(build, client.decrypt, store.contents, start, bytes, r, status, ReadingNow());
      }
    }

    // Between two calls of the matching phase.
    ghost predicate Ready()
      reads this, cipher, responseReader, store, store.blocks
    {
      failure == Ok && phase == KMatching && MatchInv() && batch == [] && responseReader.Valid() && ElementsFit(entries)
    }

    // Without a failure this is all there is to a session that is matching.
    lemma ReadyIsValid()
      requires failure == Ok && phase == KMatching && setupReader != responseReader && |store.contents| == store.count
      ensures Valid() <==> Ready()
      ensures Ready() ==> State() == Matching(store.contents, responseReader.Reads(), entries)
      ensures Ready() ==> SessionOk(State(), client) && InStep(ReadingNow()) && ReadyFor(ReadingNow())
    {
    }

    ghost predicate ReadyFor(start: Reading) {
      && InStep(start) && start.batch == [] && TransformAll(start.entries, client.decrypt).AllDone? && ElementsFit(start.entries)
    }

    lemma ReadyAgain(start: Reading, bytes: seq<byte>)
      requires ReadyFor(start)
      requires WindowResult(build, client.decrypt, store.contents, start, bytes, Ok, ReadingNow())
      requires failure == Ok && phase == KMatching && MatchInv() && batch == [] && responseReader.Valid()
      requires setupReader != responseReader && |store.contents| == store.count
      ensures Valid() && State() == Matching(store.contents, responseReader.Reads(), entries)
    {
      WindowKeepsFit(build, client, store.contents, start, bytes, ReadingNow());
    }

    // The end of a call in the matching phase; a refusal is kept.
    method KeepOrFail(read: Status, ghost start: Reading, ghost bytes: seq<byte>) returns (status: Status)
      requires setupReader != responseReader && cipher.op == client.decrypt && |store.contents| == store.count
      requires ReadyFor(start) && WindowResult(build, client.decrypt, store.contents, start, bytes, read, ReadingNow())
      requires failure == Ok && phase == KMatching
      requires read == Ok ==> MatchInv() && batch == [] && responseReader.Valid()
      modifies this`failure
      ensures Valid() && status == read
      ensures State() == if status == Ok then Matching(store.contents, responseReader.Reads(), entries) else Failed(store.count, status)
    {
      if read == Ok {
        ReadyAgain(start, bytes);
        status := Ok;
      } else {
        status := Fail(read);
      }
    }

    // A call in the matching phase: the window, and the refusal if it ends in one.
    method ContinueResponse(bytes: seq<byte>, progress: Slot?, ghost base: int) returns (status: Status)
      requires Valid() && failure == Ok && phase == KMatching
      requires SessionOk(State(), client) && Counts(progress, base)
      modifies this, responseReader, cipher, progress
      ensures Valid() && Repr() == old(Repr())
      ensures PieceResult(build, client, old(State()), bytes, old(cipher.calls), status, State(), cipher.calls)
      ensures CountsAfter(progress, base, status)
    {
      ReadyIsValid();
      ghost var start := ReadingNow();
      status := ReadWindow(bytes, progress, base);
      WindowIsPiece(build, client, store.contents, start, bytes, status, ReadingNow());
      status := KeepOrFail(status, start, bytes);
    }

    // The same, with what it does to the slot.
    method CountResponse(bytes: seq<byte>, progress: Slot?) returns (status: Status)
      requires Valid() && failure == Ok && phase == KMatching
      requires SessionOk(State(), client)
      modifies this, responseReader, cipher, progress
      ensures Valid() && Repr() == old(Repr())
      ensures PieceResult(build, client, old(State()), bytes, old(cipher.calls), status, State(), cipher.calls)
      ensures progress != null && IsCounted(build, status) ==>
                progress.value == Raised(old(progress.value), |cipher.calls| - |old(cipher.calls)|, status)
    {
      ghost var value: Word, before := if progress == null then 0 else progress.value, |cipher.calls|;
      status := ContinueResponse(bytes, progress, value - before);
      CountedIsRaised(value, before, |cipher.calls|, status);
    }

    // Any call but in the matching phase: refused, with nothing decrypted.
    method RefuseResponse() returns (status: Status)
      requires Valid() && (failure != Ok || phase != KMatching)
      requires SessionOk(State(), client)
      modifies this`failure
      ensures Valid() && !old(State()).Matching?
      ensures forall bytes :: State() == DoPiece(old(State()), client, bytes)
      ensures status == StatusOf(State())
    {
      if failure != Ok {
        status := failure;
      } else {
        status := Fail(OutOfOrder(MatchResponsePieceCall));
      }
    }

    /**
      Feeds and matches a window. The slot is raised by the number of elements the call has
      decrypted: the calls of the cipher, but for one that failed. On threads a call that fails
      may have decrypted later elements, too, and counted them.
     */
    method MatchResponsePiece(bytes: seq<byte>, progress: Slot?) returns (status: Status)
      requires Valid()
      modifies Repr(), progress
      ensures Valid() && Repr() == old(Repr())
      ensures old(Valid()) && PieceResult(build, client, old(State()), bytes, old(cipher.calls), status, State(), cipher.calls)
      ensures progress != null && old(State()).Matching? && IsCounted(build, status) ==>
                progress.value == Raised(old(progress.value), |cipher.calls| - |old(cipher.calls)|, status)
      ensures progress != null && !old(State()).Matching? ==> progress.value == old(progress.value)
    {
      ValidIsSessionOk();
      if failure == Ok && phase == KMatching {
        status := CountResponse(bytes, progress);
      } else {
        status := RefuseResponse();
      }
    }

    method CountMarked() returns (n: nat)
      ensures n == TotalPopcount(matchedSetup)
    {
      n := 0;
      for w := 0 to |matchedSetup|
        invariant n == TotalPopcount(matchedSetup[..w])
      {
        assert matchedSetup[..w + 1][..w] == matchedSetup[..w];
        n := n + Popcount(matchedSetup[w]);
      }
      assert matchedSetup[..|matchedSetup|] == matchedSetup;
    }

    /** Ends the response; the result is read off what was recorded, and the setup is freed. */
    method Finish() returns (status: Status, res: PsiMatchResult)
      requires Valid()
      modifies Repr()
      ensures Valid() && Repr() <= old(Repr())
      ensures old(Valid()) && State() == DoFinish(old(State()), client) && status == StatusOf(State())
      ensures status == Ok ==> State() == Finished(old(SetupSize(State())), res)
      ensures cipher.calls == old(cipher.calls) && (status == Ok ==> |cipher.calls| == res.decryptedCount)
    {
      res := PsiMatchResult(0, 0, [], []);
      if failure != Ok {
        return failure, res;
      }
      if phase == KSetup || phase == KFinished {
        status := Fail(OutOfOrder(FinishCall));
        return status, res;
      }
      if !responseReader.AtEntryBoundary() {
        status := Fail(ResponseIncomplete);
        return status, res;
      }
      res := Conclude();
      return Ok, res;
    }

    // The result as it is read off what was recorded.
    method ReadOff() returns (res: PsiMatchResult)
      requires Matched()
      ensures res == ResultOf(store.contents, TransformAll(entries, client.decrypt).outputs, client.revealIntersection)
    {
      var intersectionSize := CountMarked();
      res := PsiMatchResult(decryptedCount, intersectionSize, responseIndices, setupIndices);
    }

    // Keeps the result and lets everything else go.
    method Release(res: PsiMatchResult)
      requires failure == Ok && setupReader != responseReader && cipher.op == client.decrypt && |store.contents| == store.count
      modifies this`result, this`responseIndices, this`setupIndices, this`matchedSetup, this`batch, this`phase, store`blocks
      ensures Valid() && store.blocks == [] && State() == Finished(store.count, res)
    {
      result := res;
      responseIndices, setupIndices := [], [];
      store.blocks := [];
      matchedSetup := [];
      batch := [];
      phase := KFinished;
    }

    method Conclude() returns (res: PsiMatchResult)
      requires Valid() && failure == Ok && phase == KMatching && responseReader.Reads() == AtTag
      modifies this`result, this`responseIndices, this`setupIndices, this`matchedSetup, this`batch, this`phase, store`blocks
      ensures Valid() && store.blocks == []
      ensures res == ResultOf(store.contents, TransformAll(entries, client.decrypt).outputs, client.revealIntersection)
      ensures State() == Finished(store.count, res)
    {
      res := ReadOff();
      Release(res);
    }
  }
}
