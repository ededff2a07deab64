/** One window of the response, batch by batch: what each pass of the matcher does, as a function of values. */
module Windows {
  import opened Bytes
  import opened Wire
  import opened EcCipher
  import opened Bulk
  import opened EntryReaders
  import opened MatchSpec

  // In the middle of a window that started after entries0: some whole batches decrypted since,
  // and fewer elements than a batch waiting.
  ghost predicate MidPiece(entries0: seq<Element>, entries: seq<Element>, batch: seq<Element>, decrypt: Op) {
    && entries0 <= entries && (|entries| - |entries0|) % BATCH_ELEMENTS == 0 && |batch| < BATCH_ELEMENTS
    && TransformAll(entries, decrypt).AllDone?
  }

  lemma OneBatchMore(n: nat)
    ensures (n + BATCH_ELEMENTS) % BATCH_ELEMENTS == n % BATCH_ELEMENTS
  {
  }

  // One more element either waits or completes a batch.
  lemma MidPieceGoesOn(entries0: seq<Element>, before: seq<Element>, entries: seq<Element>, batch: seq<Element>, decrypt: Op)
    requires MidPiece(entries0, before, [], decrypt)
    requires entries == before || (before <= entries && |entries| == |before| + BATCH_ELEMENTS)
    requires |batch| < BATCH_ELEMENTS && TransformAll(entries, decrypt).AllDone?
    ensures MidPiece(entries0, entries, batch, decrypt)
  {
    OneBatchMore(|before| - |entries0|);
  }

  lemma SinceStart(entries0: seq<Element>, entries: seq<Element>, more: seq<Element>, decrypt: Op)
    requires entries0 <= entries && TransformAll(entries, decrypt).AllDone?
    ensures (entries + more)[|entries0|..] == entries[|entries0|..] + more
    ensures TransformAll(entries[|entries0|..], decrypt).AllDone?
    ensures var d := TransformAll(entries[|entries0|..] + more, decrypt);
            match TransformAll(more, decrypt)
            case FirstFailure(code) => d == FirstFailure(code)
            case AllDone(_) => d.AllDone?
  {
    var since := entries[|entries0|..];
    DropPrefix(entries0, entries, more);
    assert TransformAll(since, decrypt).AllDone? by {
      TransformInTwo(entries0, since, decrypt);
    }
    TransformInTwo(since, more, decrypt);
  }

  lemma DropPrefix<T>(a: seq<T>, b: seq<T>, c: seq<T>)
    requires a <= b
    ensures b == a + b[|a|..] && (b + c)[|a|..] == b[|a|..] + c
  {
  }

  lemma DropThenTake<T>(a: seq<T>, b: seq<T>, c: seq<T>)
    requires a <= b
    ensures |(b + c)[|a|..]| == |b| - |a| + |c|
    ensures (b + c)[|a|..][..|b| - |a|] == b[|a|..]
  {
  }

  lemma PieceEnds(elements: seq<Element>, reader: ReaderState, entries0: seq<Element>, decrypt: Op, bytes: seq<byte>,
                  entries: seq<Element>, batch: seq<Element>)
    requires ReaderOk(reader) && MidPiece(entries0, entries, batch, decrypt)
    requires var f := FeedBytes(Feed(reader, entries0, Ok), bytes, AcceptResponseElement);
             f.status == Ok && f.entries == entries + batch
    ensures ReadPiece(elements, reader, entries0, decrypt, bytes)
         == match TransformAll(batch, decrypt)
            case FirstFailure(code) => Failed(|elements|, CipherError(code))
            case AllDone(_) =>
              Matching(elements, FeedBytes(Feed(reader, entries0, Ok), bytes, AcceptResponseElement).reader, entries + batch)
  {
    SinceStart(entries0, entries, batch, decrypt);
    var added := (entries + batch)[|entries0|..];
    assert added[..|added|] == added;
  }

  // After a refusal only the whole batches count.
  lemma WholeBatches(f: Feed, n: nat, m: nat)
    requires f.status != Ok && n % BATCH_ELEMENTS == 0 && m < BATCH_ELEMENTS
    ensures BatchesDone(f, n + m) == n
  {
    assert (n + m) % BATCH_ELEMENTS == m;
  }

  lemma PieceRefused(elements: seq<Element>, reader: ReaderState, entries0: seq<Element>, decrypt: Op, bytes: seq<byte>,
                     entries: seq<Element>, batch: seq<Element>)
    requires ReaderOk(reader) && MidPiece(entries0, entries, batch, decrypt)
    requires var f := FeedBytes(Feed(reader, entries0, Ok), bytes, AcceptResponseElement);
             f.status != Ok && f.entries == entries + batch
    ensures ReadPiece(elements, reader, entries0, decrypt, bytes)
         == Failed(|elements|, FeedBytes(Feed(reader, entries0, Ok), bytes, AcceptResponseElement).status)
  {
    SinceStart(entries0, entries, batch, decrypt);
    var f := FeedBytes(Feed(reader, entries0, Ok), bytes, AcceptResponseElement);
    var added, n := f.entries[|entries0|..], |entries| - |entries0|;
    WholeBatches(f, n, |batch|);
    DropThenTake(entries0, entries, batch);
    assert added[..BatchesDone(f, |added|)] == entries[|entries0|..];
  }

  lemma WholeBatchIsDone(f: Feed, m: nat, n: nat)
    requires m % BATCH_ELEMENTS == 0 && m <= n
    ensures m <= BatchesDone(f, n)
  {
  }

  // What a shorter stretch fails with, a longer one does.
  lemma FailsOnceFails(elements: seq<Element>, m: nat, n: nat, decrypt: Op)
    requires m <= n <= |elements| && TransformAll(elements[..m], decrypt).FirstFailure?
    ensures TransformAll(elements[..n], decrypt) == TransformAll(elements[..m], decrypt)
  {
    assert elements[..n] == elements[..m] + elements[m..n];
    TransformInTwo(elements[..m], elements[m..n], decrypt);
  }

  lemma PieceFailsBatch(elements: seq<Element>, reader: ReaderState, entries0: seq<Element>, decrypt: Op, bytes: seq<byte>,
                        entries: seq<Element>, full: seq<Element>, code: int)
    requires ReaderOk(reader) && MidPiece(entries0, entries, [], decrypt)
    requires |full| == BATCH_ELEMENTS && TransformAll(full, decrypt) == FirstFailure(code)
    requires entries + full <= FeedBytes(Feed(reader, entries0, Ok), bytes, AcceptResponseElement).entries
    ensures ReadPiece(elements, reader, entries0, decrypt, bytes) == Failed(|elements|, CipherError(code))
  {
    var f := FeedBytes(Feed(reader, entries0, Ok), bytes, AcceptResponseElement);
    FeedKeepsEntries(Feed(reader, entries0, Ok), bytes, AcceptResponseElement);
    SinceStart(entries0, entries, full, decrypt);
    var added := f.entries[|entries0|..];
    var m := |entries| - |entries0| + |full|;
    var n := BatchesDone(f, |added|);
    assert added[..m] == entries[|entries0|..] + full;
    assert m <= n by {
      OneBatchMore(|entries| - |entries0|);
      WholeBatchIsDone(f, m, |added|);
    }
    FailsOnceFails(added, m, n, decrypt);
  }

  // ---- Pass by pass ----

  // Where the matcher stands inside a window: the entry reader, the entries decrypted and those
  // waiting, and what the cipher has been called on.
  datatype Reading = Reading(reader: ReaderState, entries: seq<Element>, batch: seq<Element>, calls: seq<Element>)

  // Nothing is left over from an earlier call of the cipher.
  predicate InStep(r: Reading) {
    ReaderOk(r.reader) && |r.batch| < BATCH_ELEMENTS && r.calls == r.entries
  }

  // What the bytes from here on would come to, were nothing decrypted.
  function Ahead(r: Reading, bytes: seq<byte>): Feed
    requires ReaderOk(r.reader)
  {
    FeedBytes(Feed(r.reader, r.entries + r.batch, Ok), bytes, AcceptResponseElement)
  }

  // Since the log was `calls` the cipher has been called on none of these entries more often than
  // it is listed; in one loop in their order.
  ghost predicate Logged(loop: bool, calls: seq<Element>, calls': seq<Element>, all: seq<Element>) {
    calls <= calls' && multiset(calls') <= multiset(all) && (loop ==> calls' <= all)
  }

  lemma LoggedInLonger(loop: bool, calls: seq<Element>, calls': seq<Element>, all: seq<Element>, longer: seq<Element>)
    requires Logged(loop, calls, calls', all) && all <= longer
    ensures Logged(loop, calls, calls', longer)
  {
    assert longer == all + longer[|all|..];
  }

  lemma LoggedAll(loop: bool, calls: seq<Element>, all: seq<Element>)
    requires calls <= all
    ensures Logged(loop, calls, calls, all) && Logged(loop, calls, all, all)
  {
    assert all == calls + all[|calls|..];
  }

  // Taking one element: refused, queued, or completing a batch that is decrypted.
  ghost predicate TakeResult(build: Build, decrypt: Op, r: Reading, element: Element, status: Status, r': Reading) {
    var all := r.entries + r.batch;
    if status.ShardFailed? then !NeverAborts(build) else
    && Logged(build.SingleThreaded?, r.calls, r'.calls, all + [element]) && r'.reader == r.reader
    && if |all| >= MAX_ELEMENTS then status == TooManyResponseElements && r' == r
       else if |r.batch| + 1 < BATCH_ELEMENTS then status == Ok && r' == r.(batch := r.batch + [element])
       else
         match TransformAll(r.batch + [element], decrypt)
         case FirstFailure(code) => status == CipherError(code)
         case AllDone(_) => status == Ok && r' == Reading(r.reader, all + [element], [], all + [element])
  }

  // The batch that starts after these entries does not decrypt.
  ghost predicate FailsBatch(decrypt: Op, entries: seq<Element>, all: seq<Element>, code: int) {
    && entries <= all && |entries| + BATCH_ELEMENTS <= |all|
    && TransformAll(all[|entries|..|entries| + BATCH_ELEMENTS], decrypt) == FirstFailure(code)
  }

  // One pass over the first bytes of `window`, `rest` being the others.
  ghost predicate PassResult(build: Build, decrypt: Op, r: Reading, window: seq<byte>, rest: seq<byte>, status: Status, r': Reading)
    requires InStep(r)
  {
    var f := Ahead(r, window);
    if status.ShardFailed? then !NeverAborts(build) else
    && Logged(build.SingleThreaded?, r.calls, r'.calls, f.entries)
    && if status == Ok then
         && InStep(r') && f == Ahead(r', rest)
         && (r'.entries == r.entries
             || (r'.batch == [] && r.entries <= r'.entries && |r'.entries| == |r.entries| + BATCH_ELEMENTS))
       else if status.CipherError? then FailsBatch(decrypt, r.entries, f.entries, status.code)
       else f.status == status && f.entries == r.entries + r.batch
  }

  lemma NothingPasses(build: Build, decrypt: Op, r: Reading, bytes: seq<byte>, at: nat, next: nat, reader: ReaderState)
    requires InStep(r) && at <= next <= |bytes| && ReaderOk(reader) && Consumes(r.reader, bytes[at..next], reader, Nothing)
    ensures PassResult(build, decrypt, r, bytes[at..], bytes[next..], Ok, r.(reader := reader))
  {
    var f := Feed(r.reader, r.entries + r.batch, Ok);
    PassInWindow(f, bytes, at, next, reader, Nothing, AcceptResponseElement);
    FeedKeepsEntries(f, bytes[at..], AcceptResponseElement);
    LoggedAll(build.SingleThreaded?, r.calls, Ahead(r, bytes[at..]).entries);
  }

  lemma RefusalPasses(build: Build, decrypt: Op, r: Reading, bytes: seq<byte>, at: nat, next: nat, reader: ReaderState, refusal: Status)
    requires InStep(r) && at <= next <= |bytes| && Consumes(r.reader, bytes[at..next], reader, Refuse(refusal))
    ensures refusal != Ok && !refusal.ShardFailed? && PassResult(build, decrypt, r, bytes[at..], bytes[next..], refusal, r.(reader := reader))
  {
    var f := Feed(r.reader, r.entries + r.batch, Ok);
    PassInWindow(f, bytes, at, next, reader, Refuse(refusal), AcceptResponseElement);
    LoggedAll(build.SingleThreaded?, r.calls, r.entries + r.batch);
  }

  // An entry ends the pass: what the rest of the window is fed to once it has been offered.
  lemma EntryOffered(r: Reading, bytes: seq<byte>, at: nat, next: nat, reader: ReaderState, element: Element)
    requires InStep(r) && at <= next <= |bytes| && ReaderOk(reader)
    requires Consumes(r.reader, bytes[at..next], reader, Entry(element))
    ensures var all := r.entries + r.batch;
            Ahead(r, bytes[at..])
            == if |all| >= MAX_ELEMENTS then Feed(reader, all, TooManyResponseElements)
               else FeedBytes(Feed(reader, all + [element], Ok), bytes[next..], AcceptResponseElement)
    ensures var all := r.entries + r.batch;
            |all| < MAX_ELEMENTS ==> all + [element] <= Ahead(r, bytes[at..]).entries
  {
    var f, all := Feed(r.reader, r.entries + r.batch, Ok), r.entries + r.batch;
    PassInWindow(f, bytes, at, next, reader, Entry(element), AcceptResponseElement);
    FeedKeepsEntries(Feed(reader, all + [element], Ok), bytes[next..], AcceptResponseElement);
  }

  lemma QueuedPasses(build: Build, decrypt: Op, r: Reading, bytes: seq<byte>, at: nat, next: nat, reader: ReaderState, element: Element)
    requires InStep(r) && at <= next <= |bytes| && ReaderOk(reader)
    requires Consumes(r.reader, bytes[at..next], reader, Entry(element))
    requires |r.entries + r.batch| < MAX_ELEMENTS && |r.batch| + 1 < BATCH_ELEMENTS
    ensures PassResult(build, decrypt, r, bytes[at..], bytes[next..], Ok, Reading(reader, r.entries, r.batch + [element], r.calls))
  {
    EntryOffered(r, bytes, at, next, reader, element);
    QueuedAtTheEnd(r.entries, r.batch, element);
    LoggedAll(build.SingleThreaded?, r.calls, Ahead(r, bytes[at..]).entries);
  }

  lemma BatchDone(build: Build, decrypt: Op, r: Reading, window: seq<byte>, rest: seq<byte>, reader: ReaderState, all: seq<Element>)
    requires InStep(r) && ReaderOk(reader) && r.entries <= all && |all| == |r.entries| + BATCH_ELEMENTS
    requires Ahead(r, window) == FeedBytes(Feed(reader, all, Ok), rest, AcceptResponseElement)
    requires Logged(build.SingleThreaded?, r.calls, all, Ahead(r, window).entries)
    ensures PassResult(build, decrypt, r, window, rest, Ok, Reading(reader, all, [], all))
  {
    NothingWaiting(Reading(reader, all, [], all), rest);
  }

  lemma BatchFails(build: Build, decrypt: Op, r: Reading, window: seq<byte>, rest: seq<byte>, full: seq<Element>, code: int, r': Reading)
    requires InStep(r) && |full| == BATCH_ELEMENTS && r.entries + full <= Ahead(r, window).entries
    requires TransformAll(full, decrypt) == FirstFailure(code)
    requires Logged(build.SingleThreaded?, r.calls, r'.calls, Ahead(r, window).entries)
    ensures PassResult(build, decrypt, r, window, rest, CipherError(code), r')
  {
    BatchInside(r.entries, full, Ahead(r, window).entries);
  }

  lemma BatchPasses(build: Build, decrypt: Op, r: Reading, bytes: seq<byte>, at: nat, next: nat, reader: ReaderState, element: Element,
                    status: Status, r': Reading)
    requires InStep(r) && at <= next <= |bytes| && ReaderOk(reader)
    requires Consumes(r.reader, bytes[at..next], reader, Entry(element))
    requires |r.entries + r.batch| < MAX_ELEMENTS && |r.batch| + 1 == BATCH_ELEMENTS
    requires TakeResult(build, decrypt, r.(reader := reader), element, status, r') && !status.ShardFailed?
    ensures PassResult(build, decrypt, r, bytes[at..], bytes[next..], status, r')
  {
    var all := r.entries + r.batch + [element];
    EntryOffered(r, bytes, at, next, reader, element);
    QueuedAtTheEnd(r.entries, r.batch, element);
    LoggedInLonger(build.SingleThreaded?, r.calls, r'.calls, all, Ahead(r, bytes[at..]).entries);
    if status == Ok {
      BatchDone(build, decrypt, r, bytes[at..], bytes[next..], reader, all);
    } else {
      BatchFails(build, decrypt, r, bytes[at..], bytes[next..], r.batch + [element], status.code, r');
    }
  }

  lemma NothingWaiting(r: Reading, bytes: seq<byte>)
    requires ReaderOk(r.reader) && r.batch == []
    ensures Ahead(r, bytes) == FeedBytes(Feed(r.reader, r.entries, Ok), bytes, AcceptResponseElement)
  {
    assert r.entries + [] == r.entries;
  }

  lemma EntryPasses(build: Build, decrypt: Op, r: Reading, bytes: seq<byte>, at: nat, next: nat, reader: ReaderState, element: Element,
                    status: Status, r': Reading)
    requires InStep(r) && at <= next <= |bytes| && ReaderOk(reader)
    requires Consumes(r.reader, bytes[at..next], reader, Entry(element))
    requires TakeResult(build, decrypt, r.(reader := reader), element, status, r')
    ensures PassResult(build, decrypt, r, bytes[at..], bytes[next..], status, r')
  {
    if status.ShardFailed? {
    } else if |r.entries + r.batch| >= MAX_ELEMENTS {
      EntryOffered(r, bytes, at, next, reader, element);
      LoggedAll(build.SingleThreaded?, r.calls, r.entries + r.batch);
    } else if |r.batch| + 1 < BATCH_ELEMENTS {
      QueuedPasses(build, decrypt, r, bytes, at, next, reader, element);
    } else {
      BatchPasses(build, decrypt, r, bytes, at, next, reader, element, status, r');
    }
  }

  lemma QueuedAtTheEnd(entries: seq<Element>, batch: seq<Element>, element: Element)
    ensures entries + (batch + [element]) == entries + batch + [element]
  {
  }

  lemma BatchInside(entries: seq<Element>, full: seq<Element>, all: seq<Element>)
    requires entries + full <= all
    ensures entries <= all && |entries| + |full| <= |all| && all[|entries|..|entries| + |full|] == full
  {
    assert all[..|entries| + |full|] == entries + full;
  }

  // In the middle of a window that started with `start`.
  ghost predicate InWindow(decrypt: Op, start: Reading, bytes: seq<byte>, at: nat, r: Reading) {
    && InStep(start) && start.batch == [] && InStep(r) && at <= |bytes|
    && MidPiece(start.entries, r.entries, r.batch, decrypt)
    && Ahead(start, bytes) == Ahead(r, bytes[at..])
  }

  lemma WindowStarts(decrypt: Op, start: Reading, bytes: seq<byte>)
    requires InStep(start) && start.batch == [] && TransformAll(start.entries, decrypt).AllDone?
    ensures InWindow(decrypt, start, bytes, 0, start)
  {
    assert bytes[0..] == bytes;
  }

  lemma WindowGoesOn(build: Build, decrypt: Op, start: Reading, bytes: seq<byte>, at: nat, r: Reading, next: nat, r': Reading)
    requires InWindow(decrypt, start, bytes, at, r) && at <= next <= |bytes|
    requires PassResult(build, decrypt, r, bytes[at..], bytes[next..], Ok, r') && TransformAll(r'.entries, decrypt).AllDone?
    ensures InWindow(decrypt, start, bytes, next, r')
  {
    MidPieceGoesOn(start.entries, r.entries, r'.entries, r'.batch, decrypt);
  }

  // What a whole window comes to, for the elements of the setup.
  ghost predicate WindowResult(build: Build, decrypt: Op, elements: seq<Element>, start: Reading, bytes: seq<byte>, status: Status, r: Reading)
    requires InStep(start)
  {
    if status.ShardFailed? then !NeverAborts(build) else
    && Logged(build.SingleThreaded?, start.calls, r.calls, FeedBytes(Feed(start.reader, start.entries, Ok), bytes, AcceptResponseElement).entries)
    && ReadPiece(elements, start.reader, start.entries, decrypt, bytes)
       == if status == Ok then Matching(elements, r.reader, r.entries) else Failed(|elements|, status)
  }

  lemma WindowFails(build: Build, decrypt: Op, elements: seq<Element>, start: Reading, bytes: seq<byte>, at: nat, r: Reading,
                    next: nat, status: Status, r': Reading)
    requires InWindow(decrypt, start, bytes, at, r) && at <= next <= |bytes|
    requires PassResult(build, decrypt, r, bytes[at..], bytes[next..], status, r') && status != Ok
    ensures WindowResult(build, decrypt, elements, start, bytes, status, r')
  {
    var f := Ahead(start, bytes);
    assert start.entries + start.batch == start.entries;
    if status.ShardFailed? {
    } else if status.CipherError? {
      var full := f.entries[|r.entries|..|r.entries| + BATCH_ELEMENTS];
      assert r.entries + full == f.entries[..|r.entries| + BATCH_ELEMENTS];
      PieceFailsBatch(elements, start.reader, start.entries, decrypt, bytes, r.entries, full, status.code);
    } else {
      PieceRefused(elements, start.reader, start.entries, decrypt, bytes, r.entries, r.batch);
    }
  }

  // What decrypting the elements that wait comes to.
  ghost predicate BatchResult(build: Build, decrypt: Op, r: Reading, status: Status, r': Reading) {
    var all := r.entries + r.batch;
    if status.ShardFailed? then !NeverAborts(build) else
    && Logged(build.SingleThreaded?, r.calls, r'.calls, all) && r'.reader == r.reader
    && match TransformAll(r.batch, decrypt)
       case FirstFailure(code) => status == CipherError(code)
       case AllDone(_) => status == Ok && r'.entries == all && r'.batch == [] && r'.calls == all
  }

  // All bytes are read; the elements still waiting are decrypted last.
  lemma WindowEnds(build: Build, decrypt: Op, elements: seq<Element>, start: Reading, bytes: seq<byte>, r: Reading, status: Status, r': Reading)
    requires InWindow(decrypt, start, bytes, |bytes|, r)
    requires BatchResult(build, decrypt, r, status, r')
    ensures WindowResult(build, decrypt, elements, start, bytes, status, r')
  {
    assert bytes[|bytes|..] == [];
    assert start.entries + start.batch == start.entries;
    PieceEnds(elements, start.reader, start.entries, decrypt, bytes, r.entries, r.batch);
  }

  lemma WindowKeepsFit(build: Build, client: Client, elements: seq<Element>, start: Reading, bytes: seq<byte>, r: Reading)
    requires InStep(start) && SessionOk(Matching(elements, start.reader, start.entries), client)
    requires WindowResult(build, client.decrypt, elements, start, bytes, Ok, r)
    ensures ElementsFit(r.entries)
  {
    PieceKeepsOk(Matching(elements, start.reader, start.entries), client, bytes);
  }
}
