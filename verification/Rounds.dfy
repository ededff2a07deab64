/** The messages one after the other: what the client learns about the two parties' inputs. */
module Rounds {
  import opened Bytes
  import opened Sorting
  import opened EcCipher
  import opened Permute
  import opened RawContainer
  import opened Intersection
  import opened Places
  import opened Wrappers
  import opened Bulk
  import opened Protocol
  import opened GolombCode

  // ---- The cipher's laws ----

  // Taking the client's layer off a doubly encrypted element leaves the server's encryption.
  predicate CommuteOn(client: Party, server: Party, x: Element) {
    match client.encrypt(x)
    case Failure(_) => true
    case Success(y) => (
      match server.reEncrypt(y)
      case Failure(_) => true
      case Success(z) => client.decrypt(z) == server.encrypt(x)
      )
  }

  ghost predicate Commute(client: Party, server: Party) {
    forall x :: CommuteOn(client, server, x)
  }

  predicate Separates(op: Op, x: Element, x': Element) {
    op(x).Success? && op(x) == op(x') ==> x == x'
  }

  ghost predicate Injective(op: Op) {
    forall x, x' :: Separates(op, x, x')
  }

  // ---- The two sides of a round ----

  // Everything in a round succeeded: the two parties' inputs, the setup, the response in the
  // request's order, and what the client decrypts it to.
  ghost predicate IsRound(client: Party, server: Party, clientInputs: seq<Element>, serverInputs: seq<Element>,
                          setup: ServerSetup, sortingPermutation: seq<nat>, reencrypted: seq<Element>, plains: seq<Element>) {
    && TransformAll(serverInputs, server.encrypt).AllDone?
    && IsSetupOf(server, serverInputs, setup, sortingPermutation)
    && TransformAll(clientInputs, client.encrypt).AllDone?
    && TransformAll(TransformAll(clientInputs, client.encrypt).outputs, server.reEncrypt) == AllDone(reencrypted)
    && TransformAll(reencrypted, client.decrypt) == AllDone(plains)
  }

  // The client decrypts its inputs under the server's key.
  lemma ClientSide(client: Party, server: Party, clientInputs: seq<Element>, reencrypted: seq<Element>, plains: seq<Element>)
    requires Commute(client, server) && TransformAll(clientInputs, client.encrypt).AllDone?
    requires TransformAll(TransformAll(clientInputs, client.encrypt).outputs, server.reEncrypt) == AllDone(reencrypted)
    requires TransformAll(reencrypted, client.decrypt) == AllDone(plains)
    ensures |plains| == |clientInputs|
    ensures forall p :: 0 <= p < |clientInputs| ==> server.encrypt(clientInputs[p]) == Success(plains[p])
  {
    var encrypted := TransformAll(clientInputs, client.encrypt).outputs;
    TransformAllIs(clientInputs, client.encrypt);
    TransformAllIs(encrypted, server.reEncrypt);
    TransformAllIs(reencrypted, client.decrypt);
    forall p | 0 <= p < |clientInputs|
      ensures server.encrypt(clientInputs[p]) == Success(plains[p])
    {
      assert client.encrypt(clientInputs[p]) == Success(encrypted[p]);
      assert server.reEncrypt(encrypted[p]) == Success(reencrypted[p]);
      assert CommuteOn(client, server, clientInputs[p]);
    }
  }

  // Each side ends up as the same list: the inputs under the server's key.
  lemma BothSides(client: Party, server: Party, clientInputs: seq<Element>, serverInputs: seq<Element>,
                  setup: ServerSetup, sortingPermutation: seq<nat>, reencrypted: seq<Element>, plains: seq<Element>)
    requires Commute(client, server)
    requires IsRound(client, server, clientInputs, serverInputs, setup, sortingPermutation, reencrypted, plains)
    ensures |plains| == |clientInputs| && |setup.encryptedElements| == |serverInputs|
    ensures forall p :: 0 <= p < |clientInputs| ==> server.encrypt(clientInputs[p]) == Success(plains[p])
    ensures forall q :: 0 <= q < |serverInputs| ==>
              server.encrypt(serverInputs[sortingPermutation[q]]) == Success(setup.encryptedElements[q])
  {
    ClientSide(client, server, clientInputs, reencrypted, plains);
    TransformAllIs(serverInputs, server.encrypt);
  }

  function Through(cols: seq<nat>, permutation: seq<nat>): (r: seq<nat>)
    requires forall k :: 0 <= k < |cols| ==> cols[k] < |permutation|
    ensures |r| == |cols| && forall k :: 0 <= k < |cols| ==> r[k] == permutation[cols[k]]
  {
    seq(|cols|, k requires 0 <= k < |cols| => permutation[cols[k]])
  }

  /**
    End to end, with the matches revealed: the client's table, its second column taken through
    the server's sorting permutation, holds every pair of equal inputs exactly once and nothing
    else.
   */
  lemma AssociationIsExact(client: Party, server: Party, clientInputs: seq<Element>, serverInputs: seq<Element>,
                           setup: ServerSetup, sortingPermutation: seq<nat>, reencrypted: seq<Element>, plains: seq<Element>,
                           rows: seq<nat>, cols: seq<nat>)
    requires Commute(client, server) && Injective(server.encrypt)
    requires IsRound(client, server, clientInputs, serverInputs, setup, sortingPermutation, reencrypted, plains)
    requires IsAssociationTable(plains, setup.encryptedElements, rows, cols)
    ensures forall k :: 0 <= k < |cols| ==> cols[k] < |sortingPermutation|
    ensures IsAssociationTable(clientInputs, serverInputs, rows, Through(cols, sortingPermutation))
  {
    BothSides(client, server, clientInputs, serverInputs, setup, sortingPermutation, reencrypted, plains);
    var cols' := Through(cols, sortingPermutation);
    forall p, s | 0 <= p < |clientInputs| && 0 <= s < |serverInputs| && clientInputs[p] == serverInputs[s]
      ensures HasRow(rows, cols', p, s)
    {
      PermutationReaches(sortingPermutation, |serverInputs|, s);
      var q :| 0 <= q < |serverInputs| && sortingPermutation[q] == s;
      assert plains[p] == setup.encryptedElements[q];
      assert HasRow(rows, cols, p, q);
      var k :| 0 <= k < |rows| && rows[k] == p && cols[k] == q;
      assert rows[k] == p && cols'[k] == s;
    }
    forall k | 0 <= k < |rows|
      ensures rows[k] < |clientInputs| && cols'[k] < |serverInputs| && clientInputs[rows[k]] == serverInputs[cols'[k]]
    {
      assert Separates(server.encrypt, clientInputs[rows[k]], serverInputs[cols'[k]]);
    }
    forall k, l | 0 <= k < l < |rows|
      ensures rows[k] != rows[l] || cols'[k] != cols'[l]
    {
      assert rows[k] != rows[l] || cols[k] != cols[l];
    }
  }

  // ---- Sizes ----

  lemma {:induction false} RankUnderInjection(a: seq<Element>, fa: seq<Element>, op: Op, n: nat, x: Element)
    requires Injective(op) && |fa| == |a| && n <= |a| && op(x).Success?
    requires forall k :: 0 <= k < |a| ==> op(a[k]) == Success(fa[k])
    ensures Rank(fa, n, op(x).element) == Rank(a, n, x)
    decreases n
  {
    if n > 0 {
      RankUnderInjection(a, fa, op, n - 1, x);
      assert Separates(op, x, a[n - 1]);
    }
  }

  // Encrypting both lists under one key keeps which positions the intersection takes,
  lemma KeptUnderInjection(a: seq<Element>, fa: seq<Element>, b: seq<Element>, fb: seq<Element>, op: Op)
    requires Injective(op) && |fa| == |a| && |fb| == |b|
    requires forall k :: 0 <= k < |a| ==> op(a[k]) == Success(fa[k])
    requires forall k :: 0 <= k < |b| ==> op(b[k]) == Success(fb[k])
    ensures forall k: int :: IsKept(fa, fb, k) <==> IsKept(a, b, k)
  {
    forall k: int
      ensures IsKept(fa, fb, k) <==> IsKept(a, b, k)
    {
      if 0 <= k < |a| {
        RankUnderInjection(a, fa, op, k, a[k]);
        RankUnderInjection(b, fb, op, |b|, a[k]);
      }
    }
  }

  // and how many they are.
  lemma MeetUnderInjection(a: seq<Element>, fa: seq<Element>, b: seq<Element>, fb: seq<Element>, op: Op)
    requires Injective(op) && |fa| == |a| && |fb| == |b|
    requires forall k :: 0 <= k < |a| ==> op(a[k]) == Success(fa[k])
    requires forall k :: 0 <= k < |b| ==> op(b[k]) == Success(fb[k])
    ensures |multiset(fa) * multiset(fb)| == |multiset(a) * multiset(b)|
  {
    KeptUnderInjection(a, fa, b, fb, op);
    assert KeptUpTo(fa, fb, |fa|) == KeptUpTo(a, b, |a|) by {
      forall k: int
        ensures k in KeptUpTo(fa, fb, |fa|) <==> k in KeptUpTo(a, b, |a|)
      {
        assert IsKept(fa, fb, k) <==> IsKept(a, b, k);
      }
    }
    KeptIsMultisetIntersection(fa, fb, |fa|);
    KeptIsMultisetIntersection(a, b, |a|);
    assert fa[..|fa|] == fa && a[..|a|] == a;
  }

  lemma KeptIgnoresOrder(elements: seq<Element>, e: seq<Element>, e': seq<Element>)
    requires multiset(e) == multiset(e')
    ensures forall k: int :: IsKept(elements, e, k) <==> IsKept(elements, e', k)
  {
    forall k: int
      ensures IsKept(elements, e, k) <==> IsKept(elements, e', k)
    {
      if 0 <= k < |elements| {
        KeptIffFewer(elements, e, k);
        KeptIffFewer(elements, e', k);
      }
    }
  }

  /**
    End to end, the intersection: what the client computes from ciphertexts are the positions it
    would compute from the two parties' inputs in the clear.
   */
  lemma IntersectionIsExact(client: Party, server: Party, clientInputs: seq<Element>, serverInputs: seq<Element>,
                            setup: ServerSetup, sortingPermutation: seq<nat>, reencrypted: seq<Element>, plains: seq<Element>,
                            res: seq<int>)
    requires Commute(client, server) && Injective(server.encrypt)
    requires IsRound(client, server, clientInputs, serverInputs, setup, sortingPermutation, reencrypted, plains)
    requires IsRawIntersection(plains, setup.encryptedElements, res)
    ensures IsRawIntersection(clientInputs, serverInputs, res)
  {
    BothSides(client, server, clientInputs, serverInputs, setup, sortingPermutation, reencrypted, plains);
    var sorted := Permuted(serverInputs, sortingPermutation);
    PermutedKeepsMultiset(serverInputs, sortingPermutation);
    KeptUnderInjection(clientInputs, plains, sorted, setup.encryptedElements, server.encrypt);
    KeptIgnoresOrder(clientInputs, sorted, serverInputs);
  }

  lemma TransformWithout(xs: seq<Element>, k: nat, op: Op)
    requires k < |xs| && TransformAll(xs, op).AllDone?
    ensures TransformAll(Without(xs, k), op) == AllDone(Without(TransformAll(xs, op).outputs, k))
    ensures op(xs[k]) == Success(TransformAll(xs, op).outputs[k])
  {
    var fx, less := TransformAll(xs, op).outputs, Without(xs, k);
    TransformAllIs(xs, op);
    TransformAllIs(less, op);
    forall i | 0 <= i < |less|
      ensures op(less[i]) == Success(Without(fx, k)[i])
    {
      assert less[i] == if i < k then xs[i] else xs[i + 1];
    }
    assert TransformAll(less, op).outputs == Without(fx, k);
  }

  lemma TransformEveryMember(xs: seq<Element>, ys: seq<Element>, op: Op)
    requires multiset(xs) == multiset(ys) && TransformAll(xs, op).AllDone?
    ensures TransformAll(ys, op).AllDone?
  {
    RearrangedHasSameMembers(xs, ys);
    TransformAllIs(xs, op);
    TransformAllIs(ys, op);
    forall k | 0 <= k < |ys|
      ensures op(ys[k]).Success?
    {
      assert ys[k] in xs;
    }
  }

  // A rearranged list decrypts to a rearrangement.
  lemma {:induction false} TransformRearranged(xs: seq<Element>, ys: seq<Element>, op: Op)
    requires multiset(xs) == multiset(ys) && TransformAll(xs, op).AllDone?
    ensures TransformAll(ys, op).AllDone?
    ensures multiset(TransformAll(ys, op).outputs) == multiset(TransformAll(xs, op).outputs)
    decreases |xs|
  {
    TransformEveryMember(xs, ys, op);
    RearrangedHasSameMembers(xs, ys);
    if xs != [] {
      assert xs[0] in ys;
      var k :| 0 <= k < |ys| && ys[k] == xs[0];
      WithoutSame(xs, 0, ys, k);
      TransformWithout(xs, 0, op);
      TransformWithout(ys, k, op);
      TransformRearranged(Without(xs, 0), Without(ys, k), op);
      WithoutIsOneLess(TransformAll(xs, op).outputs, 0);
      WithoutIsOneLess(TransformAll(ys, op).outputs, k);
    }
  }

  /**
    End to end, the size: with or without the response sorted to hide the matches, it is the
    size of the multiset intersection of the two parties' inputs.
   */
  lemma SizeIsExact(client: Party, server: Party, clientInputs: seq<Element>, serverInputs: seq<Element>,
                    setup: ServerSetup, sortingPermutation: seq<nat>, reencrypted: seq<Element>, plains: seq<Element>,
                    sent: seq<Element>)
    requires Commute(client, server) && Injective(server.encrypt)
    requires IsRound(client, server, clientInputs, serverInputs, setup, sortingPermutation, reencrypted, plains)
    requires multiset(sent) == multiset(reencrypted)
    ensures TransformAll(sent, client.decrypt).AllDone?
    ensures |multiset(TransformAll(sent, client.decrypt).outputs) * multiset(setup.encryptedElements)|
         == |multiset(clientInputs) * multiset(serverInputs)|
  {
    BothSides(client, server, clientInputs, serverInputs, setup, sortingPermutation, reencrypted, plains);
    TransformRearranged(reencrypted, sent, client.decrypt);
    var sorted := Permuted(serverInputs, sortingPermutation);
    PermutedKeepsMultiset(serverInputs, sortingPermutation);
    MeetUnderInjection(clientInputs, plains, sorted, setup.encryptedElements, server.encrypt);
  }

  // ---- Containers that answer by a test, end to end ----

  // The client's inputs went through the request, the response and the decryption.
  ghost predicate ClientSucceeds(client: Party, server: Party, clientInputs: seq<Element>, reencrypted: seq<Element>,
                                 plains: seq<Element>) {
    && TransformAll(clientInputs, client.encrypt).AllDone?
    && TransformAll(TransformAll(clientInputs, client.encrypt).outputs, server.reEncrypt) == AllDone(reencrypted)
    && TransformAll(reencrypted, client.decrypt) == AllDone(plains)
  }

  // What a test of encrypted elements says of an input.
  function UnderKey(server: Party, test: Element -> bool): Element -> bool {
    x => match server.encrypt(x) case Success(y) => test(y) case Failure(_) => false
  }

  // The client's look-up by a test gives the positions of the inputs that meet it under the server's key.
  lemma PlacesUnderKey(client: Party, server: Party, clientInputs: seq<Element>, reencrypted: seq<Element>, plains: seq<Element>,
                       test: Element -> bool)
    requires Commute(client, server) && ClientSucceeds(client, server, clientInputs, reencrypted, plains)
    ensures PlacesWhere(plains, test) == PlacesWhere(clientInputs, UnderKey(server, test))
  {
    ClientSide(client, server, clientInputs, reencrypted, plains);
  }

  // And with the response rearranged as many as there are of them.
  lemma SizeUnderKey(client: Party, server: Party, clientInputs: seq<Element>, reencrypted: seq<Element>, plains: seq<Element>,
                     sent: seq<Element>, test: Element -> bool)
    requires Commute(client, server) && ClientSucceeds(client, server, clientInputs, reencrypted, plains)
    requires multiset(sent) == multiset(reencrypted)
    ensures TransformAll(sent, client.decrypt).AllDone?
    ensures |PlacesWhere(TransformAll(sent, client.decrypt).outputs, test)| == |PlacesWhere(clientInputs, UnderKey(server, test))|
  {
    TransformRearranged(reencrypted, sent, client.decrypt);
    PlacesIgnoreOrder(TransformAll(sent, client.decrypt).outputs, plains, test);
    PlacesUnderKey(client, server, clientInputs, reencrypted, plains, test);
  }

  lemma SameTestSamePlaces(s: seq<Element>, p: Element -> bool, q: Element -> bool)
    requires forall x :: p(x) <==> q(x)
    ensures PlacesWhere(s, p) == PlacesWhere(s, q)
  {
  }

  // ---- The compressed set ----

  // The hash of an input under the server's key.
  function InputHash(server: Party, hash: Gcs.HashFunction, hashRange: int, x: Element): int {
    match server.encrypt(x)
    case Success(y) => hash(y, hashRange)
    case Failure(_) => -1
  }

  // An input shares its hash with one of the server's inputs.
  predicate SharesHash(server: Party, hash: Gcs.HashFunction, hashRange: int, serverInputs: seq<Element>, x: Element) {
    exists s :: 0 <= s < |serverInputs| && InputHash(server, hash, hashRange, serverInputs[s]) == InputHash(server, hash, hashRange, x)
  }

  function HashTest(server: Party, hash: Gcs.HashFunction, hashRange: int, serverInputs: seq<Element>): Element -> bool {
    x => SharesHash(server, hash, hashRange, serverInputs, x)
  }

  lemma HashesAreShared(server: Party, serverInputs: seq<Element>, gcs: Gcs.GCS, hash: Gcs.HashFunction, x: Element)
    requires TransformAll(serverInputs, server.encrypt).AllDone?
    requires Gcs.Codes(gcs, TransformAll(serverInputs, server.encrypt).outputs, hash)
    ensures UnderKey(server, Gcs.Test(gcs, hash))(x) <==> SharesHash(server, hash, gcs.hashRange, serverInputs, x)
  {
    var stored := TransformAll(serverInputs, server.encrypt).outputs;
    TransformAllIs(serverInputs, server.encrypt);
    forall s | 0 <= s < |serverInputs|
      ensures InputHash(server, hash, gcs.hashRange, serverInputs[s]) == hash(stored[s], gcs.hashRange)
    {
      assert server.encrypt(serverInputs[s]) == Success(stored[s]);
    }
    match server.encrypt(x) {
      case Failure(_) =>
      case Success(y) =>
        assert Gcs.Test(gcs, hash)(y) <==> Gcs.HashedIn(hash(y, gcs.hashRange), stored, gcs.hashRange, hash);
    }
  }

  /**
    End to end, the compressed set: the look-up fails in nothing, unless there is no range to hash
    into; and an input's position is returned, once, exactly when its hash under the server's key
    is that of a server input.
   */
  lemma GcsIsExact(client: Party, server: Party, clientInputs: seq<Element>, serverInputs: seq<Element>,
                   gcs: Gcs.GCS, hash: Gcs.HashFunction, reencrypted: seq<Element>, plains: seq<Element>, res: seq<int>)
    requires Commute(client, server) && ClientSucceeds(client, server, clientInputs, reencrypted, plains)
    requires TransformAll(serverInputs, server.encrypt).AllDone?
    requires Gcs.Codes(gcs, TransformAll(serverInputs, server.encrypt).outputs, hash) && Gcs.IsIntersection(gcs, plains, hash, res)
    ensures Gcs.FaultIn(gcs, plains, hash) == if clientInputs != [] && gcs.hashRange <= 0 then Some(NoHash) else None
    ensures ArePlaces(clientInputs, HashTest(server, hash, gcs.hashRange, serverInputs), res)
  {
    Gcs.ExactOnHashes(gcs, TransformAll(serverInputs, server.encrypt).outputs, plains, hash, res);
    ClientSide(client, server, clientInputs, reencrypted, plains);
    forall p | 0 <= p < |clientInputs|
      ensures Gcs.Test(gcs, hash)(plains[p]) <==> SharesHash(server, hash, gcs.hashRange, serverInputs, clientInputs[p])
    {
      HashesAreShared(server, serverInputs, gcs, hash, clientInputs[p]);
    }
  }

  /**
    End to end, the size over the compressed set: with or without the response sorted to hide
    the matches, it is the number of inputs whose hash is that of a server input.
   */
  lemma GcsSizeIsExact(client: Party, server: Party, clientInputs: seq<Element>, serverInputs: seq<Element>,
                       gcs: Gcs.GCS, hash: Gcs.HashFunction, reencrypted: seq<Element>, plains: seq<Element>, sent: seq<Element>)
    requires Commute(client, server) && ClientSucceeds(client, server, clientInputs, reencrypted, plains)
    requires TransformAll(serverInputs, server.encrypt).AllDone?
    requires Gcs.Codes(gcs, TransformAll(serverInputs, server.encrypt).outputs, hash) && multiset(sent) == multiset(reencrypted)
    ensures TransformAll(sent, client.decrypt).AllDone?
    ensures |PlacesWhere(TransformAll(sent, client.decrypt).outputs, Gcs.Test(gcs, hash))|
         == |PlacesWhere(clientInputs, HashTest(server, hash, gcs.hashRange, serverInputs))|
  {
    SizeUnderKey(client, server, clientInputs, reencrypted, plains, sent, Gcs.Test(gcs, hash));
    forall x
      ensures UnderKey(server, Gcs.Test(gcs, hash))(x) <==> HashTest(server, hash, gcs.hashRange, serverInputs)(x)
    {
      HashesAreShared(server, serverInputs, gcs, hash, x);
    }
    SameTestSamePlaces(clientInputs, UnderKey(server, Gcs.Test(gcs, hash)), HashTest(server, hash, gcs.hashRange, serverInputs));
  }

  /** The compressed set never misses a common input. */
  lemma GcsNeverMisses(client: Party, server: Party, clientInputs: seq<Element>, serverInputs: seq<Element>,
                       gcs: Gcs.GCS, hash: Gcs.HashFunction, reencrypted: seq<Element>, plains: seq<Element>, res: seq<int>)
    requires Commute(client, server) && ClientSucceeds(client, server, clientInputs, reencrypted, plains)
    requires TransformAll(serverInputs, server.encrypt).AllDone?
    requires Gcs.Codes(gcs, TransformAll(serverInputs, server.encrypt).outputs, hash) && Gcs.IsIntersection(gcs, plains, hash, res)
    ensures forall p :: 0 <= p < |clientInputs| && clientInputs[p] in serverInputs ==> p in res
  {
    GcsIsExact(client, server, clientInputs, serverInputs, gcs, hash, reencrypted, plains, res);
    forall p | 0 <= p < |clientInputs| && clientInputs[p] in serverInputs
      ensures SharesHash(server, hash, gcs.hashRange, serverInputs, clientInputs[p])
    {
      var s :| 0 <= s < |serverInputs| && serverInputs[s] == clientInputs[p];
    }
  }

  // ---- The Bloom filter ----

  // One of the server's inputs, under its key, marks this bit of a filter.
  predicate MarkedByInput(server: Party, n: int, numBits: nat, hashes: Bloom.Hashes, serverInputs: seq<Element>, p: nat)
    requires numBits > 0
  {
    exists s :: 0 <= s < |serverInputs| && server.encrypt(serverInputs[s]).Success?
                && Bloom.MarksOf(server.encrypt(serverInputs[s]).element, n, p, numBits, hashes)
  }

  // Every bit that an input asks for is one that an input of the server's marks.
  predicate SharesBits(server: Party, n: int, numBits: nat, hashes: Bloom.Hashes, serverInputs: seq<Element>, x: Element) {
    && numBits > 0 && server.encrypt(x).Success?
    && forall i :: 0 <= i < n ==>
         MarkedByInput(server, n, numBits, hashes, serverInputs, Bloom.Index(server.encrypt(x).element, i, numBits, hashes))
  }

  function BitsTest(server: Party, n: int, numBits: nat, hashes: Bloom.Hashes, serverInputs: seq<Element>): Element -> bool {
    x => SharesBits(server, n, numBits, hashes, serverInputs, x)
  }

  lemma BitsAreMarked(server: Party, serverInputs: seq<Element>, n: int, numBits: nat, hashes: Bloom.Hashes, p: nat)
    requires TransformAll(serverInputs, server.encrypt).AllDone? && numBits > 0
    ensures MarkedByInput(server, n, numBits, hashes, serverInputs, p)
       <==> Bloom.Marked(TransformAll(serverInputs, server.encrypt).outputs, n, p, numBits, hashes)
  {
    var stored := TransformAll(serverInputs, server.encrypt).outputs;
    TransformAllIs(serverInputs, server.encrypt);
    assert forall s :: 0 <= s < |serverInputs| ==> server.encrypt(serverInputs[s]) == Success(stored[s]);
    if Bloom.Marked(stored, n, p, numBits, hashes) {
      var s :| 0 <= s < |stored| && Bloom.MarksOf(stored[s], n, p, numBits, hashes);
      assert server.encrypt(serverInputs[s]) == Success(stored[s]);
    }
  }

  lemma BitsAreShared(server: Party, serverInputs: seq<Element>, filter: Bloom.Contents, hashes: Bloom.Hashes, x: Element)
    requires TransformAll(serverInputs, server.encrypt).AllDone?
    requires Bloom.Holds(filter, TransformAll(serverInputs, server.encrypt).outputs, hashes)
    ensures UnderKey(server, Bloom.Test(filter, hashes))(x)
       <==> SharesBits(server, filter.numHashFunctions, 8 * |filter.bits|, hashes, serverInputs, x)
  {
    var n, numBits := filter.numHashFunctions, 8 * |filter.bits|;
    if filter.bits != [] && server.encrypt(x).Success? {
      forall i | 0 <= i < n
        ensures BitAt(filter.bits, Bloom.Index(server.encrypt(x).element, i, numBits, hashes))
           <==> MarkedByInput(server, n, numBits, hashes, serverInputs, Bloom.Index(server.encrypt(x).element, i, numBits, hashes))
      {
        BitsAreMarked(server, serverInputs, n, numBits, hashes, Bloom.Index(server.encrypt(x).element, i, numBits, hashes));
      }
    }
  }

  /**
    End to end, the filter: an input's position is returned, once and in order, exactly when every
    bit that it asks for under the server's key is one that some server input marks.
   */
  lemma BloomIsExact(client: Party, server: Party, clientInputs: seq<Element>, serverInputs: seq<Element>,
                     filter: Bloom.Contents, hashes: Bloom.Hashes, reencrypted: seq<Element>, plains: seq<Element>, res: seq<int>)
    requires Commute(client, server) && ClientSucceeds(client, server, clientInputs, reencrypted, plains)
    requires TransformAll(serverInputs, server.encrypt).AllDone?
    requires Bloom.Holds(filter, TransformAll(serverInputs, server.encrypt).outputs, hashes)
    requires Bloom.IsIntersection(filter, plains, hashes, res)
    ensures ArePlaces(clientInputs, BitsTest(server, filter.numHashFunctions, 8 * |filter.bits|, hashes, serverInputs), res)
  {
    ClientSide(client, server, clientInputs, reencrypted, plains);
    forall p | 0 <= p < |clientInputs|
      ensures Bloom.Test(filter, hashes)(plains[p])
         <==> SharesBits(server, filter.numHashFunctions, 8 * |filter.bits|, hashes, serverInputs, clientInputs[p])
    {
      BitsAreShared(server, serverInputs, filter, hashes, clientInputs[p]);
    }
  }

  /** And the size, with or without the response sorted, is the number of such inputs. */
  lemma BloomSizeIsExact(client: Party, server: Party, clientInputs: seq<Element>, serverInputs: seq<Element>,
                         filter: Bloom.Contents, hashes: Bloom.Hashes, reencrypted: seq<Element>, plains: seq<Element>,
                         sent: seq<Element>)
    requires Commute(client, server) && ClientSucceeds(client, server, clientInputs, reencrypted, plains)
    requires TransformAll(serverInputs, server.encrypt).AllDone?
    requires Bloom.Holds(filter, TransformAll(serverInputs, server.encrypt).outputs, hashes)
    requires multiset(sent) == multiset(reencrypted)
    ensures TransformAll(sent, client.decrypt).AllDone?
    ensures |PlacesWhere(TransformAll(sent, client.decrypt).outputs, Bloom.Test(filter, hashes))|
         == |PlacesWhere(clientInputs, BitsTest(server, filter.numHashFunctions, 8 * |filter.bits|, hashes, serverInputs))|
  {
    var n, numBits := filter.numHashFunctions, 8 * |filter.bits|;
    SizeUnderKey(client, server, clientInputs, reencrypted, plains, sent, Bloom.Test(filter, hashes));
    forall x
      ensures UnderKey(server, Bloom.Test(filter, hashes))(x) <==> BitsTest(server, n, numBits, hashes, serverInputs)(x)
    {
      BitsAreShared(server, serverInputs, filter, hashes, x);
    }
    SameTestSamePlaces(clientInputs, UnderKey(server, Bloom.Test(filter, hashes)), BitsTest(server, n, numBits, hashes, serverInputs));
  }

  // ---- The laws can hold ----

  function Plus(b: byte, k: byte): byte {
    if b + k >= 256 then b + k - 256 else b + k
  }

  function Minus(b: byte, k: byte): byte {
    if b < k then b + 256 - k else b - k
  }

  function Shift(x: Element, k: byte): (r: Element)
    ensures |r| == |x| && forall i :: 0 <= i < |x| ==> r[i] == Plus(x[i], k)
  {
    if x == [] then [] else Shift(x[..|x|-1], k) + [Plus(x[|x|-1], k)]
  }

  function Unshift(x: Element, k: byte): (r: Element)
    ensures |r| == |x| && forall i :: 0 <= i < |x| ==> r[i] == Minus(x[i], k)
  {
    if x == [] then [] else Unshift(x[..|x|-1], k) + [Minus(x[|x|-1], k)]
  }

  function ShiftParty(k: byte, revealIntersection: bool): Party {
    Party(x => Success(Shift(x, k)), x => Success(Shift(x, k)), x => Success(Unshift(x, k)), revealIntersection, SingleThreaded)
  }

  lemma PlusOff(b: byte, k: byte, l: byte)
    ensures Minus(Plus(Plus(b, k), l), k) == Plus(b, l)
  {
  }

  lemma ShiftsOff(x: Element, k: byte, l: byte)
    ensures Unshift(Shift(Shift(x, k), l), k) == Shift(x, l)
  {
    var once, twice := Shift(x, k), Shift(Shift(x, k), l);
    forall i | 0 <= i < |x|
      ensures Unshift(twice, k)[i] == Shift(x, l)[i]
    {
      PlusOff(x[i], k, l);
      assert once[i] == Plus(x[i], k);
      assert twice[i] == Plus(once[i], l);
    }
  }

  lemma ShiftsDiffer(x: Element, x': Element, l: byte)
    requires Shift(x, l) == Shift(x', l)
    ensures x == x'
  {
    assert |x| == |Shift(x, l)| == |Shift(x', l)| == |x'|;
    forall i | 0 <= i < |x|
      ensures x[i] == x'[i]
    {
      assert Plus(x[i], l) == Shift(x, l)[i] == Shift(x', l)[i] == Plus(x'[i], l);
    }
  }

  /** Adding a key to every byte modulo 256 is a cipher of this kind: the hypotheses are consistent. */
  lemma ShiftsCommute(k: byte, l: byte, revealIntersection: bool)
    ensures Commute(ShiftParty(k, revealIntersection), ShiftParty(l, revealIntersection))
    ensures Injective(ShiftParty(l, revealIntersection).encrypt)
  {
    var client, server := ShiftParty(k, revealIntersection), ShiftParty(l, revealIntersection);
    forall x
      ensures CommuteOn(client, server, x)
    {
      ShiftsOff(x, k, l);
    }
    forall x, x'
      ensures Separates(server.encrypt, x, x')
    {
      if Shift(x, l) == Shift(x', l) {
        ShiftsDiffer(x, x', l);
      }
    }
  }
}
