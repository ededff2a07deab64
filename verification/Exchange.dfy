/** The whole exchange as the two parties carry it out: setup, request, response, and the client's look-up. */
module Exchange {
  import opened Bytes
  import opened Bits
  import opened Sorting
  import opened EcCipher
  import opened RawContainer
  import opened Intersection
  import opened Places
  import opened Wrappers
  import opened Doubles
  import opened Protocol
  import opened Rounds

  // The client's inputs under the key they are re-encrypted with.
  function Reencrypted(client: Party, server: Party, clientInputs: seq<Element>): Transformed {
    match TransformAll(clientInputs, client.encrypt)
    case FirstFailure(code) => FirstFailure(code)
    case AllDone(encrypted) => TransformAll(encrypted, server.reEncrypt)
  }

  // Both parties have one mode, and no operation of a cipher fails.
  ghost predicate Smooth(client: Party, server: Party, clientInputs: seq<Element>, serverInputs: seq<Element>) {
    && client.revealIntersection == server.revealIntersection
    && TransformAll(serverInputs, server.encrypt).AllDone?
    && Reencrypted(client, server, clientInputs).AllDone?
    && TransformAll(Reencrypted(client, server, clientInputs).outputs, client.decrypt).AllDone?
  }

  // What the server sends in answer to the client.
  ghost predicate IsSent(client: Party, server: Party, clientInputs: seq<Element>, sent: seq<Element>) {
    && Reencrypted(client, server, clientInputs).AllDone?
    && var reencrypted := Reencrypted(client, server, clientInputs).outputs;
       if server.revealIntersection then sent == reencrypted
       else multiset(sent) == multiset(reencrypted) && Ascending(sent)
  }

  // What the client decrypts it to.
  ghost predicate Arrives(client: Party, server: Party, clientInputs: seq<Element>, serverInputs: seq<Element>,
                          sent: seq<Element>, plains: seq<Element>) {
    && Smooth(client, server, clientInputs, serverInputs) && IsSent(client, server, clientInputs, sent)
    && TransformAll(sent, client.decrypt) == AllDone(plains)
  }

  // It arrives exactly when everything goes well.
  lemma ArrivesIff(client: Party, server: Party, clientInputs: seq<Element>, serverInputs: seq<Element>, sent: seq<Element>)
    requires client.revealIntersection == server.revealIntersection
    requires TransformAll(serverInputs, server.encrypt).AllDone? && IsSent(client, server, clientInputs, sent)
    ensures Smooth(client, server, clientInputs, serverInputs) <==> TransformAll(sent, client.decrypt).AllDone?
  {
    var reencrypted := Reencrypted(client, server, clientInputs).outputs;
    if TransformAll(sent, client.decrypt).AllDone? {
      TransformEveryMember(sent, reencrypted, client.decrypt);
    } else if TransformAll(reencrypted, client.decrypt).AllDone? {
      TransformEveryMember(reencrypted, sent, client.decrypt);
    }
  }

  /** The setup, the request and the response, up to the first that is refused. */
  method Talk(client: Party, server: Party, fpr: Double, numClientInputs: int, clientInputs: seq<Element>, serverInputs: seq<Element>,
              ds: DataStructure, hashing: Hashing, round: Rounding)
    returns (setup: Result<ServerSetup>, sortingPermutation: seq<nat>, response: Result<Response>)
    ensures IsSetupFor(server, fpr, numClientInputs, serverInputs, ds, hashing, round, setup, sortingPermutation)
    ensures response.Ok? ==>
              && client.revealIntersection == server.revealIntersection
              && IsSent(client, server, clientInputs, response.value.encryptedElements)
    ensures response.Err? ==> !Smooth(client, server, clientInputs, serverInputs)
  {
    setup, sortingPermutation := CreateSetupMessage(server, fpr, numClientInputs, serverInputs, ds, hashing, round);
    var request := CreateRequest(client, clientInputs);
    if request.Err? {
      return setup, sortingPermutation, Err(request.error);
    }
    response := ProcessRequest(server, request.value);
  }

  // ---- The errors of the containers ----

  // Why there is no look-up in a compressed set, when the ciphers have done their work.
  function GcsError(rate: Double, numClientInputs: int, clients: nat, servers: nat, div: nat, round: Rounding): Option<Error> {
    if OutsideUnit(rate) then Some(FprOutOfRange)
    else
      match Gcs.HashRange(rate, numClientInputs, servers, round)
      case None => Some(Undefined(BadCast))
      case Some(hashRange) =>
        if servers > 0 && Shl(1, div) >= LIMIT then Some(Undefined(BadShift))
        else if clients > 0 && hashRange == 0 then Some(Undefined(NoHash))
        else None
  }

  // And in a filter: something cannot be hashed, the server's or the client's.
  ghost function BloomError(rate: Double, numHashFunctions: int, numBytes: nat, hashes: Bloom.Hashes,
                            stored: seq<Element>, plains: seq<Element>): Option<Error> {
    if OutsideUnit(rate) then Some(FprOutOfRange)
    else if rate.NotANumber? then Some(Undefined(BadCast))
    else
      var empty := Bloom.Contents(numHashFunctions, Golomb.ZeroBytes(numBytes));
      if Bloom.FaultIn(empty, stored, hashes).Some? then Some(Undefined(Bloom.FaultIn(empty, stored, hashes).value))
      else if Bloom.FaultIn(empty, plains, hashes).Some? then Some(Undefined(Bloom.FaultIn(empty, plains, hashes).value))
      else None
  }

  // The list encrypted with the server's key, if that fails nowhere.
  function UnderServerKey(server: Party, xs: seq<Element>): seq<Element> {
    match TransformAll(xs, server.encrypt)
    case AllDone(outputs) => outputs
    case FirstFailure(_) => []
  }

  // The client decrypts what arrives to its inputs under the server's key, but for the order.
  lemma ArrivesUnderServerKey(client: Party, server: Party, clientInputs: seq<Element>, serverInputs: seq<Element>,
                              sent: seq<Element>, plains: seq<Element>)
    requires Commute(client, server) && Arrives(client, server, clientInputs, serverInputs, sent, plains)
    ensures var reencrypted := Reencrypted(client, server, clientInputs).outputs;
            && multiset(sent) == multiset(reencrypted)
            && ClientSucceeds(client, server, clientInputs, reencrypted, TransformAll(reencrypted, client.decrypt).outputs)
            && UnderServerKey(server, clientInputs) == TransformAll(reencrypted, client.decrypt).outputs
    ensures multiset(plains) == multiset(UnderServerKey(server, clientInputs))
    ensures client.revealIntersection ==> plains == UnderServerKey(server, clientInputs)
  {
    var reencrypted := Reencrypted(client, server, clientInputs).outputs;
    var decrypted := TransformAll(reencrypted, client.decrypt).outputs;
    ClientSide(client, server, clientInputs, reencrypted, decrypted);
    TransformAllIs(clientInputs, server.encrypt);
    assert UnderServerKey(server, clientInputs) == decrypted;
    TransformRearranged(reencrypted, sent, client.decrypt);
  }

  // ---- The size ----

  // The size over a compressed set, or the error.
  ghost predicate IsGcsSize(client: Party, server: Party, rate: Double, numClientInputs: int, clientInputs: seq<Element>,
                            serverInputs: seq<Element>, div: nat, hashing: Hashing, round: Rounding, r: Result<nat>) {
    match GcsError(rate, numClientInputs, |clientInputs|, |serverInputs|, div, round)
    case Some(error) => r == Err(error)
    case None =>
      var hashRange := Gcs.HashRange(rate, numClientInputs, |serverInputs|, round).value;
      r == Ok(|PlacesWhere(clientInputs, HashTest(server, hashing.gcs, hashRange, serverInputs))|)
  }

  // The size over a filter, or the error.
  ghost predicate IsBloomSize(client: Party, server: Party, rate: Double, clientInputs: seq<Element>, serverInputs: seq<Element>,
                              numHashFunctions: int, numBytes: nat, hashing: Hashing, r: Result<nat>) {
    match BloomError(rate, numHashFunctions, numBytes, hashing.bloom,
                     UnderServerKey(server, serverInputs), UnderServerKey(server, clientInputs))
    case Some(error) => r == Err(error)
    case None =>
      r == Ok(|PlacesWhere(clientInputs, BitsTest(server, numHashFunctions, 8 * numBytes, hashing.bloom, serverInputs))|)
  }

  // The size that the client learns, and otherwise the error.
  ghost predicate IsSizeLearnt(client: Party, server: Party, fpr: Double, numClientInputs: int, clientInputs: seq<Element>,
                               serverInputs: seq<Element>, ds: DataStructure, hashing: Hashing, round: Rounding, r: Result<nat>) {
    var rate := CorrectedRate(fpr, numClientInputs, round);
    match ds
    case RawStructure => r == Ok(|multiset(clientInputs) * multiset(serverInputs)|)
    case GcsStructure(div) => IsGcsSize(client, server, rate, numClientInputs, clientInputs, serverInputs, div, hashing, round, r)
    case BloomStructure(numHashFunctions, numBytes) =>
      IsBloomSize(client, server, rate, clientInputs, serverInputs, numHashFunctions, numBytes, hashing, r)
  }

  lemma RawSize(client: Party, server: Party, clientInputs: seq<Element>, serverInputs: seq<Element>, setup: ServerSetup,
                sortingPermutation: seq<nat>, sent: seq<Element>, plains: seq<Element>)
    requires Commute(client, server) && Injective(server.encrypt)
    requires Arrives(client, server, clientInputs, serverInputs, sent, plains)
    requires IsSetupOf(server, serverInputs, setup, sortingPermutation)
    ensures |multiset(plains) * multiset(Records(setup.encryptedElements))| == |multiset(clientInputs) * multiset(serverInputs)|
  {
    ArrivesUnderServerKey(client, server, clientInputs, serverInputs, sent, plains);
    var reencrypted := Reencrypted(client, server, clientInputs).outputs;
    var decrypted := TransformAll(reencrypted, client.decrypt).outputs;
    assert IsRound(client, server, clientInputs, serverInputs, setup, sortingPermutation, reencrypted, decrypted);
    SizeIsExact(client, server, clientInputs, serverInputs, setup, sortingPermutation, reencrypted, decrypted, sent);
    RecordsAreAll(setup.encryptedElements);
  }

  lemma GcsSize(client: Party, server: Party, clientInputs: seq<Element>, serverInputs: seq<Element>, gcs: Gcs.GCS,
                hashing: Hashing, sent: seq<Element>, plains: seq<Element>)
    requires Commute(client, server) && Arrives(client, server, clientInputs, serverInputs, sent, plains)
    requires Gcs.Codes(gcs, UnderServerKey(server, serverInputs), hashing.gcs)
    ensures Gcs.FaultIn(gcs, plains, hashing.gcs) == if clientInputs != [] && gcs.hashRange <= 0 then Some(NoHash) else None
    ensures |PlacesWhere(plains, Gcs.Test(gcs, hashing.gcs))|
         == |PlacesWhere(clientInputs, HashTest(server, hashing.gcs, gcs.hashRange, serverInputs))|
  {
    ArrivesUnderServerKey(client, server, clientInputs, serverInputs, sent, plains);
    var reencrypted := Reencrypted(client, server, clientInputs).outputs;
    var decrypted := TransformAll(reencrypted, client.decrypt).outputs;
    GcsSizeIsExact(client, server, clientInputs, serverInputs, gcs, hashing.gcs, reencrypted, decrypted, sent);
    Gcs.OnlyNoHash(gcs, UnderServerKey(server, serverInputs), plains, hashing.gcs);
    ClientSide(client, server, clientInputs, reencrypted, decrypted);
    RearrangedHasSameMembers(decrypted, plains);
  }

  lemma BloomSize(client: Party, server: Party, clientInputs: seq<Element>, serverInputs: seq<Element>, filter: Bloom.Contents,
                  hashing: Hashing, sent: seq<Element>, plains: seq<Element>)
    requires Commute(client, server) && Arrives(client, server, clientInputs, serverInputs, sent, plains)
    requires Bloom.Holds(filter, UnderServerKey(server, serverInputs), hashing.bloom)
    ensures Bloom.FaultIn(filter, plains, hashing.bloom)
         == Bloom.FaultIn(Bloom.Contents(filter.numHashFunctions, Golomb.ZeroBytes(|filter.bits|)),
                          UnderServerKey(server, clientInputs), hashing.bloom)
    ensures |PlacesWhere(plains, Bloom.Test(filter, hashing.bloom))|
         == |PlacesWhere(clientInputs, BitsTest(server, filter.numHashFunctions, 8 * |filter.bits|, hashing.bloom, serverInputs))|
  {
    ArrivesUnderServerKey(client, server, clientInputs, serverInputs, sent, plains);
    var reencrypted := Reencrypted(client, server, clientInputs).outputs;
    var decrypted := TransformAll(reencrypted, client.decrypt).outputs;
    BloomSizeIsExact(client, server, clientInputs, serverInputs, filter, hashing.bloom, reencrypted, decrypted, sent);
    Bloom.SameFault(filter, Bloom.Contents(filter.numHashFunctions, Golomb.ZeroBytes(|filter.bits|)),
                    plains, UnderServerKey(server, clientInputs), hashing.bloom);
  }

  // A setup that was not made is the error learnt.
  lemma NoSetup(client: Party, server: Party, fpr: Double, numClientInputs: int, clientInputs: seq<Element>,
                serverInputs: seq<Element>, ds: DataStructure, hashing: Hashing, round: Rounding,
                setup: Result<ServerSetup>, sortingPermutation: seq<nat>)
    requires Smooth(client, server, clientInputs, serverInputs) && setup.Err?
    requires IsSetupFor(server, fpr, numClientInputs, serverInputs, ds, hashing, round, setup, sortingPermutation)
    ensures IsSizeLearnt(client, server, fpr, numClientInputs, clientInputs, serverInputs, ds, hashing, round, Err(setup.error))
  {
    TransformAllIs(serverInputs, server.encrypt);
  }

  lemma SizeLearnt(client: Party, server: Party, fpr: Double, numClientInputs: int, clientInputs: seq<Element>,
                   serverInputs: seq<Element>, ds: DataStructure, hashing: Hashing, round: Rounding,
                   setup: ServerSetup, sortingPermutation: seq<nat>, sent: seq<Element>, plains: seq<Element>, r: Result<nat>)
    requires Commute(client, server) && Injective(server.encrypt)
    requires IsSetupFor(server, fpr, numClientInputs, serverInputs, ds, hashing, round, Ok(setup), sortingPermutation)
    requires Arrives(client, server, clientInputs, serverInputs, sent, plains) && IsSize(setup, plains, hashing, r)
    ensures IsSizeLearnt(client, server, fpr, numClientInputs, clientInputs, serverInputs, ds, hashing, round, r)
  {
    TransformAllIs(serverInputs, server.encrypt);
    var rate := CorrectedRate(fpr, numClientInputs, round);
    match setup {
      case RawSetup(_) =>
        RawSize(client, server, clientInputs, serverInputs, setup, sortingPermutation, sent, plains);
      case GcsSetup(gcs) =>
        GcsSizeLearnt(client, server, rate, numClientInputs, clientInputs, serverInputs, ds.div, hashing, round, gcs, sent, plains, r);
      case BloomSetup(filter) =>
        BloomSizeLearnt(client, server, rate, clientInputs, serverInputs, ds.numHashFunctions, ds.numBytes, hashing,
                        filter, sent, plains, r);
    }
  }

  lemma GcsSizeLearnt(client: Party, server: Party, rate: Double, numClientInputs: int, clientInputs: seq<Element>,
                      serverInputs: seq<Element>, div: nat, hashing: Hashing, round: Rounding,
                      gcs: Gcs.GCS, sent: seq<Element>, plains: seq<Element>, r: Result<nat>)
    requires Commute(client, server) && Arrives(client, server, clientInputs, serverInputs, sent, plains)
    requires |UnderServerKey(server, serverInputs)| == |serverInputs|
    requires IsGcsSetupOf(UnderServerKey(server, serverInputs), rate, numClientInputs, div, hashing.gcs, round, Ok(GcsSetup(gcs)))
    requires IsSize(GcsSetup(gcs), plains, hashing, r)
    ensures IsGcsSize(client, server, rate, numClientInputs, clientInputs, serverInputs, div, hashing, round, r)
  {
    GcsSize(client, server, clientInputs, serverInputs, gcs, hashing, sent, plains);
  }

  lemma BloomSizeLearnt(client: Party, server: Party, rate: Double, clientInputs: seq<Element>, serverInputs: seq<Element>,
                        numHashFunctions: int, numBytes: nat, hashing: Hashing,
                        filter: Bloom.Contents, sent: seq<Element>, plains: seq<Element>, r: Result<nat>)
    requires Commute(client, server) && Arrives(client, server, clientInputs, serverInputs, sent, plains)
    requires IsBloomSetupOf(UnderServerKey(server, serverInputs), rate, numHashFunctions, numBytes, hashing.bloom, Ok(BloomSetup(filter)))
    requires IsSize(BloomSetup(filter), plains, hashing, r)
    ensures IsBloomSize(client, server, rate, clientInputs, serverInputs, numHashFunctions, numBytes, hashing, r)
  {
    BloomSize(client, server, clientInputs, serverInputs, filter, hashing, sent, plains);
  }

  /**
    The whole exchange for the size, with whatever container and the matches revealed or hidden.
    If no operation of a cipher fails, the client learns the size of the multiset intersection of
    the inputs, or what the container makes of it; otherwise there is an error.
   */
  method LearnSize(client: Party, server: Party, fpr: Double, numClientInputs: int, clientInputs: seq<Element>,
                   serverInputs: seq<Element>, ds: DataStructure, hashing: Hashing, round: Rounding)
    returns (r: Result<nat>)
    requires Commute(client, server) && Injective(server.encrypt)
    ensures Smooth(client, server, clientInputs, serverInputs) ==>
              IsSizeLearnt(client, server, fpr, numClientInputs, clientInputs, serverInputs, ds, hashing, round, r)
    ensures !Smooth(client, server, clientInputs, serverInputs) ==> r.Err?
  {
    var setup, sortingPermutation, response := Talk(client, server, fpr, numClientInputs, clientInputs, serverInputs, ds, hashing, round);
    if setup.Err? {
      if Smooth(client, server, clientInputs, serverInputs) {
        NoSetup(client, server, fpr, numClientInputs, clientInputs, serverInputs, ds, hashing, round, setup, sortingPermutation);
      }
      return Err(setup.error);
    }
    if response.Err? {
      return Err(response.error);
    }
    ghost var sent := response.value.encryptedElements;
    ArrivesIff(client, server, clientInputs, serverInputs, sent);
    r := GetIntersectionSize(client, setup.value, response.value, hashing);
    if Smooth(client, server, clientInputs, serverInputs) {
      SizeLearnt(client, server, fpr, numClientInputs, clientInputs, serverInputs, ds, hashing, round,
                 setup.value, sortingPermutation, sent, TransformAll(sent, client.decrypt).outputs, r);
    }
  }

  // ---- The intersection ----

  // The intersection over a compressed set, or the error.
  ghost predicate IsGcsIntersection(server: Party, rate: Double, numClientInputs: int, clientInputs: seq<Element>,
                                    serverInputs: seq<Element>, div: nat, hashing: Hashing, round: Rounding, r: Result<seq<int>>) {
    match GcsError(rate, numClientInputs, |clientInputs|, |serverInputs|, div, round)
    case Some(error) => r == Err(error)
    case None =>
      var hashRange := Gcs.HashRange(rate, numClientInputs, |serverInputs|, round).value;
      r.Ok? && ArePlaces(clientInputs, HashTest(server, hashing.gcs, hashRange, serverInputs), r.value)
  }

  // The intersection over a filter, or the error.
  ghost predicate IsBloomIntersection(server: Party, rate: Double, clientInputs: seq<Element>, serverInputs: seq<Element>,
                                      numHashFunctions: int, numBytes: nat, hashing: Hashing, r: Result<seq<int>>) {
    match BloomError(rate, numHashFunctions, numBytes, hashing.bloom,
                     UnderServerKey(server, serverInputs), UnderServerKey(server, clientInputs))
    case Some(error) => r == Err(error)
    case None =>
      r.Ok? && ArePlaces(clientInputs, BitsTest(server, numHashFunctions, 8 * numBytes, hashing.bloom, serverInputs), r.value)
  }

  // The positions that the client learns when the matches are revealed, and otherwise the error.
  ghost predicate IsIntersectionLearnt(client: Party, server: Party, fpr: Double, numClientInputs: int, clientInputs: seq<Element>,
                                       serverInputs: seq<Element>, ds: DataStructure, hashing: Hashing, round: Rounding,
                                       r: Result<seq<int>>)
    requires Smooth(client, server, clientInputs, serverInputs)
  {
    var rate := CorrectedRate(fpr, numClientInputs, round);
    match ds
    case RawStructure => r.Ok? && IsRawIntersection(clientInputs, serverInputs, r.value)
    case GcsStructure(div) => IsGcsIntersection(server, rate, numClientInputs, clientInputs, serverInputs, div, hashing, round, r)
    case BloomStructure(numHashFunctions, numBytes) =>
      IsBloomIntersection(server, rate, clientInputs, serverInputs, numHashFunctions, numBytes, hashing, r)
  }

  lemma RawLearnt(client: Party, server: Party, clientInputs: seq<Element>, serverInputs: seq<Element>, setup: ServerSetup,
                  sortingPermutation: seq<nat>, sent: seq<Element>, plains: seq<Element>, res: seq<int>)
    requires Commute(client, server) && Injective(server.encrypt) && client.revealIntersection
    requires Arrives(client, server, clientInputs, serverInputs, sent, plains)
    requires IsSetupOf(server, serverInputs, setup, sortingPermutation)
    requires IsRawIntersection(plains, Records(setup.encryptedElements), res)
    ensures IsRawIntersection(clientInputs, serverInputs, res)
  {
    RecordsAreAll(setup.encryptedElements);
    assert IsRound(client, server, clientInputs, serverInputs, setup, sortingPermutation, sent, plains);
    IntersectionIsExact(client, server, clientInputs, serverInputs, setup, sortingPermutation, sent, plains, res);
  }

  lemma GcsLearnt(client: Party, server: Party, rate: Double, numClientInputs: int, clientInputs: seq<Element>,
                  serverInputs: seq<Element>, div: nat, hashing: Hashing, round: Rounding,
                  gcs: Gcs.GCS, sent: seq<Element>, plains: seq<Element>, r: Result<seq<int>>)
    requires Commute(client, server) && client.revealIntersection
    requires Arrives(client, server, clientInputs, serverInputs, sent, plains)
    requires |UnderServerKey(server, serverInputs)| == |serverInputs|
    requires IsGcsSetupOf(UnderServerKey(server, serverInputs), rate, numClientInputs, div, hashing.gcs, round, Ok(GcsSetup(gcs)))
    requires IsLookUp(GcsSetup(gcs), plains, hashing, r)
    ensures IsGcsIntersection(server, rate, numClientInputs, clientInputs, serverInputs, div, hashing, round, r)
  {
    GcsSize(client, server, clientInputs, serverInputs, gcs, hashing, sent, plains);
    if r.Ok? {
      GcsIsExact(client, server, clientInputs, serverInputs, gcs, hashing.gcs, sent, plains, r.value);
    }
  }

  lemma BloomLearnt(client: Party, server: Party, rate: Double, clientInputs: seq<Element>, serverInputs: seq<Element>,
                    numHashFunctions: int, numBytes: nat, hashing: Hashing,
                    filter: Bloom.Contents, sent: seq<Element>, plains: seq<Element>, r: Result<seq<int>>)
    requires Commute(client, server) && client.revealIntersection
    requires Arrives(client, server, clientInputs, serverInputs, sent, plains)
    requires IsBloomSetupOf(UnderServerKey(server, serverInputs), rate, numHashFunctions, numBytes, hashing.bloom, Ok(BloomSetup(filter)))
    requires IsLookUp(BloomSetup(filter), plains, hashing, r)
    ensures IsBloomIntersection(server, rate, clientInputs, serverInputs, numHashFunctions, numBytes, hashing, r)
  {
    BloomSize(client, server, clientInputs, serverInputs, filter, hashing, sent, plains);
    if r.Ok? {
      BloomIsExact(client, server, clientInputs, serverInputs, filter, hashing.bloom, sent, plains, r.value);
    }
  }

  lemma IntersectionLearnt(client: Party, server: Party, fpr: Double, numClientInputs: int, clientInputs: seq<Element>,
                           serverInputs: seq<Element>, ds: DataStructure, hashing: Hashing, round: Rounding,
                           setup: ServerSetup, sortingPermutation: seq<nat>, sent: seq<Element>, plains: seq<Element>,
                           r: Result<seq<int>>)
    requires Commute(client, server) && Injective(server.encrypt) && client.revealIntersection
    requires IsSetupFor(server, fpr, numClientInputs, serverInputs, ds, hashing, round, Ok(setup), sortingPermutation)
    requires Arrives(client, server, clientInputs, serverInputs, sent, plains) && IsLookUp(setup, plains, hashing, r)
    ensures IsIntersectionLearnt(client, server, fpr, numClientInputs, clientInputs, serverInputs, ds, hashing, round, r)
  {
    TransformAllIs(serverInputs, server.encrypt);
    var rate := CorrectedRate(fpr, numClientInputs, round);
    match setup {
      case RawSetup(_) =>
        RawLearnt(client, server, clientInputs, serverInputs, setup, sortingPermutation, sent, plains, r.value);
      case GcsSetup(gcs) =>
        GcsLearnt(client, server, rate, numClientInputs, clientInputs, serverInputs, ds.div, hashing, round, gcs, sent, plains, r);
      case BloomSetup(filter) =>
        BloomLearnt(client, server, rate, clientInputs, serverInputs, ds.numHashFunctions, ds.numBytes, hashing,
                    filter, sent, plains, r);
    }
  }

  /** The whole exchange for the intersection; it is refused where the matches are hidden. */
  method LearnIntersection(client: Party, server: Party, fpr: Double, numClientInputs: int, clientInputs: seq<Element>,
                           serverInputs: seq<Element>, ds: DataStructure, hashing: Hashing, round: Rounding)
    returns (r: Result<seq<int>>)
    requires Commute(client, server) && Injective(server.encrypt)
    ensures Smooth(client, server, clientInputs, serverInputs) && client.revealIntersection ==>
              IsIntersectionLearnt(client, server, fpr, numClientInputs, clientInputs, serverInputs, ds, hashing, round, r)
    ensures !(Smooth(client, server, clientInputs, serverInputs) && client.revealIntersection) ==> r.Err?
  {
    var setup, sortingPermutation, response := Talk(client, server, fpr, numClientInputs, clientInputs, serverInputs, ds, hashing, round);
    if setup.Err? {
      if Smooth(client, server, clientInputs, serverInputs) {
        NoSetup(client, server, fpr, numClientInputs, clientInputs, serverInputs, ds, hashing, round, setup, sortingPermutation);
      }
      return Err(setup.error);
    }
    if response.Err? {
      return Err(response.error);
    }
    ghost var sent := response.value.encryptedElements;
    ArrivesIff(client, server, clientInputs, serverInputs, sent);
    r := GetIntersection(client, setup.value, response.value, hashing);
    if Smooth(client, server, clientInputs, serverInputs) && client.revealIntersection {
      IntersectionLearnt(client, server, fpr, numClientInputs, clientInputs, serverInputs, ds, hashing, round,
                         setup.value, sortingPermutation, sent, TransformAll(sent, client.decrypt).outputs, r);
    }
  }

  // ---- The association table ----

  lemma TableLearnt(client: Party, server: Party, clientInputs: seq<Element>, serverInputs: seq<Element>,
                    setup: ServerSetup, sortingPermutation: seq<nat>, sent: seq<Element>, plains: seq<Element>,
                    rows: seq<nat>, cols: seq<nat>)
    requires Commute(client, server) && Injective(server.encrypt) && client.revealIntersection
    requires Arrives(client, server, clientInputs, serverInputs, sent, plains)
    requires IsSetupOf(server, serverInputs, setup, sortingPermutation)
    requires IsAssociationTable(plains, setup.encryptedElements, rows, cols)
    ensures forall k :: 0 <= k < |cols| ==> cols[k] < |sortingPermutation|
    ensures IsAssociationTable(clientInputs, serverInputs, rows, Through(cols, sortingPermutation))
  {
    var reencrypted := Reencrypted(client, server, clientInputs).outputs;
    assert IsRound(client, server, clientInputs, serverInputs, setup, sortingPermutation, reencrypted, plains);
    AssociationIsExact(client, server, clientInputs, serverInputs, setup, sortingPermutation, reencrypted, plains, rows, cols);
  }

  /**
    The whole exchange for the table: with the matches revealed and a sorted container, each pair
    of equal inputs in exactly one row, once the server's permutation is undone; else refused.
   */
  method LearnTable(client: Party, server: Party, fpr: Double, numClientInputs: int, clientInputs: seq<Element>,
                    serverInputs: seq<Element>, ds: DataStructure, hashing: Hashing, round: Rounding)
    returns (r: Result<(seq<nat>, seq<nat>)>)
    requires Commute(client, server) && Injective(server.encrypt)
    ensures if Smooth(client, server, clientInputs, serverInputs) && client.revealIntersection && ds.RawStructure? then
              r.Ok? && IsAssociationTable(clientInputs, serverInputs, r.value.0, r.value.1)
            else r.Err?
  {
    var setup, sortingPermutation, response := Talk(client, server, fpr, numClientInputs, clientInputs, serverInputs, ds, hashing, round);
    if setup.Err? {
      return Err(setup.error);
    }
    if response.Err? {
      return Err(response.error);
    }
    ghost var sent := response.value.encryptedElements;
    ArrivesIff(client, server, clientInputs, serverInputs, sent);
    var table := Protocol.GetAssociationTable(client, setup.value, response.value);
    if table.Err? {
      return table;
    }
    var rows, cols := table.value.0, table.value.1;
    TableLearnt(client, server, clientInputs, serverInputs, setup.value, sortingPermutation, sent,
                TransformAll(sent, client.decrypt).outputs, rows, cols);
    return Ok((rows, Through(cols, sortingPermutation)));
  }
}
