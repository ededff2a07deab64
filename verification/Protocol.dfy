/** The four messages of the protocol, and what the client learns from them. */
module Protocol {
  import opened Bytes
  import opened Bits
  import opened Sorting
  import opened EcCipher
  import opened Permute
  import opened RawContainer
  import opened Intersection
  import opened Places
  import opened Wrappers
  import opened Doubles
  import opened Bulk
  import Golomb
  import Gcs
  import Bloom

  // A party: its key, as the three operations under it, its mode, and how it is built.
  datatype Party = Party(encrypt: Op, reEncrypt: Op, decrypt: Op, revealIntersection: bool, build: SteadyBuild)

  // What the containers hash with; SHA-256 in the source.
  datatype Hashing = Hashing(gcs: Gcs.HashFunction, bloom: Bloom.Hashes)

  // With the parameters that the source computes in floating point.
  datatype DataStructure = GcsStructure(div: nat) | BloomStructure(numHashFunctions: int, numBytes: nat) | RawStructure

  datatype ServerSetup = RawSetup(encryptedElements: seq<Element>) | GcsSetup(gcs: Gcs.GCS) | BloomSetup(filter: Bloom.Contents)

  datatype Request = Request(revealIntersection: bool, encryptedElements: seq<Element>)

  datatype Response = Response(encryptedElements: seq<Element>)

  // Undefined is no error of the source: it stands for what a container's code goes into unnoticed.
  datatype Error =
    | CipherFailed(code: int) | FprOutOfRange | RevealMismatch | RevealRequired | NotRaw
    | Undefined(fault: Fault)

  datatype Result<+T> = Ok(value: T) | Err(error: Error)

  // ---- The messages ----

  ghost predicate IsSetupOf(server: Party, inputs: seq<Element>, setup: ServerSetup, sortingPermutation: seq<nat>)
    requires TransformAll(inputs, server.encrypt).AllDone?
  {
    && setup.RawSetup?
    && IsPermutation(sortingPermutation, |inputs|)
    && setup.encryptedElements == Permuted(TransformAll(inputs, server.encrypt).outputs, sortingPermutation)
    && Ascending(setup.encryptedElements)
  }

  // The compressed set of the encrypted inputs at this rate, or why there is none.
  ghost predicate IsGcsSetupOf(encrypted: seq<Element>, rate: Double, numClientInputs: int, div: nat, hash: Gcs.HashFunction,
                               round: Rounding, r: Result<ServerSetup>) {
    if OutsideUnit(rate) then r == Err(FprOutOfRange)
    else
      match Gcs.HashRange(rate, numClientInputs, |encrypted|, round)
      case None => r == Err(Undefined(BadCast))
      case Some(hashRange) =>
        if encrypted != [] && Shl(1, div) >= LIMIT then r == Err(Undefined(BadShift))
        else r.Ok? && r.value.GcsSetup? && r.value.gcs.hashRange == hashRange && Gcs.Codes(r.value.gcs, encrypted, hash)
  }

  // The filter of the encrypted inputs at this rate, or why there is none.
  ghost predicate IsBloomSetupOf(encrypted: seq<Element>, rate: Double, numHashFunctions: int, numBytes: nat,
                                 hashes: Bloom.Hashes, r: Result<ServerSetup>) {
    if OutsideUnit(rate) then r == Err(FprOutOfRange)
    else if rate.NotANumber? then r == Err(Undefined(BadCast))
    else
      match Bloom.FaultIn(Bloom.Contents(numHashFunctions, Golomb.ZeroBytes(numBytes)), encrypted, hashes)
      case Some(fault) => r == Err(Undefined(fault))
      case None =>
        && r.Ok? && r.value.BloomSetup? && r.value.filter.numHashFunctions == numHashFunctions
        && |r.value.filter.bits| == numBytes && Bloom.Holds(r.value.filter, encrypted, hashes)
  }

  // The rate for each client query.
  function CorrectedRate(fpr: Double, numClientInputs: int, round: Rounding): Double {
    DividedBy(fpr, numClientInputs, round)
  }

  /**
    The rate of a finite number is in range exactly when it and the number of client inputs have
    one sign and the rate is the smaller in size, and the quotient is not rounded to 0 or 1. A
    negative rate passes with a negative number; and what is not a number passes.
   */
  lemma RateInRangeIff(fpr: real, numClientInputs: int, round: Rounding)
    ensures var n := round(numClientInputs as real);
            !OutsideUnit(CorrectedRate(Number(fpr), numClientInputs, round)) <==>
              if numClientInputs == 0 then fpr == 0.0
              else
                && n != 0.0 && ((fpr > 0.0 && n > 0.0 && fpr < n) || (fpr < 0.0 && n < 0.0 && fpr > n))
                && round(fpr / n) != 0.0 && round(fpr / n) != 1.0
  {
    var n := round(numClientInputs as real);
    WholeStaysPositive(numClientInputs, round);
    if numClientInputs != 0 {
      RateSign(fpr, n, fpr / n);
      RoundedInside(fpr / n, round);
    }
  }

  // Rounding never moves a number out of the interval, but it may move it onto an end.
  lemma RoundedInside(q: real, round: Rounding)
    ensures 0.0 < round(q) < 1.0 <==> 0.0 < q < 1.0 && round(q) != 0.0 && round(q) != 1.0
  {
    if q <= 0.0 {
      assert round(q) <= round(0.0);
    } else if q >= 1.0 {
      assert round(1.0) <= round(q);
    } else {
      assert round(0.0) <= round(q) <= round(1.0);
    }
  }

  lemma RateSign(fpr: real, n: real, q: real)
    requires n != 0.0 && q == fpr / n
    ensures 0.0 < q < 1.0 <==> (n > 0.0 && 0.0 < fpr < n) || (n < 0.0 && n < fpr < 0.0)
  {
    assert fpr == q * n;
    assert fpr - n == (q - 1.0) * n;
    SignOfProduct(q, n);
    SignOfProduct(q - 1.0, n);
  }

  lemma SignOfProduct(a: real, b: real)
    requires b != 0.0
    ensures a * b > 0.0 <==> (a > 0.0 <==> b > 0.0) && a != 0.0
    ensures a * b < 0.0 <==> (a > 0.0 <==> b < 0.0) && a != 0.0
  {
  }

  // The setup of this structure for the inputs, or why there is none.
  ghost predicate IsSetupFor(server: Party, fpr: Double, numClientInputs: int, inputs: seq<Element>, ds: DataStructure,
                             hashing: Hashing, round: Rounding, r: Result<ServerSetup>, sortingPermutation: seq<nat>) {
    match TransformAll(inputs, server.encrypt)
    case FirstFailure(code) => r == Err(CipherFailed(code))
    case AllDone(encrypted) => (
      var rate := CorrectedRate(fpr, numClientInputs, round);
      match ds
      case RawStructure => r.Ok? && IsSetupOf(server, inputs, r.value, sortingPermutation)
      case GcsStructure(div) => IsGcsSetupOf(encrypted, rate, numClientInputs, div, hashing.gcs, round, r)
      case BloomStructure(numHashFunctions, numBytes) =>
        IsBloomSetupOf(encrypted, rate, numHashFunctions, numBytes, hashing.bloom, r)
      )
  }

  /**
    The hash range of a compressed setup: the rate divided by the number of client inputs goes so
    many times into the greater number of inputs, exactly or after the roundings.
   */
  lemma SetupRangeIs(server: Party, fpr: real, numClientInputs: int, inputs: seq<Element>, div: nat, hashing: Hashing,
                     round: Rounding, r: Result<ServerSetup>, sortingPermutation: seq<nat>)
    requires numClientInputs != 0 && r.Ok?
    requires IsSetupFor(server, Number(fpr), numClientInputs, inputs, GcsStructure(div), hashing, round, r, sortingPermutation)
    ensures r.value.GcsSetup? && round(numClientInputs as real) != 0.0
    ensures var rate := round(fpr / round(numClientInputs as real));
            && 0.0 < rate < 1.0 && r.value.gcs.hashRange >= 0
            && GoesInto(r.value.gcs.hashRange, if numClientInputs > |inputs| then numClientInputs else |inputs|, rate, round)
  {
    TransformAllIs(inputs, server.encrypt);
    WholeStaysPositive(numClientInputs, round);
    var rate := round(fpr / round(numClientInputs as real));
    assert CorrectedRate(Number(fpr), numClientInputs, round) == Number(rate);
    Gcs.HashRangeIs(rate, numClientInputs, |inputs|, round);
  }

  method CreateSetupMessage(server: Party, fpr: Double, numClientInputs: int, inputs: seq<Element>, ds: DataStructure,
                            hashing: Hashing, round: Rounding)
    returns (r: Result<ServerSetup>, sortingPermutation: seq<nat>)
    ensures IsSetupFor(server, fpr, numClientInputs, inputs, ds, hashing, round, r, sortingPermutation)
  {
    var rate := CorrectedRate(fpr, numClientInputs, round);
    var encrypted := Apply(server.build, inputs, server.encrypt);
    if encrypted.FirstFailure? {
      return Err(CipherFailed(encrypted.code)), [];
    }
    match ds {
      case GcsStructure(div) =>
        var container := Gcs.Create(rate, numClientInputs, encrypted.outputs, hashing.gcs, div, round);
        match container {
          case RateRefused => return Err(FprOutOfRange), [];
          case CreateFails(fault) => return Err(Undefined(fault)), [];
          case Made(gcs) => return Ok(GcsSetup(gcs)), [];
        }
      case BloomStructure(numHashFunctions, numBytes) =>
        var container := Bloom.Create(rate, encrypted.outputs, hashing.bloom, numHashFunctions, numBytes);
        match container {
          case RateRefused => return Err(FprOutOfRange), [];
          case CreateFails(fault) => return Err(Undefined(fault)), [];
          case Made(filter) => return Ok(BloomSetup(filter)), [];
        }
      case RawStructure =>
        var container;
        container, sortingPermutation := RawContainer.Create(encrypted.outputs);
        return Ok(RawSetup(container.encrypted)), sortingPermutation;
    }
  }

  method CreateRequest(client: Party, inputs: seq<Element>) returns (r: Result<Request>)
    ensures match TransformAll(inputs, client.encrypt)
            case FirstFailure(code) => r == Err(CipherFailed(code))
            case AllDone(encrypted) => r == Ok(Request(client.revealIntersection, encrypted))
  {
    var encrypted := Apply(client.build, inputs, client.encrypt);
    if encrypted.FirstFailure? {
      return Err(CipherFailed(encrypted.code));
    }
    return Ok(Request(client.revealIntersection, encrypted.outputs));
  }

  // The re-encrypted elements in the request's order, or sorted if the matches are to be hidden.
  ghost predicate IsResponseTo(server: Party, request: Request, response: Response)
    requires TransformAll(request.encryptedElements, server.reEncrypt).AllDone?
  {
    var reencrypted := TransformAll(request.encryptedElements, server.reEncrypt).outputs;
    if server.revealIntersection then response.encryptedElements == reencrypted
    else multiset(response.encryptedElements) == multiset(reencrypted) && Ascending(response.encryptedElements)
  }

  method ProcessRequest(server: Party, request: Request) returns (r: Result<Response>)
    ensures if request.revealIntersection != server.revealIntersection then r == Err(RevealMismatch)
            else
              match TransformAll(request.encryptedElements, server.reEncrypt)
              case FirstFailure(code) => r == Err(CipherFailed(code))
              case AllDone(_) => r.Ok? && IsResponseTo(server, request, r.value)
  {
    if request.revealIntersection != server.revealIntersection {
      return Err(RevealMismatch);
    }
    var reencrypted := Apply(server.build, request.encryptedElements, server.reEncrypt);
    if reencrypted.FirstFailure? {
      return Err(CipherFailed(reencrypted.code));
    }
    var elements := reencrypted.outputs;
    if !server.revealIntersection {
      PrecedesIsStrictTotalOrder();
      elements := Sort(elements, Precedes);
    }
    return Ok(Response(elements));
  }

  // ---- What the client computes ----

  // What looking the decrypted elements up in a setup, however it came about, gives. Of a raw
  // setup that is not ascending only what the merge can match takes part.
  ghost predicate IsLookUp(setup: ServerSetup, plains: seq<Element>, hashing: Hashing, r: Result<seq<int>>) {
    match setup
    case RawSetup(elements) => r.Ok? && IsRawIntersection(plains, Records(elements), r.value)
    case GcsSetup(gcs) => (
      match Gcs.FaultIn(gcs, plains, hashing.gcs)
      case Some(fault) => r == Err(Undefined(fault))
      case None => r.Ok? && Gcs.IsIntersection(gcs, plains, hashing.gcs, r.value)
      )
    case BloomSetup(filter) => (
      match Bloom.FaultIn(filter, plains, hashing.bloom)
      case Some(fault) => r == Err(Undefined(fault))
      case None => r.Ok? && Bloom.IsIntersection(filter, plains, hashing.bloom, r.value)
      )
  }

  // A container's answer as the client passes it on.
  function Answer(l: LookedUp): Result<seq<int>> {
    match l
    case Found(positions) => Ok(positions)
    case Fails(fault) => Err(Undefined(fault))
  }

  method ProcessResponse(client: Party, setup: ServerSetup, response: Response, hashing: Hashing)
    returns (r: Result<seq<int>>)
    ensures match TransformAll(response.encryptedElements, client.decrypt)
            case FirstFailure(code) => r == Err(CipherFailed(code))
            case AllDone(plains) => IsLookUp(setup, plains, hashing, r)
  {
    var decrypted := Apply(client.build, response.encryptedElements, client.decrypt);
    if decrypted.FirstFailure? {
      return Err(CipherFailed(decrypted.code));
    }
    match setup {
      case RawSetup(elements) =>
        var res := RawContainer.Intersect(Raw(elements), decrypted.outputs);
        return Ok(res);
      case GcsSetup(gcs) =>
        var res := Gcs.Intersect(gcs, decrypted.outputs, hashing.gcs);
        return Answer(res);
      case BloomSetup(filter) =>
        var container := new Bloom.BloomFilter(filter.numHashFunctions, filter.bits);
        var res := container.Intersect(decrypted.outputs, hashing.bloom);
        return Answer(res);
    }
  }

  method GetIntersection(client: Party, setup: ServerSetup, response: Response, hashing: Hashing)
    returns (r: Result<seq<int>>)
    ensures if !client.revealIntersection then r == Err(RevealRequired)
            else
              match TransformAll(response.encryptedElements, client.decrypt)
              case FirstFailure(code) => r == Err(CipherFailed(code))
              case AllDone(plains) => IsLookUp(setup, plains, hashing, r)
  {
    if !client.revealIntersection {
      return Err(RevealRequired);
    }
    r := ProcessResponse(client, setup, response, hashing);
  }

  // The size of a look-up: of a raw setup that of a multiset intersection, of another the number
  // of positions whose elements are found in it.
  ghost predicate IsSize(setup: ServerSetup, plains: seq<Element>, hashing: Hashing, r: Result<nat>) {
    match setup
    case RawSetup(elements) => r == Ok(|multiset(plains) * multiset(Records(elements))|)
    case GcsSetup(gcs) => (
      match Gcs.FaultIn(gcs, plains, hashing.gcs)
      case Some(fault) => r == Err(Undefined(fault))
      case None => r == Ok(|PlacesWhere(plains, Gcs.Test(gcs, hashing.gcs))|)
      )
    case BloomSetup(filter) => (
      match Bloom.FaultIn(filter, plains, hashing.bloom)
      case Some(fault) => r == Err(Undefined(fault))
      case None => r == Ok(|PlacesWhere(plains, Bloom.Test(filter, hashing.bloom))|)
      )
  }

  method GetIntersectionSize(client: Party, setup: ServerSetup, response: Response, hashing: Hashing)
    returns (r: Result<nat>)
    ensures match TransformAll(response.encryptedElements, client.decrypt)
            case FirstFailure(code) => r == Err(CipherFailed(code))
            case AllDone(plains) => IsSize(setup, plains, hashing, r)
  {
    var intersection := ProcessResponse(client, setup, response, hashing);
    if intersection.Err? {
      return Err(intersection.error);
    }
    LookUpSize(setup, TransformAll(response.encryptedElements, client.decrypt).outputs, hashing, intersection.value);
    return Ok(|intersection.value|);
  }

  lemma LookUpSize(setup: ServerSetup, plains: seq<Element>, hashing: Hashing, res: seq<int>)
    requires IsLookUp(setup, plains, hashing, Ok(res))
    ensures IsSize(setup, plains, hashing, Ok(|res|))
  {
    match setup {
      case RawSetup(elements) =>
        IntersectionSize(plains, Records(elements), res);
      case GcsSetup(gcs) =>
        PlacesSize(plains, Gcs.Test(gcs, hashing.gcs), res);
      case BloomSetup(filter) =>
        PlacesSize(plains, Bloom.Test(filter, hashing.bloom), res);
    }
  }

  method GetAssociationTable(client: Party, setup: ServerSetup, response: Response)
    returns (r: Result<(seq<nat>, seq<nat>)>)
    ensures if !client.revealIntersection then r == Err(RevealRequired)
            else
              match TransformAll(response.encryptedElements, client.decrypt)
              case FirstFailure(code) => r == Err(CipherFailed(code))
              case AllDone(plains) =>
                match setup
                case GcsSetup(_) | BloomSetup(_) => r == Err(NotRaw)
                case RawSetup(elements) =>
                  && r.Ok? && IsReachedTable(plains, elements, r.value.0, r.value.1)
                  && (Ascending(elements) ==> IsAssociationTable(plains, elements, r.value.0, r.value.1))
  {
    if !client.revealIntersection {
      return Err(RevealRequired);
    }
    var decrypted := Apply(client.build, response.encryptedElements, client.decrypt);
    if decrypted.FirstFailure? {
      return Err(CipherFailed(decrypted.code));
    }
    match setup {
      case GcsSetup(_) | BloomSetup(_) =>
        return Err(NotRaw);
      case RawSetup(elements) =>
        var plains := decrypted.outputs;
        var a := new Element[|plains|](i requires 0 <= i < |plains| => plains[i]);
        assert a[..] == plains;
        var rows, cols := RawContainer.GetAssociationTable(Raw(elements), a);
        return Ok((rows, cols));
    }
  }
}
