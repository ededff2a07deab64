# Private set intersection: a verified model

Two parties learn the intersection of their lists, or only its size, without showing each other
the rest. The server sends its list encrypted and put in a container (sorted, or compressed as a
Golomb-coded set of hashes, or marked in a Bloom filter); the client sends its list encrypted; the
server encrypts it again; the client takes its own encryption off and looks the result up in the
container. This project models the C++ core that does so and proves that it computes what it is
meant to compute.

The model keeps the source's form. The streaming matcher, its entry reader, its blocked store and
the progress counter are classes with the source's fields; the permutation, the join, the
intersection and the bit packing are methods with the source's loops; the threaded loop is a
transition system, run by a method that lets a scheduler pick every step. Each is proved against
functions and predicates that say what it is for, and the main results are lemmas about those.

| file | models |
|---|---|
| `Bytes`, `Sorting`, `Bits` | byte strings and their order, `std::sort`, shifts and masks on unbounded words |
| `EcCipher`, `Bulk` | the cipher as three functions that may fail, an object that logs what it is called on, and the operation on a whole list, in one loop or on threads |
| `GolombCode`, `GolombFormat`, `Golomb`, `Gcs` | the Golomb-Rice code, the coder, the decoder that merges as it decodes, the compressed set |
| `Bloom`, `Doubles`, `Places` | the Bloom filter, the rates in floating point, and counting what meets a test |
| `Permute`, `Join`, `Intersection`, `Raw` | the sorted container: in-place permutation, many-to-many join, multiset intersection |
| `Wire`, `EntryReader`, `SetupStore`, `Bitmap`, `Windows`, `PsiMatch`, `MatchDriver` | the streaming matcher, and its use by a caller |
| `MatchSpec`, `Sessions`, `Messages`, `Languages`, `Refusals`, `Outcomes`, `Agreement` | what a session is, whole runs of it, the bytes that are accepted and those that are refused, what a session comes to, and agreement with the library path |
| `Progress`, `Shards`, `ShardLoops`, `Parallel`, `ParallelRuns`, `Transform` | the progress slot, the split, the loops, the threaded part over any schedule, and the whole bulk operation |
| `Protocol`, `Rounds`, `Exchange`, `StreamedProtocol` | the four messages; what they come to end to end; the whole exchange carried out; and the same with the streaming matcher |

The cipher is abstract. Where a result needs its algebra, the law is a hypothesis of the lemma:
`Commute` (taking the client's layer off a doubly encrypted element leaves the server's
encryption) and `Injective`. `Rounds.ShiftsCommute` gives a cipher that meets both.

One point where the code says less than a reader may expect: which refusal a bad response gets may
depend on how its bytes were cut, because elements are decrypted batch by batch.
`Sessions.CutFreeExactly` says for exactly which responses it does not depend on the cut, and
`Sessions.StatusDependsOnCut` gives one for which it does. Acceptance and the result never depend
on the cut.

And three where the code takes what it does not check.

The client takes a compressed set from the server as it comes. Looking a list up in it can go
wrong without notice: its bytes may end inside a codeword, so that the decoder reads past their
end, its values may leave 64 bits, and its `div` may be no number that a 64-bit word can be
shifted by, so that no codeword can be decoded. `Golomb.Intersect` says for every string, `div`
and list whether something goes wrong and in which of these ways first, and what the result is if
nothing does. `Golomb.OneByteIsCut` and `Golomb.NineBytesOverflow`
are two strings with which it goes wrong. None does with a set that the coder made:
`Golomb.CompressThenIntersect`.

The client takes the sorted container as it comes, too. If it is not sorted, matches can be lost:
`RawContainer.UnsortedLoses`. `RawContainer.TableIsWholeIff` and
`RawContainer.IntersectionIsWholeIff` say exactly when none is.

And the server takes a rate and a client count that are both negative, and the rate 0 for no
clients, which is not a number and passes the range check: `Protocol.RateInRangeIff`.

## Model

| member | source | states |
|---|---|---|
| Bytes.CompareElementsIsByteOrder | private_set_intersection/cpp/psi_match.cpp:58-66 | the three-way comparison is negative, zero or positive exactly when the first string precedes, equals or follows the second; for strings of one length exactly when the number it spells in base 256 is the smaller, equal or greater; and negative for a proper prefix |
| Bytes.PrecedesIsNumeric | private_set_intersection/cpp/psi_match.cpp:56-66 | among strings of one length the order is that of the numbers they spell in base 256, the first byte highest |
| Bytes.PrecedesWhereTheyDiffer | private_set_intersection/cpp/psi_match.cpp:56-66 | a string precedes another exactly when it is a proper prefix of it or, where the two first differ, its byte is the smaller number |
| Bytes.PrecedesIsStrictTotalOrder | private_set_intersection/cpp/psi_match.cpp:56-66 | that order is irreflexive, asymmetric, transitive and total |
| Bytes.StrictlyAscendingIffDistinct | private_set_intersection/cpp/psi_match.cpp:230-234 | a sorted list passes the strict check exactly when no element repeats |
| Bytes.StrictlyAscendingSnoc | private_set_intersection/cpp/psi_match.cpp:230-234 | comparing a new element with the last one alone is enough to keep the whole list strictly ascending, and necessary |
| Wire.SetupElementAcceptedIff | private_set_intersection/cpp/psi_match.cpp:226-235 | a setup element is accepted exactly when fewer than 2^32 - 1 are held and, against the last of them, its byte is the greater where they first differ or the last is a proper prefix of it; and which refusal it gets otherwise |
| Sorting.Sort | private_set_intersection/cpp/datastructure/raw.cpp:77-80 | `std::sort` as the code relies on it: a sorted rearrangement, nothing about ties |
| EntryReaders.AddVarint32Byte | private_set_intersection/cpp/psi_match.cpp:70-79 | accumulating a varint with "or" and shifts adds the seven new bits above the old ones, and refuses exactly a fifth byte with more than four bits |
| Wire.VarintFits | private_set_intersection/cpp/psi_match.cpp:70-79 | an accepted varint is below 2^32 and never longer than five bytes |
| EntryReaders.EntryReader.Advance | private_set_intersection/cpp/psi_match.cpp:83-146 | one pass of the reading loop, whether it takes a framing byte, hands a whole element over in place or appends part of one, consumes a stretch of bytes as the byte-by-byte reader would; an entry has at most 1 + 256 / 8 bytes, and only a longer one is refused for its length |
| EntryReaders.ConsumedIsFed | private_set_intersection/cpp/psi_match.cpp:111-140 | such a stretch, fed byte by byte, leads to the same reader state, the same entry and the same callback outcome |
| Wire.FeedInTwo | private_set_intersection/cpp/psi_match.h:117-126 | the reader resumes: two windows one after the other are one window |
| Wire.SetupBodyBytes | private_set_intersection/cpp/psi_match.cpp:197-218 | a window inside the raw field is exactly that stretch fed to the entry reader, with the boundary check when the field ends |
| SetupStores.SetupStore.SetupElement | private_set_intersection/cpp/psi_match.cpp:248-252 | the fixed-slot, blocked store read at an index gives the element accepted at that position |
| SetupStores.SetupStore.AddSetupElement | private_set_intersection/cpp/psi_match.cpp:226-246 | accepts exactly an element that follows the last one in unsigned byte order while fewer than 2^32 - 1 are held, and then the store holds the old elements and the new one; a refusal changes nothing |
| SetupStores.SetupStore.Write | private_set_intersection/cpp/psi_match.cpp:240-244 | writing one slot leaves every other element as it was |
| SetupStores.SetupStore.FindInSetup | private_set_intersection/cpp/psi_match.cpp:268-282 | the binary search ends with the element's position, or with -1 exactly when it is absent |
| Bitmap.MarkAdds | private_set_intersection/cpp/psi_match.cpp:330 | setting a bit adds one position to the marked set, and the population count stays that set's size |
| MatchSpec.OneMoreMatched | private_set_intersection/cpp/psi_match.cpp:327-335 | how one more decrypted element changes the matched set and the two index columns |
| PsiMatches.RecordMatch | private_set_intersection/cpp/psi_match.cpp:327-335 | recording a found element keeps bitmap and columns equal to what the elements decrypted so far give |
| PsiMatches.PsiMatch.constructor | private_set_intersection/cpp/psi_match.cpp:148-150 | a new matcher is a session that has read nothing |
| PsiMatches.PsiMatch.Fail | private_set_intersection/cpp/psi_match.cpp:163-166 | the session is failed with that status |
| PsiMatches.PsiMatch.AddSetupBytes | private_set_intersection/cpp/psi_match.cpp:168-224 | on any session and any window, the new session and the status are those of the byte-by-byte setup automaton, or the sticky or out-of-order refusal |
| PsiMatches.PsiMatch.SealSetup | private_set_intersection/cpp/psi_match.cpp:254-266 | matching starts exactly from a whole setup, with nothing matched |
| PsiMatches.PsiMatch.MatchResponsePiece | private_set_intersection/cpp/psi_match.cpp:284-309 | in either build, on any session and any window, the new session and the status are those of reading the window, decrypting in batches, and matching, with no element left waiting, unless a shard of a threaded batch was aborted, which ends the session; the cipher is called on each new entry at most once and on nothing else, in one loop in order; and the slot is raised by the number of calls, but for one that failed in one loop |
| PsiMatches.PsiMatch.TakeResponseElement | private_set_intersection/cpp/psi_match.cpp:296-305 | an element is refused, queued, or completes a batch that is decrypted and recorded |
| PsiMatches.PsiMatch.MatchBatch | private_set_intersection/cpp/psi_match.cpp:311-339 | in either build the waiting elements are decrypted and recorded, or the first failure is returned, unless a shard was aborted; the cipher is called at most once on each, on success on all, in one loop in order up to the one that fails; and the slot counts those that did not fail |
| PsiMatches.PsiMatch.DecryptBatch | private_set_intersection/cpp/psi_match.cpp:313-326 | in either build the decrypted elements or the first failure, unless a shard was aborted; the cipher's log and the slot grow as the batch was gone through |
| PsiMatches.PsiMatch.Finish | private_set_intersection/cpp/psi_match.cpp:341-367 | the result is the number of entries, the number of matched setup elements and the matching pairs, or the refusal of an unfinished, early or repeated call; the cipher has then been called once for every entry counted |
| PsiMatches.PsiMatch.Conclude | private_set_intersection/cpp/psi_match.cpp:354-366 | summing the bitmap's bit counts gives the number of setup elements equal to some decrypted element, and the setup is freed |
| MatchSpec.SetupBytesKeepGood | private_set_intersection/cpp/psi_match.cpp:226-246 | whatever bytes come, the elements held are strictly ascending, of 33 bytes at most, and no more than a 32-bit index can count |
| MatchSpec.PieceKeepsOk | private_set_intersection/cpp/psi_match.cpp:284-309 | whatever bytes come, every response entry read has been decrypted and both lists stay within their bounds |
| Windows.PieceFailsBatch | private_set_intersection/cpp/psi_match.cpp:302-306 | a full batch that does not decrypt decides the window's status, whatever follows in it |
| Windows.WindowEnds | private_set_intersection/cpp/psi_match.cpp:294-309 | batch by batch, with what is left matched last, a window comes to what reading it whole and decrypting after comes to |
| Sessions.RefusalsStick | private_set_intersection/cpp/psi_match.h:73-74 | after a refusal every later call, of any kind, leaves the session and its status as they are |
| Sessions.SetupCutsDoNotMatter | private_set_intersection/cpp/psi_match.h:54-55 | any two cuts of the same setup bytes, empty windows included, give the same session, refusal status included |
| Sessions.ResponseCutsDoNotMatter | private_set_intersection/cpp/psi_match.h:54-55 | any two cuts of the same response bytes both succeed with the same session or both fail |
| Sessions.CutFreeExactly | private_set_intersection/cpp/psi_match.cpp:294-307 | the refusal status of a response is independent of the cut if and only if there is no refused byte, or every element before it decrypts, or one that does not is followed by at least 65535 others |
| Sessions.StatusDependsOnCut | private_set_intersection/cpp/psi_match.cpp:294-307 | a three-byte response whose refusal status does depend on the cut |
| Sessions.InOrderGivesOutcome | private_set_intersection/cpp/psi_match.h:54-61 | a session called in order succeeds exactly when the two messages as wholes have an outcome, and its result is that outcome, for every cut |
| Sessions.FinishedExactlyInOrder | private_set_intersection/cpp/psi_match.h:56-74 | of all sequences of calls, only the documented order ends with a result, and the result depends on the two messages alone |
| MatchDriver.Drive | private_set_intersection/cpp/psi_match.h:51-74 | in either build, an object driven through any list of calls stands where the run of the session stands, unless a shard was aborted, so the session results are about the class |
| MatchDriver.MatchInWindows | private_set_intersection/cpp/psi_match.h:51-72 | in either build, an object used as documented, the messages in any windows, returns exactly the outcome of the two messages, after calling the cipher once for each entry; only a shard that was aborted can make it end otherwise |
| StreamedProtocol.IndicesFit | private_set_intersection/cpp/psi_match.h:33-49 | after any calls whatever, a result's counts and positions fit the 32-bit fields they are narrowed to |
| Messages.VarintIffRead | private_set_intersection/cpp/psi_match.cpp:70-79 | the bytes read as a complete varint are exactly the one-to-five-byte varints of that value, which is the sum of their low seven bits times 1, 2^7, 2^14, 2^21 and 2^28, the fifth byte below 16 |
| Messages.VarintIsShortest | private_set_intersection/proto/psi.proto:22-60 | the library writes a length as the shortest of its varints |
| Messages.FeedEntries | private_set_intersection/cpp/psi_match.cpp:83-146 | every run of length-delimited entries is read as its elements, each offered once and in order |
| Messages.EntriesRead | private_set_intersection/cpp/psi_match.cpp:83-146 | conversely, whatever is read to an entry boundary is such a run, and those elements are taken |
| Languages.ResponseLanguage | private_set_intersection/cpp/psi_match.h:67-72 | a response is read to its end with these elements if and only if it is a run of field-1 entries holding exactly them, each of 1 + 256 / 8 bytes at most and fewer than 2^32 |
| Languages.SetupLanguage | private_set_intersection/cpp/psi_match.h:67-72 | a setup is accepted with these elements if and only if it is one raw field holding such a run of exactly them, strictly ascending, each of 1 + 256 / 8 bytes at most |
| Languages.SetupRoundTrip | private_set_intersection/proto/psi.proto:22-41 | serializing a strictly ascending list and reading it stores exactly that list |
| Languages.ResponseRoundTrip | private_set_intersection/proto/psi.proto:55-60 | the same for a response, in any order and with repeats |
| Languages.SortedSetupAcceptedIffDistinct | private_set_intersection/cpp/datastructure/raw.cpp:215-221 | a serialized sorted container is accepted by the streaming matcher if and only if no element repeats |
| Languages.OverlongLengthIsAccepted | private_set_intersection/cpp/psi_match.cpp:70-79 | a longer varint than needed is accepted, so serializing again need not restore the bytes |
| Refusals.ResponseRefusedIff | private_set_intersection/cpp/psi_match.cpp:83-146 | a response is refused with this status, after these elements, if and only if it is a run of entries holding them, then one that breaks off with it, then whatever: another tag than 0x0A, a length of more than 32 bits, a length above 33, or one element more than 2^32 - 1 |
| Refusals.SetupRefusedIff | private_set_intersection/cpp/psi_match.cpp:168-224 | a setup, however cut, is refused with this status if and only if its first byte is another tag, its length has more than 32 bits, an entry of the raw field breaks off with it, the field ends inside an entry, or bytes come behind it |
| Refusals.RefusedIff | private_set_intersection/cpp/psi_match.cpp:83-146 | the same for any callback that takes the entries or refuses them |
| Refusals.ReadSoFar | private_set_intersection/cpp/psi_match.h:104-126 | bytes that are not refused are whole entries and part of one more, and the reader's fields hold exactly that part |
| Outcomes.FinishesIff | private_set_intersection/cpp/psi_match.h:28-72 | a session called in order finishes if and only if its messages, however cut, are a setup and a response of the accepted form and every element decrypts; it learns how many elements were decrypted, how many setup elements are among them and, if revealed, each pair of equal ones once in response order |
| Outcomes.RefusedCall | private_set_intersection/cpp/psi_match.h:67-74 | a call is refused with FAILED_PRECONDITION if and only if it is out of turn, and always if it is; with an error of the cipher only when it decrypts; with INVALID_ARGUMENT otherwise |
| Outcomes.SealIncompleteIff | private_set_intersection/cpp/psi_match.cpp:254-266 | sealing is refused as incomplete if and only if the bytes so far were not refused and are no setup |
| Outcomes.FinishIncompleteIff | private_set_intersection/cpp/psi_match.cpp:341-353 | finishing is refused as incomplete if and only if the response read is no run of entries |
| Outcomes.WindowStatusIs | private_set_intersection/cpp/psi_match.cpp:294-307 | a window that is refused decrypts its elements 65536 at a time before that; its status is the cipher's if one of those whole batches does not decrypt, and else that of its bytes |
| Agreement.PairsAreTheLibrarys | private_set_intersection/cpp/psi_match.h:44-47 | over a strictly ascending setup, the recorded pairs are an association table, in strictly ascending response order |
| Agreement.TablesAgree | private_set_intersection/cpp/psi_match.h:44-47 | any two association tables of the same lists, so also the library's, hold the same pairs and are equally long |
| Agreement.SizeOfMatched | private_set_intersection/cpp/psi_match.cpp:354-359 | the number of matched setup elements is the size of the multiset intersection, however often response elements repeat |
| Agreement.SizeIsTheLibrarys | private_set_intersection/cpp/psi_match.h:39-42 | the reported size is the length of what `Raw::Intersect` returns for the same elements |
| Agreement.SizeIgnoresOrder | private_set_intersection/cpp/psi_match.cpp:354-359 | permuting the response changes neither the matched set nor its size |
| GolombCode.RoundTrip | private_set_intersection/cpp/datastructure/golomb.cpp:47-97 | a byte string holding the code of an ascending list, duplicates allowed, decodes to exactly that list, for every div, and decoding stops on the zero padding |
| GolombCode.CodeIsUnique | private_set_intersection/cpp/datastructure/golomb.cpp:53-92 | one list has exactly one code |
| GolombCode.SizeBound | private_set_intersection/cpp/datastructure/golomb.cpp:53-92 | n values up to m take at most m / 2^div + n (div + 1) bits, rounded up to a byte |
| GolombFormat.CodeInNumbers | private_set_intersection/cpp/datastructure/golomb.cpp:53-92 | every bit of a coded string in numbers: for each value as many zeros as 2^div goes into its distance from the one before, a one, and the distance's div lowest bits, lowest first, in bytes filled from their lowest bit |
| GolombFormat.CodeEnds | private_set_intersection/cpp/datastructure/golomb.cpp:62-64 | behind the last value the string has zeros, up to a whole byte and no further |
| GolombFormat.DecodedIsCoded | private_set_intersection/cpp/datastructure/golomb.cpp:109-161 | conversely, any bits are the code of the values decoded from them, and then zeros or a codeword that the end cuts short |
| GolombFormat.WholeIsCode | private_set_intersection/cpp/datastructure/golomb.cpp:109-161 | a string that decodes to its end and has no zero byte there is the code of its values |
| GolombFormat.SevenIsFourteen | private_set_intersection/cpp/datastructure/golomb_test.cpp:27-34 | the list 7 with div 2 is coded as the byte 0b00001110 and no other string |
| Bits.BitsAreNumeric | private_set_intersection/cpp/datastructure/golomb.cpp:58-61 | the shifts, masks and bits are multiplication, division and remainder by powers of two |
| Golomb.WriteRemainder | private_set_intersection/cpp/datastructure/golomb.cpp:72-84 | copying the remainder across byte boundaries sets exactly its bits and touches no other |
| Golomb.AppendCodeword | private_set_intersection/cpp/datastructure/golomb.cpp:58-86 | growing the string and or-ing in one codeword extends the bits held by exactly that codeword |
| Golomb.Compress | private_set_intersection/cpp/datastructure/golomb.cpp:27-98 | the string produced is the code of the list without its duplicates; there is none exactly when the list is not empty and 2^div, of which the mask is one less, is no 64-bit number |
| Golomb.DuplicatesDoNotShow | private_set_intersection/cpp/datastructure/golomb.cpp:56-57 | for a fixed div, a list and its deduplicated list give the same bytes |
| Golomb.SkipZeros | private_set_intersection/cpp/datastructure/golomb.cpp:119-124 | skipping zero bytes counts exactly the zero bits up to the byte that holds the next 1, or up to the end |
| Golomb.FirstOne | private_set_intersection/cpp/datastructure/golomb.cpp:130-135 | the trailing-zero count of the shifted byte finds the next 1 bit |
| Golomb.ReadRemainder | private_set_intersection/cpp/datastructure/golomb.cpp:142-152 | masking and shifting byte by byte reads the div bits that follow, wherever they start, and gets past the last byte exactly when fewer are left |
| Golomb.NextPosition | private_set_intersection/cpp/datastructure/golomb.cpp:154-157 | the step back for a possibly skipped byte lands exactly behind the codeword, for every div and position |
| Golomb.DecodeNext | private_set_intersection/cpp/datastructure/golomb.cpp:115-161 | one round of the decoder reads the next codeword's value and position, finds only padding left, gets past the end, exactly when a codeword is cut short there, or shifts a quotient out of 64 bits |
| Golomb.RoomBelow | private_set_intersection/cpp/datastructure/golomb.cpp:160-161 | a shifted quotient of 64 bits leaves room for the remainder, so a distance that cannot be held shows in the shift |
| Golomb.MergeValue | private_set_intersection/cpp/datastructure/golomb.cpp:166-174 | the two skipping loops select the pairs equal to the new value and lose none |
| Golomb.Intersect | private_set_intersection/cpp/datastructure/golomb.cpp:100-182 | on any string, any div and any sorted pairs, 64-bit arithmetic included: no codeword can be decoded if and only if div is not from 0 to 63 and some byte is not 0; else there is an overflow if and only if the decoder gets to a value of 2^63 or more; else a read past the end if and only if it gets to a codeword cut short; else the indices of exactly the pairs whose value is coded, in pair order. It gets to what comes first and to what comes after a value that the last pair is greater than |
| Golomb.OneByteIsCut | private_set_intersection/cpp/datastructure/golomb.cpp:142-152 | the byte 1 with div 8 is such a string, for whatever pairs |
| Golomb.NineBytesOverflow | private_set_intersection/cpp/datastructure/golomb.cpp:160-179 | a string of nine bytes, cut short behind a value greater than the pair's, with which the sum leaves 64 bits |
| Golomb.CompressThenIntersect | private_set_intersection/cpp/datastructure/golomb.cpp:27-182 | after compressing a list of 64-bit numbers, nothing in the merge goes wrong, and it selects exactly the pairs whose value is in the list |
| Gcs.Create | private_set_intersection/cpp/datastructure/gcs.cpp:37-59 | a rate outside (0, 1) is refused; a rate that is not a number, or too small for the hash range to be a 64-bit number, passes that check and has no range; a div whose mask has no 64-bit value gives no set; otherwise, for any rounding of the divisions, the set decodes to exactly the hashes of the elements, each once, in that range |
| Gcs.HashRangeIs | private_set_intersection/cpp/datastructure/gcs.cpp:43-45 | the hash range is the whole part of the greater number of inputs over the rate, after the roundings; with exact arithmetic so many rates go into that number and not one more; there is none from 2^63 on |
| Protocol.SetupRangeIs | private_set_intersection/cpp/psi_server.cpp:107-134 | the hash range of a compressed setup in terms of the rate asked for and the number of client inputs, by which it is divided first |
| Gcs.Intersect | private_set_intersection/cpp/datastructure/gcs.cpp:74-90 | on any set, made or parsed: which fault the look-up comes to first, if and only if it does, empty hash ranges and 64-bit sums included; otherwise the positions of exactly the elements whose hash is coded, each once |
| Gcs.ExactOnHashes | private_set_intersection/cpp/datastructure/gcs.cpp:37-90 | for every hash function, a client position is returned if and only if its hash is a server element's hash; there are no false negatives, and nothing goes wrong but hashing into the range 0, when there are no inputs to be expected |
| Places.PlacesIgnoreOrder | private_set_intersection/cpp/datastructure/gcs.cpp:74-90 | how many elements of a list meet a test, such as being found in a container, does not depend on their order |
| Bloom.BloomFilter.Hash | private_set_intersection/cpp/datastructure/bloom_filter.cpp:124-147 | the bit of each hash function: the first digest modulo the number of bits, and from each bit the next at the distance of the second digest, around the end; unless there is nothing to hash into, less than no functions, or a 64-bit overflow on the way, exactly then |
| Bloom.IndicesStep | private_set_intersection/cpp/datastructure/bloom_filter.cpp:133-146 | so the bits follow one another at the second digest's distance |
| Bloom.BloomFilter.Add | private_set_intersection/cpp/datastructure/bloom_filter.cpp:83-89 | the bits of the elements are set and no others, up to the first that cannot be hashed |
| Bloom.BloomFilter.Check | private_set_intersection/cpp/datastructure/bloom_filter.cpp:91-97 | true exactly when all the bits of the element are set |
| Bloom.BloomFilter.Intersect | private_set_intersection/cpp/datastructure/bloom_filter.cpp:99-110 | the positions, in order, of exactly the elements all of whose bits are set, unless one cannot be hashed |
| Bloom.Create | private_set_intersection/cpp/datastructure/bloom_filter.cpp:35-64 | a rate outside (0, 1) is refused, one that is not a number has no sizes; otherwise exactly the bits of the elements are set, unless one cannot be hashed |
| Bloom.ExactOnBits | private_set_intersection/cpp/datastructure/bloom_filter.cpp:83-110 | a client position is returned if and only if every bit its hashes ask for is one that some server element marks; there are no false negatives |
| Permute.SortPermutation | private_set_intersection/cpp/datastructure/raw.cpp:73-80 | sorting the indices by what they index gives a permutation that sorts the elements |
| Permute.MoveCycle | private_set_intersection/cpp/datastructure/raw.cpp:82-95 | following one cycle moves all its elements into place, marks them, touches no other cycle, and ends |
| Permute.ApplyInPlace | private_set_intersection/cpp/datastructure/raw.cpp:82-95 | after the loop, position i holds the old element p[i], for every permutation |
| Permute.PermutedKeepsMultiset | private_set_intersection/cpp/datastructure/raw.cpp:82-95 | the rearranged list holds every element as often as before |
| Join.EmitRow | private_set_intersection/cpp/datastructure/raw.cpp:161-165 | the inner loop emits one row for every equal container element, and none twice |
| Join.JoinSorted | private_set_intersection/cpp/datastructure/raw.cpp:145-185 | in any container, every match that the merge can reach exactly once and no other; the loop ends although the second index goes back |
| Join.AscendingIsReached | private_set_intersection/cpp/datastructure/raw.cpp:145-185 | in an ascending container it can reach every one |
| Join.ReachedIsAscending | private_set_intersection/cpp/datastructure/raw.cpp:145-185 | the merge can reach every element only in an ascending container |
| RawContainer.Create | private_set_intersection/cpp/datastructure/raw.cpp:59-98 | the container is the elements in ascending order, and the returned permutation says where each came from |
| RawContainer.GetAssociationTable | private_set_intersection/cpp/datastructure/raw.cpp:117-188 | by original client position, every pair of equal elements whose container element is reached, exactly once, and for an ascending container every pair of equal elements; the caller's vector is left sorted |
| RawContainer.TableIsWholeIff | private_set_intersection/cpp/datastructure/raw.cpp:100-188 | for a container parsed from anything, the table holds every pair of equal elements if and only if every container element the client also has is reached: all before it are smaller, or equal to it with nothing else in between |
| Intersection.CustomSetIntersection | private_set_intersection/cpp/datastructure/raw.cpp:39-53 | for any second list, of a value held m times and k times among its records, the first min(m, k) of the keyed positions |
| Intersection.RecordsAre | private_set_intersection/cpp/datastructure/raw.cpp:39-53 | the elements of the second list that take part are those before which no greater one stands |
| Intersection.RecordsAreAll | private_set_intersection/cpp/datastructure/raw.cpp:39-53 | the elements that take part are all of the second list if and only if it is ascending |
| RawContainer.Intersect | private_set_intersection/cpp/datastructure/raw.cpp:190-211 | the client positions with fewer equals before them than the container holds, for an ascending container: the smallest ones of each value, none twice; for any other, the same of the elements that take part |
| RawContainer.IntersectionIsWholeIff | private_set_intersection/cpp/datastructure/raw.cpp:100-115 | for a container parsed from anything, the result is the whole intersection if and only if enough of every value the client has take part |
| RawContainer.UnsortedLoses | private_set_intersection/cpp/datastructure/raw.cpp:100-211 | the container 2, 1 and a client with 1: table and intersection come out empty, and neither is the whole |
| RawContainer.RankSurvivesSorting | private_set_intersection/cpp/datastructure/raw.cpp:190-211 | sorting by value and position keeps equal values in their original order |
| Intersection.KeptPerValue | private_set_intersection/cpp/datastructure/raw.cpp:190-211 | of each value exactly min(count in the client's list, count in the container) positions are kept |
| Intersection.KeptIffFewer | private_set_intersection/cpp/datastructure/raw.cpp:190-211 | a position is kept exactly when its value stands before it less often than the container holds it |
| RawContainer.IntersectionSize | private_set_intersection/cpp/datastructure/raw.cpp:190-211 | the length of the result is the size of the multiset intersection |
| Bulk.Apply | private_set_intersection/cpp/parallel_ec.cpp:184-222 | the outputs of every element in order, or the first failure, in either build |
| EcCipher.Cipher.ApplyAll | private_set_intersection/cpp/psi_match.cpp:320-326 | each element is handed to the cipher once, in order, up to the first failure, and the slot is raised by the number that did not fail |
| Bulk.ApplyBulk | private_set_intersection/cpp/parallel_ec.cpp:75-182 | in one loop or on threads: all outputs or the first failure, unless a shard was aborted; each input is handed to a cipher at most once, on success each once, and then the slot is raised by their number |
| EcCipher.TransformAllIs | private_set_intersection/cpp/parallel_ec.cpp:84-93 | all outputs index by index, or the failure at the smallest failing index |
| Progress.ProgressCounter.Increment | private_set_intersection/cpp/progress.h:69-72 | counts one more; the 256th buffered is published with the others, and without a slot nothing is counted |
| Progress.PublishesEvery256 | private_set_intersection/cpp/progress.h:68-84 | of k elements counted all but the last k mod 256 are published |
| Progress.ProgressCounter.Flush | private_set_intersection/cpp/progress.h:66-80 | publishes exactly what is buffered |
| Progress.NothingIsLost | private_set_intersection/cpp/progress.h:66-80 | over both calls, published plus buffered stays what was counted, modulo the slot's 32 bits |
| Progress.WrappedIs | private_set_intersection/cpp/progress.h:74-80 | the slot's addition moves a sum by a multiple of 2^32 into the range of 32 bits with a sign |
| Progress.ResetProgress | private_set_intersection/cpp/progress.h:90-95 | the slot, if there is one, is 0 |
| Shards.ChooseThreadCount | private_set_intersection/cpp/parallel_ec.cpp:57-66 | the largest count within the hardware's that leaves every thread 512 inputs, or 1 |
| Shards.SplitRanges | private_set_intersection/cpp/parallel_ec.cpp:110-118 | contiguous ranges from 0 to n, each of n / threads inputs or one more |
| Shards.EvenLengths | private_set_intersection/cpp/parallel_ec.cpp:110-118 | their lengths differ by at most 1, and each is at least 512 if there is that much |
| Shards.ExactlyOneRange | private_set_intersection/cpp/parallel_ec.cpp:110-118 | every index lies in exactly one range, so no two shards write the same output |
| ShardLoops.TransformRange | private_set_intersection/cpp/parallel_ec.cpp:142-150 | the loop of one shard: outputs by absolute index up to the first failure or exception, the cipher called on just those inputs, nothing outside written, and the slot raised by as many |
| ShardLoops.TransformSequentially | private_set_intersection/cpp/parallel_ec.cpp:79-93 | the single-threaded path gives all outputs or the first failure; the cipher is called on the inputs up to there, and the slot raised by the number that did not fail |
| ShardLoops.SelectStatus | private_set_intersection/cpp/parallel_ec.cpp:177-180 | the status of the lowest-numbered shard that failed, or success if none did: the choice the runs are judged by |
| Parallel.StepKeeps | private_set_intersection/cpp/parallel_ec.cpp:120-180 | every step of every schedule keeps: which thread runs which shard, what each shard has written, what the slot says |
| ParallelRuns.ParallelRefinesSequential | private_set_intersection/cpp/parallel_ec.cpp:75-180 | for every schedule, number of shards and point of thread-creation failure, a call that returns gives the sequential loop's outputs or its error at the smallest failing index; only an aborted shard can make it give another error |
| ParallelRuns.EachExactlyOnce | private_set_intersection/cpp/parallel_ec.cpp:157-175 | every shard is started exactly once, no input is transformed twice, and on success each is transformed once |
| ParallelRuns.ThreadsDoNotWait | private_set_intersection/cpp/parallel_ec.cpp:157-175 | creating a thread may fail wherever it is tried, and a running shard can go on or be aborted whatever the others do |
| ParallelRuns.ShardsDoNotMeet | private_set_intersection/cpp/parallel_ec.cpp:142-150 | two shards that work come to the same outputs in either order |
| ParallelRuns.RunsAreBounded | private_set_intersection/cpp/parallel_ec.cpp:157-175 | no schedule goes on for ever |
| ParallelRuns.NoDeadlock | private_set_intersection/cpp/parallel_ec.cpp:157-175 | short of the return there is always a next step that is not a failure |
| ParallelRuns.SomeRunReturns | private_set_intersection/cpp/parallel_ec.cpp:157-180 | from any reachable state a run without aborts returns |
| ParallelRuns.SlotPlusPendingIsDone | private_set_intersection/cpp/progress.h:51-83 | in every reachable state, slot plus buffered counts is the number of inputs transformed; on success the slot ends at n |
| ParallelRuns.SlotNeverFalls | private_set_intersection/cpp/progress.h:51-54 | over every run the slot never falls |
| Transform.DealtFairly | private_set_intersection/cpp/parallel_ec.cpp:57-118 | with the thread count chosen and the inputs split, every thread gets at least 512 inputs and none over one more than another |
| Transform.ThreadedIsSequential | private_set_intersection/cpp/parallel_ec.cpp:75-180 | for every split so made and every run of it, the same of the threaded path |
| Transform.TransformElements | private_set_intersection/cpp/parallel_ec.cpp:75-182 | the whole operation, on any hardware, over any scheduler and wherever thread creation fails: the outputs or the error of the sequential loop unless a shard was aborted; no input is handed to a cipher twice, and on success each is and the slot is raised by their number, from whatever it was |
| Protocol.CreateSetupMessage | private_set_intersection/cpp/psi_server.cpp:103-159 | the rate is divided by the client count, whatever numbers they are; the setup holds the encrypted inputs, sorted with the permutation returned, as the code of their hashes in the range for that rate, or as the bits of a filter; or the error |
| Protocol.RateInRangeIff | private_set_intersection/cpp/psi_server.cpp:108 | the divided rate is in range exactly when rate and count have one sign, the rate is the smaller in size, and rounding does not make it 0 or 1; for no clients exactly when the rate is 0, so that it is not a number |
| Protocol.CreateRequest | private_set_intersection/cpp/psi_client.cpp:101-134 | the inputs encrypted in their order, with the client's mode |
| Protocol.ProcessRequest | private_set_intersection/cpp/psi_server.cpp:168-221 | modes that differ are refused; the elements come back encrypted again, in order if matches are revealed, else sorted |
| Protocol.ProcessResponse | private_set_intersection/cpp/psi_client.cpp:206-263 | for any setup and response: what the container's look-up is of the decrypted elements, its faults included, or the first cipher error |
| Protocol.GetIntersection | private_set_intersection/cpp/psi_client.cpp:144-156 | refused when matches are hidden, else that look-up |
| Protocol.GetIntersectionSize | private_set_intersection/cpp/psi_client.cpp:190-196 | its length: for a sorted container the size of the multiset intersection, for another the number of positions found |
| Protocol.GetAssociationTable | private_set_intersection/cpp/psi_client.cpp:167-180 | refused when matches are hidden or the container is not the sorted one, else the table of the decrypted elements, whole if the container is ascending |
| Rounds.AssociationIsExact | private_set_intersection/cpp/datastructure/raw.cpp:117-188 | end to end, the table's second column taken through the sorting permutation is exactly the pairs of equal inputs, each once |
| Rounds.IntersectionIsExact | private_set_intersection/cpp/psi_client.cpp:206-247 | end to end, the client computes from ciphertexts the positions it would compute from the inputs in the clear |
| Rounds.SizeIsExact | private_set_intersection/cpp/psi_server.cpp:213-220 | end to end, with the response sorted or not, the size is that of the multiset intersection of the inputs |
| Rounds.GcsNeverMisses | private_set_intersection/cpp/datastructure/gcs.cpp:74-90 | end to end, the compressed set misses no common input |
| Rounds.GcsIsExact | private_set_intersection/cpp/datastructure/gcs.cpp:74-90 | end to end, a position is returned, once, if and only if the hash of its input under the server's key is that of a server input, and nothing in the look-up goes wrong, unless the hash range is 0 |
| Rounds.GcsSizeIsExact | private_set_intersection/cpp/psi_client.cpp:190-196 | end to end over the compressed set, with the response sorted or not, the size is the number of client inputs whose hash is that of a server input |
| Rounds.BloomIsExact | private_set_intersection/cpp/datastructure/bloom_filter.cpp:91-110 | end to end, a position is returned, once and in order, if and only if every bit that its input asks for under the server's key is one that a server input marks |
| Rounds.BloomSizeIsExact | private_set_intersection/cpp/psi_client.cpp:190-196 | end to end over a filter, with the response sorted or not, the size is the number of such inputs |
| Rounds.TransformRearranged | private_set_intersection/cpp/psi_server.cpp:213-220 | a rearranged response decrypts to a rearrangement of the same elements |
| Exchange.LearnSize | private_set_intersection/cpp/psi_client.cpp:190-196 | setup, request, response and look-up carried out in turn, for each container and both modes: the client learns the exact size of the multiset intersection of the inputs, or what the compressed set or the filter makes of it, or the container's error; and an error if any cipher operation fails |
| Exchange.LearnIntersection | private_set_intersection/cpp/psi_client.cpp:144-156 | the same for the positions, refused when matches are hidden |
| Exchange.LearnTable | private_set_intersection/cpp/psi_client.cpp:167-180 | the same for the table: with the sorting permutation undone, each pair of equal inputs in exactly one row, refused otherwise |
| StreamedProtocol.SetupAcceptedIffInputsDistinct | private_set_intersection/cpp/psi_match.cpp:226-234 | the streaming matcher takes the server's serialized setup, however cut, if and only if the server's inputs are pairwise distinct |
| StreamedProtocol.StreamedProtocolIsExact | private_set_intersection/cpp/psi_match.h:51-72 | end to end through the streaming matcher, for every cut of both messages: it succeeds with every element decrypted, and reports the exact size and, when revealed, exactly the pairs of equal inputs |

## Left out

- The elliptic-curve cipher, SHA-256 and big numbers: foreign libraries. The cipher is three functions that may fail; its laws are hypotheses of the lemmas that need them.
- Keys: creating, copying and wiping them, `GetPrivateKeyBytes`, `CreateMatch` and `PsiMatch::Create`.
- The choice of `div` from the average distance, and of the filter's two sizes from the rate: logarithms in floating point. They are parameters, and nothing proved depends on them. False-positive rates are not stated.
- Doubles.Quotient: which real numbers are representable is left open, so the results hold for any rounding that keeps order, sign, 0 and 1; a quotient too great to be represented counts as one too great for 64 bits.
- What the source does once it has read past the end of a string, left 64 bits, shifted too far, made a 64-bit number of one that is none, or hashed into an empty range: each is one `Fault`, and the model goes no further. Hashing into a negative range is taken to fail as into an empty one.
- Golomb.Intersect: the length of the string in bits is taken to fit 64 bits.
- Protocol.CreateSetupMessage: an error of the sort or the container's allocation; the sorting permutation is always returned, while the source skips it when the caller passes no vector. In a build with threads no shard is aborted; `Bulk.ApplyBulk` and the matcher are without that restriction.
- PsiMatches.PsiMatch.MatchResponsePiece: on threads, what the slot comes to when a batch fails is not stated, as it depends on the schedule, nor what the cipher has been called on when a shard was aborted.
- Transform.TransformElements: the run works on its own outputs and slot, which the caller gets at the end, not while it goes on; a slot in the middle of a run is what `ParallelRuns` speaks of. The log lists the calls by position, not by time, and those of all the copies of the cipher. The copies of the key are not modelled.
- Parsing and serializing protobuf messages by the generated code, its `IsInitialized` checks and its unset-container case; `Messages` and `Languages` model the one-field shape the streaming matcher reads, and what the library writes in it.
- EntryReaders.EntryReader.Advance: the reading loop takes a callback in the source; here one pass of it returns the completed entry, and the caller's loop hands it to what the callback does. The element in the window is copied.
- The long functions of the source (`AddSetupBytes`, `MatchResponsePiece`, `golomb_compress`, `golomb_intersect`, `GetAssociationTable`) are split into one method per inner loop or pass, called in the source's order.
- The words of the error messages; the model keeps which refusal it is and what it is about.
- Parallel.StepKeeps: calling the operation, storing its output and counting it are one step, as are ending a shard and publishing what it buffered; memory ordering between threads is not modelled. A cipher that cannot be cloned and a caught exception are both the event `Abort`, which may come at any point of a shard.
- The C, Go, Rust, Python, Node and WebAssembly bindings, builds, benchmarks and packaging: plumbing.
