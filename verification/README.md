# Verified model of the ANT protocol

A Dafny model of the protocol crate shared by the network's clients and nodes:
pointer records and the rule that merges them, the chunk messages and their
Postcard encoding, single-node payment, quadratic pricing, the XOR metric, the
request/response event loop, and storage commitments. `dafny verify
dfyconfig.toml` checks all of it.

## What is modelled

**Pointers** (`PointerRecord`, `PointerCodec`, `PointerMerge`, `PointerNetwork`,
`PointerOwner`, `PointerConvergence`). A pointer is a replicated register: the
larger counter wins, then the smaller 33 target bytes, and a state at the last
counter is final.
`PointerRecord` holds the record, its hand-written codec and the merge rule.
`PointerMerge` proves the rule a strict partial order, characterises what any
arrival sequence ends in without mentioning the rule, and from that proves
convergence, exactly when order matters, and the churn bound; its `Store` class
is a node's slots. `PointerNetwork` runs any number of nodes through any
interleaving of deliveries and node-to-node copies. `PointerOwner` is what an
owner can sign. `PointerConvergence` carries convergence down to record bytes.

**Messages** (`Utf8`, `Postcard`, `PostcardPieces`, `ChunkMessages`, `ChunkWire`,
`ChunkReading`, `ChunkMessageProofs`, `ChunkEvolution`, `ChunkForwarding`,
`ChunkCutover`). All 16 bodies, the response enums and the 11 errors, with encoder
and decoder written out down to the varint loops of the Postcard Wire Format
Specification ("Varint Encoded Integers", "Option" and "Tagged Unions").
`ChunkWire` is the other description of the same wire: a table that gives each
message as a list of numbers and raw bytes, with every variant's published place
and every struct's fields in order. The encoder writes that table, and
`ChunkReading` shows that on every input the decoder accepts exactly its
spellings; the round trips and the forwarding laws follow from the table alone. A build is its two tables of variants, and writes
and reads by position in them, which states compatibility between builds as
theorems about any two tables. `ChunkForwarding` takes the decoder's side: what
it accepts, and how that compares with the encoder's bytes.

**Payment** (`QuoteSort`, `SingleNodePayment`, `SingleNodePaymentProofs`). Seven
quotes, sorted in place; the median is paid three times its price. The median is
also defined by counting alone, and everything is proved against that and the
contract's record itself, up to `PayThenVerify`: a client pays from one order of
the quotes and a node verifies from another.

**Pricing** (`Pricing`), **distance** (`XorDistance`), **event loop**
(`EventLoop`, `EventLoopProofs`, `ChunkProtocol`, `ChunkProtocolProofs`) and
**commitments** (`Commitment`) complete the core. `ByteStrings` ties
lexicographic order on byte strings to the order of their big-endian values,
which the merge rule and the metric share.

## What is assumed

Signatures and hashes are the function-valued fields of `Crypto.Scheme`. A
theorem that needs laws of them says so: `Sound` states that accepted key and
signature bytes are reproduced by encoding, have the ML-DSA-65 lengths of section 4
of FIPS 204, and that what a matching pair signs verifies;
`Crypto.SomeSchemeIsSound` shows these laws are satisfiable. Nothing is assumed
of the hash: where a claim needs distinct digests, the theorem says "or these two
inputs collide". Signing is randomized by an explicit argument.

The payment contract is a map from quote hash to amount, whose lookups may fail,
and the list of transfers it has made; the wallet's answer is an input. The broadcast, the clock and scheduling
delays are the `EventLoop.World` a caller meets.

## Findings

- The deadline is not exact, in either direction, for a caller scheduled late. The
  loop tests the clock before it polls the channel, so it can time out with an
  acceptable reply unread in its buffer
  (`EventLoopProofs.LateReaderMissesABufferedReply`); and the wait polls the channel
  before its timer, so it can return a reply published after the deadline
  (`LateReplyIsTaken`). What is returned is exactly the first acceptable event the
  caller reads: one whose turn begins before the deadline and whose poll finds it
  in the buffer (`TakesTheFirstRead`, `TakenExactlyWhenRead`). For a reply
  published before the deadline the timer plays no part
  (`TakenExactlyWhenReachedInTime`), and a prompt caller whose buffer takes every
  burst always gets it (`PromptCallerGetsTheReply`).
- A closed broadcast ends in the same error as an expired deadline, which the
  function's own documentation mentions only for the deadline
  (`ClosedBroadcastGivesUpEarly`). A caller that gets nothing gives up early
  exactly when, having read everything, it learns of the closing before the
  deadline (`GivesUpEarlyExactlyWhenClosed`); for a prompt caller, exactly when
  the broadcast closes before it (`PromptCallerGivesUpWhenClosed`).
- A PUT of a full 4 MiB chunk fits the message cap for every request id exactly
  when its proof is at most 1 MiB less 51 bytes
  (`ChunkMessageProofs.ExactProofLimit`). The encoder has no size check, so a
  larger one is sent and refused.
- The decoder accepts padded varints, so a message has spellings its encoder
  never writes (`ChunkForwarding.PaddedMessageIsAccepted`). They are exactly the
  longer ones: none is shorter than the encoder's, and one as short is the
  encoder's (`CanonicalExactlyWhenShortest`).
- Between two builds whose message bodies and errors are declared differently, a
  message is read as it was meant exactly when the reader has its variants where
  the writer puts them (`ChunkEvolution.ReadExactlyWhenInPlace`). So an existing
  peer reads all it shares with a newer build exactly when no shared variant was
  displaced (`ReadsCommonExactlyWhenUndisplaced`), and the newer build reads all of
  the older's exactly when it only appended (`ReadsExactlyWhenAppended`). The
  comment at `src/chunk.rs:1147`, that an insertion makes older peers misread every
  message, holds for the displaced variants only; those can be misread without any
  error (`InsertedVariantIsMisread`).
- The notes at `src/chunk.rs:609` and `src/chunk.rs:700` say quote and candidate
  responses with and without the commitment decode in neither direction. One
  direction does decode: the old struct reads the new response, since decoding
  ignores what follows a message (`ChunkCutover.NewQuotesReadAsOld`,
  `OldQuotesAreRefused`, and the same for candidates).
- A pointer's owner can fork it by signing two final states; this is the only
  case in which arrival order decides (`OrderMattersExactlyWhenForked`). With the owner's own keys a run of operations
  goes through exactly when every one but the last is an update
  (`PointerOwner.RunsExactlyUntilFinal`).
- The commitment's signed payload is injective for keys of every length, although
  the length field saturates; it stops being prefix-free exactly there
  (`Commitment.PayloadContinues`).
- Three of seven quotes cannot move the median outside the prices of the others,
  and four can move it anywhere (`FourReplacementsChooseTheMedian`).
- The comments in `src/payment/commitment.rs` give the signature 3293 bytes; the
  model follows `src/pointer.rs:117` and FIPS 204, which give 3309.

## Model

| member | source | states |
|---|---|---|
| ByteStrings.LexIsValueOrder | src/pointer.rs:365-371 | the order derived for byte arrays of one length is the order of their big-endian values, so it is a strict total order |
| ByteStrings.Uint64BigEndianRoundTrip | src/pointer.rs:911-933 | the counter's eight big-endian bytes read back as the counter |
| ByteStrings.Uint64BigEndianOnto | src/pointer.rs:410-451 | any eight bytes are the bytes of exactly the counter they parse to |
| ByteStrings.LittleEndianReadsBackwards | src/payment/commitment.rs:112-116 | a count is what its little-endian bytes are worth from the last one on |
| PointerRecord.PointerTarget.WriteBytes | src/pointer.rs:327-334 | filling the buffer in place gives the tag, then the address |
| PointerRecord.PointerTarget.ReadBytes | src/pointer.rs:340-351 | accepts exactly 33 bytes, and what it accepts is reproduced by encoding |
| PointerRecord.TargetRoundTrip | src/pointer.rs:327-352 | the target encoding round trips both ways |
| PointerRecord.WriteBody | src/pointer.rs:911-933 | pushing the fields gives the fixed layout, or the key-length error |
| PointerRecord.WriteRecord | src/pointer.rs:810-820 | the record's bytes are its body, then its signature |
| PointerRecord.SignRecord | src/pointer.rs:640-656 | signing encodes, signs, appends and validates, with an error for each step |
| PointerCodec.LayoutSlices | src/pointer.rs:123-135 | every field sits at its constant offset |
| PointerCodec.BodyIsInjective | src/pointer.rs:911-933 | the body determines version, owner, counter and target |
| PointerCodec.WellSignedParses | src/pointer.rs:759-801 | encoding any well-signed record and validating it returns the record |
| PointerCodec.AcceptedBytesAreCanonical | src/pointer.rs:759-819 | accepted bytes are reproduced byte for byte, and the unverified parse had the verified record's state |
| PointerCodec.AcceptedExactlyWhenWellSigned | src/pointer.rs:759-801 | the accepted byte strings are exactly the encodings of well-signed records |
| PointerCodec.SignOutcome | src/pointer.rs:640-656 | a matching pair fails to sign only where the signer does, and else gets the fields asked for |
| PointerCodec.SignedRecordsRoundTrip | src/pointer.rs:636-656 | whatever `sign` returns parses back from its own bytes to itself |
| PointerCodec.ParseDecidesLikeValidation | src/pointer.rs:405-478 | `replaces`, `is_terminal`, `transferred_to` and both identities agree before and after verification, and refusals agree |
| PointerCodec.StateIdNamesTheState | src/pointer.rs:865-867 | two records have one state id exactly when owner, counter and target agree, or their bodies collide |
| PointerCodec.AddressNamesTheOwner | src/pointer.rs:232-235 | two records have one address exactly when they have one owner key, or the keys collide |
| PointerCodec.ReSigningNeverReplaces | src/pointer.rs:491-496 | any two encodings of one signed state have one state and neither replaces the other |
| PointerCodec.KindsOnTheWire | src/pointer.rs:262-322 | a chunk target is byte 0 and the address, a pointer target byte 1, and every other first byte has no kind |
| PointerCodec.RecordOnTheWire | src/pointer.rs:52-73 | each field at its byte range of the 5303, and the two identities as derive-key digests of key and body under their contexts |
| PointerCodec.ParseOutcome | src/pointer.rs:410-451 | for any bytes, which refusal the cheap parse answers, or the state the byte ranges claim |
| PointerCodec.ValidationOutcome | src/pointer.rs:774-801 | for any parsed bytes, which error answers which refusal of the signature library, or the record in the byte ranges |
| PointerCodec.SignWithAnotherKey | src/pointer.rs:640-656 | a signature that does not verify under the owner is refused as invalid instead of returned, and an owner key of another length is refused |
| PointerCodec.TransferIsFinalRedirection | src/pointer.rs:531-536 | a transfer to an address is exactly a state at the largest 64-bit counter whose target bytes are 1 and that address |
| PointerMerge.AboveIsTotal | src/pointer.rs:365-371 | larger counter, then smaller target, is a strict total order on claims |
| PointerMerge.ReplacesByClaim | src/pointer.rs:521-523 | `replaces` is: one address, the held state not final, the new claim above the old |
| PointerMerge.ReplacesIsAStrictPartialOrder | src/pointer.rs:514-523 | irreflexive, asymmetric and transitive for all states |
| PointerMerge.ReplacesIsTotalBelowFinal | src/pointer.rs:503-515 | two states are ordered exactly when they differ at one address and are not both final |
| PointerMerge.FoldArrivals | src/pointer.rs:1199-1222 | the loop over a mutable slot ends in the fold of the arrivals |
| PointerMerge.FoldHoldsTheWinner | src/pointer.rs:1199-1222 | the fold holds the winning arrival |
| PointerMerge.FoldIsExactlyTheWinner | src/pointer.rs:1199-1222 | every non-empty arrival sequence ends in the first final state if there is one, else in the first greatest claim, and in nothing else |
| PointerMerge.FoldHoldsTheMaximum | src/pointer.rs:480-486 | with at most one final claim, the held claim is the maximum of those that arrived |
| PointerMerge.Convergence | src/pointer.rs:1370-1404 | two arrival sequences with the same claims, one of them final at most, end in the same claim, whatever order and duplication |
| PointerMerge.FinalsAreOutcomes | src/pointer.rs:502-515 | every final claim that arrived is where some order of the same claims ends |
| PointerMerge.OrderMattersExactlyWhenForked | src/pointer.rs:502-515 | the same claims can end differently exactly when two of them are distinct finals |
| PointerMerge.ReplacementsAreBounded | src/pointer.rs:491-496 | over any arrivals there are fewer replacements than distinct claims |
| PointerMerge.ReplacementsAreChanges | src/pointer.rs:491-496 | the replacements counted are exactly the arrivals after which a filled slot holds something else |
| PointerMerge.Store.constructor | src/pointer.rs:1205-1212 | an empty store |
| PointerMerge.Store.Receive | src/pointer.rs:1205-1212 | an arrival takes its slot exactly when the slot is empty or it replaces what is there; every slot stays the fold of its arrivals |
| PointerNetwork.HeldWasDelivered | src/pointer.rs:502-516 | in every run, nodes hold only states delivered from outside, at their own address |
| PointerNetwork.StepOutcome | src/pointer.rs:1205-1212 | a delivery or copy changes one slot, which takes what it is offered exactly when it is empty or outranked |
| PointerNetwork.SlotIsTheFoldOfItsInbox | src/pointer.rs:1205-1212 | in every run, each node's slot is the fold of what reached it |
| PointerNetwork.InboxIsWhatWasBrought | src/pointer.rs:1205-1212 | an inbox holds exactly what the run's deliveries and copies brought to that node at that address |
| PointerNetwork.InboxWasDelivered | src/pointer.rs:502-516 | everything that reached a slot, by any number of copies, was delivered from outside at its address |
| PointerNetwork.ChurnIsBoundedByDeliveries | src/pointer.rs:491-496 | in every run a slot is replaced fewer times than distinct claims entered from outside, however often nodes copy |
| PointerNetwork.StepAscends | src/pointer.rs:521-523 | no step lowers any slot |
| PointerNetwork.SlotsOnlyAscend | src/pointer.rs:21-29 | between any two moments of a run a slot fills, keeps its state, or ascends from a state that is not final |
| PointerNetwork.FinalIsNeverGivenUp | src/pointer.rs:36-40 | a node that holds a final state holds that same state for the rest of the run |
| PointerNetwork.FinalLandsOnlyWhereNoneWas | src/pointer.rs:508-512 | a slot only changes if it has never held a final state, so a second final lands only on nodes that held none |
| PointerNetwork.OneFinalNoFork | src/pointer.rs:31-36 | nodes hold different finals only if two were let in from outside |
| PointerNetwork.QuiescentExactlyWhenAgreed | src/pointer.rs:501-512 | copying changes nothing more exactly when every pair of nodes agrees or holds rival finals |
| PointerNetwork.CopyOutcome | src/pointer.rs:521-523 | a copy moves only the receiver's slot, which then dominates the sender's |
| PointerNetwork.GatherDominates | src/pointer.rs:521-523 | after copying from every node, the hub dominates all of them |
| PointerNetwork.SpreadAgrees | src/pointer.rs:521-523 | copying from a dominating hub leaves it unchanged and every receiver in agreement with it |
| PointerNetwork.OneRoundHeals | src/pointer.rs:503-509 | after any run, one round through any hub leaves the nodes agreed, on one claim unless two finals were let in |
| PointerOwner.OperationOutcome | src/pointer.rs:660-746 | each operation fails on a final record, and with the owner's key otherwise only in signing; with any key, what it returns is a well-signed record with the counter and target bytes asked for that replaces the one before; a transfer names its recipient, and finalizing onto a chunk is no transfer |
| PointerOwner.CountersAscend | src/pointer.rs:660-746 | along every successful run, whatever keys signed, the owner is fixed and counters start at 0 and strictly grow |
| PointerOwner.OwnerRunAscends | src/pointer.rs:660-746 | the address is constant, `update` adds exactly one, every later record replaces every earlier one, and nothing follows a final record |
| PointerOwner.RunsExactlyUntilFinal | src/pointer.rs:660-746 | with the owner's keys a run goes through exactly when every operation but the last is an update and there are counters for all, and else ends in the exhausted counter |
| PointerOwner.FinalizingTwiceForks | src/pointer.rs:1153-1176 | two finalizations of one record both replace it and neither replaces the other |
| PointerConvergence.StateOfRecord | src/pointer.rs:759-801 | every state a node takes from bytes is that of a well-signed record among them |
| PointerConvergence.StatesAreOfTheValidRecords | src/pointer.rs:759-801 | a node takes the state of every record that validates, and no other |
| PointerConvergence.SameClaimSameState | src/pointer.rs:832-839 | records with one address, counter and target have one state, identifier included, or their owners collide |
| PointerConvergence.RecordsConverge | src/pointer.rs:1370-1404 | two nodes fed encoded records for any addresses: where the records at one address make the same claims, one final at most, under any signatures, order and repeats, the nodes hold one state with one identifier, or two owners collide |
| Postcard.LimitsAreTheIntegerWidths | src/chunk.rs:154-204 | ten bytes ending in at most 1 carry 64 bits, five ending in at most 15 carry 32 |
| Postcard.VarintRoundTrip | src/chunk.rs:348-370 | every integer in range reads back from its varint, leaving what followed |
| Postcard.CanonicalExactlyWhenUnpadded | src/chunk.rs:348-370 | an accepted varint is the encoder's own exactly when its last byte is not a padding zero |
| Postcard.VarintIsLeb128 | src/chunk.rs:348-350 | the encoder writes the one spelling whose groups of seven bits are worth the number, least significant first, without a padding zero |
| Postcard.VarintReading | src/chunk.rs:369-369 | for any bytes, the number the decoder reads from the groups up to the first that ends one, or why it refuses |
| Postcard.PaddedZeroIsAccepted | src/chunk.rs:369-369 | the decoder accepts a spelling of zero the encoder never writes |
| Postcard.PushVarint | src/chunk.rs:348-350 | the encoder's loop appends exactly the varint |
| Postcard.PopVarint | src/chunk.rs:369-369 | the decoder's loop reads exactly what the recursive form reads, with the same errors |
| Postcard.TextRoundTrip | src/chunk.rs:727-794 | a UTF-8 string reads back and leaves what followed |
| Postcard.OptionRoundTrip | src/chunk.rs:385-393 | an optional byte vector reads back and leaves what followed |
| Utf8.ValidExactlyWhenScalars | src/chunk.rs:369-369 | the byte ranges the text check accepts are exactly the encodings of sequences of Unicode scalar values |
| ChunkMessages.ErrorResponse | src/chunk.rs:420-438 | each response enum has exactly one error variant, and it carries the error |
| ChunkWire.MessageWriting | src/chunk.rs:348-350 | every message is written as its table: each variant by its declared place, each struct by its fields in order, numbers in their shortest spelling, a flag as 1 when set |
| ChunkReading.MessageReading | src/chunk.rs:369-369 | on every input, the decoder reads a message exactly from the spellings of its table, and leaves what follows |
| ChunkReading.DecodesExactlySpellings | src/chunk.rs:362-370 | bytes decode to a message exactly when they are at most 5 MiB and begin with a spelling of it; longer ones are refused by their size |
| ChunkMessageProofs.ErrorFieldsRoundTrip | src/chunk.rs:727-794 | the fields of all eleven errors read back and leave what followed |
| ChunkMessageProofs.ErrorRoundTrip | src/chunk.rs:727-794 | in every build an error reads back from the place the build gives it |
| ChunkMessageProofs.FieldsRoundTrip | src/chunk.rs:154-204 | all sixteen bodies, with their nested enums, read back and leave what followed |
| ChunkMessageProofs.MessageRoundTrip | src/chunk.rs:348-370 | decode(encode(m) + rest) is m and rest, for every message |
| ChunkMessageProofs.DecodeOfEncode | src/chunk.rs:348-370 | an encoding, with anything behind it, decodes to its message exactly when the whole fits the cap, and else is refused with the two sizes |
| ChunkMessageProofs.EncodingIsPrefixFree | src/chunk.rs:348-350 | no message's encoding begins another's |
| ChunkMessageProofs.PutFitsTheCap | src/chunk.rs:19-26 | every PUT of at most 4 MiB with a proof of at most 1 MiB less 64 bytes decodes |
| ChunkMessageProofs.ExactProofLimit | src/chunk.rs:19-26 | a full-size chunk fits for every request id exactly when the proof is at most 1 MiB less 51 bytes |
| ChunkEvolution.BuildRoundTrip | src/chunk.rs:1143-1151 | every build, whatever its declarations, reads every message it writes |
| ChunkEvolution.EncodeByCurrent | src/chunk.rs:348-350 | today's declarations write the modelled encoding |
| ChunkEvolution.FieldsRestrict | src/chunk.rs:171-203 | of two builds, one with variants appended, the older reads the same fields unless they carry an error it does not declare |
| ChunkEvolution.OlderBuildsAgreeOrReject | src/chunk.rs:171-203 | on every byte string, of two builds the older returns the newer's message if it declares every variant in it, refuses it as unknown if not, and refuses what the newer refuses |
| ChunkEvolution.EncodingsReachOlderBuilds | src/chunk.rs:769-793 | an encoding that fits the cap reaches an older build exactly when the build declares every variant in it |
| ChunkEvolution.ExtensionWritesTheSame | src/chunk.rs:1143-1151 | appending variants changes nothing that was written before |
| ChunkEvolution.ReadExactlyWhenInPlace | src/chunk.rs:1143-1151 | for any two builds and every message of one that fits the cap, the other reads it as meant exactly when it has the message's variant and error at the writer's places |
| ChunkEvolution.ReadsCommonExactlyWhenUndisplaced | src/chunk.rs:1143-1151 | a peer reads every message it shares with another build, newer or older, exactly when no shared variant stands elsewhere |
| ChunkEvolution.ReadsExactlyWhenAppended | src/chunk.rs:171-203 | an upgraded build reads every message of the one before exactly when its bodies, and where errors can be sent its errors, are the older ones with variants appended |
| ChunkEvolution.InsertedVariantIsMisread | src/chunk.rs:1143-1151 | a build with a variant inserted before the end: its get-or-closer requests are read as pointer requests, without an error |
| ChunkEvolution.WireDiscriminants | src/chunk.rs:1514-1548 | the byte after the request id is the variant's published value, and names no other variant |
| ChunkForwarding.VarintIsShortest | src/chunk.rs:348-370 | no accepted spelling of an integer is shorter than the encoder's, and none as short differs from it |
| ChunkForwarding.AcceptedMessagesCanBeForwarded | src/chunk.rs:348-370 | every accepted message, however spelled, encodes in at most as many bytes and decodes from them |
| ChunkForwarding.CanonicalExactlyWhenShortest | src/chunk.rs:348-370 | the bytes a message was read from are its own encoding exactly when they are no more than it |
| ChunkForwarding.PaddedMessageIsAccepted | src/chunk.rs:369-369 | every message with request id 0 that leaves a byte to the cap also decodes from a spelling the encoder never writes |
| ChunkCutover.NewQuotesReadAsOld | src/chunk.rs:609-616 | a quote response with the appended commitment reads under the old struct, with the commitment left behind it |
| ChunkCutover.OldQuotesAreRefused | src/chunk.rs:609-616 | an old quote response never reads under the new struct; it ends too early |
| ChunkCutover.CommitmentIsAppended | src/chunk.rs:603-616 | the new quote encoding is the old one and the commitment behind it |
| ChunkCutover.OldQuoteReading | src/chunk.rs:609-616 | on every input, the old struct reads exactly the spellings of its fields |
| ChunkCutover.NewCandidatesReadAsOld | src/chunk.rs:686-702 | a candidate response with the appended commitment reads under the old struct |
| ChunkCutover.OldCandidatesAreRefused | src/chunk.rs:686-702 | an old candidate response never reads under the new struct |
| ChunkCutover.CandidateCommitmentIsAppended | src/chunk.rs:686-702 | the new candidate encoding is the old one and the commitment behind it |
| ChunkCutover.OldCandidateReading | src/chunk.rs:686-702 | on every input, the old struct reads exactly the spellings of its fields |
| QuoteSort.SortByPrice | src/payment/single_node.rs:80-80 | the array is sorted in place, as the stable sort of what it held |
| QuoteSort.SortIsStable | src/payment/single_node.rs:80-80 | the result is ordered by price and keeps the order of equal prices |
| QuoteSort.StableSortIsUnique | src/payment/single_node.rs:80-80 | order and stability leave one result, whatever algorithm the library uses |
| QuoteSort.SortFindsTheRank | src/payment/single_node.rs:82-90 | the price at index i is the one with at most i prices below and more than i at or below |
| QuoteSort.CountsIgnoreOrder | src/payment/single_node.rs:80-80 | ranks do not depend on the order of the quotes |
| SingleNodePayment.FromQuotes | src/payment/single_node.rs:71-120 | sorts the caller's array and returns the payment the specification builds, or its error |
| SingleNodePayment.Vault.PayForQuotes | src/payment/single_node.rs:160-164 | every non-zero payment is recorded under its hash and moved to its node, all of them on success and those before the failure otherwise |
| SingleNodePayment.ReceiptsStopAtTheFirstGap | src/payment/single_node.rs:169-179 | the first missing transaction decides the error |
| SingleNodePayment.Pay | src/payment/single_node.rs:145-187 | the wallet pays all seven entries before any receipt is looked up, and the result is the non-zero payments' transactions or the first error |
| SingleNodePayment.AskInTurn | src/payment/single_node.rs:241-262 | the first candidate, in order, whose lookup fails or that has enough on record decides; with none, how many were asked about |
| SingleNodePayment.Verify | src/payment/single_node.rs:205-262 | zero median refused; else the first tied quote whose lookup fails or that has enough on record decides; else not paid, with the number asked about |
| SingleNodePaymentProofs.BuildOutcome | src/payment/single_node.rs:71-126 | a payment exists exactly for seven quotes whose tripled median fits 256 bits; field by field it lists the quotes as stably sorted, pays only the median entry, three medians to the node of a quote at that price, and totals that; else which error |
| SingleNodePaymentProofs.PayingMovesThreeMedians | src/payment/single_node.rs:145-187 | a built payment records three medians under the median quote, moves them to its node and nothing else, with exactly one transaction |
| SingleNodePaymentProofs.PayBuilt | src/payment/single_node.rs:145-187 | after paying, by the wallet's answer, the record and the transfers are the old ones with exactly one entry of three medians, or unchanged; the result is the one transaction or why there is none |
| SingleNodePaymentProofs.TotalWrapsAround | src/payment/single_node.rs:128-132 | the total of any payment is the exact sum of its amounts less whole words |
| SingleNodePaymentProofs.TiedQuotes | src/payment/single_node.rs:225-230 | the candidates are exactly the quotes at the median price, asked about in the order they were given |
| SingleNodePaymentProofs.VerdictOnQuotes | src/payment/single_node.rs:205-262 | the exact answer over the quotes given and the record: the first median-priced quote, in the order given, whose lookup fails or that has three medians on record decides |
| SingleNodePaymentProofs.AcceptanceMeansPaid | src/payment/single_node.rs:242-256 | acceptance implies some quote at the non-zero median price has the returned amount on record, at least three times the median |
| SingleNodePaymentProofs.PaidIsNotRefused | src/payment/single_node.rs:189-204 | where a median-priced quote was paid, only a failed lookup prevents acceptance |
| SingleNodePaymentProofs.LookupFailureIsReported | src/payment/single_node.rs:244-248 | the lookup error means a lookup of some median-priced quote failed |
| SingleNodePaymentProofs.AcceptedExactlyWhenPaid | src/payment/single_node.rs:189-262 | unless a failed lookup stops it, a verifier accepts exactly when some quote at the non-zero median price is on record with at least three times it, and else says it was not paid |
| SingleNodePaymentProofs.UnpaidIsRefused | src/payment/single_node.rs:258-262 | with no median-priced quote on record nothing is accepted, and unless a lookup fails the answer is that it was not paid |
| SingleNodePaymentProofs.VerifiersAgree | src/payment/single_node.rs:191-194 | verifiers with the same quotes in any two orders agree, whichever lookups fail, unless a failure stopped one of them |
| SingleNodePaymentProofs.PaymentIsOnRecord | src/payment/single_node.rs:189-194 | what the payer records is what a verifier with any other order looks for |
| SingleNodePaymentProofs.PayerAndVerifierAgree | src/payment/single_node.rs:189-262 | after paying from one order, a verifier with any other order accepts unless a lookup fails, and reports exactly three medians if nothing else was recorded |
| SingleNodePaymentProofs.PayThenVerify | src/payment/single_node.rs:71-262 | the four operations in a row: a client builds and pays from one order, a node builds and verifies from any other, and accepts unless a lookup fails |
| SingleNodePaymentProofs.VerdictIsUnique | src/payment/single_node.rs:205-262 | payment, record and failures determine the verdict |
| SingleNodePaymentProofs.MedianIsRobust | src/payment/single_node.rs:82-90 | replacing any three of seven prices leaves the median between two kept prices |
| SingleNodePaymentProofs.FourReplacementsChooseTheMedian | src/payment/single_node.rs:82-90 | replacing four can give any median |
| Pricing.Root | src/payment/pricing.rs:65-65 | the greatest integer whose square does not exceed the argument |
| Pricing.NewtonRoot | src/payment/pricing.rs:65-65 | Newton's iteration computes the same root |
| Pricing.PriceIsExact | src/payment/pricing.rs:83-89 | the price is the baseline plus n squared times the precomputed increment, with no remainder and no saturation, for every 64-bit n |
| Pricing.PriceIsStrictlyIncreasing | src/payment/pricing.rs:83-89 | more records always cost more |
| Pricing.PriceAdjunction | src/payment/pricing.rs:57-89 | at or above the baseline, the price of n is at most p exactly when n is at most the count derived from p |
| Pricing.DeriveInvertsPrice | src/payment/pricing.rs:46-89 | deriving from the price of n gives n, for every 64-bit n |
| Pricing.DeriveIsMonotone | src/payment/pricing.rs:57-75 | a larger price never gives a smaller count |
| Pricing.DeriveBracketsThePrice | src/payment/pricing.rs:57-75 | a price at or above the baseline lies between the prices of the derived count and the next one, unless saturated |
| XorDistance.XorBitByBit | src/data_types.rs:18-20 | a bit of the result is set exactly when the two bits differ |
| XorDistance.ValueOfXorBytes | src/data_types.rs:18-20 | byte by byte or as whole integers, the distance is the same |
| XorDistance.DistanceIsAMetric | src/data_types.rs:14-20 | zero exactly on equal addresses, symmetric, triangle inequality as 256-bit integers |
| XorDistance.CloserIsSmallerDistance | src/data_types.rs:16-16 | comparing results lexicographically compares the distances as integers |
| XorDistance.CloserIsAStrictTotalOrder | src/data_types.rs:14-20 | for a fixed target, distinct peers have distinct distances, and closeness is a strict total order |
| XorDistance.ClosestGroupIsUnique | src/data_types.rs:14-20 | at most one set of k peers is closest |
| XorDistance.ClosestGroupExists | src/data_types.rs:14-20 | there is one, for every k up to the number of peers |
| XorDistance.HexRoundTrip | src/data_types.rs:26-26 | a peer id's printed hex decodes to its bytes |
| XorDistance.HexEncodeDigits | src/data_types.rs:26-26 | a byte is printed as two lower-case digits, the high one first |
| XorDistance.HexDecodesExactlyHex | src/data_types.rs:27-27 | hex decoding succeeds exactly on an even number of hex digits |
| XorDistance.HexDigitValue | src/data_types.rs:27-27 | a digit is worth its place among the sixteen, in either case |
| XorDistance.HexDecodeValue | src/data_types.rs:27-27 | each decoded byte is worth its two digits, the first one most |
| XorDistance.HexDecodeIgnoresCase | src/data_types.rs:27-27 | the case of the digits does not matter |
| XorDistance.PeerIdToXorName | src/data_types.rs:26-34 | an address exactly for 64 hex digits, and it is the bytes they spell |
| EventLoop.World.PublishedInOrder | src/chunk_protocol.rs:116-116 | the events published by a moment are exactly those before the publication count |
| EventLoop.Receiver.constructor | src/chunk_protocol.rs:100-101 | a subscription starts after what was published before it |
| EventLoop.Receiver.ReceiveWithin | src/chunk_protocol.rs:115-116 | a receive under a timeout wakes at the next event, the closing or the timer, and polls once |
| EventLoop.NextDelivery | src/chunk_protocol.rs:114-116 | the two clock readings and the receive are one turn of the specification |
| EventLoop.AwaitAccepted | src/chunk_protocol.rs:114-150 | the loop returns what the step-by-step wait takes and leaves the clock and receiver where it does |
| EventLoopProofs.TakesTheFirstAccepted | src/chunk_protocol.rs:114-150 | on every broadcast and clock: the first accepted event not overwritten; or none, with everything read refused or overwritten, and the deadline reached, or a closed broadcast read to its end |
| EventLoopProofs.TakenExactlyWhenRead | src/chunk_protocol.rs:114-150 | for every broadcast, clock and filter, an accepted event with none read before it is taken exactly when its turn begins before the deadline and its poll finds it published and not overwritten |
| EventLoopProofs.TakesTheFirstRead | src/chunk_protocol.rs:114-150 | the event taken is the first accepted one that is read, and none is taken exactly when none is read |
| EventLoopProofs.ReadExactlyWhenReachedInTime | src/chunk_protocol.rs:114-116 | an event published before the deadline is read exactly when its turn begins before the deadline |
| EventLoopProofs.TakenExactlyWhenReachedInTime | src/chunk_protocol.rs:114-116 | of the events published before the deadline, the first accepted and not overwritten is taken exactly when the turn that reads it begins before the deadline, whatever the timer |
| EventLoopProofs.AllTurnedTo | src/chunk_protocol.rs:143-145 | nothing is overwritten while the rest of the broadcast fits the buffer |
| EventLoopProofs.PromptCallerReadsOn | src/chunk_protocol.rs:114-150 | a prompt caller reads every event published before the deadline |
| EventLoopProofs.PromptCallerGetsTheReply | src/chunk_protocol.rs:114-150 | a prompt caller whose buffer takes every burst, however long the broadcast, takes the first accepted event exactly when it comes before the deadline, or at it with nothing left to read before it |
| EventLoopProofs.LateReaderMissesABufferedReply | src/chunk_protocol.rs:114-116 | a concrete broadcast on which a late caller times out with an accepted reply in its buffer, and the late turn that would have read it |
| EventLoopProofs.LateReplyIsTaken | src/chunk_protocol.rs:115-116 | a concrete broadcast on which a late caller returns a reply published after its deadline |
| EventLoopProofs.GivesUpEarlyExactlyWhenClosed | src/chunk_protocol.rs:146-150 | for every broadcast and clock, a caller that gets nothing gives up before its deadline exactly when, having read everything, it would poll the closing before the deadline |
| EventLoopProofs.PromptCallerGivesUpWhenClosed | src/chunk_protocol.rs:146-150 | a prompt caller that gets nothing gives up before its deadline exactly when the broadcast closes before it |
| EventLoopProofs.ClosedBroadcastGivesUpEarly | src/chunk_protocol.rs:146-150 | a concrete closed broadcast on which the wait ends at the closing, not at the deadline |
| EventLoopProofs.RefusedEventsAreAlike | src/chunk_protocol.rs:117-145 | a wait is unchanged by the contents of events it does not accept |
| ChunkProtocol.FixDeadline | src/chunk_protocol.rs:107-112 | the deadline is the timeout from now, or the present where that overflows |
| ChunkProtocol.SendAndAwait | src/chunk_protocol.rs:89-151 | subscribe, send, fix the deadline, wait: the send error, the timeout error or the accepted event |
| ChunkProtocol.SendAndAwaitChunkResponseWithMetadata | src/chunk_protocol.rs:89-151 | the same with the five filters, keeping source and transport |
| ChunkProtocol.SendAndAwaitChunkResponse | src/chunk_protocol.rs:46-70 | the wrapper returns the handler's result from the same exchange |
| ChunkProtocolProofs.AcceptedExactlyWhenAnswering | src/chunk_protocol.rs:117-141 | accepted exactly when topic, source, decoding, request id and handler all agree, and the envelope carries the event's provenance |
| ChunkProtocolProofs.EncodedReplyIsAccepted | src/chunk_protocol.rs:117-141 | a peer's encoded reply that fits the cap reaches the handler as the body it sent |
| ChunkProtocolProofs.CallIsAWait | src/chunk_protocol.rs:100-112 | a call waits from the moment it subscribed, until the timeout after the first clock reading that follows sending, or only until the next reading where that overflows |
| ChunkProtocolProofs.ExchangeOutcome | src/chunk_protocol.rs:100-150 | where a call ends, it has taken the first answer from its subscription on that it accepts and that was not overwritten by then; or everything it read was refused or overwritten and it has reached its deadline or the end of a closed broadcast |
| ChunkProtocolProofs.UnsentIsUnanswered | src/chunk_protocol.rs:103-105 | a call whose message was not sent waits for nothing |
| ChunkProtocolProofs.AnsweredExactlyWhenRead | src/chunk_protocol.rs:100-150 | an acceptable reply with none read before it answers the call exactly when the caller reads it, be it published before the deadline or after |
| ChunkProtocolProofs.AnsweredExactlyWhenReachedInTime | src/chunk_protocol.rs:100-150 | of the replies published before the deadline, the first acceptable and not overwritten answers the call exactly when the turn that reads it begins before the deadline |
| ChunkProtocolProofs.CallGivesUpEarlyExactlyWhenClosed | src/chunk_protocol.rs:100-150 | a call that gets nothing ends before its deadline exactly when it would learn of the closing before the deadline |
| ChunkProtocolProofs.PromptCallIsAnswered | src/chunk_protocol.rs:100-150 | a prompt call whose buffer takes every burst is answered by the first acceptable reply after its subscription, also one sent while it was sending, exactly when that comes in time |
| ChunkProtocolProofs.UnrepresentableTimeoutGivesUp | src/chunk_protocol.rs:107-112 | a timeout that overflows the clock gives up at once |
| ChunkProtocolProofs.RepliesAreNotShared | src/chunk_protocol.rs:131-133 | callers with different request ids never take the same event |
| ChunkProtocolProofs.OtherAnswersDoNotInterfere | src/chunk_protocol.rs:117-145 | replacing events that do not answer a caller by others that do not changes nothing for it |
| Commitment.SignedPayload | src/payment/commitment.rs:104-118 | appending the fields gives the specified payload |
| Commitment.PayloadLayout | src/payment/commitment.rs:104-118 | each field at its byte range, the counts little-endian, the key length saturated |
| Commitment.PayloadContinues | src/payment/commitment.rs:104-118 | one payload continues another exactly when only key bytes past the saturated length were added |
| Commitment.PayloadIsInjective | src/payment/commitment.rs:98-118 | the payload determines root, key count, peer id and key, for keys of any length |
| Commitment.AcceptedExactlyWhenSigned | src/payment/commitment.rs:125-144 | accepted exactly when key and signature decode and the signature verifies over the payload in the commitments' context |
| Commitment.SignedCommitmentVerifies | src/payment/commitment.rs:125-144 | what a pair signs over the payload is accepted under the embedded key |
| Commitment.TamperingChangesTheMessage | src/payment/commitment.rs:121-144 | one signature accepted under changed fields or a swapped key verifies over both commitments' payloads, which differ |
| Commitment.CommitmentRoundTrip | src/payment/commitment.rs:91-91 | the pinned encoding reads back and leaves what followed |
| Commitment.CommitmentWriting | src/payment/commitment.rs:91-91 | the encoding is the fields in the order declared, vectors with their lengths |
| Commitment.PreimageLayout | src/payment/commitment.rs:90-96 | what is hashed is the 43 characters of the tag, then the encoding |
| Commitment.CommitmentHash | src/payment/commitment.rs:90-96 | the pin is the hash of the domain tag and the encoding |
| Commitment.PinNamesTheCommitment | src/payment/commitment.rs:76-96 | two commitments have one pin exactly when they are equal, signature included, or collide |

## Left out

- The insides of ML-DSA-65 and BLAKE3, and any claim that signatures cannot be forged or digests cannot collide.
- `src/payment/proof.rs` and `src/payment/verify.rs`: a tag byte around an opaque body, and a wrapper over library checks.
- Settlement versions, constructors, `Display` and user-facing texts, constants that nothing computes with, devnet manifest, logging and re-exports: easy members.
- Wallet, RPC provider and contract: the wallet's answer is an input, made of a prefix of the payments where it fails; zero payments are never sent on; the contract's own amount width and transfer rules are not modelled.
- SingleNodePayment.Verify: every lookup of one call sees one record and one set of failing hashes; a record that changes between two lookups is not modelled.
- SingleNodePayment.Vault.PayForQuotes: records the amount paid, replacing an earlier amount under the same hash; the contract may add or refuse instead.
- The library's stable sort: `QuoteSort.SortByPrice`, an insertion sort, stands for it; its own algorithm is not part of this model; `StableSortIsUnique` shows the result is the same.
- The library's 256-bit root: `Pricing.NewtonRoot` stands for it; only the result, the floor of the root, matters.
- The V2 request structs: modelled as the original fields and the version, which is their wire form.
- New variants of the response enums, which are open to them too: builds differ in message bodies and errors only.
- Error texts: a decode failure is a kind, not the library's message; `encode` has no failing case because nothing in a message can fail to serialize.
- The library's UTF-8 check is the definition of section 4 of RFC 3629, shown to be the encodings of section 3; vectors longer than a 64-bit length are excluded by type.
- The broadcast and the clock: a broadcast is a finite list of timed events; peer connections, tokio's scheduler and the channel's internals are reduced to publication times, capacity and delays.
- EventLoop.Receiver.ReceiveWithin: lag counts events beyond the buffer's capacity; the channel's rounding of the requested capacity is not modelled.
- Payment checks at nodes, close-group voting and following redirects across pointers, which the files leave to node and client.
- `compute_address` and `DataChunk::verify`: one hash and one comparison.
- Values in place of shared memory: `Bytes` is a sequence, so reference counting of buffers is not captured.
