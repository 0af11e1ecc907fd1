# Verification of the Incubed node's data structures and protocol steps

This project models the parts of the Incubed (in3) node server that hold state or compute proofs, and proves what they
promise. Each file is one module; code that works by changing things is a class or a method with loops, proved against
a function, and the laws are lemmas about those functions.

| files | what they model |
|---|---|
| `BinJson`, `BinJsonPrinter`, `BinJsonText`, `BinJsonTheorems`, `BinJsonMessages` | the binary JSON printer with its growing buffer and back-references, a decoder as its specification, what strings mean, and whole messages |
| `BtcSerialize`, `BtcMerkle` | Bitcoin block headers in 80 bytes; Merkle branches read off a reduction in place |
| `BtcTarget`, `BtcLimits`, `BtcSearch`, `BtcAnswers`, `BtcDaps` | targets read back from headers, their comparison through a four-byte window, the search for a path of difficulty periods, and which path it answers |
| `BtcCache` | block data under two kinds of keys that share records |
| `CliqueVotes`, `CliqueStrict`, `CliqueLists`, `CliqueHistory`, `CliqueEpochs`, `CliqueUpdates`, `AuraFinality` | validator histories: vote counting, its agreement with a strict count, duplicates in the list, chunked reading, epochs over any number of updates, all the states an update adds, finality headers |
| `EvmTrace`, `EvmFootprint` | the recursive trace analyser; executions of the EVM, and what of them it records |
| `ClientBudget`, `LruCache` | the request limiter with deferred clean-up; the LRU cache |
| `Signing`, `Watcher`, `RandomIndexes` | signing block hashes, the watcher's log windows, the seeded choice of nodes |
| `Bytes` | bytes, optional values, big-endian numbers |

Double SHA-256, keccak and signer recovery are parameters or inputs: no theorem rests on what they compute. What the
network answers is a parameter too (a chain, a list of answers); where it may fail, the result says so. A
thrown error is an `ok` flag, a `None` or an error value, and the contracts say exactly when it occurs.

Where the code does not keep what its purpose suggests, the model keeps the code, a lemma gives the input, and another
lemma gives the exact condition or the property that does hold:

- the bare string "0x" is printed like the number 27 (`BareHexCollides`, `DecodesToMeaning`);
- a block with one transaction gets that transaction as its own sibling (`SingleTransactionBranch`);
- targets with an exponent below 3 keep digits that should drop off, and negative ones are read as positive
  (`NegativeTargetIsRead`, `TargetIsNBits`);
- with a negative maxDap the target search leads away from the target (`ChainStrays`, `RangeExactly`);
- the first block of a chain cannot be cached (`GenesisIsNotServed`, `GetBlockHeaders`);
- a header whose signer cannot be recovered makes the rest of its chunk be skipped (`StopSkipsChunk`, `ReadsExactly`);
- an answer of the target search may stop short of its limit although its last period does not reach the target: that
  is excluded exactly for a maxDap of at most 2 or a limit of 1 (`SingleAnswerFallsShort`, `LongSpansFallShort`,
  `EveryAnswerArrivesExactly`; on one chain `ArrivesExactly`), and with a positive maxDap repeated requests get
  there unless one fails (`ClientArrives`);
- a negative limit limits nothing, and the bound of 40 periods holds exactly for the others (`NegativeLimitIsNone`,
  `FortyExactly`);
- votes of strangers and of dropped validators count (`StrangersDecide`, `AgreesExactly`);
- a majority may enter a validator who is on the list already, which then holds it twice and needs a larger majority
  (`DoublingRaisesMajority`, `DistinctExactly`);
- slots that are written and not read, what constructors read, and accounts that are created are not recorded as they
  are touched (`StoreIsMissed`, `CreationIsMisattributed`, `CreatedAccountIsMissed`, `KeysExactly`, `AccountsExactly`);
- a client can spend twice its budget within a minute (`TwiceTheBudget`, `SpanBudget`);
- an LRU limit below 1 is no limit (`OtherLimitsAreNone`);
- upstream nodes that do not echo the block numbers asked for can confirm different blocks (`ConfirmationNeedsTheEcho`,
  `AgreementExactly`);
- asking for more node indexes than there are nodes never ends (`MoreThanAllNeverEnds`), and without nodes the choice
  holds no indexes (`ChoiceIsValid`);
- a chain head that falls back makes the watcher read logs again, and one seen without a contract makes it
  skip some (`FallingHeadRepeats`, `LogsTileExactly`).

## Model

| member | source | states |
|---|---|---|
| BinJsonTheorems.MessageRoundTrip | src/util/binjson.ts:44-50 | for every tree that fits the format, a left-to-right decoder given the whole message returns the tree's reading, which is told without the encoder: keys as 16-bit hashes, text as its Unicode characters, hexadecimal text as the number its digits spell, an odd digit in the first byte alone, in as many bytes as they take or, below four bytes, as integer, numbers from 2^28 as bytes; the header counts exactly the tokens |
| BinJsonTheorems.DecodesToMeaning | src/util/binjson.ts:116-171 | the decoder recovers the meaning of a tree if and only if no string of it is hexadecimal text without a digit that counts |
| BinJsonTheorems.BareHexDecides | src/util/binjson.ts:137-144 | what the decoder reads differs from the meaning exactly where a bare "0x" occurs, at any depth |
| BinJsonTheorems.BareHexCollides | src/util/binjson.ts:86-92 | "0x" and 27 have one encoding and two meanings |
| BinJsonText.HexDataSpells | src/util/binjson.ts:82-84 | the bytes of hexadecimal text, well formed or not, spell the base-16 number of the digits that count, and are half as many, rounded up |
| BinJsonText.HexDigitIs | src/util/binjson.ts:138 | the digits are 0 to 9 and a to f in either case |
| BinJsonTheorems.HexReadsAsNumber | src/util/binjson.ts:137-144 | hexadecimal text of digits alone, in any number, is read as the number they spell |
| BinJsonText.Utf8RoundTrip | src/util/binjson.ts:147 | what is printed for a string is well-formed UTF-8 (section 4 of RFC 3629) and holds its characters, a surrogate without its partner as the replacement character |
| BinJsonText.TextIsRecovered | src/util/binjson.ts:147 | a string can be recovered from them if and only if every surrogate has its partner |
| BinJsonMessages.KeyHashes | src/util/binjson.ts:97-103 | the hashes of the keys "a" and "abcdef" are 0x0061 and 0xf387 |
| BinJsonMessages.NumberMessages | test/utils/binData.ts:51-55 | the whole messages for 1, 0xffffff and 0xffffffff |
| BinJsonMessages.ConstantMessages | src/util/binjson.ts:119-122 | the whole messages for null, false and true |
| BinJsonMessages.ArrayMessages | test/utils/binData.ts:47-50 | the whole messages for an empty array and for one with text, hexadecimal text, a number and true |
| BinJsonMessages.ObjectMessage | test/utils/binData.ts:43-46 | the whole message for an object with two keys |
| BinJsonMessages.ReferenceMessage | src/util/binjson.ts:105-114 | the whole message for an array with one byte string twice |
| BinJsonTheorems.EncodingIsUnique | src/util/binjson.ts:116-171 | two trees without a bare "0x" and with one encoding have one meaning |
| BinJsonTheorems.TreeRoundTrip | src/util/binjson.ts:116-171 | decoding what was printed for a subtree, in any reachable state and before any other bytes, gives it back, leaves exactly those bytes, and rebuilds the printer's table |
| BinJsonTheorems.ArrayRoundTrip | src/util/binjson.ts:154-158 | the same for arrays of any length and depth |
| BinJsonTheorems.ObjectRoundTrip | src/util/binjson.ts:159-168 | the same for objects with their hashed keys |
| BinJsonTheorems.ScalarRoundTrip | src/util/binjson.ts:119-153 | the same for every token without children |
| BinJsonTheorems.BlobRoundTrip | src/util/binjson.ts:105-114 | a byte string is read back whether it was printed in full or by reference, and the reader's table then equals the printer's |
| BinJsonTheorems.ReferenceIsSound | src/util/binjson.ts:105-114 | a reference is the index of an earlier token with identical bytes, and clear of the codes of false and true |
| BinJsonTheorems.EncKeepsTable | src/util/binjson.ts:112-118 | over every tree the table keeps pairwise different byte strings with rising indexes of earlier tokens, and each token is counted once |
| BinJsonTheorems.HeadRoundTrip | src/util/binjson.ts:86-95 | type and length are read back from the 5-bit escape, except that an empty length field reads as 27 |
| BinJsonTheorems.NumberRoundTrip | src/util/binjson.ts:71-95 | every length or number below 2^28 is read back |
| BinJson.KeyBytes | src/util/binjson.ts:97-103 | a key becomes the two big-endian bytes of its 16-bit hash |
| BinJsonPrinter.PrintObject | src/util/binjson.ts:44-50 | the printer throws exactly on trees that do not fit the format and otherwise prints the message of the specification |
| BinJsonPrinter.Printer.Encode | src/util/binjson.ts:116-171 | appends the tree's encoding in the current state, counts its tokens, and fails only if the tree or the token count does not fit |
| BinJsonPrinter.Printer.EncodeScalar | src/util/binjson.ts:119-153 | the same for values without children |
| BinJsonPrinter.Printer.EncodeArray | src/util/binjson.ts:154-158 | the loop over the items appends the encoding of the whole array |
| BinJsonPrinter.Printer.EncodeFields | src/util/binjson.ts:159-168 | the loop over the keys appends the encoding of the whole object |
| BinJsonPrinter.Printer.EncodeField | src/util/binjson.ts:163-167 | one hashed key and its value |
| BinJsonPrinter.Printer.EncodeBlob | src/util/binjson.ts:130-131 | a byte string by reference or in full |
| BinJsonPrinter.Printer.EncodeRefIfExists | src/util/binjson.ts:105-114 | prints a reference exactly if the bytes were printed before; otherwise remembers them under the current token and writes nothing |
| BinJsonPrinter.Printer.EncodeTypeAndLength | src/util/binjson.ts:86-95 | appends head and data; fails exactly on a missing length |
| BinJsonPrinter.Printer.Check | src/util/binjson.ts:52-58 | the buffer grows until the bytes fit and nothing written is lost |
| BinJsonPrinter.Printer.AddByte | src/util/binjson.ts:60-63 | one byte is appended across any regrowth |
| BinJsonPrinter.Printer.AddBuffer | src/util/binjson.ts:65-69 | a byte string is appended across any regrowth |
| BinJsonPrinter.BufferFromNumber | src/util/binjson.ts:71-81 | the shifts and masks give the base-256 digits of any number below 2^28 and null from there on |
| BinJsonPrinter.Hash | src/util/binjson.ts:97-103 | the loop computes the key hash and its two bytes |
| BtcSerialize.CopyReverse | src/modules/btc/btc_serialize.ts:55-57 | writes the bytes in reverse at the offset, drops what does not fit and leaves the rest of the buffer |
| BtcSerialize.ToBuffer4 | src/util/util.ts:137-175 | a number becomes four bytes that spell it modulo 2^32 |
| BtcSerialize.SerializeBlockHeader | src/modules/btc/btc_serialize.ts:59-68 | throws exactly for a header without a previous block; for fields of the usual lengths the buffer ends up with the 80-byte layout |
| BtcSerialize.LayoutIsReadable | src/modules/btc/btc_serialize.ts:59-68 | every field can be read back from the 80 bytes, time and nonce modulo 2^32 |
| BtcMerkle.CreateMerkleProof | src/modules/btc/btc_merkle.ts:3-10 | fails exactly if the transaction is not in the block; otherwise returns the branch of its first occurrence |
| BtcMerkle.CreateProofs | src/modules/btc/btc_merkle.ts:13-35 | although every level overwrites the one below in place, the siblings are those of the tree as first given |
| BtcMerkle.ReduceLevel | src/modules/btc/btc_merkle.ts:14-31 | one round replaces the words by the next level while the unread words stay intact, the odd last word paired with itself, and adds one sibling |
| BtcMerkle.ReadSibling | src/modules/btc/btc_merkle.ts:17-23 | the sibling is read before its word is overwritten |
| BtcMerkle.HashPair | src/modules/btc/btc_merkle.ts:24-30 | the hash of the pair, an odd last word doubled |
| BtcMerkle.BranchLeadsToRoot | src/modules/btc/btc_merkle.ts:13-35 | for two or more transactions, folding any leaf with its siblings along the bits of the index gives the recursively defined Merkle root |
| BtcMerkle.BranchLength | src/modules/btc/btc_merkle.ts:13-35 | the number of siblings is the binary logarithm of the number of transactions, rounded up |
| BtcMerkle.SingleTransactionBranch | src/modules/btc/btc_merkle.ts:14-31 | a single transaction is its own sibling, which verifies only if its pair hashes to itself |
| BtcMerkle.BranchBinds | src/modules/btc/btc_merkle.ts:13-35 | a branch that verifies for another leaf at the index yields two explicit different 64-byte strings with one hash |
| BtcMerkle.ProofVerifies | src/modules/btc/btc_merkle.ts:3-10 | the concatenated proof, cut into words, leads from the reversed transaction id to the root |
| BtcTarget.ReverseCopy | src/modules/btc/BTCHandler.ts:462-470 | the digit pairs in reverse order |
| BtcTarget.PairsReversedIsReversed | src/modules/btc/BTCHandler.ts:462-470 | reversing digit pairs reverses the bytes they spell |
| BtcTarget.GetDapTarget | src/modules/btc/BTCHandler.ts:412-424 | the target text is that of the bits field at bytes 72 to 75, whose digits stand reversed |
| BtcTarget.TargetIsNBits | src/modules/btc/BTCHandler.ts:417-421 | the target read back from a serialized header is mantissa times 256^(exponent-3), in 64 digits exactly up to exponent 32; it is the target of "Target nBits" in the Bitcoin Developer Reference, sign bit included, if and only if the mantissa is 0, or the exponent is at least 3 and the mantissa not negative |
| BtcTarget.TargetOfBitsIsNBits | src/modules/btc/BTCHandler.ts:418-421 | the same from the four bytes of the bits field |
| BtcTarget.NegativeTargetIsRead | src/modules/btc/BTCHandler.ts:417-421 | the bits 0x04923456, whose target is zero for the standard, are read as 0x92345600 |
| BtcTarget.StringOrderIsNumeric | src/modules/btc/BTCHandler.ts:374 | comparing two targets as text is comparing them as numbers |
| BtcLimits.IsWithinLimits | src/modules/btc/BTCHandler.ts:433-459 | the bytes compared as buffers decide the numeric comparison of the raised window; fails exactly where the window starts before the buffer or overflows 32 bits |
| BtcLimits.RaiseWindow | src/modules/btc/BTCHandler.ts:447-450 | the number in the buffer changes only in its window, or the write is out of range |
| BtcLimits.FindWindow | src/modules/btc/BTCHandler.ts:439-445 | the window ends at the last byte that is not zero |
| BtcLimits.Compare | src/modules/btc/BTCHandler.ts:452-458 | the first difference decides |
| BtcLimits.CompactTargets | src/modules/btc/BTCHandler.ts:433-459 | for compact targets and up to 25500 percent the window never overflows and the answer is true exactly when (100+maxDiff)·⌊start/u⌋ ≥ 100·(dst/u); so a target more than maxDiff percent higher is never accepted |
| BtcLimits.HeaderTargetsAreCompact | src/modules/btc/BTCHandler.ts:417-421 | every target of a header with exponent 3 to 29 and a non-zero mantissa is compact |
| BtcDaps.Accept | src/modules/btc/BTCHandler.ts:374 | comparing hexadecimal text and byte windows decides the hop as the numbers do: a lower target, a neighbour, or a target within the limits; fails exactly where a target is unknown or the comparison throws |
| BtcDaps.VerdictAcceptsNeighbours | src/modules/btc/BTCHandler.ts:374 | neighbouring periods are never rejected, which is what ends the inner loop |
| BtcDaps.HeadersGiveHeaderTargets | src/modules/btc/BTCHandler.ts:417-421 | what is read from a header with exponent 3 to 29 and a non-zero mantissa meets the assumption of the next row |
| BtcDaps.HopRaisesAtMostMaxDiff | src/modules/btc/BTCHandler.ts:371-386 | on header targets, judging never throws, is decided exactly by the percentage condition, and an accepted hop over more than one period raises the target by at most maxDiff percent |
| BtcDaps.BtcProofTarget | src/modules/btc/BTCHandler.ts:328-387 | parameter checks in order, then the search, for every maxDap and every limit; both loops end |
| BtcDaps.SearchPath | src/modules/btc/BTCHandler.ts:350-387 | the nested loops compute the recursive search in both directions, and away from the target with a negative maxDap |
| BtcDaps.BackOff | src/modules/btc/BTCHandler.ts:371-386 | the inner loop finds the first acceptable period from any start, on whichever side |
| BtcSearch.SearchLeads | src/modules/btc/BTCHandler.ts:350-387 | with a positive span the path moves strictly towards the target and stays before it, every hop is accepted and spans no more, the room is kept, with room left the target is within the span of the last period, and an empty path means the target itself is a hop away; with a negative span every step is accepted and leads further away, and the room is used up |
| BtcSearch.AnswerLeads | src/modules/btc/BTCHandler.ts:328-387 | the same for every answered request, with at most 40 periods unless the limit is negative |
| BtcAnswers.SearchExactly | src/modules/btc/BTCHandler.ts:350-387 | for every judge, either sign of the span and every limit, the search answers a path if and only if each hop is accepted and every longer one within the span, up to the target, is rejected (with a negative span: every shorter one of at least its size), and nothing ends the path but the limit, the target, or a hop from a period whose span reached the target |
| BtcAnswers.NoLongerHop | src/modules/btc/BTCHandler.ts:361-385 | in every answer to a request with a positive maxDap, whatever lies beyond a hop's end, up to the target and within maxDap, is rejected |
| BtcAnswers.NextIsBest | src/modules/btc/BTCHandler.ts:361-385 | one round of the outer loop finds that longest hop |
| BtcAnswers.StridesAreAnswered | src/modules/btc/BTCHandler.ts:361-385 | where every hop is accepted, the answer is the multiples of maxDap from the verified period on, before the target, cut at the limit |
| BtcAnswers.TwentyByTwenty | src/modules/btc/BTCHandler.ts:361-385 | from 100 to 200 with a maxDap of 20 it is 120, 140, 160, 180 |
| BtcDaps.ConstantTargetsStride | src/modules/btc/BTCHandler.ts:361-385 | so it is on every chain whose targets stay the same on the way |
| BtcAnswers.LimitCuts | src/modules/btc/BTCHandler.ts:332 | a limit from 1 to 40 cuts the path without a limit there, 0 and higher ones at 40, and a negative one not at all |
| BtcAnswers.RejectsExactly | src/modules/btc/BTCHandler.ts:328-345 | which requests are searched for and what the others are told |
| BtcSearch.RangeExactly | src/modules/btc/BTCHandler.ts:328-387 | an answer over more than one period stays strictly between the two periods if and only if the span is not negative |
| BtcSearch.NegativeMaxDapStrays | src/modules/btc/BTCHandler.ts:361 | from 100 to 200 with a maxDap of -1 the answer is 99, 98 and so on down to 60 |
| BtcDaps.ChainStrays | src/modules/btc/BTCHandler.ts:361 | so it is on every chain that has these periods |
| BtcSearch.EveryDapIsListed | src/modules/btc/BTCHandler.ts:347-348 | without tolerance an answer lists exactly the periods strictly between, cut at the limit, whatever maxDap is, if no step on the way fails |
| BtcDaps.ChainListsEveryDap | src/modules/btc/BTCHandler.ts:347-348 | no step fails if the targets of the periods on the way are known |
| BtcSearch.SingleSteps | src/modules/btc/BTCHandler.ts:350-387 | the same for a search with a span of one period |
| BtcSearch.ClientArrives | src/modules/btc/BTCHandler.ts:328-387 | a client that asks again from the last period of each answer gets a chain of accepted hops all the way, the last hop to the target included; with a negative span it never does |
| BtcSearch.ArrivesExactly | src/modules/btc/BTCHandler.ts:360-387 | for each target: every answer with room left ends at a period that reaches it, if and only if backing off from it, from a period within the span, never ends at one that does not |
| BtcSearch.ArrivesWithRoom | src/modules/btc/BTCHandler.ts:360-387 | the one direction for one search, by following its path |
| BtcDaps.SingleAnswerFallsShort | src/modules/btc/BTCHandler.ts:363-385 | on a chain with targets 1, 2, 4 and 8, 15 percent allowed, the way from 1 to 4 is answered with 2 alone: the limit flag set before a back-off stays set |
| BtcDaps.EveryAnswerArrivesExactly | src/modules/btc/BTCHandler.ts:360-387 | for each maxDiff: on every chain every answer with room left ends at a period that reaches the target, if and only if maxDap is at most 2 or the limit is 1 |
| BtcDaps.ShortSpansArrive | src/modules/btc/BTCHandler.ts:380-385 | backing off over at most two periods ends at a neighbour of the target, on every chain |
| BtcDaps.LongSpansFallShort | src/modules/btc/BTCHandler.ts:363-385 | whatever maxDiff is, for every maxDap above 2 and every other limit there is a chain, the same for all of them, on which the way from 1 to 4 is answered with 2, which does not reach 4 |
| BtcSearch.NegativeLimitIsNone | src/modules/btc/BTCHandler.ts:332 | every negative limit returns 98 periods in one answer |
| BtcSearch.FortyExactly | src/modules/btc/BTCHandler.ts:332 | whatever the chain, all answers to requests with this limit have at most 40 periods, if and only if the limit is not negative |
| BtcCache.BTCCache.GetOrCreate | src/modules/btc/btc_cache.ts:140-151 | finds the record or adds one that knows only its key; coherence is kept |
| BtcCache.BTCCache.GetBlockHeaders | src/modules/btc/btc_cache.ts:29-87 | under hashes or heights, repeated or not, the answer is position by position that of a lookup without a cache; it fails exactly if a block is unknown or has no previous block, or if the node is needed and fails; the cache stays coherent in any case |
| BtcCache.BTCCache.GenesisIsNotServed | src/modules/btc/btc_cache.ts:57-87 | a request for height 0 always fails, in whatever state the cache is |
| BtcCache.BTCCache.FetchHeaders | src/modules/btc/btc_cache.ts:34-51 | asking the node fails exactly for the two reasons; otherwise every record has its header |
| BtcCache.BTCCache.GetCoinbases | src/modules/btc/btc_cache.ts:89-121 | the same for coinbase transactions and transaction ids; a block without a previous one fails exactly while its record is incomplete, and the failing request completes it |
| BtcCache.BTCCache.FetchBlocks | src/modules/btc/btc_cache.ts:94-117 | asking the node for blocks fails exactly for the two reasons; otherwise every record is complete |
| BtcCache.BTCCache.SetBlock | src/modules/btc/btc_cache.ts:123-138 | throws exactly for a block without a previous one, and where the coinbase is needed and cannot be fetched; otherwise the block is known under both keys; what was filled in stays coherent |
| BtcCache.BTCCache.FillHeaders | src/modules/btc/btc_cache.ts:41-51 | filling shared records stops exactly at the first block without a previous one: the records before it have their headers, the others are as they were, and no shared record is broken |
| BtcCache.BTCCache.FillBlocks | src/modules/btc/btc_cache.ts:106-117 | the same for coinbases, where the record that stops the loop is complete but for its header |
| BtcCache.BTCCache.FetchAll | src/modules/btc/btc_cache.ts:34-37 | all blocks asked for, or a failure that is due to the node or an unknown block |
| BtcCache.BTCCache.MissingHeaders | src/modules/btc/btc_cache.ts:31 | the positions to fetch are those without a header, or all of them for the full answer |
| BtcCache.BTCCache.Register | src/modules/btc/btc_cache.ts:48-50 | a record gets the block's second key unless that key has a record; sharing stays confined to one block |
| CliqueVotes.RunRefines | src/server/poa.ts:245-287 | the overwritten vote tables always represent a poll that remembers every header, whatever the headers |
| CliqueVotes.StepRefines | src/server/poa.ts:248-286 | one header appends a state exactly if the poll has a majority of signers whose last votes agree with it |
| CliqueVotes.DecidesExactly | src/server/poa.ts:262-285 | the same at the end of any run |
| CliqueVotes.MajorityIsMoreThanHalf | src/server/poa.ts:268 | a majority is more than half of the list |
| CliqueVotes.ApplyChangesOne | src/server/poa.ts:269-273 | the target is entered at the end, or its first entry taken out and the others left in place |
| CliqueVotes.AgreeingCountsSupporters | src/server/poa.ts:261-266 | the number of proof headers is the number of different signers whose last vote has the direction |
| CliqueVotes.StatesAreJustified | src/server/poa.ts:268-285 | every appended state follows from the one before by one change, and its proof holds at least ⌊n/2⌋+1 headers of the run by pairwise different signers, all for one target and one direction |
| CliqueVotes.NoHeaderTwice | src/server/poa.ts:261-284 | no header of the run is in the proofs of two states, nor still pending once it was used |
| CliqueVotes.UpdatesCompose | src/server/poa.ts:245-287 | updating with two lists in a row is updating once with both |
| CliqueStrict.AgreesExactly | src/server/poa.ts:245-287 | over every run the code counts as a poll in which only validators vote and the votes of a dropped validator are discarded, if and only if every vote is signed by a validator of its time and drops nobody who has voted on somebody else, or is a stranger's vote that drops nobody from a list of at most one |
| CliqueStrict.StepAgreesExactly | src/server/poa.ts:254-285 | the same for one header, in both directions |
| CliqueStrict.StrangerParts | src/server/poa.ts:254-261 | a vote by a signer outside the list changes the count, where the strict poll ignores it, unless it drops nobody |
| CliqueStrict.LeftoverParts | src/server/poa.ts:283-284 | after a drop the votes of the dropped validator on others remain |
| CliqueStrict.StrangersDecide | src/server/poa.ts:268-285 | two strangers enter a third into a list of two |
| CliqueLists.StepKeepsDistinct | src/server/poa.ts:268-285 | a list without duplicates gets one exactly from a majority for adding a validator who is on it |
| CliqueLists.DistinctExactly | src/server/poa.ts:268-285 | from an epoch list without duplicates on, the list is free of them after every header, if and only if no header brings about such a majority |
| CliqueLists.DoublingRaisesMajority | src/server/poa.ts:268-271 | one validator entered twice needs two signers: the vote that would have entered a second validator then enters nobody, and the list alone cannot make up for it |
| CliqueHistory.History.UpdateVotes | src/server/poa.ts:245-287 | the loop that changes the history computes the run, up to the first header that is missing or whose signer cannot be recovered; the last checked block is set all the same |
| CliqueHistory.History.CountVote | src/server/poa.ts:248-286 | one header changes exactly the fields it should, or throws |
| CliqueHistory.History.UpdateCliqueHistory | src/server/poa.ts:289-315 | epochs, then the last blocks; where a reply or an epoch list is bad it throws and leaves the history it had come to |
| CliqueHistory.History.FinishEpoch | src/server/poa.ts:300-308 | the votes up to the epoch block in chunks until its list is reached, then the list of the header |
| CliqueHistory.History.ReadLastBlocks | src/server/poa.ts:311-313 | a hundred blocks at a time, until the end or a bad reply |
| CliqueHistory.ReadsExactly | src/server/poa.ts:311-313 | reading in chunks comes to its end, at the current block and with the history of one pass over all blocks, if and only if no reply stops it |
| CliqueHistory.ChunksAreOnePass | src/server/poa.ts:230-234 | without a bad reply the chunks from any block on complete the single pass |
| CliqueHistory.StopSkipsChunk | src/server/poa.ts:245-262 | a bad reply ends the update after a pass up to the block before it, and the rest of its chunk is never counted, unless the chunk's last block is missing |
| CliqueHistory.ChunkExtends | src/server/poa.ts:230-234 | what was read and one more chunk are one pass up to the chunk's end |
| CliqueHistory.CaughtUpEndsThere | src/server/poa.ts:311-313 | the pass visits each block after the last checked one once and in order, and ends at the current block |
| CliqueHistory.CaughtUpTwice | src/server/poa.ts:311-313 | passes in a row are one pass |
| CliqueHistory.UpdatesWithinEpoch | src/server/poa.ts:289-315 | within an epoch and without a bad reply, updating whenever the chain has grown leaves the history of one update at the end, a single pass |
| CliqueHistory.EpochsForget | src/server/poa.ts:295-309 | after an epoch block, validators, pending votes and position depend on its header alone |
| CliqueHistory.NextEpochIsNext | src/server/poa.ts:295 | the epoch blocks read are the multiples of the epoch, from the first that is not checked yet |
| CliqueHistory.SameListExactly | src/server/poa.ts:213-219 | lists are compared entry by entry, in order and whatever the case |
| CliqueHistory.UpdateIsJustified | src/server/poa.ts:289-315 | after an update across an epoch, every state since the last epoch block is justified by headers of those blocks alone, from the epoch's own list |
| CliqueHistory.CaughtUpIsJustified | src/server/poa.ts:311-313 | the same for the last blocks |
| CliqueEpochs.EveryStateIsJustified | src/server/poa.ts:289-315 | over any number of updates, across epochs, finished or stopped by a bad reply: every state appended follows from the validators before by one change with a majority of different signers, in headers of the chain counted since the start of the state's own epoch, each once; between epochs only the list of an epoch block is taken over |
| CliqueEpochs.UpdateLives | src/server/poa.ts:289-315 | an update, finished or stopped, carries on the last epoch with further headers in rising order and opens new ones, without pending votes; no earlier epoch changes |
| CliqueEpochs.LifeJustifies | src/server/poa.ts:245-315 | every state appended in such a succession of epochs is justified within one of them |
| CliqueEpochs.CountedIsRun | src/server/poa.ts:245-287 | counting replies up to the first that stops is the run over the headers counted, where one without a signer only opens its candidate's votes |
| CliqueUpdates.UpdateIsComplete | src/server/poa.ts:289-315 | over any number of epochs, an update comes to its end if and only if every epoch list is there and no reply that is counted stops it, and it then adds exactly the decisions of the poll, in order: none before an epoch block with an unchanged list, before one with a changed list those up to the end of the search, and those after the last epoch block |
| CliqueUpdates.PassesExactly | src/server/poa.ts:298-309 | an unchanged epoch list adds no state; for a changed one the states are those of one run over the headers from the last checked block to the end of the search, and only a reply among these stops it |
| CliqueUpdates.EndsThere | src/server/poa.ts:302-305 | the search ends at the first end of a chunk at which the validators are those of the list, or else at the epoch block |
| CliqueUpdates.RunDecides | src/server/poa.ts:245-287 | a run adds a state, with its block and list, for each header that gives the poll a majority, and no others |
| CliqueUpdates.EveryDecision | src/server/poa.ts:262-285 | the decisions are exactly those of the headers that decide when they come |
| CliqueUpdates.DecidedBeforeEpoch | src/server/poa.ts:300-306 | with a changed list, every header up to the end of the search that decides has its state after the update |
| CliqueUpdates.LastChangeIsLastState | src/server/poa.ts:276-281 | after any update, finished or not, states were only appended, and the last change is the block of the last one appended, if any was |
| AuraFinality.AddFinalityForTransition | src/server/poa.ts:320-360 | exactly as many consecutive headers as it takes until more than half of the validators have signed, or until the bound or the end of the chain |
| AuraFinality.LeastFinal | src/server/poa.ts:320-360 | that number is the least at which more than half of the validators have signed, two rounds or the last block is reached, or there is no next block; the headers are those of just so many blocks, in order |
| AuraFinality.SignersExactly | src/server/poa.ts:351-353 | the signers counted are those of the transition and of these blocks |
| AuraFinality.AddSigner | src/server/poa.ts:351-353 | the list of signers holds each signer once |
| EvmTrace.Analyse | src/modules/eth/evm_trace.ts:183-250 | throws exactly on traces that are not accepted; otherwise the shared record gets all events of all nested executions in order |
| EvmTrace.AnalyseOp | src/modules/eth/evm_trace.ts:201-247 | one operation is accepted or not, recorded, and moves the rebuilt stack |
| EvmTrace.AnalyseCall | src/modules/eth/evm_trace.ts:207-226 | the callee is recorded and the inner trace analysed on the storage the kind of call selects |
| EvmTrace.RecordPlain | src/modules/eth/evm_trace.ts:227-234 | what a plain operation touches |
| EvmTrace.MoveStack | src/modules/eth/evm_trace.ts:236-242 | popping and pushing one by one moves the stack as a whole, an empty stack included |
| EvmTrace.AnalyseTransaction | src/modules/eth/evm_trace.ts:183-199 | a fresh record starts with the transaction's own account and code |
| EvmTrace.AttributionDecides | src/modules/eth/evm_trace.ts:207-234 | by the analyser's own rules, a creation put right to work on the new account: for every accepted trace the analysis yields these events in order if and only if, wherever an execution uses its own storage, the two storage accounts are one |
| EvmTrace.NoCreationsAttribute | src/modules/eth/evm_trace.ts:208-219 | that is so without creations: DELEGATECALL and CALLCODE keep the storage account, CALL and STATICCALL switch it |
| EvmTrace.EventsAreProduced | src/modules/eth/evm_trace.ts:207-234 | the corrected events are those some operation of some nested execution brings about |
| EvmTrace.FootprintIsExact | src/modules/eth/evm_trace.ts:183-250 | for those traces the recorded storage keys and accounts are exactly those recorded before and those some operation touches by the corrected rules |
| EvmTrace.RecordedKeys | src/modules/eth/evm_trace.ts:199-230 | no later or deeper step loses a storage key, and none appears without an event |
| EvmTrace.RecordedAccounts | src/modules/eth/evm_trace.ts:199 | the same for accounts |
| EvmTrace.LastIsNoted | src/modules/eth/evm_trace.ts:207-234 | of the events about one slot, balance or code, the value of the last one is recorded |
| EvmFootprint.TableIsStandard | src/modules/eth/evm_trace.ts:35-180 | the table lists every operation of the EVM but CHAINID, SELFBALANCE and CREATE2, with the words it takes and leaves |
| EvmFootprint.AcceptedExactly | src/modules/eth/evm_trace.ts:201-242 | the trace of an execution is accepted if and only if every operation is listed and none fails |
| EvmFootprint.StackIsRebuilt | src/modules/eth/evm_trace.ts:236-242 | the stack rebuilt from the reported words is the one every operation of the execution found |
| EvmFootprint.RecordedIsSeen | src/modules/eth/evm_trace.ts:183-250 | the record holds exactly the keys read, each on the account booked for its execution, and the accounts asked about or called into |
| EvmFootprint.EventsAreSites | src/modules/eth/evm_trace.ts:201-234 | the events of the trace are those of the operations of all nested executions, one by one and in order, with their operands and results |
| EvmFootprint.BlocksExactly | src/modules/eth/evm_trace.ts:227-228 | the recorded block numbers are those that BLOCKHASH is asked for, in order |
| EvmFootprint.LastValueIsRecorded | src/modules/eth/evm_trace.ts:199-234 | the value recorded for a slot, a balance or a code is that of the last operation recorded for it; without one only the first account has its code |
| EvmFootprint.KeysExactly | src/modules/eth/evm_trace.ts:183-250 | the recorded storage keys are those the execution reads or writes, if and only if every slot written, and every slot read under a wrong account, is covered by another read |
| EvmFootprint.WritesMustBeRead | src/modules/eth/evm_trace.ts:229-230 | where no constructor runs, they are if and only if every slot written is also read |
| EvmFootprint.NoAccountIsInvented | src/modules/eth/evm_trace.ts:207-234 | every recorded account is touched by the execution |
| EvmFootprint.AccountsExactly | src/modules/eth/evm_trace.ts:207-234 | the recorded accounts are those the execution touches, if and only if every heir of a destruction, callee without an execution and account created is recorded for another reason |
| EvmFootprint.StoreIsMissed | src/modules/eth/evm_trace.ts:227-234 | PUSH, PUSH, SSTORE touches a slot and nothing is recorded for it |
| EvmFootprint.CreationIsMisattributed | src/modules/eth/evm_trace.ts:209-211 | a constructor's read is recorded for the creator, whose slot is not touched, and missed for the new account |
| EvmFootprint.CreatedAccountIsMissed | src/modules/eth/evm_trace.ts:209-211 | an account that is created is touched, and the record does not hold it |
| ClientBudget.Limiter.CheckBudget | src/server/clients.ts:87-121 | charges the client in every case and accepts exactly within the budget of its window |
| ClientBudget.Limiter.RunTimer | src/server/clients.ts:106-109 | a timer deletes the windows that had ended when it was set, and nothing else |
| ClientBudget.CleanUpIsInvisible | src/server/clients.ts:103-110 | whatever timers run, and however late, every request is decided as if none ever ran |
| ClientBudget.RunsStayAlike | src/server/clients.ts:91-110 | over every run the table lacks at most windows that have ended |
| ClientBudget.AcceptedExactly | src/server/clients.ts:87-121 | over every run, timers or not, a request is accepted if and only if there is no budget, or all requests of the client since its window opened, rejected ones and this one included, cost no more; the window opens with the client's first request, or its first one more than 60000 ms after the opening before |
| ClientBudget.WindowIsCharged | src/server/clients.ts:90-100 | the table holds each client's window with the cost since its opening |
| ClientBudget.CleanUpsAreRare | src/server/clients.ts:103-106 | a clean-up is scheduled at the first request and at each first one more than 120000 ms after the last |
| ClientBudget.OldWindowsGo | src/server/clients.ts:106-109 | with timers that run at once, no window is held that ended before the last clean-up |
| ClientBudget.TwoWindows | src/server/clients.ts:94-120 | in a span of a minute at most two windows of a client are spent from |
| ClientBudget.SpanBudget | src/server/clients.ts:87-121 | in any span of 60000 ms a client gets at most twice its budget accepted |
| ClientBudget.TwiceTheBudget | src/server/clients.ts:94-97 | and twice the budget is reached |
| LruCache.LRUCache.Get | src/util/cache.ts:147-159 | a copy of the value of the entry, which moves to the front of the list |
| LruCache.LRUCache.MoveToFront | src/util/cache.ts:151-156 | the key list stays a permutation that matches the map |
| LruCache.LRUCache.Set | src/util/cache.ts:161-173 | a new entry in front, the last one dropped at the limit; a known key changes nothing |
| LruCache.LRUCache.RemoveLast | src/util/cache.ts:164-167 | list and map lose the same entry |
| LruCache.LRUCache.Has | src/util/cache.ts:143-145 | whether the list holds the key |
| LruCache.LRUCache.Clear | src/util/cache.ts:179-182 | the empty list |
| LruCache.RunInOrder | src/util/cache.ts:147-173 | over every run of operations the entries stand in the order of their last hit or insertion and hold the values they were inserted with |
| LruCache.EvictsLeastRecentlyUsed | src/util/cache.ts:161-168 | what is evicted was last used before everything that is kept |
| LruCache.HeldExactly | src/util/cache.ts:147-182 | over every run, a key is held if and only if it was inserted or hit since the last clearing and fewer than the limit of other keys were since its own last use; a limit below 1 evicts nothing |
| LruCache.HeldSince | src/util/cache.ts:151-156 | the place of a held key is the number of keys used since |
| LruCache.HitReturnsInserted | src/util/cache.ts:147-173 | a hit returns the value first set since the key's last eviction |
| LruCache.SizeStaysWithinLimit | src/util/cache.ts:164 | with a limit of at least 1 the cache never outgrows it |
| LruCache.OtherLimitsAreNone | src/util/cache.ts:164 | with any other limit it grows without bound |
| RandomIndexes.CreateRandomIndexes | src/util/util.ts:231-242 | the loop computes the walk, for as many rounds as it is given, on an empty list too |
| RandomIndexes.ChoiceIsValid | src/util/util.ts:231-242 | the result keeps the given indexes and has exactly the length asked for; it is pairwise different and in range if and only if the list is not empty or nothing is to be added |
| RandomIndexes.NothingIsFound | src/util/util.ts:233 | on an empty list the loop ends, filled up with what is not a number |
| RandomIndexes.ChoicesNest | src/util/util.ts:231-242 | the choice for a limit is a prefix of the choice for the next |
| RandomIndexes.WalkExactly | src/util/util.ts:231-241 | the walk starts at the second six bytes of the seed modulo the length, and after any number of rounds stands there plus all its steps; a step is the first six bytes of the seed, hashed as many times as a round found its index chosen |
| RandomIndexes.ChoiceIsWalk | src/util/util.ts:234 | the choice is what the walk has chosen after the least number of rounds that chooses enough |
| RandomIndexes.MoreThanAllNeverEnds | src/util/util.ts:234 | a limit above the number of nodes, if there are any, is never reached |
| Signing.HandleSign | src/chains/signatures.ts:303-357 | signs exactly if there is a key, every upstream puts every block deep enough below its own head, and every further upstream confirms the first one's blocks; what is signed are the first one's |
| Signing.CheckUpstream | src/chains/signatures.ts:318-328 | an upstream passes exactly if it has a head and all blocks are found and deep enough |
| Signing.DepthExactly | src/chains/signatures.ts:323-324 | deep enough is from the configured height below the head on |
| Signing.ConfirmedHashesAgree | src/chains/signatures.ts:333-350 | upstreams that echo distinct block numbers and confirm the first have the same hash for every one of them |
| Signing.AgreementExactly | src/chains/signatures.ts:333-350 | confirmation between echoing upstreams means the same hash for every requested block if and only if the requested numbers are distinct |
| Signing.ConfirmsExactly | src/chains/signatures.ts:336-348 | under that echo an upstream confirms the first if and only if all blocks are the same and no hash occurs twice |
| Signing.ConfirmationNeedsTheEcho | src/chains/signatures.ts:336-348 | without the echo a confirming upstream may have other blocks |
| Watcher.Watcher.UpdateOnce | src/chains/watch.ts:196-235 | the log range of an update, none without a registry contract, and the head saved only if nothing failed |
| Watcher.Watcher.SetBlock | src/chains/watch.ts:129-140 | the block is saved |
| Watcher.LogsTile | src/chains/watch.ts:201-235 | over every run of updates with heads that do not fall and a contract for every new head, failures included, the log ranges cover each block number from the start on once and in order |
| Watcher.LogsTileExactly | src/chains/watch.ts:201-235 | the ranges tile the chain after every update of a run if and only if no successful update sees a lower head than the saved one, or a new one without a contract |
| Watcher.FreshWatcherTiles | src/chains/watch.ts:213 | a watcher without a saved block reads from block 0 on, each block number once and in order |
| Watcher.FallingHeadRepeats | src/chains/watch.ts:196-235 | a falling head makes blocks be read twice |

## Left out

- HTTP, Koa, axios, the database, Sentry, Prometheus, logging, configuration and request routing: plumbing.
- Cryptography, RLP, the Merkle-Patricia trie, the execution of the EVM and the ABI coder: external libraries; hashes, signers and serialized headers are parameters or inputs.
- Interleavings of promises: every public method is one step or a failing step; only the limiter's clean-up is a step of its own.
- BinJson: negative and fractional numbers, functions and symbols, which the format does not carry; the counter `byteIdx`, which is written and never read (src/util/binjson.ts:110, 170).
- BtcDaps.BtcProofTarget: parameters that are no integers, and the assembly of the answer from the path (src/modules/btc/BTCHandler.ts:389-409), which fetches finality headers and coinbases.
- BtcDaps: targets of more than 64 digits (exponents above 32), which no valid header has; `getFinalityBlocks`, a single counting loop.
- BtcLimits.IsWithinLimits: rounding of the percentage in double precision; below 2^53 the product is exact.
- BtcCache.BTCCache.GetBlockHeaders: keys are hashes or heights rather than text, and a fetch answers all or nothing; a node that answers differently for one block at two times is not modelled.
- BtcCache.BTCCache.GetCoinbases: a node that refuses the coinbase of the first block is one that fails.
- BtcSerialize.SerializeBlockHeader: what uninitialised memory holds where a field is shorter than usual.
- BtcSerialize.ToBuffer4: values that are no numbers.
- CliqueHistory.History.UpdateCliqueHistory: the lists in epoch headers are input; `getValidatorList` (src/server/poa.ts:221-228) cuts them every 32 digits, where an address has 40. A request for a chunk that fails as a whole is a chunk of missing replies.
- AuraFinality.AddFinalityForTransition: the rest of the Aura history, which follows contract events.
- EvmFootprint.RecordedIsSeen: words name accounts as they are, where the EVM drops their upper twelve bytes.
- ClientBudget.Limiter.CheckBudget: `calculateCosts`, a table of constants; costs are input.
- LruCache.LRUCache.Get: what the spread of a value copies (src/util/cache.ts:158) is a parameter; `SimpleCache` and `toString`.
- RandomIndexes.CreateRandomIndexes: the loop is bounded by a number of rounds, and the lemmas hold for every number.
- Signing.HandleSign: the signatures themselves, and which of several failing upstreams is reported first; block numbers are compared as numbers; `collectSignatures`.
- Watcher.Watcher.UpdateOnce: the hash saved beside the block number, decoding and emitting events, the database, and `handleConvict` (src/chains/watch.ts:245-400), whose slips (an assignment in place of a comparison, a removal of the last entry) leave no invariant to prove.
- `ThreadPool.waitForThreads`, `Stat.check`, `EthHandler.getAuthorities` and `IN3WhiteList.removeNode`: the code departs from its evident intent, so a positive theorem would not be about the code.
