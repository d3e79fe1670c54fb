# algo-did: a verified model of the chunked box store

algo-did stores a DID document for an Algorand address in an on-chain
program, `AlgoDID`. The document is cut into boxes of at most 32768 bytes.
Each box lives in the program's `dataBoxes` map under a uint64 index. A
per-address record `(start, end, uploading, endSize)` gives the range of
boxes and the size of the last box. A counter, `currentIndex`, hands out the
indices.

A client uploads a document in three steps:

1. `startUpload` reserves `numBoxes` consecutive indices and checks the
   deposit.
2. One `upload` call per chunk of at most 1994 bytes. A write at offset 0
   creates the box; every write then overwrites bytes at its offset.
3. `finishUpload` clears the `uploading` flag.

`resolveDID` parses `did:algo:<address>-<appId>`. It refuses a record that
is still uploading, and otherwise concatenates boxes `start..end` in index
order.

The project models three parts:

- **`contract.dfy`, module `AlgoDid`: the program.** It is written twice:
  - as step functions over a `Store` value, which are the specification;
  - as the class `AlgoDID`, whose fields the methods update the way the
    source does.

  Each method is proved to realise its step function. Every call is
  all-or-nothing, as on the AVM. uint64 overflow and underflow are checked
  explicitly.
- **`client.dfy`, module `DidClient`: the TypeScript client.**
  - DID parsing, with JavaScript `split` semantics;
  - resolution against a ledger value;
  - the bounded retry;
  - the deposit formula;
  - the partition of a document into pieces, and of a piece into chunks;
  - the two transaction groups and their write offsets.
- **`go.dfy`, module `GoClient`: the Go port.**
  - its deposit formula, partition and chunk loops;
  - the offsets `SendTxGroup` writes at;
  - the big-endian box keys;
  - the metadata field order;
  - the loop that builds the deletion groups and the loop that runs them.

Two more files support these:

- **`roundtrip.dfy`, module `RoundTrip`: the client's writes fed to the
  program's `upload`.** It proves that a document whose length is not a
  multiple of 32768 is stored box by box and resolves back to itself after
  `finishUpload`. It also proves what goes wrong for the inputs listed
  under Findings.
- **`base.dfy`, module `Base`: shared vocabulary.** uint64 and byte types,
  `Option`/`Result`, concatenation of pieces, zero-filled boxes, in-place
  overwrite and big-endian encoding.

The three source files come from different revisions of the repository.
Each is modelled as written; the places where they disagree are stated as
lemmas below.

## Model

| member | source | states |
|---|---|---|
| Base.Splice | contracts/algo-did.algo.ts:82 | box_replace keeps the box length, puts `data` at `[offset, offset+\|data\|)` and keeps every other byte |
| AlgoDid.CheckedDepositExact | contracts/algo-did.algo.ts:55-58 | evaluating the deposit step by step in uint64 fails exactly when numBoxes is 0 (numBoxes - 1 underflows) or the deposit exceeds 2^64 - 1; otherwise it is the exact integer deposit |
| AlgoDid.StartUploadSpec | contracts/algo-did.algo.ts:36-62 | startUpload succeeds iff no record exists, numBoxes >= 1, the range fits below 2^64, the deposit fits a uint64 and the payment equals it and goes to the program; the new record is (old counter, old counter + numBoxes - 1, 1, endBoxSize), the counter advances by numBoxes, boxes are untouched |
| AlgoDid.StartUploadRejects | contracts/algo-did.algo.ts:55-61 | a payment one unit above or below the deposit is rejected, and numBoxes = 0 is always rejected |
| AlgoDid.UploadGuards | contracts/algo-did.algo.ts:73-83 | upload fails unless a record exists, uploading = 1 and start <= boxIndex <= end; a success changes only box boxIndex, which then holds `data` at the offset |
| AlgoDid.UploadCreates | contracts/algo-did.algo.ts:78-82 | an offset-0 write to a new box creates it with endSize bytes if it is the last box, else 32768, all zero, then writes the data at the front; it succeeds exactly when the size is within the cap and the data fits |
| AlgoDid.UploadOverwrites | contracts/algo-did.algo.ts:82 | a non-zero-offset write succeeds exactly when the box exists and the data fits, and overwrites only those bytes |
| AlgoDid.FinishUploadSpec | contracts/algo-did.algo.ts:91-93 | finishUpload fails iff there is no record; otherwise it sets uploading to 0 and keeps start, end, endSize, the other records, the boxes and the counter |
| AlgoDid.StartUploadFresh | contracts/algo-did.algo.ts:42-53 | from a valid state (disjoint ranges and boxes below the counter), a new range starts at the old counter, lies above every earlier range and box, and validity is kept |
| AlgoDid.AllocationsAscend | contracts/algo-did.algo.ts:42-53 | two successive successful allocations are for different addresses and get ascending, disjoint ranges; the first record is kept |
| AlgoDid.UploadKeepsValid | contracts/algo-did.algo.ts:73-83 | upload keeps the allocation invariant |
| AlgoDid.FinishUploadKeepsValid | contracts/algo-did.algo.ts:91-93 | finishUpload keeps the allocation invariant |
| AlgoDid.AlgoDID.constructor | contracts/algo-did.algo.ts:18-25 | a new program has no records, no boxes and the counter at 0, which is a valid state |
| AlgoDid.AlgoDID.StartUpload | contracts/algo-did.algo.ts:36-62 | the method succeeds exactly when the step function does, and leaves the state the step function gives, or the old state if it fails |
| AlgoDid.AlgoDID.Upload | contracts/algo-did.algo.ts:73-83 | the same, for upload |
| AlgoDid.AlgoDID.FinishUpload | contracts/algo-did.algo.ts:91-93 | the same, for finishUpload |
| DidClient.Split | src/index.ts:18 | split always yields at least one segment |
| DidClient.SplitJoin | src/index.ts:18 | joining the segments with the separator gives the string back, and no segment contains the separator |
| DidClient.SplitWithout | src/index.ts:23 | a string without the separator splits into itself alone |
| DidClient.SplitAfter | src/index.ts:18 | `a + sep + b` with no separator in `a` splits into `a` followed by the segments of `b` |
| DidClient.ParseUint64AcceptsPadded | src/index.ts:34-39 | every uint64 written in decimal, behind any number of leading zeros, is accepted as the app id and read as that number |
| DidClient.ParseUint64OnlyPadded | src/index.ts:34-39 | whatever app id is accepted is the decimal rendering of the returned number behind some leading zeros, so nothing else is accepted |
| DidClient.Decimal | __test__/algo-did.test.ts:92 | the rendering of an app id is a non-empty string of digits |
| DidClient.DecimalValueOf | __test__/algo-did.test.ts:92 | the digits of the rendering have the rendered value |
| DidClient.DecimalRoundTrip | __test__/algo-did.test.ts:92 | parsing the rendering of a uint64 gives the same uint64 back |
| DidClient.ParseDid | src/index.ts:18-39 | parsing succeeds iff segment 0 is "did", segment 1 is "algo", segment 2 exists, its part before '-' decodes to an address and its part after '-' is a uint64; the result holds exactly that key and id |
| DidClient.ParseDidOrder | src/index.ts:20-39 | each kind of error is reported exactly when every earlier check passes and its own check fails, in the order protocol, method, missing identifier segment, address, app id |
| DidClient.ParseDidOfIdentifier | __test__/algo-did.test.ts:92 | the identifier `did:algo:<address>-<appId>` parses to the decoded key and the app id |
| DidClient.AssembleInOrder | src/index.ts:56-63 | reading boxes lo..hi succeeds iff every index of the range has a box, and then yields the boxes concatenated in ascending index order |
| DidClient.ResolveRecordSpec | src/index.ts:48-63 | no record gives NotFound; a non-zero uploading gives StillUploading; a finished record resolves to the boxes start..end concatenated in order when all of them exist, and to BoxUnavailable otherwise; a successful resolution always has uploading = 0 and that content |
| DidClient.ResolveDid | src/index.ts:17-64 | the method, with its loop over start..end, returns exactly the resolution function, errors included |
| DidClient.TryExecute | src/index.ts:66-82 | it succeeds iff one of attempts 1..3 succeeds, and then stops at the first success, after waits 500, 1000, … for the failures before it; otherwise it gives up after waits 500, 1000 and 1500 |
| DidClient.PartitionDocument | src/index.ts:130-138 | the loop builds exactly floor(len/32768) full slices followed by the tail |
| DidClient.PiecesRoundTrip | src/index.ts:130-138 | the pieces concatenate back to the document, so the integrity check at line 194 never fails |
| DidClient.PiecesShape | src/index.ts:98-138 | every piece but the last is 32768 bytes and the last is len % 32768 bytes; if len % 32768 != 0 there are ceilBoxes pieces and endBoxSize > 0; for an exact multiple endBoxSize = 0 and an empty piece is added beyond the ceilBoxes boxes |
| DidClient.ChunkBox | src/index.ts:144-150 | the loop builds exactly the ceil(\|box\|/1994) clipped chunks |
| DidClient.ChunksShape | src/index.ts:144-150 | there are ceil(\|box\|/1994) chunks; each is non-empty and at most 1994 bytes; all but the last are 1994 bytes; they concatenate to the box |
| DidClient.UploadGroupsOffsets | src/index.ts:157-190 | taken in order, the two groups send chunk j at offset 1994 j; the first group has min(8, n) writes, and a second group exists iff there are more than 8 chunks |
| DidClient.GroupSizes | src/index.ts:157-175 | a box of at most 32768 bytes gives at most 17 chunks: at most 8 calls in the first group and 9 in the second |
| DidClient.BoxWritesTile | src/index.ts:142-190 | the writes tile the box: write j starts at 1994 j where write j - 1 ended, ends inside the box, carries exactly the box's bytes there, and the last one ends at \|box\| |
| DidClient.BoxWritesAt | src/index.ts:143-181 | write j goes to the piece's box index at offset 1994 j with the bytes [1994 j, 1994 (j + 1)), clipped to the box |
| DidClient.CorrectedPiecesShape | src/index.ts:98-138 | the corrected partition concatenates to the document and has ceilBoxes pieces, all full but the last, whose length is the corrected endBoxSize, between 1 and 32768 for a non-empty document |
| DidClient.CorrectedAgrees | src/index.ts:98-138 | when len % 32768 != 0 the source's partition and endBoxSize are the corrected ones |
| GoClient.DepositFormulasDiffer | go-example/main.go:299 | the Go deposit is the TypeScript deposit plus 3200 (a 65-byte metadata term); the contract's deposit exceeds them by 22400 n - 25300 and 22400 n - 28500 respectively, which are never 0 |
| GoClient.GoPartitionDocument | go-example/main.go:372-389 | the loop builds floor(len/32768) full slices, then the tail only when len > 32768 |
| GoClient.GoPiecesDropShort | go-example/main.go:386-389 | a document shorter than 32768 bytes yields no pieces, so a non-empty one is not stored |
| GoClient.GoPiecesAgree | go-example/main.go:372-389 | above one box, and when len is not a multiple of 32768, the Go partition is the corrected partition; a document of exactly one box is kept whole |
| GoClient.GoCorrectedPiecesSpec | go-example/main.go:386-389 | with the tail appended whenever bytes remain, the Go partition is the corrected partition and concatenates to the document |
| GoClient.GoChunkBox | go-example/main.go:396-405 | the Go chunk loop builds exactly the TypeScript client's chunks |
| GoClient.GoSecondGroupOverlaps | go-example/main.go:423-426 | with bytesOffset 0 at both call sites, the ninth chunk is written at offset 0 like the first, and second-group chunk j lands at 1994 (j - 8), on a first-group offset for j < 16 |
| GoClient.GoCorrectedAgrees | go-example/main.go:423-426 | with bytesOffset 8 for the second group, the Go writes are exactly the TypeScript client's, which tile the box |
| GoClient.GoBoxKeySpec | go-example/main.go:391-394 | the 8-byte big-endian key decodes back to the box index; two keys are equal iff their indices are; inside the range the index is Start + k, with no wrap |
| GoClient.GetMetadataFieldOrder | go-example/main.go:279-284 | fields 0..3 of the decoded tuple are Start, End, Status, EndSize, which is the contract's order start, end, uploading, endSize; the fifth field is ignored |
| GoClient.DeleteGroup | go-example/main.go:599-631 | a deletion group has five calls, of which exactly one deletes a box: the group's own box, for the DID's key |
| GoClient.DeleteGroups | go-example/main.go:584-637 | the loop builds one group per index Start..End, in order, entry k being for Start + k |
| GoClient.DeletePlanCovers | go-example/main.go:584-637 | every box of the range has exactly its own group, at position b - Start, and the indices ascend strictly within the range; over the whole plan each box of the range is deleted exactly once and no other box is deleted |
| GoClient.ExecuteGroups | go-example/main.go:639-645 | the groups run in order; all groups before the stopping point succeeded, and the run aborts iff some group fails, at the first failing one |
| RoundTrip.ApplyAppend | src/index.ts:173-190 | sending two batches of writes one after the other is sending their concatenation |
| RoundTrip.DocumentWritesAppend | src/index.ts:142-143 | the writes of pieces a + b are the writes of a, then those of b from box start + \|a\| |
| RoundTrip.BoxUpload | src/index.ts:142-190 | the client's writes for one piece, sent to a new box the record sizes to the piece, all succeed and leave exactly the piece in that box, and nothing else changes |
| RoundTrip.DocumentUpload | src/index.ts:142-193 | the writes for pieces that fit the record's boxes, sent to fresh indices, all succeed and place piece k in box start + k |
| RoundTrip.AssemblePlaced | src/index.ts:56-63 | reading back the placed range gives the pieces concatenated |
| RoundTrip.UploadPieces | src/index.ts:115-203 | for pieces that fill an allocation: startUpload succeeds, every write succeeds, the record does not resolve before finishUpload, and after it resolves to the pieces concatenated |
| RoundTrip.UploadThenResolve | src/index.ts:98-203 | for len % 32768 != 0, with the client's ceilBoxes, endBoxSize, partition and writes: the upload succeeds, StillUploading before finishUpload, and exactly the document after it |
| RoundTrip.CorrectedUploadThenResolve | src/index.ts:98-138 | with the corrected partition and endBoxSize, every non-empty document round-trips, exact multiples included |
| RoundTrip.ResolveUploadedDid | __test__/algo-did.test.ts:92-95 | a record that resolves, stored under an application, is what `did:algo:<address>-<appId>` resolves to |
| RoundTrip.ExactMultipleUploadFails | src/index.ts:100 | for a length that is an exact multiple of 32768, endBoxSize is 0, startUpload succeeds, and the client's writes fail |
| RoundTrip.WritesPastRecordFail | contracts/algo-did.algo.ts:78-82 | with n boxes allocated and the last sized 0, sending n full pieces, followed by any further pieces (such as the client's trailing empty piece), fails at the last box |
| RoundTrip.LastBoxFails | contracts/algo-did.algo.ts:79-82 | a box sized 0 cannot take the first chunk of a non-empty piece, so those writes fail, whatever follows |
| RoundTrip.ClientPaymentRejected | src/index.ts:102-106 | the startUpload with the TypeScript client's deposit, and the one with the Go client's, is always rejected |
| RoundTrip.ApplyKeeps | contracts/algo-did.algo.ts:82 | writes at non-zero offsets outside [lo, hi) keep bytes [lo, hi) of the box and its length |
| RoundTrip.OverwriteThenKeep | contracts/algo-did.algo.ts:78-82 | if write i puts `data` at offset 0 and every later write starts at or after \|data\|, a run that succeeds leaves `data` at the front of the box |
| RoundTrip.GoFullBoxOverwritten | go-example/main.go:423-426 | when every Go write for a 32768-byte piece succeeds, the box's first 1994 bytes are the ninth chunk, so the box differs from the piece whenever those two 1994-byte stretches differ |

## Left out

- Network and ledger plumbing is not modelled: algod and kmd clients, `ApplicationClient`, signing, payment-transaction construction, fees and the box-reference lists.
  - The ledger the resolver reads is a map from application id to the program's state.
  - Whether a transaction group executes is a parameter: `attemptSucceeds` in TryExecute, `succeeds` in ExecuteGroups.
- Concurrency is not modelled.
  - The TypeScript client uploads all pieces at once with `Promise.all`; the model sends them one after another. Each box's writes touch only that box, so the order between boxes does not change the final state, but that is not proved.
  - The back-off waits are numbers, not timers.
- AVM transaction groups are atomic, so a failed call inside a group of eight rolls back the whole group. RoundTrip.ApplyWrites stops at the first failing write instead. Both end in a failed upload; the two intermediate states are not distinguished.
- `algosdk.decodeAddress` (base32 with a checksum) is a parameter of type `AddressDecoder`. `encodeUint64` is modelled as the bound below 2^64.
- DidClient.ParseUint64: accepts only non-empty strings of decimal digits. JavaScript `BigInt` also accepts the empty string (as 0), surrounding whitespace and `0x`/`0o`/`0b` prefixes; these are not modelled.
- `Math.ceil` and `math.Ceil` on doubles are modelled as exact integer ceiling division. JavaScript `number` precision is not modelled (the lengths involved are far below 2^53).
- The ledger's `box_create` on a box that already exists is the parameter `Recreate`, because its behaviour is not shown. `box_replace` is modelled as "the bytes must fit inside the box".
- ABI decoding of the metadata box is not modelled. GoClient.GetMetadata takes the decoded tuple. The Go code decodes a five-field type (go-example/main.go:268), while the contract stores four fields (contracts/algo-did.algo.ts:10); whether that decoding succeeds depends on the SDK.
- GoClient.GoBoxWrites: requires at least 8 chunks. `chunks[:8]` with fewer chunks depends on Go slice capacity.
- GoClient.DeleteGroups: requires End < 2^64 - 1. Otherwise the Go uint64 loop variable wraps and the loop does not end. The contract keeps every end below its uint64 counter.
- The contract methods `startDelete`, `deleteData` and `dummy`, which the Go client calls (go-example/main.go:485, 591, 612), are not part of the shown contract. Their effects are not modelled; only the grouping and order of the deletion calls are.
- `deleteDIDDocument` and `updateDIDDocument`, which the tests import (__test__/algo-did.test.ts:12), are not part of src/index.ts and are not modelled.
- RoundTrip.UploadThenResolve: the payment is the contract's own deposit, not the client's. The client's deposit is always rejected (see Findings).
- The minimum balance the ledger demands of the program account is not modelled. Each box raises it by 2500 + 400 × (key bytes + value bytes). The contract's deposit need not cover that: for one box of e bytes the contract asks 28100 + 400 e, while the metadata box (25300) and the data box (5700 + 400 e) raise the minimum balance by 31000 + 400 e (a 32-byte key and a 25-byte record; an 8-byte key and e bytes), 2900 more. So "the upload succeeds" in RoundTrip.UploadThenResolve holds only because the ledger's minimum-balance check is not part of the model; on a ledger it depends on how much the account already holds beyond its minimum.
- The rest of the Go upload is not modelled: re-reading the metadata after startUpload, and the finishUpload call, whose error is not checked. The TypeScript equivalents are covered by the round-trip lemmas.
- src/deploy.ts and the Go functions `CreateApp`, `GetSandboxAccounts` and `main` are deployment plumbing and are not modelled.
- The initial value of `currentIndex` is taken to be 0, the value the AVM reads for a global that was never set.

## Findings

| source | as written | input that shows it | evidently intended | confidence | as-written member | corrected member |
|---|---|---|---|---|---|---|
| src/index.ts:100 | `endBoxSize = len % 32768` is 0 for an exact multiple, so the last allocated box is created with 0 bytes, and an extra empty piece is pushed | a 32768-byte document: the record's only box is sized 0, and the first write to it fails | the last box holds len - (ceilBoxes - 1) * 32768 bytes, which is 32768 for an exact multiple | high (not executed) | RoundTrip.ExactMultipleUploadFails | RoundTrip.CorrectedUploadThenResolve |
| go-example/main.go:426 | the second group is sent with bytesOffset 0, so chunk 8 + i is written at 1994 i, over the first group's bytes | a 32768-byte piece: chunk 8 (bytes 15952..17945 of the piece) is written at offset 0, over chunk 0 | bytesOffset 8, as in src/index.ts:181 | high (not executed) | RoundTrip.GoFullBoxOverwritten | GoClient.GoCorrectedAgrees |
| go-example/main.go:387 | the tail is appended only when len > 32768, so shorter documents yield no pieces | a 100-byte document: no box is written | the tail is appended whenever bytes remain after the full slices | high (not executed) | GoClient.GoPiecesDropShort | GoClient.GoCorrectedPiecesSpec |
| src/index.ts:102-106 | the client pays 8 bytes per key plus a metadata box; the contract charges 64 bytes per key and no metadata box | any length: for one box the client overpays by 2900; for 2 boxes it underpays by 19500 | the client's payment and the contract's deposit agree. The corrected member pays the contract's amount; the client's formula is the one that follows the ledger's per-box minimum balance (2500 + 400 per key and value byte), so the contract's formula may be the side to change | medium (not executed; the two files come from different revisions) | RoundTrip.ClientPaymentRejected | RoundTrip.UploadThenResolve |
