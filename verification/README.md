# A Dafny model of pneumatic_core

Pneumatic gives every token its own hash-chained ledger. This project models the parts of the node, the committer, the
finalizer and the client that carry that promise, and proves what holds over every input, every run and every
interleaving.

| files | what they model |
|---|---|
| `Primitives`, `BigEndians`, `Text`, `LossyText`, `Ordering` | bytes, UTF-8 and its lossy decoding, string operations, hash-map order and canonical key order |
| `Encoding`, `MessagePack`, `Binding` | the abstract encoder, the MessagePack format as an instance of it, and the binding results for that format |
| `Transactions`, `FinalizerDigest`, `Layouts`, `Blocks`, `Chains` | what is hashed and signed and how it reads by field name, block hashes, the chain of blocks and its O(1) and O(n) checks |
| `Tokens`, `Ledgers` | a token's bounded window of blocks, commits with rollback, runs of commits |
| `BlockServices`, `InterleavedCommits` | the write-through cache over a store that fails and crashes; the same with its steps interleaved between threads |
| `SpecEngine`, `Expressions`, `StorageDelta` | the contract stack machine with counted gas, and expressions compiled to it; storage deltas |
| `TransactionPool`, `PoolRuns`, `ArrivalOrder` | the leader's ordered queues and their index, every run of operations on them, and when arrival order leaves no trace |
| `ReceiptJson`, `ReceiptParser`, `FlatJson` | the receipt printer, the client's parser, and the objects it reads |
| `Http`, `Ingress`, `Refusals`, `Chunking`, `Exchange` | HTTP over a socket that splits at will, what each request is answered, when the splitting cannot be seen, and the whole exchange between client and ingress |
| `Framing`, `TornFrames` | length-prefixed frames, the reader, and senders sharing one lock; what a send that stops half way does |
| `GasModel` | fixed-point gas |

Code that changes state in place is a class or a method with a loop, each proved equal to a function on values; the laws
are proved about those functions. `Hasher` is a block hash as a function value; `Blocks.HasherOf` makes one from any
SHA-like function and encoder, so what is proved for every `Hasher` holds of the real hash.

Assumptions, and only these:

- SHA-256 is any function to exactly 32 bytes. Such a function has collisions, so binding results assume their absence
  only for the pairs of inputs they compare.
- The encoder is any partial function from values to bytes. Binding results ask that it be injective
  (`Encoding.Injective`) or, where encodings are concatenated, self-delimiting (`Encoding.SelfDelimiting`). Both are
  proved of the MessagePack format (`MessagePack.FormatSelfDelimiting`), and `Binding` restates the results without them.
- Signature checks and validator specs are arbitrary functions.
- f64 arithmetic is any rounding that keeps order and is exact to 53 bits between 0.0001 and 2^53 (`GasModel.RoundsF64`).
- Sockets, stores, iteration order of hash maps and called contracts are parameters that may behave in any way the
  source allows for.

## Where the code differs from what is expected of it

Each of these is proved with the exact condition and, where the property fails, a failing run.

- **Hash linkage of a token.** The history stays linked from genesis exactly as long as no accepted commit rolls back the
  only stored block while more history lies below it (`Ledgers.RunKeepsLedger`). That can happen at security level 1
  alone, where a second genesis is then accepted after the first (`Ledgers.LevelOneBreaksLinkage`). Level 0 never trims.
- **Trimming tests for equality.** A chain longer than its security level comes back to it only when a rollback first
  brings it down to the level exactly; otherwise it is not cut (`Ledgers.TrimNeedsEquality`).
- **Cache warming is outside the guarded unit.** The comment at `committer/src/block_services.rs:86-94` promises that
  concurrent commits never leave a staler chain in the store than in the cache. The guard covers append and persist; the
  miss, the load and the insert before it are separate steps. A run keeps its promises throughout exactly when every
  insert finds the store as it was loaded (`InterleavedCommits.FreshExactly`); otherwise a commit that was reported can be
  overwritten (`InterleavedCommits.StaleInsertLosesCommit`).
- **What a request is answered can depend on how the network cuts it.** The ingress searches for headers in everything
  read so far, which includes any part of the body that came with the end of the head. It takes the length of the head
  from its lossy decoding, which is longer than the head when some bytes are not UTF-8 (`LossyText.Drift`), and then the
  body starts late (`Chunking.BodyStartsExactly`). And it looks for the blank line before it looks at the size, so a last
  read may carry a head up to 1024 bytes over the bound. For heads of every length, the cutting is invisible exactly when
  the head is at most one byte over the bound, answers every gate that is reached and either has no drift or asks for no
  body, or when it is so long that no cutting saves it (`Chunking.SettledExactly`). Without a blank line the cutting is
  always invisible (`Chunking.UnterminatedIrrelevant`). The repository's own client always sends a head that is settled
  (`Exchange.RequestArrives`).
- **Sending checks neither the cap nor its own failures.** `send` writes a payload of any size, but the reader refuses
  frames beyond `MAX_FRAME_SIZE`, so a whole send beyond it already makes the reader wrong
  (`TornFrames.OversizeMisdelivers`) and usually stops it for good (`TornFrames.OversizeStopsReader`). A sender that fails
  inside its frame leaves a part of it on the wire. The next frame within the cap gets through with every payload exactly
  when the reader has nothing left over (`TornFrames.NextGetsThroughExactly`). After any interleaving the reader is right
  and stays right exactly when no section was torn and nothing sent was beyond the cap
  (`TornFrames.StaysRightExactly`). `TornFrames.TornFrameMisdelivers` says what is read instead.
- **The pool's order within a sender.** Enqueue compares entries of one sender by nonce alone. So a second entry with a
  queued nonce and an earlier timestamp can end up behind a larger key. A pool is in order throughout a run exactly when
  no arrival is queued already or meets such a clash (`PoolRuns.RunGoodExactly`); the rule at `src/registry.rs:39-43`
  excludes it (`PoolRuns.NonceRuleAdmits`).
- **A call at the largest gas limit.** With `gas_limit` equal to the largest u64 a call never exhausts gas, because the
  charge saturates there (`SpecEngine.BudgetedCallExhausts`).
- **Stack effect of `Select`.** The generator at `src/contracts.rs:1415` counts it as minus one; executing it pops three
  and pushes one, and `SpecEngine.DepthCheckSound` uses the executed effect.

## Model

| member | source | states |
|---|---|---|
| `Ledgers.RunKeepsLedger` | src/tokens.rs:240-307 | over every run of non-archiver commits from an empty token, with any rollbacks and rejections, the stored window is exactly the last blocks of the full history, the sequence number counts the successful commits, and the history is hash-linked from genesis if and only if no commit cut the window off from it, which takes level 1 |
| `Ledgers.StepLinksExactly` | src/tokens.rs:254-296 | a commit keeps a history linked if and only if it was linked and the commit does not roll back the only stored block above more history |
| `Ledgers.LevelOneBreaksLinkage` | src/tokens.rs:254-296 | at level 1, under a validator that accepts, every block that can be hashed as a genesis and as its own child gives a run of three successful commits whose history is not linked |
| `Ledgers.RollbackReplacesTip` | src/tokens.rs:254-296 | an accepted winner replaces only the last block exactly when the shortened chain is not at its trim length, and has the loser's parent exactly when a parent is stored or the loser is a genesis |
| `Ledgers.TrimNeedsEquality` | src/tokens.rs:305-307 | an accepted commit ends within the level if and only if the chain was within it, or was one longer and rolled back; the length grows unless there is a rollback or the chain is exactly at the level |
| `Ledgers.CreatedBlockLinks` | src/tokens.rs:214-235 | a block created on a valid token and committed to it can only be refused by the validator spec, and otherwise yields the next sequence number |
| `Ledgers.CreatedBlockCarries` | src/tokens.rs:214-235 | a created block carries the metadata and tip of its token, the signed transaction and its proposer, and no hash of its own yet |
| `Ledgers.CommitAnswersExactly` | src/tokens.rs:164-303 | every answer of a commit with the exact condition for it: success if and only if the block hashes, what is left after a rollback is a valid chain, the block extends it, the named validator is registered and calls the stamped block valid; otherwise the first of these that fails is named, with the reasons of the validator |
| `Ledgers.RunVouched` | src/tokens.rs:164-303 | over every run, archivers included, every block of the history was called valid by the validator the token names |
| `Ledgers.FastAppendAgreesWithWalk` | src/blocks.rs:225-379 | on every chain reachable by appends, commits, removals at either end and finality changes, the full walk reports valid with the cached tip, and the O(1) append accepts exactly the blocks the O(n) walk accepts |
| `Ledgers.AgreementNeedsValidChain` | src/blocks.rs:225-358 | the fast and the full check agree on all blocks if and only if the stored chain is valid |
| `Tokens.Token.constructor` | src/tokens.rs:48-62 | a token starts in the given state with a chain of its own |
| `Tokens.Token.ValidateBlock` | src/tokens.rs:164-211 | the verdict, by error, in the order linkage and hash, then named validator, then its answer |
| `Tokens.Token.RollBack` | src/tokens.rs:254-271 | removes the tip exactly when it is the named loser, and returns what restores the chain |
| `Tokens.Token.Store` | src/tokens.rs:285-296 | trims by the length test unless archiving, appends, and counts |
| `Tokens.Token.CommitBlock` | src/tokens.rs:240-303 | the step-by-step commit is the commit function used in all runs, and on any failure chain and sequence number are as before |
| `Chains.Blockchain.constructor` | src/blocks.rs:196-201 | an empty chain |
| `Chains.Blockchain.AddBlock` | src/blocks.rs:207-210 | appends unconditionally and changes nothing else |
| `Chains.Blockchain.AppendValidatedBlock` | src/blocks.rs:225-256 | appends exactly when the block extends the tip with a correct hash, names the linkage failure first, and leaves the chain alone otherwise |
| `Chains.Blockchain.RemoveBlock` | src/blocks.rs:267-269 | takes the newest block and nothing else, or reports an empty chain |
| `Chains.Blockchain.RemoveOldest` | src/blocks.rs:276-278 | takes the oldest block and nothing else, or reports an empty chain |
| `Chains.Blockchain.GetCurrentChainState` | src/blocks.rs:302-335 | the walking loop reports valid exactly when every link and hash holds, and the last stored hash |
| `Chains.Blockchain.ValidateNextBlock` | src/blocks.rs:337-358 | accepts exactly the blocks that extend a chain the walk found valid |
| `Chains.Blockchain.SetFinalityStatus` | src/blocks.rs:367-379 | marks the first block with the hash and reports whether there was one |
| `Chains.MarkAt` | src/blocks.rs:367-379 | marking changes one status field at the first match |
| `Chains.MarkKeepsValid` | src/blocks.rs:367-379 | finality changes never invalidate a chain |
| `Chains.AppendKeepsValid` | src/blocks.rs:225-256 | a validated append keeps the chain valid |
| `Chains.SliceKeepsValid` | src/blocks.rs:267-278 | every contiguous part of a valid chain is valid, so removals at either end keep validity |
| `Chains.ChainsAgree` | src/blocks.rs:109-155 | two valid chains of equal length and tip agree block for block on every hashed field, given oldest parent hashes of equal length and no collision between corresponding blocks |
| `Blocks.CanonicalMapBytes` | src/blocks.rs:164-171 | the same bytes for every hash-map iteration order |
| `Blocks.CreateHash` | src/blocks.rs:109-155 | the buffer-building hash equals the hash of the block's ordered fields for every iteration order of its maps, or fails where an encoding fails |
| `Blocks.HashLayout` | src/blocks.rs:109-155 | the hash is over the parent hash as it is and then the encodings of timestamp, signed transaction, metadata, proposer and epoch in this order, and fails exactly where one of them does not encode |
| `Blocks.HashedValuesInjective` | src/blocks.rs:109-155 | the hashed values determine every hashed field, including the presence of a shielded payload |
| `Blocks.HashIgnoresRest` | src/blocks.rs:109-155 | fields outside the hash, such as finality and the stored hash, never affect it |
| `Blocks.BlockHashBinds` | src/blocks.rs:109-155 | equal hashes of blocks with parent hashes of equal length mean equal content, without a collision |
| `Blocks.ComputesIsHasher` | src/blocks.rs:109-155 | the concrete hash has the two properties on which every result about an abstract block hash rests |
| `Ordering.HashMapOrder` | src/blocks.rs:158-171 | an arbitrary enumeration of a key set, each key once |
| `Ordering.SortKeysSorts` | src/transactions.rs:813-815 | sorting yields a strictly increasing list of exactly the keys |
| `Ordering.SortKeysIgnoresOrder` | src/transactions.rs:705-707 | any two enumerations of a key set sort to the same list |
| `Ordering.LexFirstDifference` | src/transactions.rs:705-707 | keys compare by their first differing element, and a key is below every longer one it starts |
| `Encoding.EncodeAllInjective` | src/encoding.rs:15-22 | concatenated self-delimiting encodings determine the list of values and how many there are |
| `MessagePack.HeadRoundTrip` | src/encoding.rs:15-22 | the tag and length that start an encoding are read back from the front of any bytes, for every kind and width |
| `MessagePack.NumberHeads` | src/encoding.rs:15-22 | integers of up to 16 bits, signed and unsigned, byte for byte |
| `MessagePack.LengthHeads` | src/encoding.rs:15-22 | the heads of texts, arrays and maps of up to 65535 elements, byte for byte |
| `MessagePack.BytesEncoded` | src/encoding.rs:15-22 | a byte vector is an array of its bytes in order, of one byte each below 0x80 and two from there |
| `MessagePack.FormatSelfDelimiting` | src/encoding.rs:15-22 | the MessagePack format gives different values different bytes, neither a prefix of the other, at any nesting |
| `Binding.ChainsAgreeInFormat` | src/blocks.rs:109-155 | in MessagePack, valid chains of equal length and tip agree on every hashed field, with nothing assumed of the encoder |
| `Binding.PayloadsAgreeInFormat` | src/transactions.rs:804-922 | in MessagePack, payloads that verify under one claimed hash agree, with nothing assumed of the encoder |
| `Transactions.TransactionValueInjective` | src/transactions.rs:316-400 | the serialized form, with its skipped optional fields, determines the transaction |
| `Layouts.TransactionLayout` | src/transactions.rs:318-348 | read by name, the encoded transaction has in each of eleven fields the value of the field of that name |
| `Layouts.SkippedLayout` | src/transactions.rs:349-395 | the four optional fields are there exactly when they are not at their default, so taking the default for a missing one reads the transaction back; no other name occurs |
| `Layouts.SelectionLayout` | src/transactions.rs:201-215 | the selection record by name |
| `Layouts.SignatureLayout` | src/transactions.rs:458-465 | a signature by name |
| `Layouts.ShieldedLayout` | src/transactions.rs:574-610 | a shielded transaction by name |
| `Transactions.CollectSignatures` | src/transactions.rs:705-710 | the sorted list of executor signatures for every iteration order |
| `Transactions.CanonicalSignedTransBytes` | src/transactions.rs:692-724 | the canonical bytes for every iteration order, or failure |
| `Layouts.SignedLayout` | src/transactions.rs:471-510 | the eleven fields of a signed transaction by name, with the signature in its slot and the executor map |
| `Layouts.CanonicalLayout` | src/transactions.rs:692-724 | what is hashed is the signed transaction with its own signature in one record, and a shielded payload in a second one |
| `Layouts.CarrierLayout` | src/transactions.rs:739-800 | what the finalizer signs has the same fields, a blank signature in the slot, and the shielded payload inside |
| `Transactions.CanonicalSignedValuesInjective` | src/transactions.rs:692-724 | the canonical values determine the signed transaction and whether it has a shielded payload |
| `Transactions.IdentityBytesBind` | src/transactions.rs:1018-1024 | identity bytes are equal if and only if the identified parts are |
| `FinalizerDigest.ConcatSignatures` | src/transactions.rs:815-819 | the signatures in key order, end to end |
| `FinalizerDigest.ComputeDigest` | src/transactions.rs:804-843 | one digest for every iteration order of the executor map |
| `FinalizerDigest.SignatureBytesAre` | src/transactions.rs:815-819 | the running concatenation is all signatures end to end, in the order of the keys |
| `FinalizerDigest.DigestLayout` | src/transactions.rs:804-843 | the digest is the hash of two hashes, that of the encoded carrier and that of the executor signatures end to end by strictly increasing voter key, and fails only where the carrier does not encode |
| `FinalizerDigest.VerifyFinalizerSignature` | src/transactions.rs:897-922 | success exactly when a signature is present, claims the digest of this payload and checks; missing and mismatched signatures are told apart with both hashes |
| `FinalizerDigest.DigestIgnoresSignatureSlot` | src/transactions.rs:739-747 | attaching any finalizer signature leaves the digest unchanged |
| `FinalizerDigest.SignThenVerify` | finalizer/src/block_builder.rs:205-238 | what the finalizer signs and attaches always verifies |
| `FinalizerDigest.SignatureClaimsDigest` | finalizer/src/block_builder.rs:205-238 | what the finalizer attaches names the transaction and its token, claims the digest, signs it, and carries the stake |
| `FinalizerDigest.PlaceholderRefused` | src/transactions.rs:739-747 | a payload with the placeholder still in its slot never verifies |
| `FinalizerDigest.DigestBinds` | src/transactions.rs:804-843 | equal digests mean payloads equal in every field but the finalizer signature, without a collision |
| `FinalizerDigest.SameClaimSamePayload` | src/transactions.rs:897-922 | two payloads that verify under one claimed hash are equal in every field but the finalizer signature |
| `BlockServices.DataProvider.SaveToken` | committer/src/block_services.rs:148-157 | a save that may fail before or after it wrote |
| `BlockServices.Services.constructor` | committer/src/block_services.rs:46-65 | a service starts with an empty cache |
| `BlockServices.Services.Warm` | committer/src/block_services.rs:118-129 | a cached token is kept, a missing one loaded, and a failed load changes nothing |
| `BlockServices.Services.CommitEntry` | committer/src/block_services.rs:131-143 | the commit acts on one cache entry alone |
| `BlockServices.Services.CommitBlock` | committer/src/block_services.rs:95-167 | cache, store and result are those of the service function used in all runs |
| `BlockServices.OkMeansPersisted` | committer/src/block_services.rs:95-167 | a successful return leaves store and cache equal at the reported sequence number |
| `BlockServices.ServeRefusesExactly` | committer/src/block_services.rs:95-129 | a commit for another environment, or for a token that is neither cached nor can be loaded, is refused as such, only then, and changes nothing |
| `BlockServices.ServeAnswersExactly` | committer/src/block_services.rs:131-167 | otherwise the token named by the commit judges exactly the proposed block, as no archiver and with the given rollback; cache, store and answer are told for each outcome of the commit and of the save |
| `BlockServices.ServiceReplacesTip` | committer/src/block_services.rs:95-167 | a successful commit that names the tip as the loser stores, below the security level, the old chain with the winner in place of its tip |
| `BlockServices.ServiceTrims` | committer/src/block_services.rs:95-167 | a successful commit on a chain at its level stores that chain without its oldest block and with the new one |
| `BlockServices.CommitSequence` | src/tokens.rs:285-303 | a success reports exactly the next sequence number, and a failure leaves the token as it was |
| `BlockServices.LaterSequence` | src/tokens.rs:240-303 | an earlier state has no larger sequence number, and an equal one only if it is the same state |
| `BlockServices.ServiceKeepsPromises` | committer/src/block_services.rs:95-167 | over every run of commits, failed saves and crashes, the store holds the cached state or an earlier one, and every state ever reported or a later one, so the stored sequence number is never below any that was reported |
| `InterleavedCommits.InsertSafeExactly` | committer/src/block_services.rs:118-129 | inserting a loaded token keeps the store behind the cache if and only if the stored sequence number has not moved since the load |
| `InterleavedCommits.FreshExactly` | committer/src/block_services.rs:95-167 | an interleaving of misses, loads, inserts, guarded commits, failed saves and crashes keeps the promises of a single thread throughout if and only if every insert finds the store as its thread loaded it |
| `InterleavedCommits.StaleInsertLosesCommit` | committer/src/block_services.rs:118-157 | for every token with room and two blocks on its tip, two threads can both report the same sequence number while the store keeps only the second block, and the first report is lost |
| `SpecEngine.PopOne` | src/contracts.rs:667-671 | splits off the top, or reports underflow and changes nothing |
| `SpecEngine.PopTwo` | src/contracts.rs:674-678 | splits off the top two in operand order exactly when there are two |
| `SpecEngine.CallOp` | src/contracts.rs:614-658 | a call agrees with the step semantics for any callee |
| `SpecEngine.SelectOp` | src/contracts.rs:603-608 | three pops and a push agree with the step semantics, underflow included |
| `SpecEngine.Dispatch` | src/contracts.rs:561-613 | one instruction on the mutable stack agrees with the step semantics |
| `SpecEngine.Execute` | src/contracts.rs:540-663 | the interpreter loop equals the recursive semantics for every program and input |
| `SpecEngine.PaddedFieldValue` | src/contracts.rs:705-710 | leading zero bytes never change a numeric field |
| `BigEndians.MostSignificantFirst` | src/contracts.rs:705-710 | the first byte of a number weighs most |
| `SpecEngine.LeRoundTrip` | src/contracts.rs:609-612 | little-endian result bytes determine the value |
| `SpecEngine.GasThreshold` | src/contracts.rs:540-664 | a call-free program that ignores the limit has a threshold, the ops its uncapped run starts: from there on every limit gives the uncapped outcome, below it every limit exhausts |
| `SpecEngine.DepthCheckSound` | src/contracts.rs:555-613 | a program that passes the static depth check never reverts for underflow, on any input or limit |
| `SpecEngine.DepthCheckNecessary` | src/contracts.rs:555-613 | a program that fails it never completes |
| `SpecEngine.DeadCodeAfterHalt` | src/contracts.rs:555-613 | nothing after a halt affects the outcome |
| `SpecEngine.VersionGate` | src/contracts.rs:540-550 | bytecode that does not decode, and a program of any version but 1, is refused as such, and nothing else is |
| `SpecEngine.GasCountsOps` | src/contracts.rs:555-560 | a call-free run that completes has used one unit of gas for each operation it started |
| `Expressions.FieldLoads` | src/contracts.rs:685-710 | the seven field names load the amount, the counters, or the first eight bytes of their field, zero-padded on the left and read big-endian; every other name reverts |
| `Expressions.CodeRuns` | src/contracts.rs:555-613 | in any machine and before any code, the postfix code of an expression of constants, fields, sums, differences, products, remainders, comparisons and choices pushes its mathematical value, or reverts where a subterm has no value of 64 bits |
| `Expressions.EmitsValue` | src/contracts.rs:540-663 | compiled and followed by an emit, an expression completes with the eight little-endian bytes of its value for one unit of gas per operation, or reverts with the reason of its first failing subterm |
| `SpecEngine.CappedGas` | src/contracts.rs:555-560 | a successful capped run reports at least the gas it started with and at most its limit, whatever the callees do |
| `SpecEngine.CappedNeverPanics` | src/contracts.rs:614-662 | with callee costs in range, a capped run never overflows its counter |
| `SpecEngine.CallNeverReverts` | src/contracts.rs:614-662 | when a run reverts, the op that ended it is a call if and only if there is no call context, so a failing callee never reverts its caller |
| `SpecEngine.CallPushesStatus` | src/contracts.rs:614-662 | a call hands the callee what is left of the limit, pushes 1 if it succeeded and 0 if it failed on an otherwise unchanged machine, and charges the unit, the base and the callee's cost, saturating; it exhausts only under a cap, and overflows only where the source's addition does |
| `SpecEngine.BudgetedCallExhausts` | src/contracts.rs:614-658 | with a callee within its budget, a call exhausts gas exactly when less than the call base remains and the limit is not the largest u64 |
| `StorageDelta.ApplyDeltaTo` | src/contracts.rs:236-249 | entry-by-entry editing equals the pointwise overlay |
| `StorageDelta.ApplyIdempotent` | src/contracts.rs:213-260 | applying a delta twice is applying it once |
| `StorageDelta.ApplyMerge` | src/contracts.rs:213-260 | two deltas in sequence are one merged delta in which the later wins |
| `StorageDelta.DeltaExtensional` | src/contracts.rs:213-260 | two deltas act alike on all storage if and only if they are equal |
| `StorageDelta.DeltasCommute` | src/contracts.rs:213-260 | order is irrelevant if and only if the deltas agree on shared keys |
| `StorageDelta.PostApplySizeFormula` | src/contracts.rs:253-259 | size after a delta is base size less touched entries plus written entries, for all maps |
| `StorageDelta.PostApplySize` | src/contracts.rs:253-259 | the size by copying and summing equals that balance |
| `StorageDelta.OneKeySize` | src/contracts.rs:253-259 | a delta of one key takes the bytes of its old entry from the size and adds those of the new one |
| `TransactionPool.TransactionPool.constructor` | src/transactions.rs:1068-1073 | an empty pool |
| `TransactionPool.TransactionPool.EnqueueTx` | src/transactions.rs:1077-1102 | the scan inserts at the first place the order test allows, and only there |
| `TransactionPool.EnqueueExactly` | src/transactions.rs:1077-1102 | an arrival is indexed and put between the others of its queue, behind all it does not go before and in front of the first it does; no other queue changes |
| `TransactionPool.TransactionPool.RemoveTx` | src/transactions.rs:1105-1115 | drops the id from index and queue, drops an emptied queue, and returns the entry |
| `TransactionPool.RemoveExactly` | src/transactions.rs:1105-1115 | a queued id leaves index and queue, the entry is given back, the others keep their order, an emptied queue is gone, and no other queue changes |
| `TransactionPool.RemoveUnqueued` | src/transactions.rs:1105-1115 | an id that is not queued leaves only the index, and an unknown one changes nothing |
| `TransactionPool.TransactionPool.PeekTop` | src/transactions.rs:1118-1122 | a prefix of the queue, no longer than asked, and shorter only if it is the whole queue |
| `TransactionPool.TransactionPool.DequeueForLeader` | src/transactions.rs:1125-1136 | drains the front of one queue and leaves the index alone |
| `TransactionPool.DequeueExactly` | src/transactions.rs:1125-1136 | what is drained followed by what stays is the old queue, as many as asked or all there are; index and other queues keep |
| `PoolRuns.RunGoodExactly` | src/transactions.rs:1077-1136 | queues ordered by key with ties in arrival order, and an index that is the disjoint union of queued and outstanding ids, hold throughout a run if and only if no arrival is queued already or clashes with a later timestamp of its own sender and nonce |
| `PoolRuns.StepGoodExactly` | src/transactions.rs:1077-1136 | of all operations only such an arrival breaks a good pool, and it always does |
| `PoolRuns.NonceRuleAdmits` | src/registry.rs:39-43 | the nonce rule rules the clash out |
| `PoolRuns.GoesBeforeIsKeyOrder` | src/transactions.rs:1086-1097 | the two-case test of the scan is the key order if and only if the other entry is not a later timestamp of the same sender and nonce |
| `PoolRuns.TotalIsQueuedPlusOutstanding` | src/transactions.rs:1139-1156 | the total is the sum of the queue lengths plus the outstanding ids, and a token is listed exactly when its queue is not empty |
| `PoolRuns.FrontRanksFirst` | src/transactions.rs:1118-1136 | what is peeked or drained comes in rank order, before everything that stays queued for the token |
| `PoolRuns.DequeueAdds` | src/transactions.rs:1125-1136 | draining n and then m is draining n + m |
| `ArrivalOrder.QueuedDeterminesQueues` | src/transactions.rs:1077-1136 | two good pools, however they came about, with the same queued entries and distinct keys among them have identical queues |
| `ArrivalOrder.ArrivalOrderIrrelevant` | src/transactions.rs:1077-1102 | with distinct keys, any two arrival orders of the same transactions give the identical pool |
| `ReceiptJson.JsonEscape` | src/ingress.rs:412-426 | the pushing loop equals the per-character escape |
| `ReceiptJson.UnquoteString` | client/src/lib.rs:304-329 | the consuming loop equals the recursive decoder, errors included |
| `ReceiptJson.DecodeEscape` | client/src/lib.rs:304-329 | unescaping undoes escaping for every string |
| `ReceiptJson.EscapedHasNoControls` | src/ingress.rs:412-426 | escaped text has no control character, as section 7 of RFC 8259 demands |
| `ReceiptJson.EscapeLeavesRest` | src/ingress.rs:412-426 | exactly quote, backslash and control characters are escaped, each by something that starts with a backslash |
| `ReceiptJson.BadEscapeRefused` | client/src/lib.rs:304-329 | after any text, an unknown escape or a backslash at the end refuses the whole string |
| `ReceiptParser.FindStringEnd` | client/src/lib.rs:332-346 | the byte scan finds the closing quote that reading by characters finds |
| `ReceiptParser.ScanAgrees` | client/src/lib.rs:332-346 | scanning UTF-8 bytes and scanning characters agree on every text |
| `ReceiptParser.EndOfQuoted` | client/src/lib.rs:332-346 | in a printed string the scan stops at the true closing quote |
| `ReceiptParser.ParseStringValue` | client/src/lib.rs:284-290 | a string value and the text after it, or the error |
| `ReceiptParser.Parse` | client/src/lib.rs:259-302 | the parse loop ends and equals the recursive grammar, errors included |
| `ReceiptParser.ReceiptRoundTrip` | src/ingress.rs:337-337 | for every id, parsing the printed receipt yields acceptance and exactly that id |
| `ReceiptParser.ReceiptInjective` | src/ingress.rs:337-337 | different ids print differently |
| `ReceiptParser.ReceiptNamesOwnTransaction` | client/src/lib.rs:131-146 | a client accepts a printed receipt exactly when it names its own transaction |
| `FlatJson.ObjectRoundTrip` | client/src/lib.rs:259-302 | every flat object of strings and booleans, with white space anywhere between its parts, is read back field by field |
| `FlatJson.GarbageRefused` | client/src/lib.rs:292-299 | whatever else follows a field refuses the object and is quoted |
| `FlatJson.BracesRequired` | client/src/lib.rs:259-268 | text is no object if and only if it is not in braces, and empty braces are the empty object |
| `FlatJson.LookupFirst` | client/src/lib.rs:244-248 | a key finds the first field that has it, or nothing exactly if none has |
| `FlatJson.BelievedExactly` | client/src/lib.rs:128-146 | a receipt is believed if and only if it parses, says accepted and names the transaction; every other receipt is refused with its own reason |
| `LossyText.LossyUtf8` | client/src/lib.rs:212-212 | lossy decoding returns every properly encoded text unchanged |
| `LossyText.DecodedIsEncoded` | src/ingress.rs:253-253 | any character but the replacement is read from exactly the bytes that encode it, so nothing overlong and no surrogate is accepted |
| `LossyText.CutCharacter` | src/ingress.rs:253-253 | a character cut short becomes one replacement, however much of it came |
| `LossyText.LossyBefore` | src/ingress.rs:253-253 | any bytes decode by themselves when ASCII follows |
| `LossyText.LossyWidth` | src/ingress.rs:253-253 | decoded text is never shorter in bytes than what it was decoded from |
| `LossyText.OneBadByte` | src/ingress.rs:253-253 | one byte outside ASCII among ASCII makes the text two bytes longer |
| `LossyText.LossyAscii` | src/ingress.rs:253-253 | an ASCII start decodes to itself whatever bytes follow |
| `Http.HeaderValueStable` | src/ingress.rs:349-354 | a header found in finished lines is found whatever follows them |
| `Http.HeaderValueLater` | src/ingress.rs:349-354 | a header missing from finished lines is taken from whatever follows them |
| `Http.RequestLineParts` | src/ingress.rs:254-259 | method and path are the first two words of the request line, the second up to a space or the end; one word is no request |
| `Http.PlusIgnored` | src/ingress.rs:268-268 | a length may have one leading plus and no more |
| `Text.TrimTakes` | src/ingress.rs:349-354 | trimming takes white space off both ends, and all of it |
| `Ingress.Scan` | src/ingress.rs:238-238 | a blank line is reported exactly when the bytes contain one |
| `Ingress.ReadHeadLoop` | src/ingress.rs:226-252 | the loop stops at the blank line, the bound, the end of stream or a failure, as the stream function says |
| `Ingress.ReadBodyLoop` | src/ingress.rs:276-288 | the loop gathers the declared bytes, or stops short or aborts as the stream function says |
| `Ingress.ServeConnection` | src/ingress.rs:219-333 | the answer is the stream function that all the laws below are about |
| `Refusals.ReplyExactly` | src/ingress.rs:254-333 | every request is answered by the first reason to refuse it, in the order 400, 413, broken stream, 405, 404, 503, 415, no length, short body, over the bytes that arrive until the stream ends; only a request without any is submitted |
| `Refusals.GathersExactly` | src/ingress.rs:276-290 | the body loop takes the declared bytes if so many arrive, all there are if the stream ends or times out before, and gives up on a failed read |
| `Refusals.SubmittedIsDeclared` | src/ingress.rs:219-333 | for every stream, what is submitted has exactly the declared length within the cap, and the request was a POST to the path with the content type on a node that was not stopping |
| `Refusals.ShortRequest` | src/ingress.rs:276-330 | for every way of cutting, a request whose body ends or times out before its declared length is refused with 400, and one whose stream fails gets no answer |
| `Refusals.EndsBeforeHead` | src/ingress.rs:226-252 | a connection that ends before a blank line is answered only after an orderly end with some bytes |
| `Chunking.TerminatorSeenExactly` | src/ingress.rs:236-240 | the part read so far has a blank line exactly when it has the whole head |
| `Chunking.HeadLoopStops` | src/ingress.rs:226-252 | for every way of cutting, the head loop ends with the whole head and a part of the body, and loses nothing |
| `Chunking.BodyLoopGathers` | src/ingress.rs:276-290 | for every way of cutting, the body loop gathers the same bytes |
| `Chunking.SettledServed` | src/ingress.rs:226-330 | if a head of any bytes, at most one byte over the bound, settles the gates and the place of the body, the answer is a function of head, body and what follows, for every way of cutting |
| `Chunking.RequestDelivers` | src/ingress.rs:226-333 | a request to the path with both headers and at least the declared body submits exactly the declared bytes, for every way of cutting |
| `Chunking.SettledExactly` | src/ingress.rs:226-330 | for heads of any bytes and any length, the answer is independent of how reads cut the request if and only if the head is at most one byte over the bound and settled, or more than a whole read over it |
| `Chunking.BoundLeaks` | src/ingress.rs:238-244 | a head that is over the bound by two bytes up to a whole read is refused in one delivery and served in another |
| `Chunking.LongHeadRefused` | src/ingress.rs:238-244 | a head that is over by more than a read is refused for every way of cutting |
| `Chunking.BodyStartsExactly` | src/ingress.rs:274-275 | the body is found where it starts if and only if the head decodes to text of its own length or no body came with it |
| `Chunking.UnterminatedRead` | src/ingress.rs:226-252 | bytes without a blank line are refused beyond the bound and only buffered within it, for every way of cutting |
| `Chunking.UnterminatedIrrelevant` | src/ingress.rs:226-252 | without a blank line the answer never depends on the cutting |
| `Exchange.DecimalRoundTrip` | client/src/lib.rs:189-197 | every printed length is parsed back |
| `Exchange.DigitsOrNothing` | src/ingress.rs:268-268 | a length is read exactly from text that is all digits |
| `Exchange.RequestArrives` | client/src/lib.rs:182-207 | for every way of cutting, the client's request delivers exactly its body to a running node, is refused with 503 by a draining one and with 413 beyond the cap |
| `Exchange.ResponseRoundTrip` | src/ingress.rs:185-214 | every status and body text the ingress writes is what the client reads |
| `Exchange.AcceptanceConcluded` | client/src/lib.rs:124-146 | from the bytes of an acceptance, the client concludes success exactly if its own id was accepted |
| `Exchange.RefusalConcluded` | client/src/lib.rs:124-127 | from the bytes of a refusal, the client reports its status and reason unchanged |
| `Framing.ReadFrameOfFrame` | src/conns.rs:194-200 | a frame within the cap is read back whole with anything behind it |
| `Framing.FrameOfReadFrame` | src/conns.rs:89-130 | a frame that was read is on the wire as it would have been sent |
| `Framing.Reader.constructor` | src/conns.rs:167-171 | a reader over any pieces |
| `Framing.Reader.ReadExact` | src/conns.rs:89-107 | takes exactly the next bytes across pieces, or fails when they are not there |
| `Framing.Reader.GetData` | src/conns.rs:89-130 | one frame off the wire, or the error for a short or oversize one |
| `Framing.Reader.ReadLoop` | src/conns.rs:172-182 | delivers the payloads of the wire function, whatever the pieces |
| `Framing.DeliveredIsFramed` | src/conns.rs:172-182 | the wire is the delivered frames followed by a rest that does not start with a frame |
| `Framing.FramesAreDelivered` | src/conns.rs:172-182 | whole frames within the cap are delivered in order, then whatever the rest holds |
| `Framing.LongestPrefixDelivered` | src/conns.rs:172-182 | delivery is the longest run of whole frames |
| `Framing.TruncatedFrame` | src/conns.rs:89-130 | a frame within the cap that was cut anywhere is not delivered in part |
| `Framing.SendsAreSerialized` | src/conns.rs:194-200 | after every interleaving of senders the wire is the lock sections in lock order and the start of the holder's frame |
| `Framing.ReaderGetsWhatWasSent` | src/conns.rs:167-201 | if no ended section left a part of a frame, the wire is the sent frames and the start of the holder's, and the reader is given exactly what was sent, in lock order, if and only if all of it was within the cap |
| `Framing.CutFrameRead` | src/conns.rs:89-130 | for payloads of every size, the start of a frame delivers nothing if and only if the length its header holds is beyond the cap or not yet there |
| `Framing.ErrorsTold` | src/conns.rs:89-130 | for payloads of every size and every cut, the two errors tell a length beyond the cap, which is reported, from a frame that is not all there |
| `TornFrames.NextGetsThroughExactly` | src/conns.rs:89-130 | on any wire, a further frame is delivered with every payload if and only if the reader has nothing left over |
| `TornFrames.StaysRightExactly` | src/conns.rs:167-201 | after any interleaving that leaves the lock free, with payloads of every size, the reader is right now and after every next whole send within the cap if and only if no section was torn and nothing sent was beyond the cap |
| `TornFrames.OversizeMisdelivers` | src/conns.rs:194-200 | a whole send beyond the cap makes the reader wrong, with nothing torn |
| `TornFrames.OversizeStopsReader` | src/conns.rs:89-130 | once a header with a length beyond the cap is next, nothing behind it is ever delivered |
| `TornFrames.TornLastExactly` | src/conns.rs:194-200 | with a torn section last, the reader is right if and only if what was sent is within the cap and the torn start gives it nothing |
| `TornFrames.TornFrameMisdelivers` | src/conns.rs:194-200 | for every cut of a frame, inside its header or after it, and every next frame: the length comes from the mixed header, what is delivered is cut by it or nothing at all, and any other length than the sent one makes the delivery wrong |
| `GasModel.FourDecimalsExact` | src/environment.rs:70-72 | multipliers of at most four decimals, stored and multiplied as f64, become their exact fixed-point value up to 2^50 |
| `GasModel.GasMonotone` | src/environment.rs:81-95 | gas never falls as amount or multiplier grows, across saturation and under f64 rounding |
| `GasModel.GasExactExactly` | src/environment.rs:81-83 | the amount part is the exact floor if and only if the product is under the last full scale unit |
| `GasModel.TotalExactExactly` | src/environment.rs:81-95 | the total is base plus floor if and only if neither the product nor the sum saturates |
| `GasModel.FixedIsNearest` | src/environment.rs:70-72 | the fixed-point multiplier is the integer nearest to the rounded product, the upper of two, clamped to 64 bits |
| `GasModel.SplittingCosts` | src/environment.rs:91-95 | a split transfer costs at least the whole one plus the base, less one |

## Left out

- Ed25519, ML-DSA, ML-KEM and AES-GCM (`src/crypto.rs`): library code, taken as parameters.
- The code of the MessagePack library: the format is modelled from its specification, with struct fields as named map entries and byte vectors as arrays of integers.
- `process_submission` (`src/ingress.rs:359-408`): a short list of checks before the pipeline; the model ends where the body is handed over.
- Archiver commits in runs: an archiver never trims, so its window is the whole chain; single commits by archivers are modelled.
- The contract call itself, the Wasm engine, the scanner and upgrade votes: a call is any function of the remaining gas.
- `PendingTransaction`, the gossiper, authentication, the action router: assignments and short checks without an invariant of their own.
- Minting and the admin tax (`src/tokens.rs:352-500`): straight-line bookkeeping.
- Configuration, telemetry, logging, servers and process start-up: wiring.
- Clocks and read timeouts: a timeout is an event of the stream, and timestamps are data.
- `MultiplierToFixed`: NaN and infinite multipliers are not modelled.
- The f32 bid of a transaction is modelled by its bit pattern.
- `Exchange.RequestArrives`: the host is printable ASCII, as every printed socket address is, and the head fits the ingress bound.
- `InterleavedCommits`: a thread's append and persist are one step, as the source holds the cache entry across them; a save that fails is part of that step.
- Several committers over one store: the runs are those of one committer and its threads.
- `Framing.Reader`: the synchronous and asynchronous readers are one model, as they differ only in waiting.
