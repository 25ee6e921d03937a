# Proofs about the forum points ledger

A Dafny 4.11 model of the forum-points sidecar: a ledger of a fixed supply of 50,000,000
points, the RFC 6962 Merkle log published over it, the reward payouts that feed it, and the
audit tool that checks it from outside. `dafny verify dfyconfig.toml` checks the whole project.

| file | what it models |
|---|---|
| Bits, Merkle, Consistency, RfcExample | the Merkle tree over any hash type: roots, audit paths, consistency proofs and the bit-shifting verifier; the example of RFC 6962 |
| Sha, TreeHead | leaf and node hashing of byte strings; the signed tree-head message and its parser |
| Tx, LedgerState, LedgerLaws, LedgerRuns, LedgerAcceptance | the ledger as a value: every store operation, Apply and registration; what they keep; whole runs; which requests are accepted |
| MemStore | the mutable in-memory store and Apply as imperative code, proved to have exactly those effects |
| TxLog, TxLogLaws | the cached Merkle snapshot and the checkpoint table under any number of concurrent callers; what a caller gets |
| RewardTable, Rewards, RewardLaws, RewardInstance, PayReward | the reservation table, the protocol of many workers over it, its laws and one concrete run, and one payout as imperative code |
| Activation | a registration interleaved statement by statement with Applies under READ COMMITTED |
| RateLimit | the token bucket and its eviction of idle buckets |
| Audit, Audits | the audit tool, and what passing it means |

Four things shape the model.

- The ledger calls SHA-256, Ed25519 and JSON decoding but does not define them. They are the
  fields of `Tx.Env`, and every theorem holds for every choice of them. Where a theorem needs
  that hashes do not collide, it says so for a stated set of inputs (`Merkle.NoCollision`,
  `Sha.CollisionFree`) that covers what is hashed; nothing assumes a hash without collisions.
- Code that updates state is a class with methods (`MemStores.MemStore`, `MemStores.MemTx`,
  `TxLog.Service`, `RewardTable.RewardEvents`, `Activation.AccountTable`,
  `RateLimit.RateLimiter`). Each method's contract gives the whole new state by a function of
  the old one, and the lemmas are about those functions.
- Concurrent code is a state machine whose steps are the lock sections and the SQL statements;
  theorems quantify over every sequence of steps. A step whose caller is not ready does nothing.
- Machine integers are `int64` with explicit wrap-around (`ByteStrings.Wrap64`).

Where a promise is not kept by the code on all inputs, the exact condition is proved together
with a witness: eviction of idle buckets is harmless if and only if ten minutes refill the burst
(`RateLimit.EvictionExact`); an expired reservation lets an event be paid a second time
(`Rewards.ExpiryPaysTwice`, `RewardInstance.PaidTwiceFromEmpty`), which is also the only way
(`Rewards.PaidAtMostOnce`); the
in-memory store loses a key when two accounts carry it (`LedgerRuns.MemStoreLosesKey`), and only
then (`LedgerRuns.UpsertKeepsIndexed`); the audit does not fix the type or the signer of an entry
(`Audits.TypeIsNotBound`), and `Audits.PassingExact` says exactly what it does fix.
The comment at ledger/sidecar/internal/merkle/tree.go:263 names section 2.1.2 of RFC 6962 for
the consistency walk; the algorithm is the one of section 2.1.4.2 of RFC 9162, and the model
follows the code.

## Model

| member | source | states |
|---|---|---|
| Bits.LargestPowerOfTwoLessThan | ledger/sidecar/internal/merkle/tree.go:82-91 | the doubling loop finds the power of two k with k < n <= 2k, and 0 below 2 |
| Bits.IsPowerOfTwoExact | ledger/sidecar/internal/merkle/tree.go:318 | the mask test n & (n-1) is true exactly of the powers of two |
| Merkle.RootIsBottomUp | ledger/sidecar/internal/merkle/tree.go:70-78 | the recursive split root equals the tree of the package comment: pair up each level, promote an odd last node, repeat |
| Merkle.RootBinds | ledger/sidecar/internal/merkle/tree.go:70-78 | two lists of one length have the same root exactly when they are equal, if the hashed pairs do not collide |
| Merkle.InclusionComplete | ledger/sidecar/internal/merkle/tree.go:114-180 | the generated audit path of every leaf is accepted, for any hash function |
| Merkle.InclusionExact | ledger/sidecar/internal/merkle/tree.go:138-180 | against the root of a list, the verifier accepts a leaf, index and proof exactly when the leaf is the one at the index and the proof is the generated path |
| RfcExample.Paths | ledger/sidecar/internal/merkle/tree.go:114-129 | the audit paths of the seven-leaf example of RFC 6962 section 2.1.3, in their order |
| Consistency.SidesAgree | ledger/sidecar/internal/merkle/tree.go:282-311 | the sides on which the bit-shifting loop meets its siblings are those of the top-down recursion, for all 0 < m < n |
| Consistency.WalkConsistency | ledger/sidecar/internal/merkle/tree.go:281-316 | the loop over m-1 and n-1 stops on all unsigned sizes and climbs along the sides of its shifts; for m < n that rebuilds exactly the two roots of the recursion, and refuses exactly the proofs of another length |
| Consistency.VerifyConsistency | ledger/sidecar/internal/merkle/tree.go:227-276 | on every input, negative sizes read as the unsigned ones included, the verifier stops and decides as that walk does, with every error |
| Consistency.ConsistencyComplete | ledger/sidecar/internal/merkle/tree.go:197-223 | for every list and 0 < m <= n the generated proof is accepted, powers of two with their implicit first node included |
| Consistency.ConsistencyProofShort | ledger/sidecar/internal/merkle/tree.go:205-223 | a generated proof has at most ceil(log2 n) + 1 hashes |
| Consistency.ConsistencyExact | ledger/sidecar/internal/merkle/tree.go:227-316 | if the hashed pairs do not collide, a proof between the roots of A and B is accepted exactly when A is a prefix of B and the proof is the generated one |
| Consistency.VerdictEdges | ledger/sidecar/internal/merkle/tree.go:196-239 | sizes out of order get an error from generator and verifier, and equal sizes exactly the empty proof with equal roots |
| Consistency.UnsignedReads | ledger/sidecar/internal/merkle/tree.go:284-287 | a 64-bit size is walked as its unsigned value |
| RfcExample.Proofs | ledger/sidecar/internal/merkle/tree.go:197-223 | the consistency proofs of that example, in their order |
| Sha.NodesDoNotCollide | ledger/sidecar/internal/merkle/tree.go:38-44 | node hashes of 32-byte children bind both children |
| Sha.LeafHashesBind | ledger/sidecar/internal/merkle/tree.go:30-35 | equal leaf-hash lists come from equal leaves |
| Sha.SmallRoots | ledger/sidecar/internal/merkle/tree.go:29-78 | the roots of no, one and two leaves, byte by byte: the hash of the empty string, prefix 0 for a leaf and 1 for a node |
| TreeHead.Hex | ledger/sidecar/internal/txlog/service.go:342-350 | the loop that fills the buffer writes the two digits of every byte |
| TreeHead.HexRoundTrip | ledger/sidecar/internal/txlog/service.go:342-350 | hexadecimal text decodes to the bytes it was made from |
| TreeHead.DecimalRoundTrip | ledger/sidecar/internal/txlog/service.go:338-340 | decimal text, with or without a sign, decodes to its number |
| TreeHead.SignedSTHRoundTrip | ledger/sidecar/internal/txlog/service.go:338-340 | the signed message parses back to its size, root and time |
| TreeHead.SignedSTHInjective | ledger/sidecar/internal/txlog/service.go:333-340 | two tree heads have one signed message exactly when they are equal, negative numbers and any root length included |
| TreeHead.SignedBytesInjective | ledger/sidecar/internal/txlog/service.go:333-340 | so it is with the bytes that are signed |
| TreeHead.SignedSTHLooksLike | ledger/sidecar/internal/txlog/service.go:338-340 | the format on one head: prefix, decimal, lower-case hex, decimal, with bars between |
| Tx.HashInputSplits | ledger/sidecar/internal/ledger/tx.go:112-115 | with signature and previous hash of fixed length, the hashed bytes determine all three parts |
| MemStores.MemStore.Begin | ledger/sidecar/internal/ledger/memstore.go:25-44 | a transaction starts as a private copy of accounts, index and log |
| MemStores.MemTx.Commit | ledger/sidecar/internal/ledger/memstore.go:54-65 | the first commit installs the whole copy, a second one fails and changes nothing |
| MemStores.MemTx.GetAccountByPubKey | ledger/sidecar/internal/ledger/memstore.go:76-91 | the account the index leads to, none for an empty or unknown key |
| MemStores.MemTx.UpsertAccount | ledger/sidecar/internal/ledger/memstore.go:117-129 | the account replaces its row, its former key leaves the index and its key enters it |
| MemStores.MemTx.ReplacePubKey | ledger/sidecar/internal/ledger/memstore.go:131-141 | the holder of the old key is filed under the new one, or nothing changes |
| MemStores.MemTx.BindPubKey | ledger/sidecar/internal/ledger/memstore.go:143-155 | an existing account gets the key in row and index, a missing one is an error |
| MemStores.MemTx.InsertTx | ledger/sidecar/internal/ledger/memstore.go:164-172 | appends the transaction unless some entry has its hash |
| MemStores.MemTx.GenesisExists | ledger/sidecar/internal/ledger/memstore.go:174-181 | true exactly when the log holds a genesis entry |
| MemStores.MemTx.TotalBalance | ledger/sidecar/internal/ledger/memstore.go:183-189 | the wrapped sum of all balances, whatever the order of the loop |
| MemStores.ApplyGenesis | ledger/sidecar/internal/ledger/apply.go:129-161 | refuses or writes the treasury account, as the specified effect |
| MemStores.ApplyTransfer | ledger/sidecar/internal/ledger/apply.go:163-226 | refuses in the order of the checks, or moves the amount and sets the nonce |
| MemStores.ApplyRotateKey | ledger/sidecar/internal/ledger/apply.go:228-254 | refuses, or bumps the nonce and replaces the key |
| MemStores.ApplyReclaimInvalid | ledger/sidecar/internal/ledger/apply.go:256-308 | refuses, or returns the amount of a keyless negative-id account to the treasury |
| MemStores.Apply | ledger/sidecar/internal/ledger/apply.go:45-123 | with a fresh transaction object: a bad signature, key length or signature length is refused as such; otherwise an error and the store as before, or the specified next state with exactly this object appended |
| MemStores.Register | ledger/sidecar/internal/api/server.go:219-269 | create, activate, repeat and conflict have exactly the specified outcome and leave the log alone |
| LedgerLaws.ApplyAppends | ledger/sidecar/internal/ledger/apply.go:45-123 | an accepted Apply appends one entry, index and previous hash following on the last and hash over payload, signature and previous hash, keeps all others, books the amount and keeps the whole invariant |
| LedgerLaws.PartialCheckIsFullCheck | ledger/sidecar/internal/ledger/apply.go:112-127 | re-summing the supply only after genesis and reclaim accepts and refuses exactly what always re-summing, or never re-summing, would |
| LedgerLaws.EffectBooks | ledger/sidecar/internal/ledger/apply.go:129-308 | every payload effect conserves the supply, keeps balances non-negative without wrapping, and changes no other account's balance or nonce |
| LedgerLaws.TransferBooks | ledger/sidecar/internal/ledger/apply.go:163-226 | a transfer takes the amount from the signer's account and gives it to the payee, and claims the signer's next nonce |
| LedgerLaws.ReclaimBooks | ledger/sidecar/internal/ledger/apply.go:256-308 | a reclaim moves the amount back to the treasury and claims the treasury's next nonce |
| LedgerLaws.RotateBooks | ledger/sidecar/internal/ledger/apply.go:228-254 | a rotation moves no points and claims the owner's next nonce |
| LedgerLaws.LogGrows | ledger/sidecar/internal/ledger/apply.go:60-85 | the new entry extends the chain of indices, hashes and valid signatures |
| LedgerAcceptance.UnsignedIsRefused | ledger/sidecar/internal/ledger/tx.go:126-131 | the bad-signature answer is given exactly when a length is wrong or the signature does not verify |
| LedgerAcceptance.LogIsSigned | ledger/sidecar/internal/ledger/apply.go:46-85 | every entry of every reached log carries a verifying signature of its payload by its signer, and the hash of payload, signature and previous hash |
| LedgerAcceptance.GenesisAccepted | ledger/sidecar/internal/ledger/apply.go:129-161 | a genesis is accepted exactly on an empty log, signed by the key it gives the whole supply to |
| LedgerAcceptance.GenesisGrants | ledger/sidecar/internal/ledger/apply.go:154-160 | that key then leads to the treasury with the whole supply |
| LedgerAcceptance.TransferAccepted | ledger/sidecar/internal/ledger/apply.go:163-196 | a transfer is accepted exactly if its payer signed it with the next nonce, has the amount, and pays another user with a positive id |
| LedgerAcceptance.TransferMoves | ledger/sidecar/internal/ledger/apply.go:215-224 | the payee has the amount more, the payer the amount less and the claimed nonce, and nobody else has changed |
| LedgerAcceptance.TransferRefusals | ledger/sidecar/internal/ledger/apply.go:168-196 | a signed transfer is refused for its amount, payee, sender, account, self-payment, nonce or balance, in this order and with these errors |
| LedgerAcceptance.ReclaimAccepted | ledger/sidecar/internal/ledger/apply.go:256-295 | a reclaim is accepted exactly if the treasury signed it with its next nonce and the keyless account with a negative id has the amount |
| LedgerAcceptance.ReclaimMoves | ledger/sidecar/internal/ledger/apply.go:297-306 | the treasury has the amount more and the claimed nonce, that account the amount less, and nobody else has changed |
| LedgerAcceptance.RotateAccepted | ledger/sidecar/internal/ledger/apply.go:228-253 | a rotation is accepted exactly if the owner of the old key signed it with the next nonce, for a full key that nobody else holds where keys are unique |
| LedgerAcceptance.RotationMovesKey | ledger/sidecar/internal/ledger/apply.go:249-253 | the new key then leads to the owner and the old one nowhere |
| LedgerAcceptance.PaymentsKeepKeys | ledger/sidecar/internal/ledger/apply.go:198-224 | transfers and reclaims leave every key with its account, and accounts they create have none |
| LedgerAcceptance.SupplyRechecked | ledger/sidecar/internal/ledger/apply.go:112-120 | genesis and reclaim are accepted only onto the cap, even on a ledger whose sum was wrong |
| LedgerRuns.RegisterOutcome | ledger/sidecar/internal/api/server.go:210-269 | registration succeeds exactly for a full key and a user other than the treasury that has this key, or none while nobody else holds it where keys are unique; the key then leads to the user |
| LedgerRuns.RegisterBooks | ledger/sidecar/internal/api/server.go:231-261 | registration changes no balance, nonce or log entry and keeps the invariant |
| LedgerRuns.RunFromEmpty | ledger/sidecar/internal/ledger/apply.go:45-308 | over every run: total 0 before genesis and the cap ever after, every balance is the non-negative replay of the log, and each sender's nonces are 1, 2, ... up to its nonce |
| LedgerRuns.StateIsReplay | ledger/sidecar/internal/ledger/apply.go:191-307 | from any good state, negative-id accounts included, balances and nonces are the starting ones plus the replay of the entries since, across key rotations |
| LedgerRuns.LogOnlyGrows | ledger/sidecar/internal/ledger/apply.go:42-44 | what a run has logged every longer run still has, unchanged |
| LedgerRuns.UpsertKeepsIndexed | ledger/sidecar/internal/ledger/memstore.go:117-129 | an upsert keeps the index the inverse of the keys exactly when no other account holds the key |
| LedgerRuns.UpdatePubKeyKeepsIndexed | ledger/sidecar/internal/ledger/memstore.go:131-141 | a key replacement keeps the index the inverse exactly when no other account holds the new key |
| LedgerRuns.SetPubKeyKeepsIndexed | ledger/sidecar/internal/ledger/memstore.go:143-155 | an activation keeps the index the inverse exactly when no other account holds the key |
| LedgerRuns.MemStoreLosesKey | ledger/sidecar/internal/ledger/memstore.go:117-129 | without the unique-key guard two registrations leave an account whose key no longer leads to it |
| LedgerRuns.IndexStaysInverse | ledger/sidecar/internal/store/migrations/0001_init.sql:9 | with the unique-key guard the index is the exact inverse of the keys after every run |
| TxLog.Service.MerkleSnapshot | ledger/sidecar/internal/txlog/service.go:128-210 | while the log grows and others install snapshots between its lock sections, a call succeeds exactly if the log reaches the target, with the snapshot that recomputing gives; the cache stays exact, never gets smaller, and covers what was returned |
| TxLog.Service.Fetch | ledger/sidecar/internal/txlog/service.go:164-203 | the row loop extends hashes and leaf hashes up to the target, or reports where the log ended |
| TxLog.ReadCacheExact | ledger/sidecar/internal/txlog/service.go:141-162 | what the first lock section answers is the snapshot of the log's first entries, or leaves of the log to go on from |
| TxLog.FetchedExact | ledger/sidecar/internal/txlog/service.go:164-203 | extending a cached prefix gives what recomputing gives, and fails exactly when the log is too short |
| TxLog.SnapshotsExact | ledger/sidecar/internal/txlog/service.go:128-210 | in every interleaving each returned snapshot of size t has the hashes, leaf hashes and root of the first t entries, of the log then and after any later steps, and neither a read of the current size nor the root comparison ever fails |
| TxLog.NothingShrinks | ledger/sidecar/internal/txlog/service.go:204-224 | from any moment of a run to any later one, log, cached size, checkpoint rows and returned heads never go back |
| TxLog.HeadsConsistent | ledger/sidecar/internal/txlog/service.go:212-255 | any two heads of a run have the log's roots, are equal at equal sizes, and the generated consistency proof between them verifies |
| TxLogLaws.HeadIsOfCurrentSize | ledger/sidecar/internal/txlog/service.go:104-118 | in every interleaving, the snapshot and head that a call for the current head comes to are of the size the log had when it was made |
| TxLogLaws.SnapshotIsOfAskedSize | ledger/sidecar/internal/txlog/service.go:128-139 | in every interleaving, a call for a snapshot comes to one of the size it names, or of the log's size for a negative one |
| TxLogLaws.ReturnedIsCached | ledger/sidecar/internal/txlog/service.go:204-209 | in every run the cache covers whatever a call was returned |
| TxLogLaws.HeadIsServed | ledger/sidecar/internal/txlog/service.go:104-110 | from every good state, a call for the head that nobody overtakes ends in a signed head of the whole log |
| TxLogLaws.InsertStamps | ledger/sidecar/internal/txlog/service.go:213-224 | the first head of a size carries the time and the signature it was made with |
| TxLog.PrefixProofVerifies | ledger/sidecar/internal/api/log.go:125-134 | the served consistency proof between two prefixes of the log verifies against their roots |
| RewardTable.RewardEvents.TryReserve | ledger/sidecar/internal/store/pgstore.go:315-340 | deletes a lapsed reservation, then inserts one exactly if the event is free |
| RewardTable.RewardEvents.CompleteEvent | ledger/sidecar/internal/store/pgstore.go:342-359 | writes the hash into a missing or reserved row, keeps a completed row, fails exactly on another hash |
| RewardTable.RewardEvents.ReleaseEvent | ledger/sidecar/internal/store/pgstore.go:361-370 | deletes the row exactly if it is only a reservation |
| Rewards.PaidAtMostOnce | ledger/sidecar/internal/rewards/webhook.go:197-230 | over every interleaving of any workers an event is paid at most once more often than its reservation expired, so at most once if it never did, and then nobody else holds it |
| Rewards.RunAccounts | ledger/sidecar/internal/store/pgstore.go:315-370 | at every moment payments plus held reservations of an event are at most its expiries plus its row |
| Rewards.WorkerPaysOnce | ledger/sidecar/internal/rewards/webhook.go:237-256 | a worker commits at most one transfer in its at most eight attempts; it is in the log with the right payee and amount, and completed rows carry hashes of such transfers |
| RewardLaws.PaymentsDecode | ledger/sidecar/internal/rewards/webhook.go:281-298 | the signed payload of every payment of every run decodes to the job's payee and amount, from the admin's key, if decoding inverts encoding |
| RewardLaws.FinishedIsCompleted | ledger/sidecar/internal/rewards/webhook.go:219-229 | in every run, whoever has paid and finished has left a completed row |
| RewardLaws.LaterWorkersDoNotPay | ledger/sidecar/internal/rewards/webhook.go:211-217 | once an event is completed, only workers that held a reservation of it at that moment can still pay it |
| RewardLaws.RefusedGivesBack | ledger/sidecar/internal/rewards/webhook.go:220-224 | a refused worker leaves no reservation when it finishes |
| RewardLaws.ReservationLasts | ledger/sidecar/internal/store/pgstore.go:316-323 | a reservation is taken over exactly after more than fifteen minutes |
| RewardLaws.InsertExact | ledger/sidecar/internal/store/pgstore.go:328-339 | inserting takes a free event, and leaves a taken one as it is |
| RewardLaws.LookupExact | ledger/sidecar/internal/rewards/webhook.go:264-275 | the lookup finds the next nonce exactly if the admin account is there and can afford the amount |
| RewardLaws.StaleIsRetried | ledger/sidecar/internal/rewards/webhook.go:245-254 | a stale nonce is tried again up to the eighth attempt, and any other refusal ends the attempts |
| Rewards.CompletedIsFinal | ledger/sidecar/internal/store/pgstore.go:342-370 | a completed row keeps its hash and time for ever |
| Rewards.ExpiryPaysTwice | ledger/sidecar/internal/store/pgstore.go:316-323 | the bound is met: one expiry and two acceptable transfers give a run that pays one event twice |
| RewardInstance.PaidTwiceFromEmpty | ledger/sidecar/internal/store/pgstore.go:316-323 | a concrete run from the empty store, with genesis and two workers, in which one event expires once and is paid twice |
| PayReward.NextNonce | ledger/sidecar/internal/rewards/webhook.go:258-275 | the admin's next nonce exactly if the account is there and can afford the amount |
| PayReward.AttemptSucceeds | ledger/sidecar/internal/rewards/webhook.go:258-303 | an attempt succeeds exactly if a nonce is offered and the ledger, as others have left it, accepts the transfer with that nonce |
| PayReward.UndisturbedSucceeds | ledger/sidecar/internal/rewards/webhook.go:245-249 | a payment that the ledger accepts and nobody disturbs is made at the first attempt |
| PayReward.UndisturbedMoves | ledger/sidecar/internal/rewards/webhook.go:258-303 | an undisturbed payment that is made takes the amount from the admin's balance and adds it to the payee's, and changes no other |
| PayReward.StaleIsDisturbed | ledger/sidecar/internal/rewards/webhook.go:244-256 | if the payload decodes as it was encoded, ending in a stale nonce means that all attempts were used and others committed during every one |
| PayReward.SignAndApplyTransferOnce | ledger/sidecar/internal/rewards/webhook.go:258-303 | the answer and the store are those of one attempt: no account, too few points, or what the ledger answers after others have written; the log gains one transfer or nothing besides theirs |
| PayReward.SignAndApplyTransfer | ledger/sidecar/internal/rewards/webhook.go:237-256 | answer, store and number of attempts are those of repeating the attempt after a stale nonce only, eight times at most; one transfer is added if a transaction is returned and none otherwise |
| PayReward.PayRewardOnce | ledger/sidecar/internal/rewards/webhook.go:197-230 | skips exactly the disabled, invalid and taken events; otherwise it is paid exactly if the attempts succeed, and then completed, and else fails as they do and is released; undisturbed, being paid moves the amount from the admin to the payee |
| Activation.AccountTable.UpsertAccount | ledger/sidecar/internal/store/pgstore.go:190-210 | inserts the row, or overwrites nonce and balance and keeps the stored key if none is given |
| Activation.AccountTable.SetPubKey | ledger/sidecar/internal/store/pgstore.go:225-239 | sets the key of an existing row and nothing else |
| Activation.UpsertsAgree | ledger/sidecar/internal/store/pgstore.go:198-206 | the two stores' upserts of an existing account agree exactly when the upsert carries a key or the row has none |
| Activation.RunIsSerial | ledger/sidecar/internal/store/pgstore.go:190-239 | every statement-level interleaving of one activation with Applies leaves the table as the serial replay in commit order |
| Activation.KeyComesIn | ledger/sidecar/internal/api/server.go:247-256 | a key that is committed between an Apply's reads and writes invalidates nothing the Apply will write |
| Activation.NothingIsLost | ledger/sidecar/internal/api/server.go:247-261 | a registration is reported bound exactly when its key was committed, the key stays until rotated, and every account, those created meanwhile included, has every amount moved and a nonce for every transaction it signed |
| Activation.UndisturbedRegisters | ledger/sidecar/internal/api/server.go:247-268 | alone, a registration binds the key to a keyless account, repeats or conflicts, and touches nothing else |
| Activation.UndisturbedMoveCommits | ledger/sidecar/internal/ledger/apply.go:181-224 | a payment whose statements meet no registration commits with its effect and the next nonce |
| Activation.UndisturbedRotationCommits | ledger/sidecar/internal/ledger/apply.go:239-253 | so does a rotation |
| RateLimit.RateLimiter.Trim | ledger/sidecar/internal/api/security.go:51-55 | removes exactly the buckets idle for more than ten minutes, in any iteration order |
| RateLimit.RateLimiter.Allow | ledger/sidecar/internal/api/security.go:45-75 | after trimming, a call passes exactly if its key is new or its tokens and the seconds since times the rate make one; the new buckets are those of the level |
| RateLimit.EvictionHarmless | ledger/sidecar/internal/api/security.go:50-57 | if ten minutes refill the burst, the limiter answers every call sequence as one that never evicts |
| RateLimit.EvictionExact | ledger/sidecar/internal/api/security.go:30-57 | for every configuration, evicting changes no answer of any call sequence exactly when ten times the minute rate reaches the burst |
| RateLimit.WindowBound | ledger/sidecar/internal/api/security.go:59-75 | from any call of any run to any later one, a key is let through at most burst + rate * time times |
| RateLimit.PatientCallPasses | ledger/sidecar/internal/api/security.go:64-74 | in any run a call that comes one token's time after its key's earlier calls is let through |
| RateLimit.TrimsWhenDue | ledger/sidecar/internal/api/security.go:50-57 | idle buckets go at the first call more than five minutes after the last trim, and none before |
| RateLimit.Defaults | ledger/sidecar/internal/api/security.go:30-40 | unconfigured limits are ten calls a second and 120 at once |
| RateLimit.TwoVolleysDiffer | ledger/sidecar/internal/api/security.go:50-62 | otherwise two bursts just over ten minutes apart all pass, beyond the bound on a window |
| Audit.BatchIsSlice | ledger/sidecar/internal/txlog/service.go:74-86 | on an indexed log the range query is the next stretch of the log, cut at its limit of 10,000 rows, and empty only at the log's end |
| Audit.UnboundedRows | ledger/sidecar/internal/txlog/service.go:73-84 | a negative upper bound of the range query is none |
| Audit.FetchAllLeaves | ledger/sidecar/cmd/ledger-verify/main.go:186-198 | batch by batch from a growing log, the loop ends with exactly the leaves up to the head's size |
| Audit.VerifyLeaves | ledger/sidecar/cmd/ledger-verify/main.go:60-85 | the loop accepts exactly the lists whose every leaf is chained, hashed and carries a signature that verifies, and names the first that is not |
| Audit.VerifyPayloads | ledger/sidecar/cmd/ledger-verify/main.go:104-144 | the loop accepts exactly the lists whose payloads decode within bounds and that hold a genesis of the cap |
| Audit.VerifySamples | ledger/sidecar/cmd/ledger-verify/main.go:283-308 | accepts exactly if every sampled answer has the local leaf hash and a valid path |
| Audit.VerifyMidpoint | ledger/sidecar/cmd/ledger-verify/main.go:157-170 | accepts exactly if the consistency proof from half the size verifies |
| Audit.Verify | ledger/sidecar/cmd/ledger-verify/main.go:38-172 | the whole audit passes exactly if all of its checks hold, an empty tree after the signature |
| Audits.PassingHead | ledger/sidecar/cmd/ledger-verify/main.go:175-184 | a passing head is signed over its size, root and time, and covers as many leaves as it says, with their root |
| Audits.PassingLeaf | ledger/sidecar/cmd/ledger-verify/main.go:61-144 | every leaf of a passing audit has a verifying signature, the hash and the previous hash it claims, and a payload within bounds, and one is the genesis |
| Audits.SampleExact | ledger/sidecar/cmd/ledger-verify/main.go:296-304 | without a hash collision, a sample passes exactly with the leaf's hash and its generated path |
| Audits.MidpointExact | ledger/sidecar/cmd/ledger-verify/main.go:158-168 | without a hash collision, the midpoint passes exactly with the generated proof from half the size |
| Audits.RunAudit | ledger/sidecar/cmd/ledger-verify/main.go:38-172 | from the first batch fetched to the last check, the audit passes on every reachable ledger at every signed size, for any samples and while the log grows between requests |
| Audits.RunServiceAudit | ledger/sidecar/internal/api/log.go:60-147 | so does the audit of the concurrent service, with any head it had returned and every proof computed from a snapshot that some interleaved call was returned |
| Audits.LeavesBind | ledger/sidecar/cmd/ledger-verify/main.go:59-97 | two checked lists of one size have one root exactly when they agree everywhere on payload, signature, previous hash and hash |
| Audits.AuditBinds | ledger/sidecar/cmd/ledger-verify/main.go:38-98 | two passing audits under one size and root have seen the same content |
| Audits.PassingExact | ledger/sidecar/cmd/ledger-verify/main.go:59-144 | another leaf list in a passing audit passes exactly if payloads, signatures and hashes are the same, its own signers verify the signatures, and its own types fit the payloads with a genesis among them |
| Audits.TypeIsNotBound | ledger/sidecar/internal/ledger/tx.go:112-115 | the witness: an audit passes as well with a non-genesis entry shown as a rotation |

## Left out

- Ed25519, SHA-256, HMAC, JSON, base64 and HTTP: functions or already decoded values; a decoder may refuse any bytes.
- Hashes of other lengths than 32 bytes: inside the tree a hash is one fixed-width value, although the verifier concatenates without a length check.
- The texts of error messages, which carry hashes and sizes; the model has their kinds.
- Usernames, Meta, memos and derived transaction columns: display only.
- The lock of the in-memory store: its LockLedger does nothing, so its transactions are modelled one at a time; Rollback, which only marks the copy as done.
- Aliasing of a caller's transaction object after Apply: Apply requires an object that is not in the log, and the model does not follow later writes to it.
- The create branch of register without the ledger lock: it is one atomic step in LedgerRuns, and Activation covers the activate branch only.
- Activation.RunIsSerial: one registration; key uniqueness is checked against committed rows, deadlocks and failed commits are not modelled, and every check of an Apply that fails is a rollback.
- PayReward.PayRewardOnce: no other worker uses the reward table during the call, so completion cannot fail there; Rewards has the interleavings. The admin's signing mutex is not modelled, which only adds interleavings.
- Rewards.PaidAtMostOnce: an Apply that reports an error has committed nothing; ambiguous commits are not modelled.
- RateLimit.RateLimiter.Allow: floating point is modelled by real numbers, the clock is a parameter that never goes back, and calls are serialized by the mutex.
- TxLog.SnapshotsExact: rows have consecutive indices, so the gap error is not modelled; the backfill of missing checkpoint keys, OpenTimestamps receipts and the checkpoint list are left out.
- Audits.RunAudit: the answers are those of a server that runs the log service on the ledger; Audit.Verify has all others.
- Audit.FetchAllLeaves: the server's rows carry their own position as index; a server that answers otherwise is not covered, nor are logs beyond 2^63 entries.
- The unused replayLedger and findDiscourseIDByPubkey of the audit tool; the replay of LedgerRuns is written from Apply.
- Sessions, DiscourseConnect, the webhook router, the bot, the explorer and the admin interface, list queries and migrations: they would only add easy members.
