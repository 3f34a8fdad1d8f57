# Solana Nervous System: a verified model

This project models the parts of the Solana Nervous System whose correctness is not
visible from one function body, and proves properties of them for all inputs, all
runs or all traces.

- **On-chain registry** (`Emission`, `Ledger`, `LedgerRuns`, `LedgerEntries`,
  `LedgerAsWritten`, `RegistryProgram`). The
  instructions of `sns-program` as atomic steps over node accounts, escrows, wallets,
  batch records, the request counter and the reward mint. An instruction commits or
  leaves every account as it was.
- **Receipt batches** (`Merkle`, `Receipts`). The Merkle commitment, the leaf encoding,
  and the way receipts move from memory to batch files.
- **2-of-3 consensus** (`Consensus`, `ConsensusRuns`, `ConsensusRepeats`). One voting
  round, and the blacklist over unbounded runs.
- **Onion routing** (`Onion`). Wrapping, peeling, and delivery across a network of handlers.
- **Time-driven guards** (`RateLimits`, `RateLimitRuns`, `RateAnswers`, `SlidingLimit`,
  `PeerGuard`, `PeerGuardRuns`, `PeerRecords`, `PeerForgiveness`, `LatencyCache`, `LatencyCacheRuns`). Request limits,
  bans, peer reputation and the tiered cache over traces of timed calls.
- **Routing** (`GeoRouter`, `LoadBalancer`, `RoundRobin`, `WeightedShares`). Region-aware
  selection, the latency average and the selection strategies.
- `Common`, `Bytes` and `MapSums` hold machine integers, byte and hex text, and sums over maps.

Where the program changes fields step by step there is a class whose methods follow
its branches; each method is proved equal to a function on values, and the theorems
about runs are lemmas about that function. `hide` only keeps definitions out of proofs
that do not need them.

Modelling decisions:

- Both Cargo workspaces set `overflow-checks = true`, so overflow of plain integer
  arithmetic stops the program. The model writes this out as an abort wherever it can
  happen in the reward loop, the ledger, the receipt total, the latency average and the
  weighted selection.
- `program_state` is not marked `mut` in `SettleCompressedBatch`
  (sns-program/programs/sns-program/src/lib.rs:320-321), so Anchor would not write the
  counter back. `Ledger` takes the assignment at line 110 and the field comment at
  line 444 as the intent: the counter persists. `LedgerAsWritten` runs the same steps
  without the write and says exactly when the issuance is still the same.
- SHA-256 is any function from byte strings to 32-byte digests, never assumed injective.
  X25519 and AES-GCM are parameters with the laws in `Onion.Sound` (section 6.1 of
  RFC 7748; sections 7.1 and 7.2 of NIST SP 800-38D), which `Onion.SoundSuiteExists`
  shows to be consistent.
- Clock readings, random draws, replies of other nodes and the success of file
  operations are parameters. Traces have a clock that does not run backwards.

Results that differ from what the documentation or a first reading suggests:

- The per-IP limiter is described as 100 requests a minute in a sliding window
  (sns-daemon/src/security.rs:61). It admits up to 199 in a closed minute and never
  more (`RateLimitRuns.AtMost199PerMinute`, `RateLimitRuns.OneHundredNinetyNineInAMinute`).
  Around a newly opened window the sliding limit holds for sure exactly when the 60
  seconds before it let nothing through (`SlidingLimit.SlidingLimitExactlyWhen`).
- Nothing removes repeated entries from the list of available nodes, and a node listed
  twice can outvote all others until it stands alone
  (`ConsensusRepeats.TwoStayInPlayExactlyWhen`).
- A client that comes back after exactly the `retry_after` seconds it was told is
  refused again; it takes one second more (`RateAnswers.RetryAfterIsOneSecondShort`).
- Five slashes eject a node only if its escrow still holds half of the stake
  (`LedgerRuns.SlashCommitsExactlyWhen`, `LedgerRuns.FifthSlashCanFail`).
- The leaf encoding alone is ambiguous, exactly across different IP-hash lengths
  (`Receipts.EncodingBindsExactlyWhen`, `Receipts.EncodingIsAmbiguous`).
- A layer whose hop is not 64 hex digits does not come back as it was wrapped
  (`Onion.LayerRoundTripExactlyWhen`, `Onion.EmptyHopIsLost`).
- A relay that does not know the next hop processes what is still encrypted for it
  (`Onion.DeliveredToFirstStop`), one with a wrong address sends it astray, and a last
  hop that is not zero but known is forwarded past the end. Nothing else keeps a planned
  request from its exit (`Onion.DeliveredExactlyWhen`).
- Under a constant latency L the moving average of a fresh node settles at L - 9, or at 0
  when L is at most 9, and not at L (`LoadBalancer.ConstantLatencySettles`).
- Weighted selection gives the first node one ticket too many, unless it has all the
  weight, and the last node of positive weight one too few; of two nodes of weight one
  the second is never selected. Totals past 2^31 - 1 change sign in the casts and can
  abort (`WeightedShares.PickIsOutcome`, `WeightedShares.ShareIsWeightExactlyWhen`,
  `WeightedShares.SecondOfTwoIsNeverPicked`, `WeightedShares.LargeWeightAborts`).
- Round robin skips a node and repeats another when the 64-bit counter wraps, unless the
  number of live nodes divides 2^64 (`RoundRobin.EachOnceExactlyWhen`,
  `RoundRobin.WrapSkipsANode`).
- Peer scores are described as 0 to 100 (sns-daemon/src/peer_guard.rs:8); they range from
  -39 to 100 (`PeerGuardRuns.ScoresStayBounded`, `PeerGuardRuns.LowestScoreIsReached`), and
  stay within 0 to 100 exactly while no failed handshake before the fifth takes more than
  the score holds (`PeerGuardRuns.RangeHoldsExactlyWhen`).
- Clean-up of the peer guard, unlike that of the request limiters, can be observed: by
  some later events, clean-ups included, exactly when it drops a record at all
  (`PeerForgiveness.CleanupShowsExactlyWhen`). It may show at once
  (`PeerForgiveness.ForgivenessHappens`), after a further event
  (`PeerForgiveness.ForgivenessShowsLater`), or only with the help of the next clean-up,
  since a failed handshake does not renew the time last seen
  (`PeerForgiveness.FreshLookingRecordShows`). Without a further clean-up it shows exactly
  when the score or failure count of the record dropped is not a fresh one's
  (`PeerForgiveness.CleanupAloneShowsExactlyWhen`).
- Without the write of the request counter every batch is paid from the start of the
  schedule, which issues too much exactly when two batches or more hold receipts and
  their sum passes the first era (`LedgerAsWritten.IssuanceFollowsScheduleExactlyWhen`,
  `LedgerAsWritten.OverIssuanceHappens`).

## Model

| member | source | states |
|---|---|---|
| Emission.SettleRewards | sns-program/programs/sns-program/src/lib.rs:83-111 | the reward loop on u64 values pays the per-request emission and advances the counter, one iteration per era touched; it stops early exactly when a non-empty batch passes the last era end that fits a u64, and never through `checked_mul` or `checked_add` |
| Emission.EmissionCap | sns-program/programs/sns-program/src/lib.rs:86-100 | all tokens ever issued are at most 10^8 * (2*10^10 - 11), which fits a u64 and is reached exactly from request 34*10^8 on |
| Emission.SettlingInParts | sns-program/programs/sns-program/src/lib.rs:89-110 | settling a batch in two consecutive parts goes through exactly when settling it at once does, pays the same in all and leaves the same counter |
| Emission.EmittedWithinEra | sns-program/programs/sns-program/src/lib.rs:94-104 | inside one era the per-request emission is the count times the era reward |
| Emission.NoRewardFromEra34 | sns-program/programs/sns-program/src/lib.rs:99-100 | the halved reward is zero from era 34, well before the era-64 guard |
| LedgerRuns.IssuedIsFunctionOfCount | sns-program/programs/sns-program/src/lib.rs:84-135 | in every reachable state the reward issued and the tokens minted equal the emission of the global request count, whatever the order, sizes and owners of batches; receipt counts of batch records add up to that count; the cap holds and is met exactly from count 34*10^8 on |
| LedgerRuns.SettleCommitsExactlyWhen | sns-program/programs/sns-program/src/lib.rs:58-139 | in every reachable state, exactly when a settlement commits: the node is registered, the batch id new, the protocol initialised, the escrow sufficient, and the count and token supply in range; statistics never overflow |
| LedgerRuns.NodeStep | sns-program/programs/sns-program/src/lib.rs:17-29 | every instruction keeps a node account's life cycle: lock free, reputation a multiple of 20, positive exactly while registered, stake at least the minimum while registered and zero afterwards |
| LedgerRuns.RunInv | sns-program/programs/sns-program/src/lib.rs:7-244 | the node, issuance and batch invariants hold after every run from genesis |
| LedgerRuns.LamportsConserved | sns-program/programs/sns-program/src/lib.rs:31-40 | no instruction changes the sum of wallet and escrow lamports |
| LedgerRuns.RunConservesLamports | sns-program/programs/sns-program/src/lib.rs:63-81 | nor does any run |
| LedgerRuns.EscrowBalances | sns-program/programs/sns-program/src/lib.rs:210-231 | in every run each escrow equals its opening balance plus deposits and funding minus settlement payouts and slash refunds |
| LedgerEntries.WalletBalances | sns-program/programs/sns-program/src/lib.rs:31-81 | in every run each wallet equals its opening balance minus the stakes and fundings its owner sent, plus the settlement payouts and slash refunds from the owner's own escrow |
| LedgerEntries.TokensAreEarned | sns-program/programs/sns-program/src/lib.rs:84-126 | in every run each owner holds the emission over the requests of its own batches, at their place in the global count |
| LedgerEntries.AccountsTellTheirHistory | sns-program/programs/sns-program/src/lib.rs:17-29 | every field of every node account in every run: endpoint, time and stake of the latest registration, priority stakes added, receipts settled and slashes since |
| LedgerEntries.BatchRecordsTellTheirSettlement | sns-program/programs/sns-program/src/lib.rs:129-135 | a batch record holds owner, root, lamports, count and time of the settlement that wrote it |
| LedgerEntries.FirstInitialisationStands | sns-program/programs/sns-program/src/lib.rs:152-162 | the first initialisation sets administrator, mint and bump for good |
| LedgerEntries.RegisterCommitsExactlyWhen | sns-program/programs/sns-program/src/lib.rs:11-40 | in every reachable state, exactly when a registration commits and with which error it fails |
| LedgerEntries.PriorityCommitsExactlyWhen | sns-program/programs/sns-program/src/lib.rs:164-188 | the same for a priority stake |
| LedgerEntries.SlashFailsExactlyWhen | sns-program/programs/sns-program/src/lib.rs:191-231 | with which error a slash fails; the lock never stops one |
| LedgerEntries.SettleFailsExactlyWhen | sns-program/programs/sns-program/src/lib.rs:51-138 | with which error a settlement fails; the statistics never overflow |
| LedgerEntries.OthersCommitExactlyWhen | sns-program/programs/sns-program/src/lib.rs:152-162 | initialisation commits exactly once, a plain transfer exactly when the sender has the amount |
| LedgerRuns.BatchSettledAtMostOnce | sns-program/programs/sns-program/src/lib.rs:296-303 | each batch id is settled at most once in a run, and once exactly when its record exists |
| LedgerRuns.BatchRecordsAreFinal | sns-program/programs/sns-program/src/lib.rs:129-135 | a batch record never changes after it is written |
| LedgerRuns.ReputationCountsSlashes | sns-program/programs/sns-program/src/lib.rs:200-233 | in every reachable state reputation is 100 - 20 * slashes since registration, registered means fewer than five, and stake follows |
| LedgerRuns.SlashCommitsExactlyWhen | sns-program/programs/sns-program/src/lib.rs:191-231 | in every reachable state a slash commits exactly when the administrator or the node's owner asks, the node is registered, and it is not the fifth since registration or the escrow covers half the stake |
| LedgerRuns.FifthSlashCanFail | sns-program/programs/sns-program/src/lib.rs:210-230 | a run in which the fifth slash fails |
| LedgerAsWritten.PayingFromTheStart | sns-program/programs/sns-program/src/lib.rs:90-104 | two parts both paid from count zero come to at least their emission in sequence, and to as much exactly when one is empty or both fit in the first era |
| LedgerAsWritten.IssuanceFollowsScheduleExactlyWhen | sns-program/programs/sns-program/src/lib.rs:320-321 | with the counter not written back, in every run the count stays zero, and the tokens issued are at least the emission of all settled receipts, equal exactly when at most one batch held receipts or all fit in the first era |
| LedgerAsWritten.OverIssuanceHappens | sns-program/programs/sns-program/src/lib.rs:320-321 | a run from genesis in which two batches of 60,000,000 receipts mint 1.2 * 10^18 units against 1.1 * 10^18 of the schedule |
| RegistryProgram.Program.InitializeProtocol | sns-program/programs/sns-program/src/lib.rs:152-162 | performs the ledger's atomic step |
| RegistryProgram.Program.RegisterNode | sns-program/programs/sns-program/src/lib.rs:11-49 | performs the ledger's atomic step, checks in the handler's order |
| RegistryProgram.Program.SettleCompressedBatch | sns-program/programs/sns-program/src/lib.rs:51-150 | performs the ledger's atomic step: payment, reward loop, counter, record and statistics together or nothing |
| RegistryProgram.Program.StakeForPriority | sns-program/programs/sns-program/src/lib.rs:164-188 | performs the ledger's atomic step |
| RegistryProgram.Program.SlashNode | sns-program/programs/sns-program/src/lib.rs:191-243 | performs the ledger's atomic step, the saturating penalty and refund included |
| Merkle.HashLevel | sns-daemon/src/zk_payments.rs:84-99 | the inner loop computes the next level, the last node doubled when alone |
| Merkle.ComputeMerkleRoot | sns-daemon/src/zk_payments.rs:73-104 | the loop returns the root after exactly ceil(log2 n) levels |
| Merkle.RootSplits | sns-daemon/src/zk_payments.rs:73-104 | the root of 2^k leaves and up to 2^k more is the hash of both roots, left first, the right one hashed with itself up to the same height |
| Merkle.EveryLeafFoldsToRoot | sns-daemon/src/zk_payments.rs:83-103 | every leaf folded with its siblings, itself at an odd end, gives the root in ceil(log2 n) hashes |
| Merkle.RootBinds | sns-daemon/src/zk_payments.rs:73-104 | lists of one length with one root are equal, or the search returns two inputs with one digest |
| Merkle.RepeatedLastLeafKeepsRoot | sns-daemon/src/zk_payments.rs:88-92 | repeating the last leaf of an odd list of three or more keeps the root, so the count is needed |
| Receipts.EncodingBindsExactlyWhen | sns-daemon/src/zk_payments.rs:47-57 | receipts that encode alike agree on all committed fields exactly when their IP hashes have one length |
| Receipts.EncodingIsAmbiguous | sns-daemon/src/zk_payments.rs:47-57 | two receipts that differ and encode alike |
| Receipts.CompressedBatchBinds | sns-daemon/src/zk_payments.rs:38-71 | batches with equal root text and count and IP hashes of one length hold the same committed fields and total, or an explicit collision is found |
| Receipts.MethodAndSignatureUncommitted | sns-daemon/src/zk_payments.rs:50-54 | the root does not depend on method or signature |
| Receipts.ReceiptsAreConserved | sns-daemon/src/zk_payments.rs:33-127 | over every run with failing and torn writes, batch files in order plus pending receipts are exactly the receipts added |
| Receipts.TotalIsAdditive | sns-daemon/src/zk_payments.rs:39-42 | the batch total is the sum of the amounts |
| Receipts.AmountsAreConserved | sns-daemon/src/zk_payments.rs:33-127 | in every run the totals claimed by closed batches plus the pending amounts are all amounts added, and compression aborts exactly when what is pending does not fit a u64 |
| Receipts.BatchTells | sns-daemon/src/zk_payments.rs:38-71 | id, count, total, time and root of a compressed batch, and the leaves it is made of |
| Receipts.EncodingLayout | sns-daemon/src/zk_payments.rs:51-54 | IP hash, amount, nonce, timestamp, in that order and the integers in eight bytes |
| Receipts.ZkReceiptBatch.Compress | sns-daemon/src/zk_payments.rs:38-71 | computes total, count and root of the pending receipts, or aborts on an overflowing total |
| Receipts.ZkReceiptBatch.PersistAndClear | sns-daemon/src/zk_payments.rs:106-127 | clears only after a complete write, and the returned commitment is that of the file written |
| Bytes.LittleEndianInjective | sns-daemon/src/zk_payments.rs:52-54 | fixed-width little-endian text determines the integer |
| Bytes.LittleEndianWeighs | sns-daemon/src/zk_payments.rs:52-54 | byte i of an encoded integer counts 256^i |
| Consensus.AgreedExactlyOnTwoVotes | sns-daemon/src/consensus.rs:179-203 | a value is agreed exactly when two of three replies gave it, and all-failed exactly when all failed |
| Consensus.StrikesAfterRound | sns-daemon/src/consensus.rs:190-195 | for any selection, repeated nodes included: on agreement every selected node that gave the value in no reply, errors included, gets one strike and one failure, at most one position holds such a node, and nobody else gets any; without agreement nobody |
| Consensus.OrderIsIrrelevant | sns-daemon/src/consensus.rs:159-204 | result and state do not depend on the order of the replies |
| Consensus.ConsensusRouter.FilterEligible | sns-daemon/src/consensus.rs:117-120 | keeps exactly the nodes that are not blacklisted, in order |
| Consensus.ConsensusRouter.Tally | sns-daemon/src/consensus.rs:162-177 | the vote map holds for each value exactly its voters, and the error count is the number of replies exactly when all failed |
| Consensus.ConsensusRouter.QueryWithConsensus | sns-daemon/src/consensus.rs:109-212 | for any list of available nodes, repetitions included: whichever three eligible positions are drawn and in whichever order the map is read, result and strikes are those of the round; fewer than three eligible change nothing |
| ConsensusRuns.RunKeepsRecords | sns-daemon/src/consensus.rs:89-131 | over every run strikes never exceed three, equal the recorded failures, and only known nodes have any |
| ConsensusRuns.TwoStayInPlay | sns-daemon/src/consensus.rs:116-132 | over every run among at least two nodes whose lists name each node once, two nodes stay in play |
| ConsensusRuns.StrikesNeverDecrease | sns-daemon/src/consensus.rs:246-254 | strikes never decrease over a run |
| ConsensusRuns.BlacklistIsPermanent | sns-daemon/src/consensus.rs:116-132 | a blacklisted node is never queried again |
| ConsensusRuns.EntryKeepsFirstTime | sns-daemon/src/consensus.rs:246-254 | the time in a blacklist entry is that of the round of the node's first strike |
| ConsensusRuns.StrikesInTotal | sns-daemon/src/consensus.rs:183-204 | with lists that name each node once all strikes among N nodes come to at most 3N - 2, or none for N < 3 |
| ConsensusRuns.MostStrikesAreReached | sns-daemon/src/consensus.rs:183-204 | for every N >= 3 such a run reaches 3N - 2 |
| ConsensusRepeats.TwoStayInPlayExactlyWhen | sns-daemon/src/consensus.rs:116-132 | when every round offers the same list, two of its nodes stay in play in all runs exactly when it names no node twice |
| ConsensusRepeats.OneStaysInPlay | sns-daemon/src/consensus.rs:116-132 | whatever lists are offered, one node stays in play in every run |
| ConsensusRepeats.StrikesInTotalOfAnyLists | sns-daemon/src/consensus.rs:183-204 | whatever lists are offered, all strikes among N nodes come to at most 3N - 1, or none for N < 2 |
| ConsensusRepeats.MostStrikesOfAnyListsAreReached | sns-daemon/src/consensus.rs:183-204 | for every N >= 2 a run reaches 3N - 1 |
| ConsensusRuns.HonestMajorityWins | sns-daemon/src/consensus.rs:183-203 | two truthful nodes of three carry the round and are not struck |
| ConsensusRuns.HonestNodesStayClean | sns-daemon/src/consensus.rs:109-212 | over every run with honest majorities each queried round returns the truth and always-truthful nodes have no strikes |
| Onion.WrapRequest | sns-daemon/src/onion.rs:36-57 | the reverse loop builds the layers from the inside, or fails on a hop that is not hex |
| Onion.WrapFailsExactlyWhen | sns-daemon/src/onion.rs:44-50 | wrapping fails exactly when a hop in use is not hex text |
| Onion.LayersUseTheirDraws | sns-daemon/src/onion.rs:86-118 | every layer begins with its own ephemeral key and nonce |
| Onion.LayerLayout | sns-daemon/src/onion.rs:86-118 | ephemeral public key, nonce, ciphertext |
| Onion.LayerRoundTripExactlyWhen | sns-daemon/src/onion.rs:61-84 | peeling a wrapped layer gives back hop and contents exactly when the hop has 64 digits |
| Onion.EncryptedLayerOpens | sns-daemon/src/onion.rs:86-147 | a layer encrypted to a public key opens with its secret key and costs 60 bytes |
| Onion.WrappedLength | sns-daemon/src/onion.rs:36-57 | n layers add 92 * n bytes |
| Onion.OnionHandler | sns-daemon/src/rpc_proxy.rs:465-544 | reject, process or forward as the peeled layer and the registry say |
| Onion.RejectsExactlyWhen | sns-daemon/src/rpc_proxy.rs:471-485 | bytes are rejected exactly when they are fewer than 44, do not decrypt under the agreed key, or hold fewer than 32 bytes |
| Onion.HandlesWhatOpens | sns-daemon/src/rpc_proxy.rs:486-543 | what opens is processed at the all-zero hop or one not on record, and passed to the address on record otherwise; either way it is the inside |
| Onion.DeliveryOpensEveryLayer | sns-daemon/src/rpc_proxy.rs:471-543 | for any bytes and any network: every node passes on what it decrypted from what it received, the last one processes only what it decrypted and rejects only what it cannot |
| Onion.DeliveryEnds | sns-daemon/src/rpc_proxy.rs:486-543 | any bytes are handled at most once per 92 of them plus once, even in a circle of nodes |
| Onion.DeliveredToFirstStop | sns-daemon/src/rpc_proxy.rs:486-543 | a planned request goes in key order to the first node that takes itself for the exit, which processes what is left |
| Onion.DeliveredEndToEnd | sns-daemon/src/rpc_proxy.rs:471-543 | with correct registries and only the last hop zero, n - 1 forwards in key order and the last node processes the original payload |
| Onion.EmptyHopIsLost | sns-daemon/src/onion.rs:47-84 | the empty hop, accepted when wrapping, makes peeling fail on short contents and misread the hop otherwise |
| Onion.DeliveredExactlyWhen | sns-daemon/src/rpc_proxy.rs:486-543 | for any registries, with missing, stale and wrong entries: a planned request visits the key holders in order and the last processes the payload exactly when every earlier node resolves its hop to the next and the last takes itself for the exit |
| Bytes.HexDecodeEncode | sns-daemon/src/onion.rs:76 | hex decoding inverts hex encoding |
| Bytes.HexEncodeDecode | sns-daemon/src/onion.rs:48 | encoding a decoded hop gives it back in lower case |
| Bytes.HexEncodeAt | sns-daemon/src/onion.rs:76 | each byte becomes two lower-case digits, the high one first |
| Bytes.HexDecodesExactlyWhen | sns-daemon/src/onion.rs:48 | text decodes exactly when it has an even number of characters, all hex digits |
| RateLimits.AttackPrevention.IsBanned | sns-daemon/src/attack_prevention.rs:53-63 | answers whether a ban is in force and drops an expired one |
| RateLimits.AttackPrevention.CheckRateLimit | sns-daemon/src/attack_prevention.rs:71-99 | counts the request in its window and decides; past 1000 it bans for a day |
| RateLimits.AttackPrevention.Gate | sns-daemon/src/rpc_proxy.rs:275-292 | ban list first, then rate limit |
| RateLimits.AttackPrevention.Cleanup | sns-daemon/src/attack_prevention.rs:122-126 | drops stale records and expired bans and nothing else |
| RateLimits.RateLimiter.Check | sns-daemon/src/security.rs:85-97 | counts the request in its window and admits the first hundred |
| RateLimits.RateLimiter.Cleanup | sns-daemon/src/security.rs:100-103 | drops windows begun five minutes ago or earlier |
| RateLimitRuns.CleanupIsUnobservable | sns-daemon/src/attack_prevention.rs:53-126 | over every trace all rate and ban decisions are those made without clean-up |
| RateLimitRuns.ClockNeverUnderflows | sns-daemon/src/attack_prevention.rs:79-96 | no time difference is negative and retry_after lies in 0..60 |
| RateLimitRuns.AtMost199PerMinute | sns-daemon/src/attack_prevention.rs:71-99 | at most 199 requests of an IP are allowed in any closed interval of 60 seconds |
| RateLimitRuns.AtMost100InsideWindow | sns-daemon/src/attack_prevention.rs:79-98 | a minute that begins inside the current window holds at most 100 of them |
| RateLimitRuns.OneHundredNinetyNineInAMinute | sns-daemon/src/attack_prevention.rs:79-98 | a trace in which 199 are |
| SlidingLimit.SlidingLimitExactlyWhen | sns-daemon/src/attack_prevention.rs:71-99 | for every trace up to a request that opens a window: every minute that touches the window holds at most 100 allowed requests, however the trace goes on inside it, exactly when none was allowed in the 60 seconds before |
| RateLimitRuns.GateCountsTo1001 | sns-daemon/src/rpc_proxy.rs:275-292 | behind the ban gate a window never counts past 1001 |
| RateLimitRuns.BanHoldsUntilExpiry | sns-daemon/src/rpc_proxy.rs:275-279 | once banned at the gate every request is refused until the ban expires |
| RateAnswers.NthAnswer | sns-daemon/src/attack_prevention.rs:79-98 | of requests at one moment the first 100 are allowed, those up to 1000 told to wait 60 seconds, the rest banned |
| RateAnswers.RetryAfterIsOneSecondShort | sns-daemon/src/attack_prevention.rs:90-96 | a client told to wait w seconds, and silent meanwhile, is allowed again exactly when more than w seconds have passed |
| RateAnswers.BannedExactlyUntilEnd | sns-daemon/src/attack_prevention.rs:53-99 | a ban, automatic or asked for, is reported and refuses at the gate exactly until it ends |
| RateLimitRuns.SameRequestsPass | sns-daemon/src/security.rs:85-103 | the simpler limiter with its own clean-up admits exactly the requests that the guard without clean-up allows |
| PeerGuard.PeerGuard.IsAllowed | sns-daemon/src/peer_guard.rs:48-71 | denies under a ban in force or a score of zero or less, and drops an expired ban |
| PeerGuard.PeerGuard.Cleanup | sns-daemon/src/peer_guard.rs:213-225 | drops expired bans and peers not seen for a day |
| PeerGuardRuns.ScoresStayBounded | sns-daemon/src/peer_guard.rs:94-140 | over any events a tracked peer has at most four failures and a score from 1 - 10 * failures to 100, so at least -39 |
| PeerGuardRuns.LeavesRangeExactlyWhen | sns-daemon/src/peer_guard.rs:95-117 | from a score in 0 to 100 an event leaves the range exactly when it is a failed handshake before the fifth on a score below 10 |
| PeerGuardRuns.RangeHoldsExactlyWhen | sns-daemon/src/peer_guard.rs:74-155 | the documented range 0 to 100 holds all along a run exactly when the run has no such event |
| PeerGuardRuns.LowestScoreIsReached | sns-daemon/src/peer_guard.rs:74-140 | a trace that leaves a tracked peer at -39 |
| PeerRecords.RecordsTellTheirHistory | sns-daemon/src/peer_guard.rs:74-155 | in every run counters, times and score of a tracked peer are those of the events since its record was created |
| PeerRecords.GoneExactlyWhen | sns-daemon/src/peer_guard.rs:157-225 | a record goes exactly at a ban of its peer or a clean-up a day after it was last seen |
| PeerGuardRuns.DeniedExactlyUntilExpiry | sns-daemon/src/peer_guard.rs:48-71 | with no further event for it a banned peer is denied exactly until expiry, or for ever, whatever else happens |
| PeerGuardRuns.DeniedAfterAnyBan | sns-daemon/src/peer_guard.rs:95-140 | the same after the fifth failed handshake, for an hour, and after the violation to zero or less, for ever |
| PeerGuardRuns.ClockNeverUnderflows | sns-daemon/src/peer_guard.rs:221-223 | in every run of a clock that does not go back no record was last seen later than now |
| PeerForgiveness.SameIsIndistinguishable | sns-daemon/src/peer_guard.rs:48-225 | states equal in their records and bans in force answer every later query alike after any events, clean-ups included |
| PeerForgiveness.AlikeIsIndistinguishable | sns-daemon/src/peer_guard.rs:48-155 | states equal in scores, failure counts (an untracked peer as a fresh one) and bans in force answer every later query alike after any events other than clean-up |
| PeerForgiveness.CleanupShowsExactlyWhen | sns-daemon/src/peer_guard.rs:213-225 | a clean-up in any reachable state, bans included, can be told from none by some later events, further clean-ups included, and a query exactly when it drops a record |
| PeerForgiveness.CleanupAloneShowsExactlyWhen | sns-daemon/src/peer_guard.rs:213-225 | by events without further clean-up, exactly when it drops a record whose score is not 50 or whose failure count is not zero |
| PeerForgiveness.FreshLookingRecordShows | sns-daemon/src/peer_guard.rs:95-225 | a trace that leaves score 50 and no failures, which no events without clean-up tell from no record, and which a failed handshake, one more clean-up and four failures do |
| PeerForgiveness.CleanupForgivesExactlyWhen | sns-daemon/src/peer_guard.rs:213-225 | clean-up changes the answer at its own instant exactly for an unbanned peer with score at most zero last seen a day ago or longer |
| PeerForgiveness.ForgivenessHappens | sns-daemon/src/peer_guard.rs:95-140 | a trace that leaves such a peer |
| PeerForgiveness.ForgivenessShowsLater | sns-daemon/src/peer_guard.rs:95-140 | a trace that leaves a peer at score 5, answered alike with and without clean-up until one more failed handshake |
| LatencyCache.KeyInjective | sns-daemon/src/latency_engine.rs:135-140 | for tiered methods the joined key determines method and parameters |
| LatencyCache.LatencyEngine.GetCached | sns-daemon/src/latency_engine.rs:156-185 | serves a fresh entry of the method's tier, counts the hit, drops an expired one |
| LatencyCache.LatencyEngine.SetCache | sns-daemon/src/latency_engine.rs:188-213 | stores the response in the method's tier with its time to live, if it has one |
| LatencyCache.LatencyEngine.EvictExpired | sns-daemon/src/latency_engine.rs:277-287 | keeps exactly the unexpired entries of all tiers |
| LatencyCacheRuns.CacheRefinesLatest | sns-daemon/src/latency_engine.rs:109-213 | over every trace a read returns v exactly when the method is tiered and the latest response stored for the request is v and younger than its time to live |
| LatencyCacheRuns.EvictionIsUnobservable | sns-daemon/src/latency_engine.rs:277-287 | removing all evictions from a trace changes no answer |
| LatencyCacheRuns.HitsCountServed | sns-daemon/src/latency_engine.rs:171-178 | a method's hit counter is the number of its requests served from the cache |
| GeoRouter.GeoRouter.UpdateNodeHealth | sns-daemon/src/geo_router.rs:108-120 | changes latency, load and liveness of that node only, and adds none |
| GeoRouter.GeoRouter.FindBestNode | sns-daemon/src/geo_router.rs:73-106 | none exactly when no node is alive, else a live node minimal in (tier, latency) among all live nodes |
| GeoRouter.TierMeans | sns-daemon/src/geo_router.rs:42-53 | each tier is one stage's filter and no node passes two |
| GeoRouter.TriedBy | sns-daemon/src/geo_router.rs:42-53 | which clients try a region first, second and third |
| LoadBalancer.LoadBalancer.RecordSuccess | sns-daemon/src/load_balancer.rs:112-120 | the first node with the endpoint, and no other, counts the request and averages the latency, unless the product overflows |
| LoadBalancer.ConstantLatencySettles | sns-daemon/src/load_balancer.rs:112-120 | under constant latency L the average reaches L from above and max(start, L - 9) from below within the distance in steps |
| LoadBalancer.ConstantLatencyMonotone | sns-daemon/src/load_balancer.rs:112-120 | it moves one way only |
| LoadBalancer.RestingPoints | sns-daemon/src/load_balancer.rs:117 | the fixed points are exactly L - 9 to L |
| LoadBalancer.AverageStaysInRange | sns-daemon/src/load_balancer.rs:112-120 | with any samples it never exceeds the greatest of start and samples nor falls more than 9 below the least |
| LoadBalancer.LoadBalancer.SelectNode | sns-daemon/src/load_balancer.rs:55-110 | over the whole list: nobody exactly when no node is alive, else a live node, and for the minimising strategies the first with the least key among all live ones |
| LoadBalancer.AliveSnoc | sns-daemon/src/load_balancer.rs:57 | the live nodes are those of the list in its order |
| LoadBalancer.LoadBalancer.WeightedTicket | sns-daemon/src/load_balancer.rs:76-89 | the subtracting loop computes the weighted pick |
| WeightedShares.PickWithoutTicket | sns-daemon/src/load_balancer.rs:72-75 | without any weight the first node stands in; a sum past u32 aborts |
| WeightedShares.PickIsOutcome | sns-daemon/src/load_balancer.rs:72-89 | for every total that fits a u32, sign changes of the casts included: which node a draw selects, or that the subtraction overflows |
| WeightedShares.PickIsHolder | sns-daemon/src/load_balancer.rs:76-89 | with a total that fits an i32 each ticket selects exactly the node in whose weight interval it lies |
| WeightedShares.HolderIsPickedExactlyWhen | sns-daemon/src/load_balancer.rs:76-89 | for larger totals, exactly when it does |
| WeightedShares.ShareIsWeightExactlyWhen | sns-daemon/src/load_balancer.rs:72-89 | for every total that fits a u32, exactly which nodes are selected by as many tickets as they weigh |
| WeightedShares.SecondOfTwoIsNeverPicked | sns-daemon/src/load_balancer.rs:76-89 | with weights 1 and 1 every draw selects the first node |
| WeightedShares.LargeWeightAborts | sns-daemon/src/load_balancer.rs:76-83 | a draw that aborts on an overflowing subtraction |
| RoundRobin.EachOnceExactlyWhen | sns-daemon/src/load_balancer.rs:64-67 | as many calls in a row as there are live nodes select each exactly once, exactly when the 64-bit counter does not wrap meanwhile or the number of nodes divides 2^64 |
| RoundRobin.WrapSkipsANode | sns-daemon/src/load_balancer.rs:64-67 | with three live nodes and the counter at 2^64 - 1 the first is selected twice and the third not at all |

## Left out

- Dashboard, mobile app, landing pages, scripts, build files, SDK: user interface and plumbing.
- HTTP, base64, libp2p, telemetry and Brahman verification: only the values they deliver appear, as parameters.
- Rent, fees, compute budget, token accounts other than the reward mint, and the check that the mint passed in is the protocol's own.
- Events and log lines of the program and the daemon.
- Parallel races on shared maps and atomics: each public method is one atomic step, and consensus calls are sequential.
- Consensus.ConsensusRouter.QueryWithConsensus: re-parsing the canonical text into JSON is not modelled.
- RateLimits.AttackPrevention.CheckRateLimit: asks that the clock does not lie before the record, because the source's u64 subtraction aborts there; ban expiries and counters are unbounded integers.
- RateLimits.AttackPrevention.Cleanup: asks the same of the times last seen, for the same reason.
- PeerGuard.PeerGuard.Cleanup: asks the same of the times last seen, for the same reason; `PeerGuardRuns.ClockNeverUnderflows` shows that runs meet it.
- PeerGuard.PeerGuard.OnSuccessfulRelay: counters of connections, bytes and spam attempts are unbounded integers.
- Onion.WrapRequest: asks for at least as many hops as keys, because the source panics otherwise; failure of AES-GCM encryption on oversized input is not modelled.
- Circuit breaker, request signer, input sanitizer, payload scan and host validation: each settles from one or two branches.
- Latency metrics other than cache hits, error counts of the load balancer, statistics summaries.
- `parallel_executor.rs`, `wallet_rewards.rs`, `battery_guard.rs`, `mobile_governor.rs`, `relay_client.rs`, `sharding.rs`, `verifier.rs`: easy members or no protocol to prove.
