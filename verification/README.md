# Sanad, modelled and proved in Dafny

Sanad is a gateway that lets agents act for people: it verifies who delegated what to whom, decides
each tool call, mints a short-lived passport for one server, and keeps an audit log that outsiders can
check. This project models the small algorithms and protocols that this rests on and proves what they
guarantee, for all inputs and all runs.

`dafny verify dfyconfig.toml` checks everything.

| file | what it models |
|---|---|
| `Digests.dfy`, `Merkle.dfy`, `HashLengths.dfy` | the RFC 6962 tree: prover, inclusion verifier, bit-shifting consistency verifier, and what the lengths of hashes decide |
| `Witness.dfy`, `AuditLog.dfy` | checkpoints, the co-signing witness, the hash chain and the Merkle log kept in step with it |
| `SigCtx.dfy` | domain-separated signing inputs, and signatures as terms |
| `Replay.dfy` | request-bound proofs and the two-generation replay cache |
| `Grants.dfy`, `Chain.dfy` | grants, the attenuation rule, signed delegation chains |
| `Capability.dfy`, `HolderStage.dfy` | sealed offline capabilities, what can be assembled from their signatures, and the stage that pairs them with holder proofs |
| `Exchange.dfy` | the online token exchange with ancestry revocation |
| `Pipeline.dfy` | delegation, policy, minting and scope enforcement on one request |
| `Approval.dfy` | the human-approval queue |
| `Revocation.dfy` | kill-switch snapshots on many replicas over one source |
| `RateLimit.dfy`, `Enrollment.dfy`, `NonceBound.dfy` | token buckets, enrollment nonces and bootstrap tokens, and what the first guarantees about the second |
| `Base58.dfy` | base58 and did:key |
| `Sse.dfy` | the server-sent-event watcher |

## How to read it

State that the source changes in place is a class whose methods are proved equal to a function on a
value of that state (`View()`); protocols are functions from a state and a step to a state, folded over
an arbitrary list of steps, where a step that the code's locks or guards forbid changes nothing. The
results are lemmas over every such list. Loops of the source are loops here, proved against a reference
that does not mention them.

Cryptography is symbolic. A byte is a literal or one of the 32 bytes of a SHA-256 digest, which
remembers its input, so hashing is injective on byte strings and says nothing about where one string
ended and the next began; and no digest lies across two others. A signature is the term
`Sig(label, key, message)`; a JSON encoding is an injective constructor, and a MAC is a term over the key
HMAC makes of its token; sorted lists in a signing input are known by their multisets.
`SigCtx.ContextSeparation` proves at byte level that a label and a message can be read back from what is
signed, which is why a signature may carry its label as a field.
Random ids, keys and nonces are fresh where a lemma says so. Times are integers or exact reals, and
clocks do not run backwards where a lemma says so.

## Where the code and its comments differ

- `audit/merkle.go:134-195` and `audit/witness.go:11-15` promise that an accepted consistency proof shows
  a prefix. `hashNode` joins two strings without their lengths and nothing checks them, so that holds
  exactly from a starting hash of 32 bytes (`ConsistencyExact`, `OldRootsAreSoundExactly`,
  `ForkFreedom`); `ShortOldRoot` and `IllSteppedRun` are the cases where it does not. The starting hash is
  the old root where the old size is a power of two and otherwise the first element of the proof, so a
  caller can check it.
- `internal/pop/pop.go:363` says a replay-cache entry lives at most two windows. Rotation happens only
  when the cache is used, so an entry lives up to three windows less two ticks, which is reached
  (`CacheRefinesLog`, `ThreeWindowsIsTight`), and two windows at most only under calls no more than two
  ticks apart (`TwoWindowsExactly`).
- `workload/ratelimit.go:30-32` puts the outstanding nonces at 400. The burst adds 200, and the maximum
  is exactly 599 (`DefaultMostNonces`), still far below the cap of 4096; it grows with the time a
  handler takes between passing the limiter and asking for its nonce, which the bound carries as `delay`.
- `delegation/delegation.go:154-157` and `delegation/capability.go:352-355` encode "no expiry" as Unix
  second 0, so a grant that expires at the epoch signs like one that never does. What verifies is then
  exactly `VerifiesExactlyTheIssued`, and the plain reading holds wherever nobody uses that expiry
  (`VerifiesExactlyTheUnexpired`, `GrantWithinLineage`). For a single grant it holds only there, in chains
  (`RootExpiryIsKeptExactly`), capabilities (`ExpiryIsKeptExactly`) and exchanged tokens
  (`ChildrenNarrowExactly`).
- `workload/workload.go:250-263` tries bootstrap tokens in map order. HMAC fills a short key up with zero
  bytes, so two registered tokens can answer to one evidence, and then which agent it enrolls is left to
  that order (`EitherAgentMayAnswer`). The order is irrelevant exactly when no two tokens make one key,
  spent ones that expire together aside (`TrialOrderIsIrrelevant`).
- `tooldefs/sse.go:50-68` checks the length of a line only when a read ends inside it, so for longer
  lines the outcome depends on how the stream was split. `ChunkIndependence` says exactly for which
  streams it does not, and `LongCommentDependsOnChunks` gives one for which it does.

## Model

| member | source | states |
|---|---|---|
| Merkle.ComputeLp2 | audit/merkle.go:30-36 | the doubling loop returns the largest power of two strictly below n, and 0 below 2 |
| Merkle.InclusionExact | audit/merkle.go:52-105 | against a genuine root an inclusion proof verifies iff it is the prover's path and the leaf is the one stored at that index, whatever the lengths of its strings |
| Merkle.SubproofFlagged | audit/merkle.go:119-132 | the flag leaves out exactly the starting hash, exactly where that is the old root itself |
| Merkle.RecomputeExact | audit/merkle.go:119-132 | whatever starting hash and siblings recompute the genuine new root: they are the prover's iff the starting hash is 32 bytes long, and exactly then the recomputed old root is the prefix's |
| Merkle.StartIsRecompute | audit/merkle.go:147-192 | the leaves-to-root climb by bits computes what the root-to-leaves recursion computes |
| Merkle.ClimbProof | audit/merkle.go:166-194 | the two climbing loops compute the climb and consume the proof exactly to its end, or fail |
| Merkle.VerifyConsistency | audit/merkle.go:136-195 | the loop accepts exactly what the root-down reference accepts, for every input |
| Merkle.ConsistencyExact | audit/merkle.go:108-195 | against a genuine new root a consistency proof is accepted from a 32-byte starting hash iff it is the recursive prover's and the old root is the prefix's; and whatever is accepted has the prefix's old root iff its starting hash is 32 bytes |
| Merkle.RootBinds | audit/merkle.go:38-49 | two logs with one root are one log, whatever their sizes |
| HashLengths.GenuineExactlyTheRecuts | audit/merkle.go:21-27 | what recomputes a genuine new root is exactly the prover's list, or that list with its first two strings cut at another byte |
| HashLengths.OldRootsAreSoundExactly | audit/merkle.go:136-195 | for every log and every size inside it, accepted old roots are genuine at a given length of the starting hash iff that is 32, or above 64, where nothing is accepted |
| HashLengths.ShortOldRoot | audit/merkle.go:136-195 | the smallest failing input: two leaves, an old root of 31 bytes and a sibling of 33 |
| HashLengths.InclusionCarriesForward | audit/merkle.go:72-195 | a leaf proved against an old root is at the same index of every log that root is consistent with, unless the starting hash is 64 bytes long and the old size no power of two |
| HashLengths.LeavesCarryForwardExactly | audit/merkle.go:72-195 | and with those lengths only it fails: for every old size, carrying a leaf forward to every longer log is safe iff the size is a power of two or the length is not 64 |
| Witness.CheckpointWitness.constructor | audit/witness.go:34-39 | a new witness remembers nothing |
| Witness.NewWitness | audit/witness.go:34-39 | refuses a key of the wrong size and nothing else |
| Witness.CheckpointWitness.Cosign | audit/witness.go:47-71 | co-signs iff the operator signed and the checkpoint consistently extends the last one, remembers it, and is unchanged by a refusal |
| Witness.HistoryIsLinked | audit/witness.go:52-66 | every co-signed checkpoint is operator-signed and consistently extends the one co-signed before it |
| Witness.ForkFreedom | audit/witness.go:47-71 | in every run, let a co-signed checkpoint be the root of a log b: the co-signed checkpoints from any earlier one on are all roots of prefixes of b iff every step between them was proved from a 32-byte starting hash |
| Witness.IllSteppedRun | audit/witness.go:47-71 | for every log, size and other length up to 64 some run does co-sign a checkpoint that belongs to no prefix, and then the log's own |
| Witness.NoEquivocation | audit/witness.go:55-66 | in every run sizes never shrink and equal positive sizes carry equal roots, whatever the roots commit to |
| Witness.SignaturesDoNotCross | audit/witness.go:73-78 | the operator's signature verifies as no co-signature and a co-signature as no commitment, under any keys |
| Witness.SignatureIsOfOneCheckpoint | audit/transparency.go:116-130 | a signature or co-signature is over one size, one root and one key id |
| AuditLog.VerifyChain | audit/chainlog.go:71-83 | finds nothing iff the chain is intact, otherwise names the first entry that breaks it and how |
| AuditLog.ChainAgreement | audit/chainlog.go:71-112 | two intact chains ending in the same hash have equal length and hashes and record the same, field by field |
| AuditLog.HashBindsRecord | audit/chainlog.go:86-112 | entry hashes are equal iff the previous hashes are and every recorded field is |
| AuditLog.EditIsFound | audit/chainlog.go:69-83 | editing any recorded field of an entry of an intact chain makes a tampered entry at that index the first fault, and the only first one |
| AuditLog.RehashedEditIsFound | audit/chainlog.go:69-83 | with the edited entry's hash made to fit, the first fault is the broken link after it |
| AuditLog.HashChainLog.constructor | audit/chainlog.go:26-28 | a new chain is empty |
| AuditLog.HashChainLog.Commit | audit/chainlog.go:45-53 | appends the entry chained to the last hash and keeps the chain intact |
| AuditLog.TransparencyLog.constructor | audit/transparency.go:36-41 | a new log is empty and in step |
| AuditLog.NewTransparencyLog | audit/transparency.go:36-41 | refuses a key of the wrong size and nothing else |
| AuditLog.TransparencyLog.Append | audit/transparency.go:48-58 | chain and leaves grow by the same commitment and stay in step |
| AuditLog.TransparencyLog.SignCheckpoint | audit/transparency.go:93-98 | the checkpoint verifies under the operator key and commits to the current size and root |
| AuditLog.TransparencyLog.ProveInclusion | audit/transparency.go:102-109 | answers iff the entry exists; the answer verifies and its leaf is that entry's hash |
| AuditLog.TransparencyLog.ProveConsistency | audit/transparency.go:112-114 | answers iff the size is in range; the answer connects the prefix root to the current root |
| AuditLog.EveryInterleavingInStep | audit/transparency.go:48-58 | in every interleaving of appends the chain is intact and leaf i is the hash of entry i, the leaves lagging by at most the entry being added |
| AuditLog.LogOnlyGrows | audit/transparency.go:48-85 | every earlier snapshot is a prefix of every later one |
| AuditLog.OneRootOneLog | audit/transparency.go:92-98 | in any interleavings, two checkpoints with one root have one size and their logs record the same, entry by entry and field by field |
| AuditLog.CheckpointsAreHonoured | audit/transparency.go:93-114 | between any two moments of any interleaving the log's consistency proof is accepted, a witness co-signs the later checkpoint, and a leaf proved against the earlier root is the hash of the entry the later log holds there |
| SigCtx.MessageParses | internal/sigctx/sigctx.go:133-138 | the signing input parses back to exactly its label and message |
| SigCtx.ContextSeparation | internal/sigctx/sigctx.go:142-155 | a signature verifies under one label, one key and one message only |
| Replay.ReplayCache.constructor | internal/pop/pop.go:397-405 | non-positive arguments select the defaults; the cache starts empty |
| Replay.ReplayCache.RotateAt | internal/pop/pop.go:434-452 | ages out one generation, or both after two windows of silence |
| Replay.ReplayCache.Spend | internal/pop/pop.go:408-424 | the cache after a call and its answer |
| Replay.UseAnswersLikeLog | internal/pop/pop.go:408-452 | one call reports every jti accepted within one window, none older than 3 * window - 2 ticks, and refuses for room only if that many are no older |
| Replay.CacheRefinesLog | internal/pop/pop.go:386-452 | the same on every run with a non-decreasing clock, with disjoint generations and never more than max entries |
| Replay.ThreeWindowsIsTight | internal/pop/pop.go:359-365 | for every window some run still refuses a jti at age 3 * window - 2 |
| Replay.SteadyCallsForgetSooner | internal/pop/pop.go:434-452 | with calls at most a gap apart, no jti is refused at an age above 2 * window - 2 + gap |
| Replay.LifeIsReached | internal/pop/pop.go:434-452 | for every window and every gap some run refuses one at exactly that age |
| Replay.TwoWindowsExactly | internal/pop/pop.go:359-365 | "at most two windows" holds on every run iff calls come at most two ticks apart |
| Replay.ProofVerifier.constructor | internal/pop/pop.go:260-272 | the cache window is maxAge + skew |
| Replay.ProofVerifier.CheckProof | internal/pop/pop.go:286-352 | decides as the source does, in its order, and touches the cache only for a proof that passed everything else |
| Replay.AtMostOnce | internal/pop/pop.go:260-352 | on every run, of two passing presentations with one jti the second has a later iat and comes more than maxAge + skew later, so one signed payload passes once; what passes is bound to its method, target, token and body |
| Replay.HonestProofPasses | internal/pop/pop.go:286-352 | a proof signed by the key over this request, within the freshness window and with a usable jti not accepted within the longest life of an entry, passes unless the cache is at its cap |
| Replay.OnlyGoodProofsPass | internal/pop/pop.go:286-352 | nothing else passes: wrong signer, label, method, target, token, body, time or jti |
| Replay.LogIsOfPasses | internal/pop/pop.go:408-424 | what the cache remembers is when a proof with that jti passed |
| Grants.Subset | delegation/attenuation.go:42-59 | accepts iff the child narrows the parent, empty lists being wildcards, and otherwise says what widens |
| Grants.CheckAttenuates | delegation/attenuation.go:14-38 | accepts iff tools, servers, expiry and budget all narrow; each error names a dimension that widens |
| Grants.AttenuationIsContainment | delegation/attenuation.go:14-59 | the rule holds iff everything the child permits, the parent permits |
| Grants.ExpiredExactly | delegation/verify.go:68-70 | a grant has expired iff it permits nothing at that moment |
| Grants.SameCanonSameMeaning | delegation/capability.go:351-369 | grants with the same signing input confer the same authority iff both are bounded at the epoch or neither is |
| Chain.Limit | delegation/limits.go:48-65 | any number of options leave the least of the ceiling and the positive requests |
| Chain.CheckShape | delegation/limits.go:84-105 | accepts iff non-empty, within the ceiling, no self-delegation and pairwise distinct parties; a cycle is reported at the first hop that closes one |
| Chain.VerifyChain | delegation/verify.go:23-78 | returns the last grant and delegate iff the chain is acceptable, otherwise the fault of the first hop that does not hold |
| Chain.AuthorityOnlyNarrows | delegation/verify.go:63-67 | a later hop's grant attenuates every earlier one's |
| Chain.AcceptedChainIsAPath | delegation/verify.go:23-78 | an accepted chain is a path of distinct parties from the principal, at most sixteen hops, and what its last grant permits every hop permits |
| Chain.AcceptedHopsAreSigned | delegation/verify.go:23-78 | each hop was signed over its own parties, grant and predecessor, the first by the principal's key as a principal, the others by their delegator's key as an agent |
| Chain.FinalSignatureCommits | delegation/delegation.go:149-168 | two chains signed throughout that end in the same signature agree hop by hop up to canonical grants, whatever the registries |
| Chain.AcceptedExpiriesAreKept | delegation/delegation.go:149-168 | whatever chain is accepted on a chain's last signature, no grant of that chain with an expiry off the epoch has expired |
| Chain.RootExpiryIsKeptExactly | delegation/delegation.go:149-168 | for every grant: whatever grant is presented under its root hop's signature, acceptance means it has not expired, iff it is not bounded at the epoch |
| Chain.BuildsExactly | delegation/delegation.go:88-130 | the builders give a chain iff there are one to sixteen links and no party twice; its parties are the links' |
| Chain.BuiltChainVerifies | delegation/delegation.go:88-130 | a chain made by the builders with registered keys verifies iff its grants narrow, none has expired and it is within the ceiling |
| Capability.VerifyCapability | delegation/capability.go:121-158 | returns the last grant iff the capability is whole, signed, narrowing and unexpired, otherwise the fault of the first bad block or of the seal |
| Capability.IssuedAreWellMade | delegation/capability.go:67-110 | everything a run of minting and attenuating returns is signed, narrowing and sealed |
| Capability.MintedVerifies | delegation/capability.go:67-82 | any grant can be minted, and verifies until it expires |
| Capability.HolderCanNarrow | delegation/capability.go:89-119 | a returned capability can be handed on iff by its own holder, with room for a block, and what is handed on is contained in its last grant; the result is one block longer and verifies until it or the new grant expires |
| Capability.LastSignatureCommits | delegation/capability.go:321-330 | the last block signature commits to every block and its position |
| Capability.Unforgeable | delegation/capability.go:67-158 | whatever is assembled from a run's signatures and any stolen holder secrets, what verifies is a returned capability with its own seal, or extends one whose holder secret was stolen and is within its grant |
| Capability.VerifiesExactlyTheIssued | delegation/capability.go:121-158 | among capabilities assembled from a run's own signatures, what verifies is exactly what the run returned, unexpired, up to canonical grants |
| Capability.VerifiesExactlyTheUnexpired | delegation/capability.go:121-158 | without epoch expiries the narrowing of expiries needs no mention |
| Capability.EpochReadsAsUnbounded | delegation/capability.go:351-363 | for every grant bounded at the epoch, its signatures over the same grant without expiry verify at any time |
| Capability.ExpiryIsKeptExactly | delegation/capability.go:351-363 | for every grant: whatever verifies on its signatures verifies before it expires, iff it is not bounded at the epoch |
| Capability.RecipientCannotWiden | delegation/capability.go:34-52 | with fresh keys, the holder of one capability can present only returned ones as they are or narrowings of their own |
| Capability.TruncationIsRefused | delegation/capability.go:332-349 | the seal of an accepted capability fits no proper prefix of it (a corollary of what the seal signs) |
| HolderStage.CapabilityStage.constructor | delegation/capability.go:253-255 | a stage starts with a verifier and an empty replay cache of its own |
| HolderStage.CapabilityStage.Handle | delegation/capability.go:256-297 | passes under a capability iff it verifies, exactly one proof by its last key covers this request and was not spent, and the grant names the server; directly iff none is presented and none required; a proof is spent only by a request that got that far |
| HolderStage.HonestHolderPasses | delegation/capability.go:253-297 | the holder of an unexpired returned capability gets through with one good, unspent proof, for a server the grant names |
| HolderStage.OneRequestPerProof | delegation/capability.go:202-215 | on every run a signed holder proof lets at most one request through |
| HolderStage.NothingPassesWithoutHolder | delegation/capability.go:251-297 | whatever is assembled from issued capabilities, proofs made and stolen secrets, what passes is within a grant given out and at a server it names; and unless its last holder's secret was stolen, the capability is a returned one and that holder signed exactly this request |
| HolderStage.PassesAreSigned | delegation/capability.go:251-297 | so on every run no more requests pass on the strength of holders who kept their secrets than the proofs those holders signed |
| Exchange.ExchangeAuthority.constructor | delegation/exchange.go:46-57 | no tokens, nothing revoked, a default lifetime of an hour |
| Exchange.NewExchange | delegation/exchange.go:46-57 | refuses a key of the wrong size and nothing else |
| Exchange.ExchangeAuthority.Revoke | delegation/exchange.go:124-128 | adds the id to the revoked ones and nothing else |
| Exchange.ExchangeAuthority.IssueToken | delegation/exchange.go:79-95 | the signed token and the recorded parent |
| Exchange.ExchangeAuthority.ExchangeToken | delegation/exchange.go:69-77 | issues iff the parent verifies and the grant narrows; a refusal records nothing |
| Exchange.ExchangeAuthority.VerifyToken | delegation/exchange.go:99-120 | the loop over the parent map computes the walk, on any map |
| Exchange.RunsKeepForest | delegation/exchange.go:69-95 | on every run the tokens form a forest in order of issue and the parent map is its map of edges |
| Exchange.WalkFollowsLineage | delegation/exchange.go:106-119 | on a forest the walk never meets an id twice and stops at a revoked id iff the token or an ancestor is revoked |
| Exchange.CascadeIsExact | delegation/exchange.go:69-128 | after any run, revocations interleaving with exchanges, an unexpired issued token is refused iff it or an ancestor was revoked |
| Exchange.VerificationIsExact | delegation/exchange.go:99-120 | on every run and at every time, a token with an issued signature is refused iff a field it signs was changed, a lifetime has passed since it was issued, or it or an ancestor was revoked |
| Exchange.TokensAreAsked | delegation/exchange.go:79-95 | every token was issued by an event under its id at its issue time, for the authority's lifetime, a root with what was asked for |
| Exchange.RevokedAreAsked | delegation/exchange.go:124-128 | an id is revoked iff somebody revoked it |
| Exchange.HistoryOnlyGrows | delegation/exchange.go:91-128 | nothing is un-revoked or un-issued |
| Exchange.GrantWithinLineage | delegation/exchange.go:69-77 | a token's tools, servers and budget are within every ancestor's, and its whole grant is if no ancestor is bounded at the epoch |
| Exchange.ChildrenNarrowExactly | delegation/exchange.go:69-77 | for every grant: on all runs everything issued under it is within the whole of it, iff it is not bounded at the epoch |
| Exchange.EpochAncestorLosesExpiry | delegation/exchange.go:130-142 | for every grant bounded at the epoch, a run that issues a child without its expiry |
| Pipeline.CheckServer | delegation/stage.go:123-142 | the search finds the target iff the grant names it, an empty list naming every server |
| Pipeline.InFlight.DelegationStage | delegation/stage.go:79-111 | passes iff acting directly is allowed, or the chain verifies, ends at the instance and covers the target; narrows the request, or leaves it alone |
| Pipeline.InFlight.PolicyStage | policy/stage.go:72-134 | passes iff every element is granted and was allowed by the decision point, or by an approver it asked for, each asked about that very element; reports the first that is not, and narrows the scope to the tools asked for |
| Pipeline.DistinctTools | policy/stage.go:139-147 | the tools in order of first mention |
| Pipeline.Distinct | policy/stage.go:136-147 | exactly the non-empty tool names, each once |
| Pipeline.Mint | sts/sts.go:73-104 | mints iff there is a principal and an audience; the passport carries the request's principal, agent, target, scope and chain |
| Pipeline.EndToEndAttenuation | sts/stage.go:91-111 | whatever a minted passport lets a resource server do, every hop of the chain behind it permits: tool, server, time and budget; and it names the chain's two ends |
| Pipeline.PassportAllowsExactlyTheRequested | verify/scope.go:41-43 | a passport for a request that names tools allows those and no others |
| Pipeline.MintedExactly | policy/stage.go:72-134 | a passport is minted iff principal and target are there, the chain where one is presented or required is accepted, ends at the agent and names the server, and every action is granted and consented to |
| Pipeline.PassportCarries | sts/stage.go:91-111 | it carries the principal, the resolved target, the chain and its last delegate, the whole delegated budget, and the delegated tools where none is named |
| Pipeline.RequiredChainCannotBeOmitted | delegation/stage.go:87-92 | where a chain is required, everything minted was minted under an accepted one (a corollary of the stage's contract) |
| Approval.ManualApprover.constructor | policy/hitl.go:59-61 | nothing is pending |
| Approval.ManualApprover.Enqueue | policy/hitl.go:75-79 | the review is pending with an empty channel of its own |
| Approval.ManualApprover.Answer | policy/hitl.go:156-166 | removal and send are one step, and it says whether the review was pending |
| Approval.ManualApprover.TakeBack | policy/hitl.go:111-121 | takes the review off the queue and says whether it was there |
| Approval.ManualApprover.Approve | policy/hitl.go:137-139 | resolves as allowed, or says the review was gone |
| Approval.ManualApprover.Deny | policy/hitl.go:143-145 | resolves as denied with the reason, or says the review was gone |
| Approval.AlwaysSettled | policy/hitl.go:70-166 | in every reachable state channel, queue, waiter and what operators were told agree |
| Approval.SingleWinner | policy/hitl.go:70-166 | on every interleaving at most one operator is told yes, the waiter returns exactly that decision, a review that timed out is denied and a cancelled one returns no decision, both without a winner, and neither the receive in claim nor the send blocks |
| Approval.NoLateWinner | policy/hitl.go:105-121 | once a review is off the queue nobody is told yes and the result stays |
| Approval.ToldTheTruth | policy/hitl.go:137-145 | an operator is told yes iff the review is still on the queue at that moment |
| Approval.AllowedByOperator | policy/hitl.go:70-103 | a review that returns an allowance was allowed by an operator who was told so |
| Approval.ToldWereAsked | policy/hitl.go:137-166 | and that operator made that call |
| Approval.GivingUpWasPrompted | policy/hitl.go:84-102 | a review gives up only when timed out or cancelled, whichever it says |
| Approval.TimeoutAlwaysReturns | policy/hitl.go:70-121 | wherever a review stands, its timeout makes it return by its own steps, with the winner's answer if there is one |
| Revocation.CachedStore.constructor | revoke/cached.go:154-175 | starts from a first listing and its stamp |
| Revocation.NewCachedStore | revoke/cached.go:154-175 | fails iff the first listing fails; the bound asked for, or the default one where there is a background refresh, or none |
| Revocation.CachedStore.Refresh | revoke/cached.go:197-227 | installs a listing with its stamp; a failure leaves snapshot and stamp |
| Revocation.CachedStore.Stage | revoke/revoke.go:132-152 | passes iff the snapshot is fresh and lists neither the principal nor the agent nor its blueprint; stale comes first, then the principal |
| Revocation.RunsKeep | revoke/cached.go:197-213 | on every run each snapshot contains whatever was in the source before it was read and still is |
| Revocation.BoundedLag | revoke/cached.go:273-309 | on every run of any number of replicas, a passed request whose principal, agent or blueprint is revoked was judged no later than revocation + listDelay + maxStale |
| Revocation.RequestsAreAsked | revoke/revoke.go:132-152 | a request is judged with the subject and the clock reading it came with |
| Revocation.SourceIsAsked | revoke/cached.go:314-339 | the source holds what was revoked and not restored since |
| Revocation.SourceSince | revoke/cached.go:314-339 | and the revocation time is that of the step that put it there |
| Revocation.UnrevokedRequestPasses | revoke/revoke.go:132-152 | from any reachable state, a request at a fresh replica that lists nothing about its subject is let through |
| Revocation.NoBoundWithoutFreshness | revoke/cached.go:119-125 | with the staleness bound switched off, any lag is possible |
| RateLimit.BudgetOf | workload/ratelimit.go:114-131 | bursts and rates are those of the settings, each non-positive one replaced by its default |
| RateLimit.Settled | workload/ratelimit.go:114-126 | 20 and 20 a minute per client, 200 and 200 a minute for all, where nothing positive is set |
| RateLimit.SecondsPerToken | workload/ratelimit.go:132-134 | the least number of whole seconds in which a token flows in |
| RateLimit.EnrollLimiter.constructor | workload/ratelimit.go:105-109 | a fixed table of unused buckets |
| RateLimit.EnrollLimiter.SetLimit | workload/ratelimit.go:114-137 | replaces the budget, the retry time with it, and empties every bucket |
| RateLimit.EnrollLimiter.AllowClient | workload/ratelimit.go:141-155 | both buckets are topped up, and both spend or neither |
| RateLimit.CallBounded | workload/ratelimit.go:75-84 | a call keeps used plus held credit within burst plus inflow |
| RateLimit.AcceptedCallsAreBounded | workload/ratelimit.go:75-155 | in any stretch of any run, accepted calls are at most burst + rate * time, overall and per bucket |
| RateLimit.RetryAfterIsEnough | workload/ratelimit.go:132-162 | after any call of any run, a client that waits the advertised time or longer is let through unless somebody else called meanwhile |
| Enrollment.NonceTable.constructor | workload/workload.go:325-329 | no outstanding nonces |
| Enrollment.NonceTable.Nonce | workload/workload.go:349-368 | sweeps, refuses a full table, otherwise records the nonce with its expiry |
| Enrollment.NonceTable.Consume | workload/workload.go:373-385 | spends the nonce whatever comes of it |
| Enrollment.TokenAttestor.constructor | workload/workload.go:168-170 | no registered tokens |
| Enrollment.TokenAttestor.Register | workload/workload.go:186-203 | replaces the grant and resets its budget, or refuses |
| Enrollment.TokenAttestor.AttestEvidence | workload/workload.go:244-266 | rejects iff no registered token makes the evidence's key, otherwise checks and charges one that does |
| Enrollment.TrialOrderIsIrrelevant | workload/workload.go:250-263 | answer and charge never depend on the order of the trial iff no two registered tokens make one HMAC key, except spent ones that expire together |
| Enrollment.ZeroPaddedTokensCollide | workload/workload.go:219-227 | tokens that differ in trailing zero bytes make one key |
| Enrollment.EitherAgentMayAnswer | workload/workload.go:250-263 | with a token registered for one agent and the same token and a zero byte for another, one evidence yields either agent id |
| Enrollment.NonceReachesAttestorOnce | workload/workload.go:370-401 | on every run a nonce goes to the attestor at most once, and only if it was spent inside its window |
| Enrollment.UsesAreAccountedFor | workload/workload.go:186-266 | for every registration uses = left + credentials issued under it |
| Enrollment.CredentialsAreEarned | workload/workload.go:244-419 | every credential was attested before its registration expired, by evidence under its token's key over its own nonce and public key, one enrollment each |
| Enrollment.RegistrationsAreAsked | workload/workload.go:186-203 | every registration was asked for, with that many uses and that lifetime, or one use and fifteen minutes |
| Enrollment.HonestWorkloadEnrolls | workload/workload.go:349-419 | from any reachable state with room for a nonce, a registered token and evidence in time yield one credential more, for that agent and key |
| NonceBound.OutstandingNoncesAreBounded | workload/enroll.go:41-62 | on every run through the handlers the table holds fewer than burst + rate * (lifetime + delay) nonces, for every budget |
| NonceBound.MostNoncesIsReached | workload/ratelimit.go:26-34 | for every budget whose client bursts add up to as many, the exact maximum: the lesser of burst + 2 * perMinute - 1 and the cap is never exceeded and some run reaches it |
| NonceBound.DefaultMostNonces | workload/ratelimit.go:26-34 | under the default budget that is 599 |
| NonceBound.DefaultBudgetNeverFillsTheTable | workload/workload.go:349-368 | no nonce is refused for room under the default budget if handlers ask within 17 minutes |
| Base58.RecodeRoundTrip | vc/didkey.go:76-115 | rewriting a number between bases 58 and 256 and back, leading zeros kept, is the identity |
| Base58.EncodeWritesTheNumber | vc/didkey.go:76-96 | the text writes the number the bytes write, in base 58, after one zero digit for every zero byte in front |
| Base58.DecodeEncode | vc/didkey.go:76-115 | decoding undoes encoding for every byte string |
| Base58.EncodeDecode | vc/didkey.go:76-115 | encoding undoes decoding for every string over the alphabet |
| Base58.ReverseInPlace | vc/didkey.go:92-94 | the swap loop reverses the buffer |
| Base58.Base58Encode | vc/didkey.go:76-96 | the loops compute the encoding |
| Base58.Base58Decode | vc/didkey.go:98-115 | the loops compute the decoding, and fail iff a character is foreign |
| Base58.AlphabetIsDistinct | vc/didkey.go:47-48 | the base58btc alphabet has 58 distinct characters, which is all that the results above and below ask of it |
| Base58.DidKeyIsExact | vc/didkey.go:55-74 | a did:key yields a key iff it is that key's own identifier |
| Base58.DidKeyIsExactInBase58btc | vc/didkey.go:47-74 | the same for the alphabet in use |
| Sse.SseWatcher.constructor | tooldefs/sse.go:21-35 | empty buffers, watching |
| Sse.SseWatcher.OverflowNow | tooldefs/sse.go:95-102 | stops the watching, empties both buffers and reports once |
| Sse.SseWatcher.FeedLine | tooldefs/sse.go:71-93 | what one complete line does |
| Sse.SseWatcher.Read | tooldefs/sse.go:38-68 | the line loop over a chunk does what the chunk does byte by byte |
| Sse.OneShotIsOneChunk | tooldefs/sse.go:50-93 | splitting into lines and feeding them is reading the stream in one piece |
| Sse.LinesAreTheStream | tooldefs/sse.go:50-68 | lines and remainder are the stream, cut at its newlines and nowhere else |
| Sse.EventsAreTheirData | tooldefs/sse.go:71-102 | events are the data fields between blank lines, one to a line, without leading empty ones; the first that grows too long stops the watching with the events before it reported and one overflow |
| Sse.ChunkIndependence | tooldefs/sse.go:38-102 | events, overflow and state are those of the one-shot parser for every way of splitting every prefix, iff every line too long for the buffer overflows its event when it ends |
| Sse.LongCommentDependsOnChunks | tooldefs/sse.go:50-68 | for every buffer size, a comment line one character too long is a stream for which chunking matters |
| Sse.FittingLinesAreRobust | tooldefs/sse.go:38-102 | where every line fits, chunking never matters |

## Left out

- Ed25519, SHA-256, HMAC, JSON and base64 internals and random generation are symbolic, as described above; a short token that is the hash of a long one is not considered.
- Integer widths: sizes, indices and times are unbounded, so the doubling in `lp2` does not overflow here.
- Sub-second expiries: grant and token expiries are whole seconds, which is all that signatures cover; a presented exchange token always carries an expiry.
- HTTP serving, header filtering, proxying, request buffering and `Target`: a request is its method, target, body, token, actions and servers.
- The JSON-RPC parser, policy engines and approver wiring: decisions are arbitrary answers per element.
- Passport expiry against grant expiry: minting uses the clock and a fixed lifetime only, so no such bound is claimed.
- Local write-through `Revoke` and `Restore` on a cached store: replicas only refresh, as the gateway uses them; a local write that lands between a listing and its installation can be overwritten until the next refresh.
- The client hash (FNV-1a into 1024 buckets) is an arbitrary bucket index, and float rounding in the limiter is absent.
- Enrollment.CredentialsAreEarned: the moment compared with the registration's expiry is the attestation; the credential's own issue time is a later clock reading.
- AuditLog.ChainAgreement: an absent and an empty delegation path are one value here, as are an absent decision and an empty one in the hash itself.
- NonceBound.MostNoncesIsReached: where client bursts of one to three add up to less than the maximum, only the upper bound is stated.
- Enrollment.TokenAttestor.AttestEvidence: a refusal is its kind, without the agent id and date the message quotes.
- SetLimit in the middle of a run: the token-bucket bound is for stretches under one budget.
- A tail cut off a bare hash chain still verifies by design; the Merkle, witness and seal results cover truncation.
- Process restarts and several processes with one signing key: the in-memory maps live as long as the run.
- Streaming entries to a sink, refresh-failure logging, admin listings, configuration parsing, OIDC, JWKS, Postgres and the SDKs: I/O and plumbing around the logic above.
