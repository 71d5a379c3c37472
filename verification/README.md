# Verification of the aggregation protocol and its sparse Merkle trees

This project models, in Dafny 4.11, the parts of the did:btcr2 packages `smt` and `aggregation` in which
several pieces of code have to agree: two sparse Merkle trees and their verifiers, the round in which a
cohort aggregates updates into one signal, the participant that signs for it, the service that drives it,
and the small stateful structures around them. It proves what these pieces promise each other.
`dafny verify dfyconfig.toml` checks everything.

## How the pieces are modelled

* **Hashing.** SHA-256 is a parameter `H`, any function from byte strings to 32 bytes. Results that need
  collision resistance either exhibit the collision, between two named inputs, or ask for second-preimage
  resistance of the inputs on one path. None assumes that `H` is injective.
* **The path-compressed tree** (`SmtNodes`, `OptimizedSmt`) is a heap of nodes whose links and hashes are
  updated in place. `SmtSpec` says, from the map of indexes to hashes alone, what its root and its proofs
  are; `SmtWalk` connects this with the bottom-up verifier of `SmtProof`; `SmtBatch` treats the cache of the
  batch mode, `SmtBinary` the codec, `SmtBinding` and `SmtConfusion` what a proof binds.
* **The full-depth tree** (`ZeroHash`, `ZeroHashProof`) is compared with the complete tree of 2^256 leaves;
  `Btcr2Proof` and `Btcr2Tree` are the serialization and the lifecycle around it.
* **The cohort** (`Cohort`, `BeaconStrategy`, `Recovery`, `SigningSession`, `FallbackSpend`): responses,
  aggregated data, each member's own check of it, beacon address, signing and fallback. MuSig2, Schnorr,
  Taproot outputs, JSON canonicalization and base64url are functions in an environment; the few laws used
  are named (`Env.Lawful`: decoding inverts encoding, and nothing encodes to the empty string; `AggEnv.Canonical`: different
  announcements have different canonical bytes).
* **The participant** (`Participant`, `ParticipantSafety`, `ParticipantSigning`, `SignalCommitment`, `ParticipantRound`,
  `AggregationParticipant`): the class works in place; each call is one event of a run, and the safety lemmas are about
  every run. What a participant gives away is kept as a list of facts, with the values it signed under.
  `SigningAgreement` ties these to what the service verifies with.
* **The runner** (`ServiceRunner`): a handler runs without interruption to its next await; the rest is a
  task that may be resumed at any later time. Answers of callbacks, transport and cryptography come with
  the events.
* **Streams and stores** (`SseStream`, `RateLimiter`, `InboxBuffer`, `NonceCache`).

## Where the code is not quite what one would think

* The comment on the converge bitmap (packages/smt/src/smt-proof.ts:51) gives bit i the depth 256 - i - 1, which
  numbers bits by the masks `BITS[i]`. In this model bit i is the binary digit of weight 2^i; it stands for depth i.
* A batch of tree entries that throws half-way leaves the earlier root in place (`Btcr2Tree.StaleProof`).
* `addUpdate` and `addValidation` let one DID into two sets. The service's guards prevent the first; a member that
  approves and then rejects is counted twice (`Cohort.AnswerTwiceFillsTheCount`).
* `validateMembership` writes keys and address before it throws, so the participant's invariant speaks of
  phases, not of the list of joined cohorts.
* Neither check of a member looks at the signal it goes on to sign for: the SMT one verifies against the root named in
  the proof, the CAS one never hashes the announcement. `SignalCommitment` says what follows, and when the signal
  commits to the member's slot all the same.
* The zero-hash verifier checks no lengths (`ZeroHashProof.VerifiedIsLeafIff`). Serialized proofs are parsed into
  32-byte fields, so for them it is sound as it is (`Btcr2Proof.SerializedSoundness`).
* Accepting an opt-in does not look at the phase (`ServiceRunner.MembersFinalIff`, `YesAddsMember`): a participant may
  join a cohort that is signing. The session's tables then lack it, and its slot of the nonce array is empty
  (`SigningSession.SlotFilledIffEarly`, `NoHoles`).
* A participant that sends its opt-in twice and is accepted twice brings the whole cohort down
  (`ServiceRunner.RepeatedOptInFails`).
* Members whose x-only keys coincide would break the fallback leaf's count, if the library's `p2tr_ms` built a leaf
  with repeated keys. The library is not part of this model; `FallbackSpend.ParityTwinsBreakIt` stands only under the
  law that it does, and under the opposite law every spend is good (`FallbackSpend.RefusingRepeatsSuffices`).
* A rate limiter whose clock turns can admit more than the rate allows (`RateLimiter.BoundIffOneDirection`), and one
  whose clock went back lets rejected calls count (`RateLimiter.RejectedMatterIffClockWentBack`).
* A nonce with a colon can be refused although it is new (`NonceCache.ExactIffColonFree`); since every DID has colons,
  one without can be refused too, after one with a colon was taken (`NonceCache.ExactIffNoColons`).

## Model

| member | source | states |
|---|---|---|
| OptimizedSmt.OptimizedSMT.Add | packages/smt/src/optimized-smt.ts:52-103 | From any reachable trie: exactly the longest prefix of the batch that is in range and repeats nothing goes in, in place, and the trie invariant (shared prefixes, strictly deeper children, one leaf for each index) holds again; a finalized tree refuses and stays as it is. |
| OptimizedSmt.AcceptedAll | packages/smt/src/optimized-smt.ts:52-103 | A batch is taken whole if and only if every index lies below 2^256, is new to the tree and occurs once in the batch. |
| OptimizedSmt.OptimizedSMT.AddOne | packages/smt/src/optimized-smt.ts:60-103 | The duplicate error is thrown exactly when the index is there; otherwise the leaves are the old ones and the new one. |
| OptimizedSmt.OptimizedSMT.Descend | packages/smt/src/optimized-smt.ts:66-100 | The walk terminates, finds a duplicate exactly when there is one, and otherwise stops at the one edge where the index parts from everything below. |
| OptimizedSmt.OptimizedSMT.Graft | packages/smt/src/optimized-smt.ts:76-100 | Splicing the new parent into that edge keeps the trie invariant and adds exactly the new leaf. |
| OptimizedSmt.OptimizedSMT.SetHash | packages/smt/src/optimized-smt.ts:111-123 | On any integer: succeeds exactly on a 32-byte hash for an index of an unfinalized tree whose hash is unset, and sets that one leaf. |
| OptimizedSmt.OptimizedSMT.FindLeaf | packages/smt/src/optimized-smt.ts:115-121 | Descending by bits ends at the leaf of the index if the tree has it, and only then. |
| OptimizedSmt.OptimizedSMT.Finalize | packages/smt/src/optimized-smt.ts:133-142 | The root is the reference root of the index-to-hash map alone, so neither order nor batching of additions matters; every index has the proof the map determines, and no two proofs share a list. Fails exactly when a hash is missing and non-inclusion is not allowed. |
| OptimizedSmt.OptimizedSMT.FinalizeStep | packages/smt/src/optimized-smt.ts:173-224 | The recursion hashes each subtree, with its depth padding, to the reference hash of the leaves below it. |
| OptimizedSmt.OptimizedSMT.SaveProofs | packages/smt/src/optimized-smt.ts:195-224 | Mutating one list on the left and a copy on the right leaves every leaf with its own list of true sibling hashes, leaf to root. |
| OptimizedSmt.OptimizedSMT.GetProof | packages/smt/src/optimized-smt.ts:145-149 | None before `finalize`; after it exactly for the indexes of the tree, and each passes the bottom-up verifier against the root. |
| OptimizedSmt.OptimizedSMT.Reset | packages/smt/src/optimized-smt.ts:152-156 | Hashes, root and proofs are gone, the indexes are the same; setting the same hashes again gives the same reference root. |
| OptimizedSmt.FinalizedIsCanonical | packages/smt/src/optimized-smt.ts:52-156 | Two finalized trees with the same hashes have the same root and the same proofs, whatever the order and batching of their additions, and whether or not they were reset in between. |
| SmtNodes.SpliceOk | packages/smt/src/optimized-smt.ts:76-100 | The pointer updates of a splice keep the shape of the whole trie. |
| SmtWalk.IssuedProofIsValid | packages/smt/src/smt-proof.ts:209-277 | The top-down builder and the independently written bottom-up walk agree: every issued proof validates its own leaf. |
| SmtWalk.ClimbToSubtree | packages/smt/src/smt-proof.ts:218-277 | The walk passes through the hash and the pending pads of every subtree on its path. |
| SmtWalk.SiblingCount | packages/smt/src/optimized-smt.ts:173-224 | An issued proof carries one sibling for each set converge bit. |
| SmtSpec.RootOfOne | packages/smt/src/optimized-smt.ts:173-224 | The root of one leaf is the hash of its own hash between the depths at which its path goes right and those at which it goes left. |
| SmtSpec.LeftPadIs | packages/smt/src/optimized-smt.ts:173-224 | The pad bytes on the left are exactly the depths at which the path goes right, in ascending order. |
| SmtSpec.RightPadIs | packages/smt/src/optimized-smt.ts:173-224 | The pad bytes on the right are exactly the depths at which the path goes left, in descending order. |
| SmtSpec.RootOfTwo | packages/smt/src/optimized-smt.ts:173-224 | Of two leaves on either side of 2^255, the lower index is hashed in on the left, each padded for its own levels. |
| SmtSpec.EmptyRoot | packages/smt/src/optimized-smt.ts:133-142 | The root of the empty tree is 32 zero bytes. |
| SmtProof.PartialsEqualIff | packages/smt/src/smt-proof.ts:98-104 | A cached result counts as equal only if it is the same, with hash and siblings of 32 bytes. |
| SmtProof.Validate | packages/smt/src/smt-proof.ts:209-277 | The loop over 256 levels computes the abstract walk; in batch mode it stops at the first cached node and stores exactly the merges before it. |
| SmtProof.ClimbOuter | packages/smt/src/smt-proof.ts:83-91 | The sentinel bit that the batch mode puts on an index changes nothing in the walk. |
| SmtProof.KeyDetermines | packages/smt/src/smt-proof.ts:209-277 | A cache key tells the depth and the path above it, and nothing else. |
| SmtBatch.IsValidBatch | packages/smt/src/smt-proof.ts:77-117 | The method computes, in order, the verdicts the lemmas below are about, cache and roll-back included. |
| SmtBatch.RollBack | packages/smt/src/smt-proof.ts:77-117 | Deleting the keys of a failed candidate restores the cache it found. |
| SmtBatch.BatchIsSound | packages/smt/src/smt-proof.ts:77-117 | Whatever the batch accepts is valid alone, with no assumption on the hash. |
| SmtBatch.BatchIsExact | packages/smt/src/smt-proof.ts:77-117 | For proofs issued by one tree, with any candidate hashes, repeats and order, the batch and the single check agree both ways, as long as no second preimage turns up on the paths walked. |
| SmtBinding.BindingPerConverge | packages/smt/src/smt-proof.ts:209-277 | For one converge value, two valid 32-byte candidates at one index and root agree, siblings included, or the two walks exhibit a collision. |
| SmtBinding.BindingAcrossBitmaps | packages/smt/src/smt-proof.ts:209-277 | Two proofs of 32-byte siblings, whatever their bitmaps, are one proof of one candidate or exhibit a collision, provided neither bitmap skips a run of exactly 32 levels. |
| SmtBinding.WalksBind | packages/smt/src/smt-proof.ts:209-277 | Behind it: from any depth on, two such walks that reach one root skip and merge at the same levels and hold the same hashes. |
| SmtConfusion.ConvergeMatters | packages/smt/src/smt-proof.ts:209-277 | Without that guard it fails for every hash function: any valid proof whose lowest run has exactly 32 levels, at an index that turns one way below, proves the twin of any given candidate where one sibling more and another bitmap prove that candidate, at one index against one root; the one walk hashes nothing the other does not. |
| SmtBinary.ToBinary | packages/smt/src/smt-proof.ts:155-174 | Writes the specified encoding, or fails exactly where a field does not fit its buffer. |
| SmtBinary.FromBinary | packages/smt/src/smt-proof.ts:180-207 | Reads the specified decoding, or fails exactly where the source ends early or a length is negative. |
| SmtBinary.BinaryRoundTrip | packages/smt/src/smt-proof.ts:155-207 | Decoding an encoding, whatever follows it, gives the proof back if and only if the bitmap has 256 bits, there are at most 255 hashes and each has 32 bytes. |
| SmtBinary.BinaryLayout | packages/smt/src/smt-proof.ts:155-174 | Byte by byte: the number of leading zero bytes, the big-endian bitmap without them, the count, and the hashes 32 bytes apart. |
| Hashing.HashToBigInt | packages/smt/src/hash.ts:33-40 | Big-endian value, exactly for 32 bytes. |
| Hashing.BigIntToHash | packages/smt/src/hash.ts:46-57 | The 32-byte big-endian form, or an error exactly from 2^256 on. |
| Hashing.NatRoundTrip | packages/smt/src/hash.ts:33-57 | Value to bytes to value is the identity exactly on the numbers that fit. |
| Hashing.BytesRoundTrip | packages/smt/src/hash.ts:33-57 | Bytes to value to bytes is the identity. |
| Hashing.ToNatConcat | packages/smt/src/hash.ts:33-57 | Big-endian: a byte string weighs 256 times more for each byte that follows it. |
| ZeroHash.BuildCachedZero | packages/smt/src/zero-hash.ts:37-45 | The table starts with the hash of 64 zero bytes, each further entry is the hash of the one before it twice, and entry h is the hash of the complete empty tree of height h. |
| ZeroHash.EmptyLeaf | packages/smt/src/zero-hash.ts:37-45 | In the empty tree every leaf is the hash of 64 zero bytes. |
| ZeroHash.RootOfTwo | packages/smt/src/zero-hash.ts:66-79 | The top level parts even indexes from odd ones, even to the left, in whatever order they come. |
| ZeroHash.OneLeafStep | packages/smt/src/zero-hash.ts:66-74 | A single leaf is hashed, level by level, with the empty subtree of that height, to the side its bit says. |
| ZeroHash.ComputeSubtree | packages/smt/src/zero-hash.ts:66-74 | The recursive partition by bits returns the specified subtree hash. |
| ZeroHash.RootIsFull | packages/smt/src/zero-hash.ts:66-79 | The sparse computation equals the root of the complete tree with all its 2^256 leaves. |
| ZeroHash.RootIsCanonical | packages/smt/src/zero-hash.ts:77-79 | The root depends on the set of entries alone. |
| ZeroHashProof.GenerateProof | packages/smt/src/zero-hash.ts:86-107 | The generated bitmap marks exactly the empty siblings, and the hashes are the true hashes of the others, for a present or absent target. |
| ZeroHashProof.GeneratedHashCount | packages/smt/src/zero-hash.ts:86-107 | 256 less the number of collapsed bits. |
| ZeroHashProof.EmptyTreeProof | packages/smt/src/zero-hash.ts:86-107 | Against the empty tree every bit of the bitmap is set and no hash is listed. |
| ZeroHashProof.VerifiedHashCount | packages/smt/src/zero-hash.ts:116-137 | What verifies lists one hash for each clear bit, no more and no fewer. |
| ZeroHashProof.VerifyZeroHash | packages/smt/src/zero-hash.ts:116-137 | The loop computes the verdict of the abstract walk, on any bitmap and any list. |
| ZeroHashProof.Completeness | packages/smt/src/zero-hash.ts:86-137 | Every generated proof verifies the leaf at its target, present or absent. |
| ZeroHashProof.Soundness | packages/smt/src/zero-hash.ts:116-137 | Whatever bitmap and siblings are offered, a verified candidate is the leaf at the index (the empty leaf where there is none), or verifier and tree hashed two different inputs to one digest at a level of that path. One length must be known: the candidate's, or that of the sibling of the leaf. |
| ZeroHashProof.VerifiesIffLeaf | packages/smt/src/zero-hash.ts:77-137 | With no second preimages on the path of the index, some proof verifies a 32-byte candidate if and only if it is the leaf there. |
| ZeroHashProof.AbsentVerifiesIff | packages/smt/src/zero-hash.ts:37-137 | At an index the tree does not have, the hash of 64 zero bytes verifies, and nothing else. |
| ZeroHashProof.VerifiedIsLeafIff | packages/smt/src/zero-hash.ts:116-137 | A verified pair holds the leaf if and only if the candidate has 32 bytes, which is if and only if the sibling of the leaf has; the verifier checks neither. |
| ZeroHashProof.LongCandidateVerifies | packages/smt/src/zero-hash.ts:116-137 | Both cases occur: moving a byte from the sibling to the leaf makes a 33-byte candidate verify. |
| ZeroHashProof.PositionBinding | packages/smt/src/zero-hash.ts:116-137 | Against any root, two 32-byte candidates verified at one index are equal, or the two proofs exhibit a collision. |
| Btcr2Tree.BTCR2MerkleTree.AddEntries | packages/smt/src/btcr2-tree.ts:48-59 | Takes the longest prefix without a repeated index. On success the snapshot is cleared; on failure the entries before the repeat stay in and the old snapshot and root stay too. |
| Btcr2Tree.AcceptedAll | packages/smt/src/btcr2-tree.ts:48-59 | A batch goes in whole exactly when it repeats no index, of its own or of the tree. |
| Btcr2Tree.BTCR2MerkleTree.Finalize | packages/smt/src/btcr2-tree.ts:65-75 | Leaves and root are those of all entries. |
| Btcr2Tree.BTCR2MerkleTree.RootHash | packages/smt/src/btcr2-tree.ts:78-81 | There is a root exactly while there is a snapshot, and it is that of the entries that were in when it was taken: a prefix of the present ones after a batch that threw. |
| Btcr2Tree.BTCR2MerkleTree.GetProof | packages/smt/src/btcr2-tree.ts:87-101 | Serializes a generated proof for a DID of the tree, over the snapshot; the two errors come exactly for an unknown DID and before any finalize. |
| Btcr2Tree.BTCR2MerkleTree.Reset | packages/smt/src/btcr2-tree.ts:104-107 | Leaves and root are gone, the entries stay. |
| Btcr2Tree.RootOfEntrySet | packages/smt/src/btcr2-tree.ts:48-75 | The root is a function of the set of entries. |
| Btcr2Tree.TreeProofVerifies | packages/smt/src/btcr2-tree.ts:87-101 | A finalized tree's proof, serialized and parsed back, verifies the entry's own leaf. |
| Btcr2Tree.StaleProof | packages/smt/src/btcr2-tree.ts:48-101 | After a batch that threw, a proof verifies its DID's leaf against the kept root if and only if the entry was in the snapshot (or its leaf is the empty leaf). |
| Btcr2Proof.SerializeRoundTrip | packages/smt/src/btcr2-proof.ts:44-78 | Serializing succeeds exactly on 32-byte fields and a 256-bit bitmap, and parsing gives everything back. |
| Btcr2Proof.SerializedFields | packages/smt/src/btcr2-proof.ts:44-63 | Field by field: the text of the root, of the 32-byte bitmap, of nonce and update id where there are any, and of each sibling. |
| Btcr2Proof.EmptyFieldsAreAbsent | packages/smt/src/btcr2-proof.ts:69-78 | An empty nonce or update id reads as one that is not there. |
| Btcr2Proof.SerializedVerdict | packages/smt/src/btcr2-proof.ts:44-97 | Serializing changes no verdict. |
| Btcr2Proof.SerializedSoundness | packages/smt/src/btcr2-proof.ts:69-97 | Parsing yields siblings of 32 bytes only, so verifying a serialized proof is sound for candidates of any length. |
| Btcr2Proof.InclusionExcludesNonInclusion | packages/smt/src/btcr2-leaf.ts:17-27 | No root verifies both an inclusion and a non-inclusion leaf of one DID, or a collision is exhibited. |
| Btcr2Proof.InclusionIsUnique | packages/smt/src/btcr2-leaf.ts:9-27 | Two verified inclusions of one DID under one root name one nonce hash and one update id, or a collision is exhibited. |
| Btcr2Proof.Env.DidIndexIsHash | packages/smt/src/btcr2-leaf.ts:9-11 | The index, as 32 big-endian bytes, is the hash of the whole encoded DID. |
| Btcr2Proof.Env.DidIndexBinds | packages/smt/src/btcr2-leaf.ts:9-11 | Two DIDs share an index only if their encodings are one, or collide. |
| BeaconStrategy.CanonicalHashBinds | packages/aggregation/src/core/cohort.ts:330-391 | Documents of one canonical form have one hash; documents of one hash have one encoded canonical form, or those collide. |
| BeaconStrategy.SmtMatchTellsSlot | packages/aggregation/src/core/beacon-strategy.ts:98-125 | Only a proof with the update id of the member's own document matches for a submitter, and only one without for a decliner. |
| BeaconStrategy.SmtMatchesSerialized | packages/aggregation/src/core/beacon-strategy.ts:98-125 | On a serialized proof with the member's own update id, the member's check is the verdict on the leaf it expects. |
| BeaconStrategy.SmtMatchBinds | packages/aggregation/src/core/beacon-strategy.ts:98-125 | A match against the id of a tree means that the tree holds the member's own leaf, its update or its absence. The root is the proof's own `id`, not the signal. |
| BeaconStrategy.SmtSignalIff | packages/aggregation/src/core/beacon-strategy.ts:98-125 | After a match, the same proof verifies the member's leaf against the signal if and only if the signal is the proof's `id`. |
| BeaconStrategy.CasSignalIff | packages/aggregation/src/core/beacon-strategy.ts:72-83 | A signal is that of the announcement checked, and of no other, if and only if it is the hash of its canonical bytes. |
| BeaconStrategy.NamedCasCommits | packages/aggregation/src/core/beacon-strategy.ts:72-83 | Then every announcement under that signal has the member's own slot. |
| BeaconStrategy.NamedSmtCommits | packages/aggregation/src/core/beacon-strategy.ts:98-125 | A signal that is the proof's `id` commits to the member's own leaf, in every tree with that root. |
| SignalCommitment.SignalIsUnchecked | packages/aggregation/src/participant/participant.ts:434-474 | The signal that comes with the data has no influence on the verdict: for any two the handler does the same, up to the field it stores. |
| SignalCommitment.UnnamedSignalsPass | packages/aggregation/src/participant/participant.ts:434-474 | Of two signals with different bytes at most one names what was checked, and the handler stores the same verdict for both. |
| SignalCommitment.GiftsCommitWhenNamed | packages/aggregation/src/participant/participant.ts:434-680 | Over every run: where the data matched and named the signal when it was distributed, the signal carried by every transaction signed for commits to the member's own update or absence. |
| Cohort.GateMeansEveryone | packages/aggregation/src/core/cohort.ts:309-321 | The response gate only counts: a full count means that everyone responded if and only if submitters and decliners do not overlap. |
| Cohort.AggregationCohort.Admit | packages/aggregation/src/service/service.ts:371-374 | Admitting a participant keeps members, keys and the sorted key list aligned. |
| Cohort.AggregationCohort.ComputeBeaconAddress | packages/aggregation/src/core/cohort.ts:187-236 | State and result, including the fields written before the late error. |
| Cohort.AggregationCohort.ValidateMembership | packages/aggregation/src/core/cohort.ts:244-263 | State and result; keys and address are written even where the comparison then throws. |
| Cohort.AcceptedMembership | packages/aggregation/src/core/cohort.ts:244-263 | Accepted exactly when the member's key is listed and the announced address is the one computed from the sorted keys. |
| Cohort.BeaconCommitsToLeaf | packages/aggregation/src/core/cohort.ts:187-236 | The address is that of a script tree whose first leaf is the fallback leaf of these very keys. |
| Cohort.BeaconKeySpends | packages/aggregation/src/core/cohort.ts:187-236 | Under the law of Taproot the aggregate of the members' keys with the tweak kept is the key the beacon output pays to. |
| Cohort.BeaconOkIff | packages/aggregation/src/core/cohort.ts:187-236 | There is a beacon exactly for compressed keys, an operator-funded cohort, a 32-byte recovery key with a 16-bit delay, a threshold within the keys, and libraries that do not throw. |
| Cohort.AggregationCohort.IndexOfParticipant | packages/aggregation/src/core/cohort.ts:269-275 | The position of the member's key, or -1 exactly when it has none in the list. |
| Cohort.AggregationCohort.AddUpdate | packages/aggregation/src/core/cohort.ts:277-285 | Does not look at the decliners: disjointness survives exactly if the caller checked. |
| Cohort.AggregationCohort.AddNonInclusion | packages/aggregation/src/core/cohort.ts:291-307 | Refuses strangers and submitters; keeps the two kinds of response apart. |
| Cohort.AggregationCohort.AddValidation | packages/aggregation/src/core/cohort.ts:393-405 | Adds to one set and never removes from the other: disjoint sets stay so exactly if the DID is not in the other one. |
| Cohort.AggregationCohort.AllAnsweredIff | packages/aggregation/src/core/cohort.ts:410-412 | A full count of answers, at which the service gives the round up, means that everyone answered if and only if nobody answered both ways. |
| Cohort.AggregationCohort.AllRespondedIff | packages/aggregation/src/core/cohort.ts:319-321 | A full count of responses means that everyone responded if and only if no submitter also declined. |
| Cohort.TallyDisjointIff | packages/aggregation/src/core/cohort.ts:393-405 | Over any sequence of answers, the two sets are disjoint if and only if no DID answers both ways. |
| Cohort.AnswerTwiceFillsTheCount | packages/aggregation/src/core/cohort.ts:393-421 | Of two members one approves and then rejects: the count is full, full validation fails, and the other has not answered. |
| Cohort.AggregationCohort.FullyValidatedMeans | packages/aggregation/src/core/cohort.ts:418-421 | Counting suffices here: full validation is everyone's approval and nobody's rejection. |
| Cohort.AggregationCohort.BuildCASAnnouncement | packages/aggregation/src/core/cohort.ts:332-346 | Succeeds exactly at a full count; the map is the hash of each pending update; every submitter's and every decliner's own check of it succeeds. |
| Cohort.CasRound | packages/aggregation/src/core/beacon-strategy.ts:72-83 | A member's check of an announcement succeeds exactly for what it submitted. |
| Cohort.AggregationCohort.BuildSMTTree | packages/aggregation/src/core/cohort.ts:359-391 | Given a full count it fails only if two members' encoded DIDs are one or collide; otherwise the signal is the root of all slots, and every member's proof passes that member's own check against it. |
| Cohort.SlotProofGood | packages/aggregation/src/core/beacon-strategy.ts:93-125 | A slot's proof, through serialization and back, makes the member's check true and names the tree's root. |
| SigningSession.BeaconSigningSession.AddNonceContribution | packages/aggregation/src/core/signing-session.ts:98-128 | Taken exactly in the collecting phase, from a member of that moment, once, with 66 bytes; the phase moves exactly when there are as many as members. |
| SigningSession.BeaconSigningSession.GenerateAggregatedNonce | packages/aggregation/src/core/signing-session.ts:130-140 | Only with every nonce in; nothing changes where aggregation throws. |
| SigningSession.BeaconSigningSession.AdmitLate | packages/aggregation/src/service/service.ts:342-381 | Accepting a participant while the session runs keeps the session valid in every phase; its tables then lack the new member. |
| SigningSession.BeaconSigningSession.AddPartialSignature | packages/aggregation/src/core/signing-session.ts:142-166 | Taken exactly in its phase, from a member of that moment, once; the phase moves exactly when there are as many as members. |
| SigningSession.BeaconSigningSession.GenerateFinalSignature | packages/aggregation/src/core/signing-session.ts:168-226 | Completes only if every partial signature verified, against the filled nonce array, at its sender's slot; fails only for one of the listed reasons, and then changes nothing. |
| SigningAgreement.SidesAgree | packages/aggregation/src/core/signing-session.ts:178-264 | Over every run of a member: where the service holds the same cohort and sent the request and the nonce, what the member signed with equals, field by field, what the service verifies with. |
| SigningAgreement.HonestVerify | packages/aggregation/src/core/signing-session.ts:194-221 | Under the law that a signature made under the session's values verifies, all partial signatures do. |
| SigningAgreement.CompleteHonestly | packages/aggregation/src/core/signing-session.ts:168-226 | Then the session completes, with what the library aggregates from them. |
| SigningAgreement.SameFallbackLeaf | packages/aggregation/src/core/fallback-spend.ts:138-186 | The leaf the service rebuilds is the one the members sign for, whatever the order of the keys on either side. |
| SigningSession.BeaconSigningSession.NoncesComplete | packages/aggregation/src/core/signing-session.ts:98-128 | Past the collection there is exactly one nonce from each of the members of the moment it ended, and from everyone if and only if nobody joined since. |
| SigningSession.BeaconSigningSession.SignaturesComplete | packages/aggregation/src/core/signing-session.ts:142-166 | From the received phase on there is exactly one partial signature from each of the members of that moment, who are no fewer than those with a nonce, and from everyone if and only if nobody joined since. |
| SigningSession.SlotFilledIffEarly | packages/aggregation/src/core/signing-session.ts:194-204 | With pairwise different keys, a member's slot holds a nonce if and only if it was a member when the nonces were collected. |
| SigningSession.NoHoles | packages/aggregation/src/core/signing-session.ts:194-204 | The nonce array is total if and only if the members' keys are pairwise different and nobody joined after the nonces were collected. |
| SigningSession.NoncesInPlace | packages/aggregation/src/core/signing-session.ts:194-204 | With pairwise different keys, each contributed nonce stands in its sender's own slot of the sorted keys. |
| Recovery.SortKeysCanonical | packages/aggregation/src/core/cohort.ts:160-162 | Sorted keys do not depend on the order of arrival. |
| Recovery.FallbackLeafCanonical | packages/aggregation/src/core/recovery-policy.ts:130-166 | Every party builds the same leaf from any permutation of the keys, errors included. |
| Recovery.CompactSizeRoundTrip | packages/aggregation/src/core/recovery-policy.ts:101-105 | The length prefix reads back exactly below 2^32. |
| Recovery.CompactSizeLayout | packages/aggregation/src/core/recovery-policy.ts:101-106 | One byte, or a marker and two or four bytes, least significant first. |
| Recovery.DefaultThreshold | packages/aggregation/src/core/recovery-policy.ts:126-128 | Unless one is advertised: all but one, and at least one. |
| Recovery.RecoveryScriptIff | packages/aggregation/src/core/recovery-policy.ts:190-212 | For a 32-byte key and any 16-bit number of blocks but zero. |
| Recovery.TapLeafInputInjective | packages/aggregation/src/core/recovery-policy.ts:112-117 | Different scripts have different tap-leaf inputs. |
| Recovery.TapLeafHashIs | packages/aggregation/src/core/recovery-policy.ts:97-117 | The tagged hash of the leaf version 0xc0, a prefix that reads back as the length, and the script. |
| FallbackSpend.BuildFallbackSpend | packages/aggregation/src/core/fallback-spend.ts:131-221 | Given a matching output, succeeds if and only if at least k distinct cohort keys have some verifying signature; then the first k such keys in key order get, each, its earliest verifying signature. |
| FallbackSpend.Accept | packages/aggregation/src/core/fallback-spend.ts:188-199 | The map filled by the loop has exactly the keys with a verifying signature, each with the earliest one; junk and repeats do not matter. |
| FallbackSpend.SpendsIff | packages/aggregation/src/core/fallback-spend.ts:131-221 | It succeeds exactly if k different keys of the leaf each have a 64-byte signature that verifies against the digest. |
| FallbackSpend.ChosenProve | packages/aggregation/src/core/fallback-spend.ts:131-221 | Every signature chosen was supplied, is by a key of the leaf, verifies, and is the first of its key that does. |
| FallbackSpend.RebuiltIsSpent | packages/aggregation/src/core/fallback-spend.ts:138-186 | The output rebuilt from the sorted keys is the one that is spent, its fallback leaf is in the tree, and the digest is that of the leaf. |
| FallbackSpend.SignedUnordered | packages/aggregation/src/core/fallback-spend.ts:188-199 | Who counts as having signed does not depend on the order of the input. |
| FallbackSpend.RebuildCanonical | packages/aggregation/src/core/fallback-spend.ts:138-186 | The output rebuilt is the same for every permutation of the keys. |
| FallbackSpend.LeafCountsK | packages/aggregation/src/core/fallback-spend.ts:208-219 | The CHECKSIGADD leaf counts exactly k signatures if and only if no signed x-only key stands on both sides of the cut. |
| FallbackSpend.DistinctKeysSuffice | packages/aggregation/src/core/fallback-spend.ts:208-219 | With distinct x-only keys exactly k distinct keys sign and the leaf counts exactly k. |
| FallbackSpend.RefusingRepeatsSuffices | packages/aggregation/src/core/fallback-spend.ts:138-219 | Under the law that the library's multisig script refuses repeated keys, every spend built has distinct x-only keys and its leaf counts exactly k. |
| FallbackSpend.ParityTwinsBreakIt | packages/aggregation/src/core/fallback-spend.ts:138-219 | Under the law that it accepts them: three compressed keys, two differing in parity only, for which the spend is built and the leaf counts one signature too many. |
| FallbackSpend.TwinsCanBeBuilt | packages/aggregation/src/core/fallback-spend.ts:138-186 | Such an output and such signatures exist, for library functions that accept everything. |
| AggregationParticipant.AggregationParticipant.Receive | packages/aggregation/src/participant/participant.ts:201-233 | Takes the step of the machine for the record the message names: other records stay as they are, and nothing but an acceptance of that cohort's address goes on record. |
| AggregationParticipant.AggregationParticipant.HandleCohortReady | packages/aggregation/src/participant/participant.ts:337-353 | From `OptedIn` only; the phase advances, and the address goes on record as accepted, exactly where the check passes. Fields written before the error are kept. |
| AggregationParticipant.AggregationParticipant.HandleDistributeAggregatedData | packages/aggregation/src/participant/participant.ts:434-474 | The stored validation and phase, for submitters and decliners and both beacon types. |
| AggregationParticipant.AggregationParticipant.HandleAuthorizationRequest | packages/aggregation/src/participant/participant.ts:528-549 | A request is stored, and the phase advanced, only for a complete request right after validation was sent; otherwise nothing changes. |
| AggregationParticipant.AggregationParticipant.HandleAggregatedNonce | packages/aggregation/src/participant/participant.ts:633-645 | The nonce enters the session, and the phase advances, only once and only after the own nonce was sent; otherwise nothing changes. |
| AggregationParticipant.AggregationParticipant.HandleFallbackAuthorizationRequest | packages/aggregation/src/participant/participant.ts:694-716 | In the five phases after validation, local completion included, the request is stored, the secret nonce dropped and the phase reopened; in any other nothing changes. |
| AggregationParticipant.AggregationParticipant.JoinCohort | packages/aggregation/src/participant/participant.ts:274-313 | The in-place code takes the step of the machine the safety results are about: from `Discovered` only, with the advertised recovery terms, and nothing changes where it throws. |
| AggregationParticipant.AggregationParticipant.SubmitUpdate | packages/aggregation/src/participant/participant.ts:360-379 | Likewise, from `CohortReady` only: the update and the intent are stored. |
| AggregationParticipant.AggregationParticipant.DeclineUpdate | packages/aggregation/src/participant/participant.ts:388-408 | Likewise, from `CohortReady` only: the intent is stored, no update is. |
| AggregationParticipant.AggregationParticipant.ApproveTheValidation | packages/aggregation/src/participant/participant.ts:479-494 | Likewise, from `AwaitingValidation` only: the stored signal goes on record as approved. |
| AggregationParticipant.AggregationParticipant.RejectTheValidation | packages/aggregation/src/participant/participant.ts:499-514 | Likewise, from `AwaitingValidation` only, into the final phase `Failed`. |
| AggregationParticipant.AggregationParticipant.ApproveTheNonce | packages/aggregation/src/participant/participant.ts:578-631 | Likewise: no nonce is given unless the transaction anchors the stored signal; the session stays behind, without a secret, when key aggregation throws. |
| AggregationParticipant.AggregationParticipant.GeneratePartialSignature | packages/aggregation/src/participant/participant.ts:652-680 | Likewise: signing uses the held secret, which is gone even if signing throws. |
| AggregationParticipant.AggregationParticipant.ApproveTheFallback | packages/aggregation/src/participant/participant.ts:736-779 | Likewise: no signature unless the transaction anchors the stored signal; the leaf is rebuilt from the member's own keys, not taken from the request. |
| AggregationParticipant.AggregationParticipant.ClearAllSecrets | packages/aggregation/src/participant/participant.ts:792-796 | No record holds a secret afterwards. |
| Participant.TxEmbedsSignal | packages/aggregation/src/participant/participant.ts:46-62 | True exactly when some output returns the non-empty signal and nothing else. |
| Participant.EmbedsIff | packages/aggregation/src/participant/participant.ts:46-62 | Exactly: an output of RETURN and the bytes of the signal, nothing more, and the bytes are not none. |
| ParticipantSafety.RunKeeps | packages/aggregation/src/participant/participant.ts:173-797 | The invariant of every reachable state, for all runs of messages from anyone and all decisions. |
| ParticipantSafety.GiftsAreAnchored | packages/aggregation/src/participant/participant.ts:559-680 | Over every run: each nonce, partial signature and fallback signature is for a transaction carrying the signal its record still holds, which had been approved before. |
| ParticipantSigning.SignsWhatWasAuthorized | packages/aggregation/src/participant/participant.ts:606-680 | Over every run: a partial signature is under the sighash of the transaction, script and amount of an authorization request that was received, the keys and the tweak of the beacon computed from the keys and terms held, and an aggregated nonce that was received. |
| ParticipantSigning.FallbackSignsWhatWasAsked | packages/aggregation/src/participant/participant.ts:736-779 | Over every run: a fallback signature is under the script-path sighash of the transaction, script and amount of a fallback request that was received. |
| ParticipantSigning.RunHoldsReceived | packages/aggregation/src/participant/participant.ts:434-725 | Over every run: stored data, requests and nonce came with messages for the cohort, the requests with no field missing. |
| ParticipantSigning.HoldsAdvertisedTerms | packages/aggregation/src/participant/participant.ts:247-313 | Over every run: a cohort is held under the terms, one by one, of an advert that was received. |
| ParticipantRound.HonestRoundSigns | packages/aggregation/src/participant/participant.ts:247-680 | A member that joins, answers and approves while everyone keeps to the protocol ends with its partial signature given, for the transaction and values of that round, and with the secret gone. |
| ParticipantRound.FallbackRoundSigns | packages/aggregation/src/participant/participant.ts:694-779 | From each of the five phases that allow it, a member with a validated signal signs the fallback spend it is asked for. |
| ParticipantRound.WrongPhaseThrows | packages/aggregation/src/participant/participant.ts:274-779 | A decision in any phase but its own throws, and changes nothing. |
| ParticipantRound.OutOfTurnIgnored | packages/aggregation/src/participant/participant.ts:247-725 | A message in a phase that does not take it changes nothing, without an error. |
| ParticipantSafety.RunMoves | packages/aggregation/src/participant/participant.ts:434-514 | Between any two moments of a run: a stored validation never changes after distribution, `Failed` is final, and ranks go back only from `Complete`. |
| ParticipantSafety.StepMoves | packages/aggregation/src/participant/participant.ts:201-780 | Every event follows an edge of the phase graph. |
| ParticipantSafety.EdgesGoForward | packages/aggregation/src/participant/participant.ts:694-716 | The only backward edge is from `Complete` to `AwaitingFallbackSig`; none leaves `Failed`. |
| ParticipantSafety.SecretsAreUsedOnce | packages/aggregation/src/participant/participant.ts:578-680 | Over every run: at most one nonce and one partial signature for each cohort; a partial signature used the secret drawn for its own transaction; no secret is used twice, in any cohorts. |
| ParticipantSafety.SecretsAreWiped | packages/aggregation/src/core/signing-session.ts:232-281 | A secret is held only between contribution and partial signature, unused so far: never once a fallback was asked for. |
| ParticipantSafety.FallbackLeafIsCommitted | packages/aggregation/src/participant/participant.ts:736-779 | Over every run: the leaf a fallback signature is for is one the accepted beacon address commits to; any other script tree with that address shares it with a different input of the address function. |
| ParticipantSafety.CohortsAreIsolated | packages/aggregation/src/participant/participant.ts:201-233 | A message or decision for one cohort leaves all other records as they were. |
| AggregationParticipant.AggregationParticipant.GaveOnlyAnchored | packages/aggregation/src/participant/participant.ts:559-779 | Of the object, after any calls: what it gave away is for transactions carrying the signal it stores, approved before. |
| AggregationParticipant.AggregationParticipant.GaveOnlyAuthorized | packages/aggregation/src/participant/participant.ts:606-680 | Of the object, after any calls: its partial signatures are for what the stored request and the accepted beacon say. |
| AggregationParticipant.AggregationParticipant.SignedOnce | packages/aggregation/src/participant/participant.ts:578-680 | Of the object, after any calls: each secret signed with once, for its own transaction; one nonce and one partial signature for each cohort. |
| AggregationParticipant.AggregationParticipant.HoldsOnlyNeeded | packages/aggregation/src/core/signing-session.ts:232-281 | Of the object, after any calls: the secrets it holds are unspent and in one of the two phases that need them. |
| AggregationParticipant.AggregationParticipant.GaveOnlyCommitted | packages/aggregation/src/participant/participant.ts:736-779 | Of the object, after any calls: its fallback signatures are for leaves its accepted addresses commit to. |
| AggregationParticipant.AggregationParticipant.GaveOnlyCommitting | packages/aggregation/src/participant/participant.ts:434-680 | Of the object, after any calls: where the validated data named its signal, what was signed commits to the member's own slot. |
| SseStream.ParseSseStream | packages/aggregation/src/participant/sse-stream.ts:34-121 | The events depend on the concatenated text alone, however it is cut into chunks. |
| SseStream.Drain | packages/aggregation/src/participant/sse-stream.ts:102-116 | Takes exactly the complete lines off the buffer and feeds them in order. |
| SseStream.ProcessOneLine | packages/aggregation/src/participant/sse-stream.ts:56-82 | One field line, CR handling aside. |
| SseStream.FormatSseEvent | packages/aggregation/src/service/sse-writer.ts:9-17 | The text of a frame: id, event, a data line for each part, a blank line. |
| SseStream.FrameStarts | packages/aggregation/src/service/sse-writer.ts:9-17 | A frame starts with the id line, if there is an id, and the event line. |
| SseStream.CommentText | packages/aggregation/src/service/sse-writer.ts:20-23 | A comment is one colon line and a blank line. |
| SseStream.Format | packages/aggregation/src/service/sse-writer.ts:9-23 | The text of any item is its lines, each ended by a newline. |
| SseStream.PrintParse | packages/aggregation/src/service/sse-writer.ts:9-23 | Any list of frames and comments, printed, cut anywhere and parsed, gives exactly the frames' events, in order, if and only if every frame is printable. |
| SseStream.FrameSurvivesIff | packages/aggregation/src/service/sse-writer.ts:9-17 | A printed frame reads back as its event if and only if event and id have no newline and do not end in CR, the id has no NUL, and no data part ends in CR. |
| SseStream.BlockThenRest | packages/aggregation/src/participant/sse-stream.ts:34-121 | Of any text: a block of lines yields one event if it has data, with the last event name, the last identifier without NUL, the last whole retry number and all data joined, before whatever follows. |
| SseStream.FieldIs | packages/aggregation/src/participant/sse-stream.ts:56-82 | A line has exactly the name and value it is written with: one space after the colon does not count. |
| SseStream.EndIsBlankLine | packages/aggregation/src/participant/sse-stream.ts:34-121 | The end of the stream acts as a blank line. |
| ServiceRunner.RunKeeps | packages/aggregation/src/service/service-runner.ts:240-896 | The invariant of every cohort under all interleavings at await points. |
| ServiceRunner.SettledAndFinalizedOnce | packages/aggregation/src/service/service-runner.ts:545-727 | Each completion settles at most once, `finalizeKeygen` is called at most once, and accepted participants never exceed the maximum. |
| ServiceRunner.OnePathCompletes | packages/aggregation/src/service/service-runner.ts:836-884 | A key-path completion happens only in a cohort committed to the optimistic path, a script-path completion only in one committed to the fallback. |
| ServiceRunner.CompletesIff | packages/aggregation/src/service/service-runner.ts:836-884 | A live cohort is completed by the key path exactly by its last partial signature, and by the script path exactly by its last fallback signature. |
| ServiceRunner.LastPartialCompletes | packages/aggregation/src/service/service-runner.ts:836-860 | The last partial signature commits the cohort to the optimistic path, resolves its completion and keeps its state. |
| ServiceRunner.LastFallbackCompletes | packages/aggregation/src/service/service-runner.ts:862-884 | The last fallback signature resolves the completion of a cohort committed to the fallback. |
| ServiceRunner.HonestRunCompletes | packages/aggregation/src/service/service-runner.ts:240-884 | The run from the advertisement to completion in which enough participants join and every callback and call succeeds ends completed by the key path, once, with exactly these participants. |
| ServiceRunner.TimeAndOperatorSettle | packages/aggregation/src/service/service-runner.ts:443-598 | Of a live cohort: expiry rejects, stopping settles, a stall or a trigger in one of the three signing phases starts the fallback, and a stall in any other rejects. |
| ServiceRunner.RejectedAnswersFail | packages/aggregation/src/service/service-runner.ts:762-834 | A full count of answers with a rejection among them fails the cohort. |
| ServiceRunner.TaskThrowsFail | packages/aggregation/src/service/service-runner.ts:654-834 | A callback or a sending that throws fails the cohort. |
| ServiceRunner.ServiceThrowsFail | packages/aggregation/src/service/service-runner.ts:735-884 | So does the service, on a message or on the call after the last message of a kind. |
| ServiceRunner.MoreIsToCome | packages/aggregation/src/service/service-runner.ts:735-884 | A contribution that is not the last of its kind changes nothing, but that the first update starts the collection. |
| ServiceRunner.KeygenHasEnough | packages/aggregation/src/service/service.ts:388-440 | Over every run: past keygen there are at least as many participants as the configuration asks for. |
| ServiceRunner.DeclinedAsksAgain | packages/aggregation/src/service/service-runner.ts:694-712 | After the operator declined to finalize, the next acceptance asks again. |
| ServiceRunner.SettledIgnores | packages/aggregation/src/service/service-runner.ts:443-660 | A settled cohort, or a stopped runner, changes nothing on messages, timers and the operator's calls. |
| ServiceRunner.RunLatches | packages/aggregation/src/service/service-runner.ts:491-598 | Between any two moments: a committed path, a settlement and the configuration never change. |
| ServiceRunner.CohortsAreIndependent | packages/aggregation/src/service/service-runner.ts:573-598 | Events of one cohort leave the others alone; stopping the runner settles all. |
| ServiceRunner.MembersFinalIff | packages/aggregation/src/service/service-runner.ts:654-727 | After keygen, a cohort keeps its participants for good if and only if it is full or no pending opt-in was left unaccepted, since accepting does not look at the phase. |
| ServiceRunner.YesAddsMember | packages/aggregation/src/service/service.ts:342-381 | A yes to a pending opt-in adds the member to a cohort with room in every phase, signing included, and changes nothing else there. |
| ServiceRunner.TwoYessesFailIff | packages/aggregation/src/service/service-runner.ts:654-727 | Of two decisions pending for one participant, two yesses fail the whole cohort if and only if it has room after the first. |
| ServiceRunner.RepeatedOptInFails | packages/aggregation/src/service/service-runner.ts:654-727 | An opt-in sent twice before the operator answers leads there: the cohort fails if and only if it has room after accepting it. |
| RateLimiter.RateLimiter.Consume | packages/aggregation/src/service/rate-limiter.ts:57-74 | The decision is that of the bucket led to by this key's calls; other keys are untouched. |
| RateLimiter.NextTokenIff | packages/aggregation/src/service/rate-limiter.ts:57-74 | Of n calls at one instant a burst of n admits all, and one more exactly once 1000 / rps milliseconds are over. |
| RateLimiter.RateBoundAnyClock | packages/aggregation/src/service/rate-limiter.ts:57-74 | For any clock at all, the calls admitted in a window are at most the burst and what its steps earn one by one. |
| RateLimiter.RateBound | packages/aggregation/src/service/rate-limiter.ts:57-74 | For a clock that keeps one direction, the calls admitted in any window are at most the burst and what the window earns. |
| RateLimiter.BoundIffOneDirection | packages/aggregation/src/service/rate-limiter.ts:57-74 | That bound holds in all windows, for all rates and bursts, if and only if the clock never turns. |
| RateLimiter.BackwardClockBreaksTheBound | packages/aggregation/src/service/rate-limiter.ts:62-66 | Three calls of a clock that turns, and a rate for which they break the bound. |
| RateLimiter.RejectedCallsDoNotMatter | packages/aggregation/src/service/rate-limiter.ts:68-71 | For a rate that is not negative and a clock that never goes back, leaving out every rejected call changes no later decision. |
| RateLimiter.RejectedMatterIffClockWentBack | packages/aggregation/src/service/rate-limiter.ts:62-71 | From the last call on, for all rates and bursts, rejected calls change no decision if and only if the clock never went back. |
| RateLimiter.SpacedNeverThrottled | packages/aggregation/src/service/rate-limiter.ts:57-74 | A caller at the steady rate is never throttled if and only if the burst is at least one. |
| InboxBuffer.InboxBuffer.Make | packages/aggregation/src/service/inbox-buffer.ts:26-29 | Throws exactly below capacity one. |
| InboxBuffer.InboxBuffer.Append | packages/aggregation/src/service/inbox-buffer.ts:32-37 | Numbers the event, keeps the newest ones as many as fit. |
| InboxBuffer.RetainsNewest | packages/aggregation/src/service/inbox-buffer.ts:32-37 | What is retained are the newest events, as many as fit, each with its number from 1. |
| InboxBuffer.InboxBuffer.Since | packages/aggregation/src/service/inbox-buffer.ts:44-49 | The retained events above the boundary; all of them where there is no finite boundary. |
| InboxBuffer.ReplayCompleteIff | packages/aggregation/src/service/inbox-buffer.ts:32-49 | The ring replays what the unbounded list would if and only if nothing after the boundary was dropped. |
| InboxBuffer.AboveIsSuffix | packages/aggregation/src/service/inbox-buffer.ts:44-49 | Replay after k on the unbounded list is everything after k, in order. |
| NonceCache.NonceCache.Store | packages/aggregation/src/service/nonce-cache.ts:28-37 | Refuses exactly the keys of the last `maxEntries` accepted pairs. |
| NonceCache.RefusedIffAmongLast | packages/aggregation/src/service/nonce-cache.ts:28-37 | Refused exactly if one of the last `maxEntries` accepted pairs gives the same text, DID, colon, nonce. |
| NonceCache.RefusesExactlyRecentPairs | packages/aggregation/src/service/nonce-cache.ts:28-37 | With colon-free nonces those are exactly the pairs. |
| NonceCache.ColonsConfuse | packages/aggregation/src/service/nonce-cache.ts:29 | Every nonce with a colon shares its key with a different pair, whose nonce has none, and is refused after it. |
| NonceCache.ExactIffColonFree | packages/aggregation/src/service/nonce-cache.ts:28-37 | Among caches of colon-free nonces, a pair is refused exactly when it is recent if and only if its nonce has no colon. |
| NonceCache.ExactIffNoColons | packages/aggregation/src/service/nonce-cache.ts:28-37 | Among all caches, a pair is refused exactly when it is recent if and only if neither its DID nor its nonce has a colon. |

## Left out

- ZeroHashProof.VerifiesIffLeaf: second-preimage resistance is asked of the inputs on one path only; no function to 32 bytes is injective, so injectivity is never assumed.
- SmtBatch.IsValidBatch: takes indexes below 2^256, which is what `didToIndex` yields: on a larger one the sentinel bit is not the topmost, and a cache key no longer tells the depth. It computes the whole list of results at once; that the generator is lazy and may be left early is not modelled.
- SmtBinding.BindingAcrossBitmaps: has a sufficient guard on the bitmaps, and `SmtConfusion.ConvergeMatters` gives a large family outside it that is confused, not all of it. Where a run of other length lies below the one of 32 levels, its pads carry the depths they stand for and fit no walk shifted by 31 levels, unless the other bitmap makes the shift good with a run of 32 levels of its own; and where the path turns both ways within the run, a confusion would need a digest with prescribed bytes. Neither is decided here.
- SmtBinary.FromBinary: reads from a finished byte sequence; the asynchronous source is not modelled.
- SseStream.ParseSseStream: starts from decoded chunks of text and a finished list of them; the UTF-8 decoder, its byte order mark and cancellation are not modelled.
- SigningAgreement.CompleteHonestly: asks for a cohort that nobody joined since the nonces were collected and whose keys are all different; otherwise the nonce array has holes (`SigningSession.NoHoles`).
- FallbackSpend.BuildFallbackSpend: ends where the input is updated; the library call that finalizes it is not modelled.
- FallbackSpend.DistinctKeysSuffice: gives one direction; the exact condition is `FallbackSpend.LeafCountsK`.
- InboxBuffer.InboxBuffer.Append: numbers events with natural numbers; that identifiers are decimal strings and exact only below 2^53 is not modelled.
- NonceCache.NonceCache.Store: drops the timestamp, which the program stores and never reads.
- RateLimiter.RateBound: needs a rate that is not negative and exact real arithmetic; floating-point rounding is not modelled.
- ServiceRunner.RunKeeps: works on a value for each cohort, with suspended handlers as explicit tasks, rather than on mutated context objects; event listeners that call back into the runner while they are notified are not modelled, and neither is a user who drives the service behind the runner.
- AggregationParticipant.AggregationParticipant.Receive: keeps each record as a value in the map, so aliasing of a signing session outside the participant is not modelled; the messages returned are represented by what they give away.
- Cohort.AggregationCohort.Admit: is for a participant that is not in yet, as the service makes sure before.
- The JSON, hexadecimal and plain base64 codecs of `SMTProof` and `hash.ts`: easy members beside the binary one.
- The laws of SHA-256, MuSig2, Schnorr, Taproot, base58 and transaction encoding: libraries.
- `registerBeaconStrategy`: the two built-in strategies are modelled, not the registry.
- The rest of `AggregationService` (rejection log, update proofs, message bodies): the runner's model keeps its phases,
  opt-ins, acceptances and results, and takes the outcome of its checks from the events.
- Retry and re-advertising loops, wall-clock timers, transports, HTTP, Nostr, CLI: a timer is a step that may fire.
- Reading accessors of the participant and the service: filters over the state.
- The insertion order of JavaScript maps, except in the signing session and the nonce cache, where it matters.
