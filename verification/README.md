# Celo light client: a verified model

The project models the IBFT light client for the Celo blockchain and proves what its users rely on: that syncing
by epoch headers alone is as good as syncing by every header, that two clients cannot be led onto different chains
while fewer than a third of the validators are faulty, that accepted evidence of misbehaviour names a third of the
validators as signers of both blocks, which convicts them if and only if the two blocks carry one number, and that
the encodings under all of this can be read back and bind what they hash.

`dafny verify dfyconfig.toml` checks the whole project.

## How it is laid out

| module | what it models |
|---|---|
| `Outcomes`, `Errors`, `Crypto` | the three ways a call ends (value, error, panic), the error kinds, the foreign cryptography |
| `Bits`, `Bytes` | bitmaps held in big integers and selection by them; big-endian numbers and fixed-length arrays |
| `Rlp`, `RlpStreams` | the RLP views and the stream behind `src/types` and `src/serialization/rlp.rs` |
| `IstanbulTypes`, `HeaderTypes`, `SnapshotTypes` | the structs of `src/types` and their encodings |
| `Istanbul`, `HeaderHash`, `Bls` | epochs, quorum size, header filter; the header hash; the seal check |
| `Consensus`, `IbftState` | what `src/state.rs` does to a snapshot, as functions and as the object that does it in place |
| `Runs`, `Agreement`, `LightestSync` | theorems over whole runs; agreement of two clients; the sync example |
| `Ibc`, `Store`, `Delay` | heights, chained membership proofs, the store and its keys, the delay period |
| `Contract`, `ContractRuns`, `ContractDelay` | the contract's steps; theorems over runs of the contract; the delay period over such runs |

## How to read it

- A panic is an outcome of its own, so nothing is excluded by a precondition that the code handles or stumbles
  over: an empty validator set (`min_quorum_size` underflows), a block number beyond 64 bits, an epoch size of zero,
  a sum beyond 64 bits, a fixed-length field that is too short, a missing key or specification of a proof layer.
  The length check of `slice_as_array_ref!` never reports an error: the slice before it panics first, and the code
  is followed.
- Cryptography and foreign codecs are function values a statement ranges over. What is assumed of them is in the
  statement: `IdealBls` (a named aggregate, if it verifies for named keys and message, was signed by every one of
  them), `NoCollision` (the digest tells two named inputs apart), `Binding` (the checks of two proofs cannot both
  hold for different values), `Base64RoundTrips`, `JsonRoundTrips`. No signature scheme and no fixed-length digest
  could satisfy the first two for all inputs, so each theorem assumes them for the seals and headers of its own runs.
- An honest validator (`Honest`) commits to at most one header hash per block number, over all rounds, among a finite
  set of headers that have been seen. Signing any number of blocks of different numbers is honest.
- Predicates ending in `Fits`, and `Hashable`, say that an encoding is shorter than 2^64 bytes, as every encoding in
  memory is.
- Class methods are proved against the functions of module `Consensus`; the theorems are about those functions.

## Model

| member | source | states |
|---|---|---|
| `LightestSync.UltralightRefinesFull` | examples/lightest-sync/main.rs:99-119 | if a full sync accepts blocks 0..N under every check, the client fed only the last header of each earlier epoch, with clocks not behind, accepts all of them, ends with the validators the full client has right before N, and accepts N; the final check fails exactly for N = 0 |
| `LightestSync.Sync` | examples/lightest-sync/main.rs:63-119 | the loop over epochs: failed fetches and rejected headers are passed over, a panic ends the program, the latest header is checked last |
| `LightestSync.OlderStateAccepts` | src/state.rs:70-109 | a header accepted by a newer state is accepted by an older one with the same validators under a later clock |
| `LightestSync.SameValidatorsSameResult` | src/state.rs:123-199 | what an accepted insertion stores depends on the earlier state only through its validators |
| `LightestSync.LoopHasHistory` | examples/lightest-sync/main.rs:99-112 | every loop that ends without a panic is a history of turns, and ends in its last state |
| `LightestSync.LoopFollowsHistory` | examples/lightest-sync/main.rs:99-112 | every history of turns is what the loop goes through |
| `LightestSync.SyncIsCertified` | examples/lightest-sync/main.rs:99-112 | whatever the relayer answers or fails to answer, and whether or not an answer is rejected, each turn leaves the validators alone or applies the changeset of a header that a quorum of the list before it signed; the one exception is a header with number 0, which is never verified |
| `Agreement.NoDivergence` | src/state.rs:111-199 | two fully verified runs from one snapshot over headers of equal non-zero numbers agree on number, timestamp, hash and validators after every step if fewer than a third of the positions are faulty at each step |
| `Agreement.SkippingClientsAgree` | src/state.rs:111-199 | two clients with the same epoch ends behind them hold the same validators, whatever other headers each of them inserted or skipped |
| `Agreement.CommonHeader` | src/state.rs:111-199 | and if both next accept a header of one number, they agree on its hash, timestamp and the validators after it |
| `Agreement.DistinctNumbersConvictNobody` | src/bls.rs:45-50 | signing headers of pairwise different numbers makes nobody faulty |
| `Agreement.SealedHashesAgree` | src/bls.rs:12-43 | two headers of one number sealed by the same validators have one hash under an honest majority |
| `Agreement.AgreementStep` | src/state.rs:111-199 | one step keeps two clients in agreement, by quorum intersection, hash binding and equal changesets |
| `Runs.MonotoneRun` | src/state.rs:70-98 | numbers and timestamps strictly increase along a fully verified run, no timestamp exceeds its clock plus the skew, and the growth in number bounds the number of accepted headers |
| `Runs.ChainOfTrust` | src/state.rs:100-199 | every accepted non-zero header was sealed by the validators held before it; after a non-epoch header the stored snapshot verifies by itself |
| `Runs.ValidatorsAreCertified` | src/state.rs:148-199 | the validators at the end of a run derive from the initial ones by changesets each signed by a two-thirds quorum of the list it changes |
| `Runs.FailureFrame` | src/state.rs:111-199 | a rejected header changes the snapshot exactly if the addition is refused (stated on the input) and the removal bitmap is not zero; then the removal stays in force and nothing else changes |
| `Runs.AdditionRefusedIff` | src/state.rs:148-188 | the addition is refused exactly if a header ending an epoch got past verification, hashing, decoding and the removal guard, and adds the address of a validator that stays |
| `Runs.InsertionFails` | src/state.rs:111-199 | why a rejected header is rejected: a panic beyond 64 bits or for epoch size zero, else what verification says where it is due, else what decoding says, else what the changeset says |
| `Runs.RemovalSurvivesRefusal` | src/state.rs:174-188 | in every state with two or more validators there is such a header: it is turned down and the first validator is gone |
| `Runs.AcceptedIffIngested` | src/state.rs:111-199 | an insertion succeeds with a given snapshot exactly when its hash, fields, seal and validators are the header's and the required checks passed |
| `IbftState.State.InsertHeader` | src/state.rs:111-121 | dispatch on the end of an epoch; snapshot and outcome as specified |
| `IbftState.State.StoreEpochHeader` | src/state.rs:148-199 | verify, combine addresses and keys, remove, add, store, with the partial effects of a failure |
| `IbftState.State.StoreNonEpochHeader` | src/state.rs:123-146 | verify and store, validators untouched |
| `IbftState.State.AddValidators` | src/state.rs:28-45 | refuses, without effect, exactly when an added address is already present; otherwise appends in order |
| `IbftState.State.RemoveValidators` | src/state.rs:47-68 | refuses, without effect, exactly when the bitmap is longer than the list; otherwise keeps the clear positions |
| `Consensus.VerifiedIff` | src/state.rs:70-109 | a header passes exactly when its number is newer and fits, its time is newer and within the skew, and it is well sealed: hashed and decoded, with a quorum whose keys and signature deserialize and whose aggregate verifies its commit message |
| `Consensus.SealVerifiedIff` | src/state.rs:100-109 | the seal check passes exactly for a well-sealed header, whatever its round |
| `Consensus.SnapshotVerifiedIff` | src/types/state.rs:155-157 | a snapshot verifies exactly if a quorum of its own validators well sealed its hash |
| `Consensus.VerificationFails` | src/state.rs:70-109 | which error or panic a header gets that does not verify: number, time, deadline beyond 64 bits, time ahead of the clock, decoding, keys, missing seals, signature, aggregate, in this order |
| `Consensus.DiffAcceptedIff` | src/state.rs:157-188 | a changeset goes through exactly when keys match addresses, every removal bit names a validator and no remaining validator is added again |
| `Consensus.DiffRefused` | src/state.rs:157-188 | which error a refused changeset gets |
| `Consensus.DiffSemantics` | src/state.rs:28-68 | the remaining validators in their old order, then the added ones in header order, with the exact length |
| `Consensus.RemovableMeansAllBitsCount` | src/state.rs:48-54 | the length guard holds exactly when no set bit lies beyond the list |
| `Consensus.DistinctnessKept` | src/state.rs:28-45 | an accepted changeset keeps addresses distinct exactly when the added list repeats none |
| `Consensus.RepeatedAdditionAccepted` | src/state.rs:28-45 | in every state some header adds one address twice, goes through and leaves a repeated address |
| `Bls.SealAcceptedIff` | src/bls.rs:12-43 | a seal is accepted exactly when two thirds, rounded up, of the positions are set, their keys and the signature deserialize, and the aggregate of exactly these keys verifies the commit message |
| `Bls.SealTurnedDown` | src/bls.rs:12-43 | which error a rejected seal reports; only an empty validator set panics |
| `Bls.AcceptedSealIsQuorum` | src/bls.rs:12-43 | behind an accepted seal is a quorum, all of which signed the commit message |
| `Bls.CommitedSealInjective` | src/bls.rs:45-50 | a commit message determines hash and round although the round has no fixed length |
| `Bls.CommitedSealLayout` | src/bls.rs:45-50 | bytes are the commit message of a hash and a round exactly if they are the 32 hash bytes, the round without leading zeros, and 2, the code of a commit |
| `Bls.QuorumIntersection` | src/bls.rs:18-34 | two quorums of n validators share at least a third of the positions |
| `Bits.BitIsDigit` | src/bls.rs:20-26 | a bit of the bitmap is a binary digit of the number |
| `Bls.HonestInBothQuorums` | src/bls.rs:18-34 | with fewer than a third faulty, two quorums share an honest position |
| `Istanbul.QuorumIsTwoThirdsCeiling` | src/istanbul.rs:66-70 | the integer formula is the ceiling of two thirds |
| `Istanbul.EpochPartition` | src/istanbul.rs:9-26 | every block n >= 1 lies in the epoch computed for it and in no other, at the computed position |
| `Istanbul.EpochBounds` | src/istanbul.rs:18-45 | the first and last block numbers bound the epoch, the next epoch starts right after, and when the last one leaves 64 bits |
| `Istanbul.FirstBlockOfEpoch` | src/istanbul.rs:28-45 | first and last block of every epoch, epoch 0 included, and when they leave 64 bits |
| `Istanbul.LastBlockIffEndsItsEpoch` | src/istanbul.rs:18-64 | a block, genesis included, closes an epoch exactly when it is the last block of its own epoch |
| `Istanbul.FilterIdempotent` | src/istanbul.rs:47-60 | filtering a filtered header changes nothing |
| `Istanbul.FilteredHeaderIs` | src/istanbul.rs:47-60 | what the filter yields: vanity kept, aggregated seal zeroed, proposer seal emptied on demand; and how it fails |
| `Istanbul.VanityOfAnyLength` | src/types/istanbul.rs:184-191 | the vanity is the first 32 bytes; fewer panic |
| `HeaderHash.HashBinds` | src/types/header.rs:89-98 | barring a collision on the two inputs, hashes are equal exactly when all plain fields agree and the extra data agree up to the aggregated seal (verbatim when undecodable) |
| `HeaderHash.DigestedBytes` | src/types/header.rs:89-98 | what is digested: the encoding of the header with its vanity kept and nothing but the aggregated seal zeroed, or of the header as it is if its extra data does not decode |
| `HeaderHash.HashedHeaderBinds` | src/types/header.rs:89-98 | the same for the digested headers, without any assumption, across the fallback branch |
| `HeaderHash.HashIgnoresAggregatedSeal` | src/istanbul.rs:47-60 | replacing the aggregated seal does not change the hash |
| `HeaderHash.HashOfFiltered` | src/types/header.rs:89-98 | the filtered header has the hash of the header |
| `HeaderTypes.HeaderRoundTrip` | src/types/header.rs:113-164 | decoding undoes encoding for every header, whatever bytes follow |
| `HeaderTypes.EncodeHeaderInjective` | src/types/header.rs:113-147 | distinct headers have distinct encodings |
| `HeaderTypes.HeaderDecodesIff` | src/types/header.rs:149-164 | bytes decode to a header exactly if their first ten items read as its fields in this order |
| `HeaderTypes.HeaderPanicsIff` | src/types/header.rs:149-164 | decoding panics exactly on a short leading field behind readable ones |
| `IstanbulTypes.ExtraRoundTrip` | src/types/istanbul.rs:130-182 | decoding undoes encoding for every extra data, whatever bytes follow |
| `IstanbulTypes.ExtraDecodesIff` | src/types/istanbul.rs:159-182 | bytes decode to extra data exactly if their first six items read as its fields |
| `IstanbulTypes.ExtraPanicsIff` | src/types/istanbul.rs:159-182 | decoding panics exactly on a short field, in the keys even behind an error in the addresses |
| `IstanbulTypes.ExtraBehindVanity` | src/types/istanbul.rs:111-121 | what `from_rlp` answers for every byte string |
| `IstanbulTypes.ExtraRlpRoundTrip` | src/types/istanbul.rs:111-128 | `from_rlp` undoes `to_rlp` behind any vanity |
| `IstanbulTypes.ExtraToRlpInjective` | src/types/istanbul.rs:123-128 | equal payloads come from equal extra data and vanities |
| `IstanbulTypes.MessageCodes` | src/types/istanbul.rs:25-30 | the codes of the consensus messages |
| `IstanbulTypes.SealRoundTrip` | src/types/istanbul.rs:59-82 | decoding undoes encoding for every aggregated seal |
| `IstanbulTypes.SealDecodesIff` | src/types/istanbul.rs:74-82 | bytes decode to a seal exactly if their first three items read as its fields |
| `SnapshotTypes.SnapshotRoundTrip` | src/types/state.rs:112-142 | decoding undoes encoding for every snapshot, whatever bytes follow |
| `SnapshotTypes.EncodeSnapshotInjective` | src/types/state.rs:112-127 | distinct snapshots have distinct encodings |
| `SnapshotTypes.SnapshotDecodesIff` | src/types/state.rs:129-142 | bytes decode to a snapshot exactly if their first five items read as its fields |
| `SnapshotTypes.SnapshotPanicsIff` | src/types/state.rs:129-142 | decoding panics exactly in a validator, or on a short hash behind readable fields |
| `SnapshotTypes.ValidatorsRoundTrip` | src/types/state.rs:119-132 | validator lists of any length survive encoding and collection |
| `SnapshotTypes.ValidatorRoundTrip` | src/types/state.rs:21-37 | decoding undoes encoding for every validator |
| `SnapshotTypes.ValidatorDecodesIff` | src/types/state.rs:30-37 | a validator is an address of 20 bytes and then a key of 96 |
| `SnapshotTypes.ValidatorPanicsIff` | src/types/state.rs:30-37 | decoding panics exactly on a short address, or a short key behind a readable address |
| `SnapshotTypes.ValidatorsDecodeIff` | src/types/state.rs:131-132 | a list decodes exactly if every item does, in order |
| `SnapshotTypes.ValidatorsFail` | src/types/state.rs:131-132 | the first item that does not decode decides how a list fails |
| `RlpStreams.AppendSnapshot` | src/types/state.rs:112-127 | appends exactly one item to the stream, the encoding of the snapshot |
| `RlpStreams.AppendValidators` | src/types/state.rs:119-122 | the loop appends exactly the list of the encoded validators |
| `RlpStreams.AppendValidator` | src/types/state.rs:21-28 | appends exactly one item, the encoding of the validator |
| `RlpStreams.AppendHeader` | src/types/header.rs:113-147 | appends exactly one item, the encoding of the header |
| `RlpStreams.AppendExtra` | src/types/istanbul.rs:130-157 | appends exactly one item, the encoding of the extra data |
| `RlpStreams.AppendFields` | src/types/istanbul.rs:134-143 | the loops append exactly the list of the encoded byte strings |
| `RlpStreams.AppendSeal` | src/types/istanbul.rs:59-72 | appends exactly one item, the encoding of the aggregated seal |
| `Rlp.StringCanonical` | src/serialization/rlp.rs:6-33 | the decoder of byte strings accepts, for each string, the encoder's spelling and no other |
| `Rlp.ListCanonical` | src/types/state.rs:131-132 | likewise for lists |
| `Rlp.U64Canonical` | src/types/header.rs:159-160 | integers decode from their shortest spelling and no other |
| `Rlp.StringReadsIff` | src/serialization/rlp.rs:6-33 | any bytes read as a given string exactly if they start with its encoding |
| `Rlp.ListReadsIff` | src/types/state.rs:131-132 | likewise for lists |
| `Rlp.U64ReadsIff` | src/types/header.rs:159-160 | likewise for integers |
| `Rlp.ItemsOfAnything` | src/types/state.rs:131-132 | any payload, well-formed or not, is cut into items until what is left starts with none |
| `Rlp.IterIsIndexing` | src/types/istanbul.rs:161-171 | iterating over any view is indexing it until that fails |
| `Rlp.OnlyShortFieldsPanic` | src/serialization/rlp.rs:6-33 | only a string too short for its field makes decoding panic |
| `Rlp.CollectedFields` | src/types/istanbul.rs:161-171 | collecting fixed-length fields gives them all, or the failure of the first item that fails |
| `Rlp.FixedFieldOfAnyLength` | src/serialization/rlp.rs:6-27 | a fixed-length field cuts longer data, panics on shorter data and errs on no data, whatever bytes follow |
| `Rlp.BigIntCompatRoundTrip` | src/serialization/rlp.rs:29-43 | big integers, zero included, survive the compatible encoding |
| `Ibc.VerifyMembership` | src/contract/types/ibc.rs:140-187 | accepted exactly when a chain of layers, keyed from the end of the path, connects the value to the root; a panic exactly when layers that hold lead to one without a key or specification; a generic error otherwise; never false |
| `Ibc.SkippedLayers` | src/contract/types/ibc.rs:140-187 | which layers are left after skipping some, or all |
| `Ibc.MembershipBinds` | src/contract/types/ibc.rs:140-187 | two proofs of equally many layers accepted for one root, path and specifications prove the same value |
| `Ibc.CompareIsRankOrder` | src/contract/types/ibc.rs:99-113 | heights are totally and well-foundedly ordered |
| `Store.KeysInjective` | src/contract/store.rs:11-41 | distinct kinds, prefixes or heights never share a key |
| `Store.KeyText` | src/contract/store.rs:11-41 | the text of every key, revision number before revision height |
| `Store.MetaReadsBack` | src/contract/store.rs:46-107 | metadata reads back, and writing it disturbs no other prefix or height |
| `Store.MetaIsRead` | src/contract/store.rs:58-95 | what the getters answer on any store: not found, not parsable, or the value |
| `Store.Storage.SetConsensusMeta` | src/contract/store.rs:97-107 | writes time and height of the current block under the two keys |
| `Store.Storage.SetProcessedTime` | src/contract/store.rs:73-83 | writes one entry |
| `Store.Storage.SetProcessedHeight` | src/contract/store.rs:46-56 | writes one entry |
| `Delay.DelayPassesIff` | src/contract/mod.rs:1261-1294 | over any chronological history of store writes, a delay check passes exactly when metadata for the height was written and every such write is old enough in time and in blocks |
| `Delay.DelayStaysPassed` | src/contract/mod.rs:1261-1294 | once passed it passes in later blocks until metadata for that height is written again |
| `Delay.DelayOutcome` | src/contract/mod.rs:1261-1294 | what the check answers for any metadata that reads back, a deadline beyond 64 bits included |
| `ContractDelay.ContractDelayIff` | src/contract/mod.rs:386-486 | in the life of a contract a delay check passes exactly when some successful initialisation or update recorded the height and every such step is old enough |
| `ContractDelay.ContractDelayStaysPassed` | src/contract/mod.rs:427-486 | once passed it passes in later blocks, whatever steps succeed or fail meanwhile, until one records the height again |
| `Contract.LightClientContract.InitContract` | src/contract/mod.rs:386-425 | succeeds exactly for a decodable snapshot that a quorum of its own validators sealed well and a client with a latest height, and then records its metadata; otherwise which error or panic |
| `Contract.LightClientContract.CheckHeaderAndUpdateState` | src/contract/mod.rs:427-486 | hands back the client state and a consensus state with the code id kept, the time and state root of the header and the encoded inserted snapshot; storage changes only on success |
| `Contract.MessagesRead` | src/contract/serialization.rs:21-34 | how messages are read: every failure is a parse error, a panic of the codec stays one |
| `ContractRuns.UpdateIsInsertion` | src/contract/mod.rs:434-467 | an update succeeds exactly when the in-memory insertion does; it carries its snapshot, the code id it had, and the time and state root of the header; otherwise it is an error, or a panic if the insertion is |
| `ContractRuns.UnreadableUpdate` | src/contract/mod.rs:434-446 | an update reads the header, the snapshot and the configuration, in this order |
| `ContractRuns.ContractRunIsMemoryRun` | src/contract/mod.rs:434-467 | successive updates accept as many headers as one in-memory state and carry its snapshot after each |
| `ContractRuns.MisbehaviourAcceptedIff` | src/contract/mod.rs:590-652 | when exactly a report is accepted |
| `ContractRuns.MisbehaviourHeaderPassesIff` | src/contract/mod.rs:680-704 | a header of a report passes exactly if everything decodes and the trusted validators sealed it well; otherwise which error or panic |
| `ContractRuns.MisbehaviourRefused` | src/contract/mod.rs:590-652 | why a report is refused |
| `ContractRuns.ConflictingSealsAreAccountable` | src/contract/mod.rs:680-704 | headers with different roots sealed by the same n validators: at least n/3 positions signed commit messages for both, and these are for different hashes |
| `ContractRuns.AccountableMisbehaviour` | src/contract/mod.rs:590-652 | the same for every accepted report judged against equal validator lists; and the two headers convict a third of the positions if and only if they carry one block number, which the code does not check |
| `ContractRuns.NoEvidenceAgainstHonestMajority` | src/contract/mod.rs:622-632 | with fewer than a third faulty there is no accepted report about two headers of one block number |
| `ContractRuns.EvidenceConvictsIff` | src/contract/mod.rs:622-632 | what the signatures prove: guilt exactly for equal block numbers |
| `ContractRuns.HonestChainFreezes` | src/contract/mod.rs:590-652 | any two blocks of one accepted chain with different roots, reported under one message height with the states they were accepted on, freeze the client, although that chain makes no validator faulty |
| `ContractRuns.ChainConvictsNobody` | src/state.rs:70-98 | the headers of a fully verified run have pairwise different numbers, so whoever signed them is honest |
| `ContractRuns.FreezeStep` | src/contract/mod.rs:606-637 | an accepted report freezes the client at its height, below any earlier frozen height |
| `ContractRuns.FreezingDescends` | src/contract/mod.rs:606-637 | along accepted reports the client stays frozen at strictly lower heights, and the first height bounds their number |

## Left out

- The `rlp` crate is not in the repository. Its views are modelled after Appendix B of the Ethereum Yellow Paper as `src/types` uses them: items are read lazily, bytes behind the head item are ignored, non-minimal spellings are refused, lengths are 64-bit (a 32-bit target refuses longer ones earlier).
- BLS curve operations, key and signature deserialization and Keccak internals: function values, with the stated assumptions where needed.
- ICS-23 proof internals: the existence root and the per-layer check are function values.
- Base64, JSON and the derived RLP decoding of `LightClientState`: function values; only what `State` reads of the configuration is modelled.
- JSON and hex forms of headers, and with them negative big integers: RLP yields none, so big integers are natural numbers.
- `InvalidDataLength`, `InvalidChainInsertion` and `Unknown`: error kinds no modelled path returns. Message texts are constructors or dropped.
- `check_misbehaviour` compares the heights of the messages, never the block numbers of the headers inside, and no step compares a message's height with the header's number; `ContractRuns.HonestChainFreezes` shows what follows.
- `verify_upgrade_and_update_state`, the `verify_*_state` and `verify_packet_*` queries, `verify_packet_receipt_absence`: they build a path and call the membership check modelled here, or an ICS-23 primitive.
- `check_substitute_client_state`, `zero_custom_fields`, `status` and expiry, and the consensus state getter and setter of the store beyond the key they write.
- The relayer, command line, logging, message dispatch and response attributes.
- Decoding and re-encoding arbitrary bytes is not the identity and is not claimed: fixed-length fields are cut and big integers drop leading zeros.
