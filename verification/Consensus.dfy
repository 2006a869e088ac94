/** `src/state.rs` as functions: what verifying and inserting a header does to a snapshot. Class `State` of
    module `IbftState` does the same by updating its field, and is proved against these functions. */
module Consensus {
  import opened Outcomes
  import opened Bytes
  import opened Bits
  import opened Errors
  import opened Crypto
  import opened IstanbulTypes
  import opened HeaderTypes
  import opened SnapshotTypes
  import opened Istanbul
  import opened HeaderHash
  import opened Bls

  /** What a `State` is configured with. */
  datatype Client = Client(config: Config, crypto: Crypto)

  // ---------- verification ----------

  function VerifyHeaderSeal(client: Client, validators: seq<Validator>, header: Header): Outcome<(), Kind> {
    var headerHash :- HashOf(client.crypto, header);
    var extra :- ExtraFromRlp(header.extra);
    VerifyAggregatedSeal(client.crypto, headerHash, validators, extra.aggregatedSeal)
  }

  function VerifyHeader(client: Client, s: Snapshot, header: Header, now: u64): Outcome<(), Kind> {
    var number :- CheckedU64<Kind>(header.number);
    if number <= s.number then Err(HeaderVerificationError(HeightNotNewer))
    else
      var _ :- VerifyTimestamp(client.config, s.timestamp, header.time, now);
      VerifyHeaderSeal(client, s.validators, header)
  }

  /** The deadline is computed, and can overflow, only for a header that is newer. */
  function VerifyTimestamp(config: Config, stored: u64, time: u64, now: u64): Outcome<(), Kind> {
    if !config.verifyHeaderTimestamp then Ok(())
    else if time <= stored then Err(HeaderVerificationError(TimestampNotNewer))
    else
      var deadline :- CheckedU64<Kind>(now + config.allowedClockSkew);
      if time > deadline then Err(HeaderVerificationError(TimestampInFuture)) else Ok(())
  }

  /** `Snapshot::verify` of `src/types/state.rs`: the stored hash against the stored validators and seal. */
  function VerifySnapshot(crypto: Crypto, s: Snapshot): Outcome<(), Kind> {
    VerifyAggregatedSeal(crypto, s.hash, s.validators, s.aggregatedSeal)
  }

  /** The header can be hashed and carries a seal. */
  predicate Sealable(crypto: Crypto, h: Header) {
    HashOf(crypto, h).Ok? && ExtraFromRlp(h.extra).Ok?
  }

  function SealOf(h: Header): IstanbulAggregatedSeal
    requires ExtraFromRlp(h.extra).Ok?
  {
    ExtraFromRlp(h.extra).value.aggregatedSeal
  }

  /** The message the signers of a sealed header put their name to. */
  function CommitMessage(crypto: Crypto, h: Header): Bytes
    requires Sealable(crypto, h)
  {
    PrepareCommitedSeal(HashOf(crypto, h).value, SealOf(h).round)
  }

  /** The header is well sealed by these validators. */
  predicate WellSealedHeader(crypto: Crypto, vs: seq<Validator>, h: Header) {
    && Sealable(crypto, h)
    && Quorum(SealOf(h).bitmap, |vs|)
    && SignersOk(crypto, vs, SealOf(h).bitmap)
    && crypto.signatureOk(SealOf(h).signature)
    && crypto.aggregateOk(SelectedKeys(vs, SealOf(h).bitmap), CommitMessage(crypto, h), SealOf(h).signature)
  }

  /** When exactly a header passes the seal check. */
  lemma SealVerifiedIff(client: Client, vs: seq<Validator>, h: Header)
    ensures VerifyHeaderSeal(client, vs, h).Ok? <==> WellSealedHeader(client.crypto, vs, h)
  {
    hide HashOf, ExtraFromRlp, VerifyAggregatedSeal, Quorum, SignersOk, SelectedKeys, PrepareCommitedSeal;
    if Sealable(client.crypto, h) {
      SealAcceptedIff(client.crypto, HashOf(client.crypto, h).value, vs, SealOf(h));
    }
  }

  /** When exactly a snapshot verifies by itself. */
  lemma SnapshotVerifiedIff(crypto: Crypto, s: Snapshot)
    ensures VerifySnapshot(crypto, s).Ok? <==> WellSealed(crypto, s.validators, s.hash, s.aggregatedSeal)
  {
    SealAcceptedIff(crypto, s.hash, s.validators, s.aggregatedSeal);
  }

  /** When exactly a header passes verification against a snapshot. */
  lemma VerifiedIff(client: Client, s: Snapshot, h: Header, now: u64)
    ensures VerifyHeader(client, s, h, now).Ok? <==>
      && s.number < h.number < U64_LIMIT
      && (client.config.verifyHeaderTimestamp ==>
            s.timestamp < h.time <= now + client.config.allowedClockSkew < U64_LIMIT)
      && WellSealedHeader(client.crypto, s.validators, h)
  {
    SealVerifiedIff(client, s.validators, h);
    hide VerifyHeaderSeal, WellSealedHeader;
  }

  /** Hashing and decoding fail together with a panic, and otherwise hashing does not fail at all. */
  lemma HashPanicsIff(crypto: Crypto, h: Header)
    ensures HashOf(crypto, h).Panic? <==> ExtraFromRlp(h.extra).Panic?
    ensures !HashOf(crypto, h).Panic? ==> HashOf(crypto, h).Ok?
  {
    HashedHeaderCases(h);
    hide HashedHeader, ExtraFromRlp;
  }

  /** What is wrong with the seal of a header that is not well sealed. */
  function HeaderSealFault(crypto: Crypto, vs: seq<Validator>, h: Header): Outcome<(), Kind> {
    match ExtraFromRlp(h.extra)
    case Panic => Panic
    case Err(_) => Err(RlpDecodeError)
    case Ok(extra) => SealFault(crypto, vs, extra.aggregatedSeal)
  }

  lemma DecodingErrs(b: Bytes)
    ensures ExtraFromRlp(b).Err? ==> ExtraFromRlp(b) == Err(RlpDecodeError)
  {
    hide DecodeExtra;
  }

  lemma SealCheckFails(client: Client, vs: seq<Validator>, h: Header)
    requires !VerifyHeaderSeal(client, vs, h).Ok?
    ensures VerifyHeaderSeal(client, vs, h) == HeaderSealFault(client.crypto, vs, h)
  {
    HashPanicsIff(client.crypto, h);
    DecodingErrs(h.extra);
    hide HashOf, ExtraFromRlp, VerifyAggregatedSeal, SealFault;
    if Sealable(client.crypto, h) {
      SealTurnedDown(client.crypto, HashOf(client.crypto, h).value, vs, SealOf(h));
    }
  }

  /** Why a header fails verification: the first of these faults, a panic only where a number leaves 64 bits,
      nobody could have signed or a field of the extra data is too short. */
  lemma VerificationFails(client: Client, s: Snapshot, h: Header, now: u64)
    requires !VerifyHeader(client, s, h, now).Ok?
    ensures VerifyHeader(client, s, h, now) ==
      var timed, latest := client.config.verifyHeaderTimestamp, now + client.config.allowedClockSkew;
      if h.number >= U64_LIMIT then Panic
      else if h.number <= s.number then Err(HeaderVerificationError(HeightNotNewer))
      else if timed && h.time <= s.timestamp then Err(HeaderVerificationError(TimestampNotNewer))
      else if timed && latest >= U64_LIMIT then Panic
      else if timed && h.time > latest then Err(HeaderVerificationError(TimestampInFuture))
      else HeaderSealFault(client.crypto, s.validators, h)
  {
    hide VerifyHeaderSeal, HeaderSealFault;
    if !VerifyHeaderSeal(client, s.validators, h).Ok? { SealCheckFails(client, s.validators, h); }
  }

  // ---------- validator set changes ----------

  predicate SharesAddress(present: seq<Validator>, added: seq<Validator>) {
    exists i, j :: 0 <= i < |present| && 0 <= j < |added| && present[i].address == added[j].address
  }

  /** No set bit of the removal bitmap lies beyond the list. */
  predicate Removable(vs: seq<Validator>, removed: nat) {
    BitLength(removed) <= |vs|
  }

  /** The validators whose removal bit is clear, in order. */
  function Remaining(vs: seq<Validator>, removed: nat): seq<Validator> {
    Select(vs, removed, false)
  }

  /** Addresses and keys of the extra data put together. */
  function AddedValidators(extra: IstanbulExtra): seq<Validator>
    requires |extra.addedValidators| == |extra.addedValidatorsPublicKeys|
  {
    seq(|extra.addedValidators|, i requires 0 <= i < |extra.addedValidators| =>
      Validator(extra.addedValidators[i], extra.addedValidatorsPublicKeys[i]))
  }

  /** The validator list left behind by a changeset, and whether it went through. Removal comes first and
      stays in force when the addition is refused. */
  function ApplyDiff(vs: seq<Validator>, extra: IstanbulExtra): (seq<Validator>, Outcome<(), Kind>) {
    if |extra.addedValidators| != |extra.addedValidatorsPublicKeys| then
      (vs, Err(InvalidValidatorSetDiff(KeysDoNotMatchAddresses)))
    else if !Removable(vs, extra.removedValidators) then
      (vs, Err(InvalidValidatorSetDiff(CannotRemove)))
    else
      var remaining := Remaining(vs, extra.removedValidators);
      if SharesAddress(remaining, AddedValidators(extra)) then
        (remaining, Err(InvalidValidatorSetDiff(CannotAdd)))
      else
        (remaining + AddedValidators(extra), Ok(()))
  }

  // ---------- insertion ----------

  function StoreNonEpochHeader(client: Client, s: Snapshot, header: Header, now: u64): (Snapshot, Outcome<(), Kind>) {
    var checked := if client.config.verifyNonEpochHeaders && header.number != 0
                   then VerifyHeader(client, s, header, now) else Ok(());
    var extra := ExtraFromRlp(header.extra);
    var number := CheckedU64<Kind>(header.number);
    var headerHash := HashOf(client.crypto, header);
    if !checked.Ok? then (s, checked)
    else if !extra.Ok? then (s, extra.PropagateFailure())
    else if !number.Ok? then (s, number.PropagateFailure())
    else if !headerHash.Ok? then (s, headerHash.PropagateFailure())
    else (Snapshot(number.value, header.time, s.validators, headerHash.value, extra.value.aggregatedSeal), Ok(()))
  }

  function StoreEpochHeader(client: Client, s: Snapshot, header: Header, now: u64): (Snapshot, Outcome<(), Kind>) {
    var checked := if client.config.verifyEpochHeaders && header.number != 0
                   then VerifyHeader(client, s, header, now) else Ok(());
    var headerHash := HashOf(client.crypto, header);
    var extra := ExtraFromRlp(header.extra);
    if !checked.Ok? then (s, checked)
    else if !headerHash.Ok? then (s, headerHash.PropagateFailure())
    else if !extra.Ok? then (s, extra.PropagateFailure())
    else
      var (validators, applied) := ApplyDiff(s.validators, extra.value);
      var number := CheckedU64<Kind>(header.number);
      if !applied.Ok? then (s.(validators := validators), applied)
      else if !number.Ok? then (s.(validators := validators), number.PropagateFailure())
      else (Snapshot(number.value, header.time, validators, headerHash.value, extra.value.aggregatedSeal), Ok(()))
  }

  function InsertHeader(client: Client, s: Snapshot, header: Header, now: u64): (Snapshot, Outcome<(), Kind>) {
    if header.number >= U64_LIMIT || client.config.epochSize == 0 then (s, Panic)
    else if IsLastBlockOfEpoch(header.number, client.config.epochSize) then StoreEpochHeader(client, s, header, now)
    else StoreNonEpochHeader(client, s, header, now)
  }

  lemma {:induction false} NothingRemoved(vs: seq<Validator>)
    ensures Remaining(vs, 0) == vs
  {
    if vs == [] {
    } else {
      NothingRemoved(vs[..|vs| - 1]);
      ZeroHasNoBits(|vs| - 1);
    }
  }

  // ---------- what a validator set change means ----------

  predicate DistinctAddresses(vs: seq<Validator>) {
    forall i, j :: 0 <= i < j < |vs| ==> vs[i].address != vs[j].address
  }

  /** The guard of the removal is exactly that every set bit names a validator. */
  lemma RemovableMeansAllBitsCount(vs: seq<Validator>, removed: nat)
    ensures Removable(vs, removed) <==> NoBitsFrom(removed, |vs|)
  {
    BitLengthBounds(removed, |vs|);
  }

  /** When exactly a changeset goes through: as many keys as addresses, every removal bit names a
      validator, and no validator that stays has an address that is added. */
  lemma DiffAcceptedIff(vs: seq<Validator>, extra: IstanbulExtra)
    ensures ApplyDiff(vs, extra).1.Ok? <==>
      && |extra.addedValidators| == |extra.addedValidatorsPublicKeys|
      && NoBitsFrom(extra.removedValidators, |vs|)
      && forall i, j :: 0 <= i < |vs| && !Bit(extra.removedValidators, i) && 0 <= j < |extra.addedValidators| ==>
           vs[i].address != extra.addedValidators[j]
  {
    RemovableMeansAllBitsCount(vs, extra.removedValidators);
    if |extra.addedValidators| == |extra.addedValidatorsPublicKeys| {
      var remaining, added := Remaining(vs, extra.removedValidators), AddedValidators(extra);
      if SharesAddress(remaining, added) {
        var k, j :| 0 <= k < |remaining| && 0 <= j < |added| && remaining[k].address == added[j].address;
        var i := SelectedFrom(vs, extra.removedValidators, false, k);
        assert vs[i].address == extra.addedValidators[j];
      } else {
        forall i, j | 0 <= i < |vs| && !Bit(extra.removedValidators, i) && 0 <= j < |extra.addedValidators|
          ensures vs[i].address != extra.addedValidators[j]
        {
          SelectAt(vs, extra.removedValidators, false, i);
          assert remaining[CountBelow(extra.removedValidators, i, false)].address != added[j].address;
        }
      }
    }
  }

  /** Why a changeset is refused: the first of these faults. */
  lemma DiffRefused(vs: seq<Validator>, extra: IstanbulExtra)
    requires !ApplyDiff(vs, extra).1.Ok?
    ensures ApplyDiff(vs, extra).1 == Err(InvalidValidatorSetDiff(
      if |extra.addedValidators| != |extra.addedValidatorsPublicKeys| then KeysDoNotMatchAddresses
      else if !NoBitsFrom(extra.removedValidators, |vs|) then CannotRemove
      else CannotAdd))
  {
    RemovableMeansAllBitsCount(vs, extra.removedValidators);
  }

  /** After an accepted changeset: the remaining validators in their old order, then the added ones in
      header order, each set removal bit accounting for one validator less. */
  lemma DiffSemantics(vs: seq<Validator>, extra: IstanbulExtra)
    requires ApplyDiff(vs, extra).1.Ok?
    ensures var result := ApplyDiff(vs, extra).0; var removed := extra.removedValidators;
      && |result| == |vs| - PopCount(removed) + |extra.addedValidators|
      && (forall i :: 0 <= i < |vs| && !Bit(removed, i) ==>
            CountBelow(removed, i, false) < |vs| - PopCount(removed) && result[CountBelow(removed, i, false)] == vs[i])
      && (forall j :: 0 <= j < |extra.addedValidators| ==>
            result[|vs| - PopCount(removed) + j]
            == Validator(extra.addedValidators[j], extra.addedValidatorsPublicKeys[j]))
  {
    var removed := extra.removedValidators;
    SelectLength(vs, removed, false);
    CountsPartition(removed, |vs|);
    CountIsPopCount(removed, |vs|);
    forall i | 0 <= i < |vs| && !Bit(removed, i)
      ensures CountBelow(removed, i, false) < |Remaining(vs, removed)|
      ensures Remaining(vs, removed)[CountBelow(removed, i, false)] == vs[i]
    {
      SelectAt(vs, removed, false, i);
    }
  }

  lemma {:induction false} CountMonotone(n: nat, j: nat, k: nat, want: bool)
    requires j <= k
    ensures CountBelow(n, j, want) <= CountBelow(n, k, want)
  {
    if j == k {
    } else {
      CountMonotone(n, j, k - 1, want);
    }
  }

  lemma RemainingDistinct(vs: seq<Validator>, removed: nat)
    requires DistinctAddresses(vs)
    ensures DistinctAddresses(Remaining(vs, removed))
  {
    var result := Remaining(vs, removed);
    forall i, j | 0 <= i < j < |result| ensures result[i].address != result[j].address {
      var p := SelectedFrom(vs, removed, false, i);
      var q := SelectedFrom(vs, removed, false, j);
      if q < p { CountMonotone(removed, q, p, false); }
    }
  }

  /** An accepted changeset keeps addresses distinct exactly when the header's own list repeats none:
      the code compares the added validators with the remaining ones, never with each other. */
  lemma DistinctnessKept(vs: seq<Validator>, extra: IstanbulExtra)
    requires DistinctAddresses(vs) && ApplyDiff(vs, extra).1.Ok?
    ensures DistinctAddresses(ApplyDiff(vs, extra).0) <==> DistinctAddresses(AddedValidators(extra))
  {
    var remaining, added := Remaining(vs, extra.removedValidators), AddedValidators(extra);
    RemainingDistinct(vs, extra.removedValidators);
    var result := remaining + added;
    if DistinctAddresses(result) {
      forall i, j | 0 <= i < j < |added| ensures added[i].address != added[j].address {
        assert result[|remaining| + i] == added[i] && result[|remaining| + j] == added[j];
      }
    }
  }

  // ---------- two insertions that may surprise ----------

  /** A genesis header carrying the given extra data: it is not verified, and its changeset alone decides. */
  lemma GenesisInsertion(client: Client, s: Snapshot, template: Header, extra: IstanbulExtra, now: u64)
    returns (h: Header)
    requires client.config.epochSize > 0 && ExtraFits(extra)
    ensures h.number == 0 && ExtraFromRlp(h.extra) == Ok(extra)
    ensures var (s', r) := InsertHeader(client, s, h, now);
      (s'.validators, r) == ApplyDiff(s.validators, extra)
  {
    var vanity: Hash := seq(HASH_LENGTH, _ => 0);
    h := template.(number := 0, extra := ExtraToRlp(extra, vanity));
    ExtraRlpRoundTrip(extra, vanity, []);
    assert h.extra + [] == h.extra;
    HashedHeaderCases(h);
    LastBlockIffEndsItsEpoch(0, client.config.epochSize);
    hide ExtraFromRlp, ExtraToRlp, HashedHeader, ApplyDiff, ExtraFits, IsLastBlockOfEpoch;
  }

  /** A genesis header that adds one newcomer twice goes through in every state and leaves a repeated address. */
  lemma RepeatedAdditionAccepted(client: Client, s: Snapshot, template: Header, v: Validator, now: u64)
    returns (h: Header)
    requires client.config.epochSize > 0 && forall w :: w in s.validators ==> w.address != v.address
    ensures var (s', r) := InsertHeader(client, s, h, now);
      r.Ok? && s'.validators == s.validators + [v, v] && !DistinctAddresses(s'.validators)
  {
    var extra := IstanbulExtra([v.address, v.address], [v.publicKey, v.publicKey], 0, [], EMPTY_SEAL, EMPTY_SEAL);
    SmallExtraFits(extra);
    h := GenesisInsertion(client, s, template, extra, now);
    hide InsertHeader, ExtraFromRlp;
    NewcomerTwice(s.validators, v, extra);
    hide ApplyDiff;
    var result := s.validators + [v, v];
    assert result[|s.validators|].address == result[|s.validators| + 1].address;
  }

  lemma NewcomerTwice(vs: seq<Validator>, v: Validator, extra: IstanbulExtra)
    requires forall w :: w in vs ==> w.address != v.address
    requires extra.addedValidators == [v.address, v.address]
    requires extra.addedValidatorsPublicKeys == [v.publicKey, v.publicKey] && extra.removedValidators == 0
    ensures ApplyDiff(vs, extra) == (vs + [v, v], Ok(()))
  {
    NothingRemoved(vs);
    hide Select, Remaining;
    assert AddedValidators(extra) == [v, v];
    assert !SharesAddress(vs, [v, v]);
  }

  lemma {:induction false} FirstRemoved(vs: seq<Validator>)
    requires vs != []
    ensures Remaining(vs, 1) == vs[1..]
  {
    var last := |vs| - 1;
    if last == 0 {
      assert Select(vs[..0], 1, false) == [] && Bit(1, last);
    } else {
      FirstRemoved(vs[..last]);
      ZeroHasNoBits(last - 1);
      assert Bit(1, last) == Bit(0, last - 1);
      assert vs[1..] == vs[..last][1..] + [vs[last]];
    }
  }

  /** Removing anybody makes the list shorter. */
  lemma RemovalShortens(vs: seq<Validator>, removed: nat)
    requires Removable(vs, removed)
    ensures |Remaining(vs, removed)| == |vs| <==> removed == 0
    ensures removed == 0 ==> Remaining(vs, removed) == vs
  {
    SelectLength(vs, removed, false);
    CountsPartition(removed, |vs|);
    CountIsPopCount(removed, |vs|);
    NothingRemoved(vs);
    if removed > 0 { SomeBitCounts(removed); }
  }

  lemma {:induction false} SomeBitCounts(n: nat)
    requires n > 0
    ensures PopCount(n) > 0
  {
    if n % 2 == 1 {
    } else {
      SomeBitCounts(n / 2);
    }
  }
}
