/** Whole runs of `State::insert_header`: what every accepted sequence of headers guarantees. */
module Runs {
  import opened Outcomes
  import opened Errors
  import opened Crypto
  import opened IstanbulTypes
  import opened HeaderTypes
  import opened SnapshotTypes
  import opened Istanbul
  import opened HeaderHash
  import opened Bls
  import opened Consensus

  /** A header and the clock it is inserted under. */
  datatype Event = Event(header: Header, now: u64)

  /** `states` is the history of a client that accepted all of `events`. */
  ghost predicate AcceptedRun(client: Client, states: seq<Snapshot>, events: seq<Event>) {
    && |states| == |events| + 1
    && forall i {:trigger InsertHeader(client, states[i], events[i].header, events[i].now)} :: 0 <= i < |events| ==>
         InsertHeader(client, states[i], events[i].header, events[i].now) == (states[i + 1], Ok(()))
  }

  predicate VerifiesAll(config: Config) {
    config.verifyEpochHeaders && config.verifyNonEpochHeaders
  }

  // ---------- sealed headers ----------

  /** The seal of this header, checked against these validators, is ideal. */
  ghost predicate IdealSeal(crypto: Crypto, signed: Signed, vs: seq<Validator>, h: Header) {
    Sealable(crypto, h) ==>
      IdealBls(crypto, signed, SelectedKeys(vs, SealOf(h).bitmap), CommitMessage(crypto, h), SealOf(h).signature)
  }

  /** A two-thirds quorum of the list signed the commit message of the header. */
  ghost predicate QuorumSigned(crypto: Crypto, signed: Signed, vs: seq<Validator>, h: Header) {
    && Sealable(crypto, h)
    && Quorum(SealOf(h).bitmap, |vs|)
    && AllSigned(signed, vs, SealOf(h).bitmap, CommitMessage(crypto, h))
  }

  lemma SealedByQuorum(client: Client, signed: Signed, vs: seq<Validator>, h: Header)
    requires VerifyHeaderSeal(client, vs, h).Ok? && IdealSeal(client.crypto, signed, vs, h)
    ensures QuorumSigned(client.crypto, signed, vs, h)
  {
    hide HashOf, ExtraFromRlp, VerifyAggregatedSeal, PrepareCommitedSeal, IdealBls, SelectedKeys;
    AcceptedSealIsQuorum(client.crypto, signed, HashOf(client.crypto, h).value, vs, SealOf(h));
  }

  // ---------- one insertion ----------

  predicate EndsEpoch(client: Client, h: Header) {
    h.number < U64_LIMIT && client.config.epochSize > 0 && IsLastBlockOfEpoch(h.number, client.config.epochSize)
  }

  /** The validators after a header was accepted: changed by the last header of an epoch only. */
  function ValidatorsAfter(client: Client, vs: seq<Validator>, h: Header): seq<Validator>
    requires ExtraFromRlp(h.extra).Ok?
  {
    if EndsEpoch(client, h) then ApplyDiff(vs, ExtraFromRlp(h.extra).value).0 else vs
  }

  predicate VerificationRequired(client: Client, h: Header) {
    if EndsEpoch(client, h) then client.config.verifyEpochHeaders else client.config.verifyNonEpochHeaders
  }

  /** Everything an accepted insertion did and checked. */
  ghost predicate Ingested(client: Client, s: Snapshot, h: Header, now: u64, s': Snapshot) {
    && client.config.epochSize > 0
    && HashOf(client.crypto, h) == Ok(s'.hash)
    && ExtraFromRlp(h.extra).Ok?
    && s'.number == h.number && s'.timestamp == h.time
    && s'.aggregatedSeal == ExtraFromRlp(h.extra).value.aggregatedSeal
    && s'.validators == ValidatorsAfter(client, s.validators, h)
    && (EndsEpoch(client, h) ==> ApplyDiff(s.validators, ExtraFromRlp(h.extra).value).1.Ok?)
    && (h.number != 0 && VerificationRequired(client, h) ==> VerifyHeader(client, s, h, now).Ok?)
  }

  lemma AcceptedIffIngested(client: Client, s: Snapshot, h: Header, now: u64, s': Snapshot)
    ensures InsertHeader(client, s, h, now) == (s', Ok(())) <==> Ingested(client, s, h, now, s')
  {
    hide HashOf, ExtraFromRlp, VerifyHeader, ApplyDiff, IsLastBlockOfEpoch;
  }

  /** Verification reports no changeset error, so that error identifies its origin. */
  lemma VerificationNeverTouchesDiffs(client: Client, s: Snapshot, h: Header, now: u64)
    ensures VerifyHeader(client, s, h, now).Err? ==> !VerifyHeader(client, s, h, now).error.InvalidValidatorSetDiff?
    ensures HashOf(client.crypto, h).Err? ==> !HashOf(client.crypto, h).error.InvalidValidatorSetDiff?
    ensures ExtraFromRlp(h.extra).Err? ==> !ExtraFromRlp(h.extra).error.InvalidValidatorSetDiff?
  {
    HashNeverErrs(client.crypto, h);
    hide HashOf, DecodeExtra;
    if ExtraFromRlp(h.extra).Ok? && HashOf(client.crypto, h).Ok? {
      var extra := ExtraFromRlp(h.extra).value;
      if !VerifyAggregatedSeal(client.crypto, HashOf(client.crypto, h).value, s.validators, extra.aggregatedSeal).Ok? {
        SealTurnedDown(client.crypto, HashOf(client.crypto, h).value, s.validators, extra.aggregatedSeal);
      }
    }
  }

  lemma HashNeverErrs(crypto: Crypto, h: Header)
    ensures !HashOf(crypto, h).Err?
  {
  }

  /** The guard of the one branch on which a rejected header leaves a mark: everything before the addition
      went well, and a validator that stays has an address that is to be added. */
  predicate AdditionRefused(client: Client, s: Snapshot, h: Header, now: u64) {
    && EndsEpoch(client, h)
    && (client.config.verifyEpochHeaders && h.number != 0 ==> VerifyHeader(client, s, h, now).Ok?)
    && HashOf(client.crypto, h).Ok? && ExtraFromRlp(h.extra).Ok?
    && var extra := ExtraFromRlp(h.extra).value;
    && |extra.addedValidators| == |extra.addedValidatorsPublicKeys|
    && Removable(s.validators, extra.removedValidators)
    && SharesAddress(Remaining(s.validators, extra.removedValidators), AddedValidators(extra))
  }

  lemma AdditionRefusedIff(client: Client, s: Snapshot, h: Header, now: u64)
    ensures InsertHeader(client, s, h, now).1 == Err(InvalidValidatorSetDiff(CannotAdd)) <==>
      AdditionRefused(client, s, h, now)
  {
    hide HashOf, ExtraFromRlp, VerifyHeader, IsLastBlockOfEpoch, Removable, SharesAddress, Remaining;
    VerificationNeverTouchesDiffs(client, s, h, now);
  }

  /** A rejected header leaves no mark, except that when the addition is refused the removal has already been
      carried out. The snapshot then differs exactly if the bitmap removes somebody. */
  lemma FailureFrame(client: Client, s: Snapshot, h: Header, now: u64)
    requires !InsertHeader(client, s, h, now).1.Ok?
    ensures var s' := InsertHeader(client, s, h, now).0;
      && (AdditionRefused(client, s, h, now) ==>
            s' == s.(validators := Remaining(s.validators, ExtraFromRlp(h.extra).value.removedValidators)))
      && (s' != s <==> AdditionRefused(client, s, h, now) && ExtraFromRlp(h.extra).value.removedValidators != 0)
  {
    AdditionRefusedIff(client, s, h, now);
    RejectedInsertion(client, s, h, now);
    hide InsertHeader, HashOf, ExtraFromRlp, VerifyHeader, SharesAddress, Remaining;
    if AdditionRefused(client, s, h, now) {
      RemovalShortens(s.validators, ExtraFromRlp(h.extra).value.removedValidators);
    }
  }

  /** The snapshot a rejected header leaves behind, told by the error. */
  lemma RejectedInsertion(client: Client, s: Snapshot, h: Header, now: u64)
    requires !InsertHeader(client, s, h, now).1.Ok?
    ensures var (s', r) := InsertHeader(client, s, h, now);
      if r == Err(InvalidValidatorSetDiff(CannotAdd)) then
        && ExtraFromRlp(h.extra).Ok?
        && s' == s.(validators := Remaining(s.validators, ExtraFromRlp(h.extra).value.removedValidators))
      else s' == s
  {
    hide HashOf, ExtraFromRlp, VerifyHeader, IsLastBlockOfEpoch;
    VerificationNeverTouchesDiffs(client, s, h, now);
  }

  /** Why a header is rejected: what its verification says if that is due, else what hashing and decoding say, else
      what the changeset says. */
  lemma InsertionFails(client: Client, s: Snapshot, h: Header, now: u64)
    requires !InsertHeader(client, s, h, now).1.Ok?
    ensures InsertHeader(client, s, h, now).1 ==
      if h.number >= U64_LIMIT || client.config.epochSize == 0 then Panic
      else if h.number != 0 && VerificationRequired(client, h) && !VerifyHeader(client, s, h, now).Ok? then
        VerifyHeader(client, s, h, now)
      else
        match ExtraFromRlp(h.extra)
        case Panic => Panic
        case Err(_) => Err(RlpDecodeError)
        case Ok(extra) => ApplyDiff(s.validators, extra).1
  {
    HashPanicsIff(client.crypto, h);
    DecodingErrs(h.extra);
    hide HashOf, ExtraFromRlp, VerifyHeader, ApplyDiff, IsLastBlockOfEpoch;
  }

  /** The first of several validators removed, and another of them added again: in every state the header is
      turned down and the first validator is gone. */
  lemma RemovalSurvivesRefusal(client: Client, s: Snapshot, template: Header, now: u64) returns (h: Header)
    requires client.config.epochSize > 0 && |s.validators| > 1
    ensures InsertHeader(client, s, h, now)
         == (s.(validators := s.validators[1..]), Err(InvalidValidatorSetDiff(CannotAdd)))
  {
    var v := s.validators[1];
    var extra := IstanbulExtra([v.address], [v.publicKey], 1, [], EMPTY_SEAL, EMPTY_SEAL);
    SmallExtraFits(extra);
    h := GenesisInsertion(client, s, template, extra, now);
    FirstRemoved(s.validators);
    var remaining, added := Remaining(s.validators, 1), AddedValidators(extra);
    assert remaining[0].address == added[0].address;
    assert ApplyDiff(s.validators, extra) == (remaining, Err(InvalidValidatorSetDiff(CannotAdd)));
    hide InsertHeader, ApplyDiff, AdditionRefused;
    RejectedInsertion(client, s, h, now);
  }

  // ---------- monotone runs ----------

  lemma MonotoneStep(client: Client, s: Snapshot, h: Header, now: u64, s': Snapshot)
    requires InsertHeader(client, s, h, now) == (s', Ok(()))
    requires VerifiesAll(client.config) && h.number != 0
    ensures s.number < s'.number == h.number
    ensures client.config.verifyHeaderTimestamp ==>
      s.timestamp < s'.timestamp <= now + client.config.allowedClockSkew
  {
    AcceptedIffIngested(client, s, h, now, s');
    hide InsertHeader, HashOf, ExtraFromRlp, ApplyDiff, IsLastBlockOfEpoch, VerifyHeaderSeal;
    assert VerifyHeader(client, s, h, now).Ok?;
  }

  lemma {:induction false} Increasing(client: Client, states: seq<Snapshot>, events: seq<Event>, i: nat, j: nat)
    requires AcceptedRun(client, states, events) && VerifiesAll(client.config)
    requires i <= j < |states|
    requires forall k :: i <= k < j ==> events[k].header.number != 0
    ensures states[i].number + (j - i) <= states[j].number
    ensures client.config.verifyHeaderTimestamp ==> states[i].timestamp + (j - i) <= states[j].timestamp
  {
    hide InsertHeader;
    if i == j {
    } else {
      Increasing(client, states, events, i, j - 1);
      MonotoneStep(client, states[j - 1], events[j - 1].header, events[j - 1].now, states[j]);
    }
  }

  /** Along a fully verified run numbers and timestamps strictly increase, no timestamp runs ahead of its
      clock by more than the allowed skew, and the growth in number pays for every accepted header. */
  lemma MonotoneRun(client: Client, states: seq<Snapshot>, events: seq<Event>)
    requires AcceptedRun(client, states, events) && VerifiesAll(client.config) && client.config.verifyHeaderTimestamp
    requires forall k :: 0 <= k < |events| ==> events[k].header.number != 0
    ensures forall i, j :: 0 <= i < j < |states| ==>
      states[i].number < states[j].number && states[i].timestamp < states[j].timestamp
    ensures forall i :: 0 <= i < |events| ==> states[i + 1].timestamp <= events[i].now + client.config.allowedClockSkew
    ensures |events| <= states[|events|].number - states[0].number
  {
    hide InsertHeader;
    forall i, j | 0 <= i < j < |states|
      ensures states[i].number < states[j].number && states[i].timestamp < states[j].timestamp
    {
      Increasing(client, states, events, i, j);
    }
    forall i | 0 <= i < |events|
      ensures states[i + 1].timestamp <= events[i].now + client.config.allowedClockSkew
    {
      MonotoneStep(client, states[i], events[i].header, events[i].now, states[i + 1]);
    }
    Increasing(client, states, events, 0, |events|);
  }

  // ---------- chain of trust ----------

  /** The header that led to `s'` was sealed by a quorum of the validators `vs` held before it. */
  ghost predicate SealedBy(crypto: Crypto, vs: seq<Validator>, s': Snapshot) {
    VerifyAggregatedSeal(crypto, s'.hash, vs, s'.aggregatedSeal).Ok?
  }

  lemma VerifiedIsSealed(client: Client, s: Snapshot, h: Header, now: u64)
    requires VerifyHeader(client, s, h, now).Ok?
    ensures VerifyHeaderSeal(client, s.validators, h).Ok? && Sealable(client.crypto, h)
    ensures VerifyAggregatedSeal(client.crypto, HashOf(client.crypto, h).value, s.validators, SealOf(h)).Ok?
  {
    hide HashOf, ExtraFromRlp, VerifyAggregatedSeal, VerifyTimestamp;
  }

  lemma SealedStep(client: Client, s: Snapshot, h: Header, now: u64, s': Snapshot)
    requires InsertHeader(client, s, h, now) == (s', Ok(()))
    requires VerifiesAll(client.config) && h.number != 0
    ensures SealedBy(client.crypto, s.validators, s')
    ensures VerifyHeaderSeal(client, s.validators, h).Ok?
    ensures !EndsEpoch(client, h) ==> VerifySnapshot(client.crypto, s').Ok?
  {
    AcceptedIffIngested(client, s, h, now, s');
    hide InsertHeader, VerifyHeader, VerifyHeaderSeal, HashOf, ExtraFromRlp, ApplyDiff, EndsEpoch, VerifyAggregatedSeal;
    VerifiedIsSealed(client, s, h, now);
  }

  /** Every accepted non-genesis header was sealed by the validators held before it; if it does not close
      an epoch, the stored snapshot verifies by itself. */
  lemma ChainOfTrust(client: Client, states: seq<Snapshot>, events: seq<Event>)
    requires AcceptedRun(client, states, events) && VerifiesAll(client.config)
    ensures forall i :: 0 <= i < |events| && events[i].header.number != 0 ==>
      && SealedBy(client.crypto, states[i].validators, states[i + 1])
      && (!EndsEpoch(client, events[i].header) ==> VerifySnapshot(client.crypto, states[i + 1]).Ok?)
  {
    hide InsertHeader, EndsEpoch, VerifySnapshot, SealedBy;
    forall i | 0 <= i < |events| && events[i].header.number != 0
      ensures SealedBy(client.crypto, states[i].validators, states[i + 1])
      ensures !EndsEpoch(client, events[i].header) ==> VerifySnapshot(client.crypto, states[i + 1]).Ok?
    {
      SealedStep(client, states[i], events[i].header, events[i].now, states[i + 1]);
    }
  }

  /** From `vs`, the headers lead to `result` by changesets each of which a two-thirds quorum of the list it
      changes signed for. */
  ghost predicate SignedDiffs(client: Client, signed: Signed, vs: seq<Validator>, headers: seq<Header>,
                              result: seq<Validator>)
    decreases |headers|
  {
    if headers == [] then vs == result
    else
      var h := headers[0];
      && QuorumSigned(client.crypto, signed, vs, h)
      && SignedDiffs(client, signed, ValidatorsAfter(client, vs, h), headers[1..], result)
  }

  function Headers(events: seq<Event>): (r: seq<Header>)
    ensures |r| == |events| && forall i :: 0 <= i < |r| ==> r[i] == events[i].header
  {
    seq(|events|, i requires 0 <= i < |events| => events[i].header)
  }

  /** Every seal checked along the run is ideal. */
  ghost predicate IdealSeals(client: Client, signed: Signed, states: seq<Snapshot>, events: seq<Event>)
    requires |events| < |states|
  {
    forall i :: 0 <= i < |events| ==> IdealSeal(client.crypto, signed, states[i].validators, events[i].header)
  }

  /** The validators a client ends with derive from its initial ones by quorum-signed changesets alone. */
  lemma {:induction false} ValidatorsAreCertified(client: Client, signed: Signed,
                                                  states: seq<Snapshot>, events: seq<Event>)
    requires AcceptedRun(client, states, events) && VerifiesAll(client.config)
    requires IdealSeals(client, signed, states, events)
    requires forall e :: e in events ==> e.header.number != 0
    ensures SignedDiffs(client, signed, states[0].validators, Headers(events), states[|events|].validators)
    decreases |events|
  {
    hide InsertHeader, HashOf, ExtraFromRlp, ValidatorsAfter, VerifyHeaderSeal, IdealSeal, QuorumSigned;
    if events == [] {
    } else {
      var e := events[0];
      AcceptedIffIngested(client, states[0], e.header, e.now, states[1]);
      SealedStep(client, states[0], e.header, e.now, states[1]);
      SealedByQuorum(client, signed, states[0].validators, e.header);
      assert states[1..][|events[1..]|] == states[|events|];
      assert AcceptedRun(client, states[1..], events[1..]);
      ValidatorsAreCertified(client, signed, states[1..], events[1..]);
      assert Headers(events)[1..] == Headers(events[1..]);
    }
  }
}
