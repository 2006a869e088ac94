/** No divergence: clients that start from one validator list and see less than a third of faulty validators
    accept the same chain, even if they skip different headers of it. */
module Agreement {
  import opened Outcomes
  import opened Bytes
  import opened Crypto
  import opened IstanbulTypes
  import opened HeaderTypes
  import opened SnapshotTypes
  import opened HeaderHash
  import opened Bls
  import opened Consensus
  import opened Runs

  // ---------- honesty ----------

  /** The key signed the commit message of the header. */
  predicate SignedHeader(crypto: Crypto, signed: Signed, key: PublicKey, h: Header) {
    Sealable(crypto, h) && signed(key, CommitMessage(crypto, h))
  }

  /** Among the headers in `seen` the key committed to one hash per block number at most, over all rounds.
      Signing blocks of different numbers is what an honest validator does. */
  ghost predicate Honest(crypto: Crypto, signed: Signed, seen: set<Header>, key: PublicKey) {
    forall g, h ::
      (&& g in seen && h in seen && g.number == h.number
       && SignedHeader(crypto, signed, key, g) && SignedHeader(crypto, signed, key, h)) ==>
        HashOf(crypto, g) == HashOf(crypto, h)
  }

  ghost function FaultyPositions(crypto: Crypto, signed: Signed, seen: set<Header>, vs: seq<Validator>): set<nat> {
    set p | 0 <= p < |vs| && !Honest(crypto, signed, seen, vs[p].publicKey)
  }

  ghost predicate HonestMajority(crypto: Crypto, signed: Signed, seen: set<Header>, vs: seq<Validator>) {
    3 * |FaultyPositions(crypto, signed, seen, vs)| < |vs|
  }

  /** Headers no two of which share a number convict nobody, whoever signed them. */
  lemma DistinctNumbersConvictNobody(crypto: Crypto, signed: Signed, seen: set<Header>, vs: seq<Validator>)
    requires forall g, h :: g in seen && h in seen && g.number == h.number ==> g == h
    ensures FaultyPositions(crypto, signed, seen, vs) == {}
  {
    hide SignedHeader, HashOf;
    forall p | 0 <= p < |vs| ensures Honest(crypto, signed, seen, vs[p].publicKey) {
    }
  }

  // ---------- one height ----------

  /** Two headers of one number, both sealed by the same validators, have one hash. */
  lemma SealedHashesAgree(client: Client, signed: Signed, seen: set<Header>, vs: seq<Validator>, g: Header, h: Header)
    requires HonestMajority(client.crypto, signed, seen, vs) && g in seen && h in seen && g.number == h.number
    requires VerifyHeaderSeal(client, vs, g).Ok? && IdealSeal(client.crypto, signed, vs, g)
    requires VerifyHeaderSeal(client, vs, h).Ok? && IdealSeal(client.crypto, signed, vs, h)
    ensures HashOf(client.crypto, g) == HashOf(client.crypto, h)
  {
    hide HashOf, ExtraFromRlp, VerifyHeaderSeal, CommitMessage, IdealSeal;
    SealedByQuorum(client, signed, vs, g);
    SealedByQuorum(client, signed, vs, h);
    var faulty := FaultyPositions(client.crypto, signed, seen, vs);
    var p := HonestInBothQuorums(SealOf(g).bitmap, SealOf(h).bitmap, |vs|, faulty);
    var key := vs[p].publicKey;
    assert SignedHeader(client.crypto, signed, key, g) && SignedHeader(client.crypto, signed, key, h);
  }

  /** All of a snapshot but the aggregated seal, which may name different signers of the same block. */
  predicate SameCore(s: Snapshot, t: Snapshot) {
    s.(aggregatedSeal := EMPTY_SEAL) == t.(aggregatedSeal := EMPTY_SEAL)
  }

  lemma SameCoreValidators(s: Snapshot, t: Snapshot)
    requires SameCore(s, t)
    ensures s.validators == t.validators
  {
    assert s.(aggregatedSeal := EMPTY_SEAL).validators == t.(aggregatedSeal := EMPTY_SEAL).validators;
  }

  /** The extra data decode, to values that agree up to the aggregated seal. */
  predicate SameExtra(g: Header, h: Header) {
    && ExtraFromRlp(g.extra).Ok? && ExtraFromRlp(h.extra).Ok?
    && ExtraFromRlp(g.extra).value.(aggregatedSeal := EMPTY_SEAL)
    == ExtraFromRlp(h.extra).value.(aggregatedSeal := EMPTY_SEAL)
  }

  lemma DigestedAlike(crypto: Crypto, g: Header, h: Header)
    requires Distinguishable(crypto, g, h) && HashOf(crypto, g) == HashOf(crypto, h)
    requires ExtraFromRlp(g.extra).Ok? && ExtraFromRlp(h.extra).Ok?
    ensures g.(extra := []) == h.(extra := []) && SameExtra(g, h)
  {
    hide HashOf, Distinguishable, ExtraFromRlp;
    HashBinds(crypto, g, h);
  }

  /** The changeset of an epoch header does not depend on its aggregated seal. */
  lemma DiffIgnoresSeal(client: Client, vs: seq<Validator>, g: Header, h: Header)
    requires SameExtra(g, h) && g.number == h.number
    ensures ValidatorsAfter(client, vs, g) == ValidatorsAfter(client, vs, h)
  {
    hide ExtraFromRlp;
    var e, f := ExtraFromRlp(g.extra).value, ExtraFromRlp(h.extra).value;
    assert e == f.(aggregatedSeal := e.aggregatedSeal);
    assert e.addedValidators == f.addedValidators && e.addedValidatorsPublicKeys == f.addedValidatorsPublicKeys;
    assert e.removedValidators == f.removedValidators;
    if |e.addedValidators| == |e.addedValidatorsPublicKeys| {
      assert AddedValidators(e) == AddedValidators(f);
    }
  }

  /** Two headers of one non-zero number that can be told apart by their hashes. */
  ghost predicate Comparable(crypto: Crypto, g: Header, h: Header) {
    && g.number == h.number && g.number != 0
    && Distinguishable(crypto, g, h)
  }

  /** One client's accepted insertion, and that the seal it checked is ideal. */
  ghost predicate Step(client: Client, signed: Signed, s: Snapshot, e: Event, s': Snapshot) {
    && InsertHeader(client, s, e.header, e.now) == (s', Ok(()))
    && IdealSeal(client.crypto, signed, s.validators, e.header)
  }

  /** Clients that trust the same validators and accept a block of the same number accept the same block. */
  lemma AgreementStep(client: Client, signed: Signed, seen: set<Header>, s: Snapshot, t: Snapshot,
                      d: Event, e: Event, s': Snapshot, t': Snapshot)
    requires VerifiesAll(client.config)
    requires s.validators == t.validators && HonestMajority(client.crypto, signed, seen, s.validators)
    requires d.header in seen && e.header in seen && Comparable(client.crypto, d.header, e.header)
    requires Step(client, signed, s, d, s') && Step(client, signed, t, e, t')
    ensures SameCore(s', t')
  {
    AcceptedIffIngested(client, s, d.header, d.now, s');
    AcceptedIffIngested(client, t, e.header, e.now, t');
    SealedStep(client, s, d.header, d.now, s');
    SealedStep(client, t, e.header, e.now, t');
    hide InsertHeader, HashOf, ExtraFromRlp, ValidatorsAfter, VerifyHeader, VerifyHeaderSeal, IdealSeal, SealedBy;
    hide HonestMajority, HashedHeader, EncodeHeader, ApplyDiff, EndsEpoch, VerifySnapshot, SameExtra;
    SealedHashesAgree(client, signed, seen, s.validators, d.header, e.header);
    DigestedAlike(client.crypto, d.header, e.header);
    DiffIgnoresSeal(client, s.validators, d.header, e.header);
    assert d.header.(extra := []).time == e.header.(extra := []).time;
  }

  // ---------- whole runs ----------

  /** A fully verified run over non-genesis headers in `seen`, all of whose seals are ideal. */
  ghost predicate TrustedRun(client: Client, signed: Signed, seen: set<Header>,
                             states: seq<Snapshot>, events: seq<Event>)
  {
    && VerifiesAll(client.config)
    && AcceptedRun(client, states, events) && IdealSeals(client, signed, states, events)
    && forall k :: 0 <= k < |events| ==> events[k].header in seen && events[k].header.number != 0
  }

  /** Fewer than a third of the positions of each validator list on the way are faulty. */
  ghost predicate HonestAlong(client: Client, signed: Signed, seen: set<Header>, states: seq<Snapshot>, n: nat)
    requires n <= |states|
  {
    forall k :: 0 <= k < n ==> HonestMajority(client.crypto, signed, seen, states[k].validators)
  }

  lemma RunStep(client: Client, signed: Signed, seen: set<Header>, states: seq<Snapshot>, events: seq<Event>, i: nat)
    requires TrustedRun(client, signed, seen, states, events) && i < |events|
    ensures Step(client, signed, states[i], events[i], states[i + 1]) && events[i].header in seen
  {
    hide InsertHeader, IdealSeal;
  }

  /** Two accepted runs from one snapshot over headers with the same non-zero numbers agree, after every
      step, on number, timestamp, hash and validators, provided fewer than a third of the positions of each
      validator list on the way are faulty. Epoch headers and others may be mixed freely. */
  lemma {:induction false} NoDivergence(client: Client, signed: Signed, seen: set<Header>,
                                        states1: seq<Snapshot>, events1: seq<Event>,
                                        states2: seq<Snapshot>, events2: seq<Event>, i: nat)
    requires TrustedRun(client, signed, seen, states1, events1) && TrustedRun(client, signed, seen, states2, events2)
    requires |events1| == |events2| && SameCore(states1[0], states2[0])
    requires forall k :: 0 <= k < |events1| ==> Comparable(client.crypto, events1[k].header, events2[k].header)
    requires HonestAlong(client, signed, seen, states1, |events1|)
    requires i < |states1|
    ensures SameCore(states1[i], states2[i])
  {
    hide InsertHeader, Comparable, HonestMajority, IdealSeal, SameCore, Step;
    if i == 0 {
    } else {
      NoDivergence(client, signed, seen, states1, events1, states2, events2, i - 1);
      RunStep(client, signed, seen, states1, events1, i - 1);
      RunStep(client, signed, seen, states2, events2, i - 1);
      SameCoreValidators(states1[i - 1], states2[i - 1]);
      AgreementStep(client, signed, seen, states1[i - 1], states2[i - 1], events1[i - 1], events2[i - 1],
                    states1[i], states2[i]);
    }
  }

  // ---------- clients that skip different headers ----------

  /** The numbers of the headers that end an epoch, in order. */
  function EpochEndings(client: Client, events: seq<Event>): seq<nat> {
    if events == [] then []
    else
      var last := |events| - 1;
      var before := EpochEndings(client, events[..last]);
      if EndsEpoch(client, events[last].header) then before + [events[last].header.number] else before
  }

  lemma EpochEndingsSnoc(client: Client, events: seq<Event>, i: nat)
    requires 0 < i <= |events|
    ensures var h := events[i - 1].header;
      var before := EpochEndings(client, events[..i - 1]);
      EpochEndings(client, events[..i]) == if EndsEpoch(client, h) then before + [h.number] else before
  {
    hide EndsEpoch;
    assert events[..i][..i - 1] == events[..i - 1];
  }

  lemma NothingEnded(client: Client, events: seq<Event>)
    ensures EpochEndings(client, events[..0]) == []
  {
  }

  /** Headers of one number in the two runs can be told apart by their hashes. */
  ghost predicate ComparableRuns(client: Client, events1: seq<Event>, events2: seq<Event>) {
    forall k, l :: 0 <= k < |events1| && 0 <= l < |events2| && events1[k].header.number == events2[l].header.number ==>
      Comparable(client.crypto, events1[k].header, events2[l].header)
  }

  /** A header inside an epoch leaves the validators alone. */
  lemma InsideEpochStep(client: Client, s: Snapshot, e: Event, s': Snapshot)
    requires InsertHeader(client, s, e.header, e.now) == (s', Ok(())) && !EndsEpoch(client, e.header)
    ensures s'.validators == s.validators
  {
    AcceptedIffIngested(client, s, e.header, e.now, s');
    hide InsertHeader, HashOf, ExtraFromRlp, VerifyHeader, ApplyDiff, EndsEpoch;
  }

  /** Two clients with the same epoch ends behind them trust the same validators, whatever other headers
      either of them inserted or skipped. */
  lemma {:induction false} SkippingClientsAgree(client: Client, signed: Signed, seen: set<Header>,
                                                states1: seq<Snapshot>, events1: seq<Event>,
                                                states2: seq<Snapshot>, events2: seq<Event>, i: nat, j: nat)
    requires TrustedRun(client, signed, seen, states1, events1) && TrustedRun(client, signed, seen, states2, events2)
    requires ComparableRuns(client, events1, events2) && HonestAlong(client, signed, seen, states1, |events1|)
    requires states1[0].validators == states2[0].validators
    requires i <= |events1| && j <= |events2|
    requires EpochEndings(client, events1[..i]) == EpochEndings(client, events2[..j])
    ensures states1[i].validators == states2[j].validators
    decreases i + j
  {
    hide InsertHeader, HonestMajority, Comparable, EndsEpoch, IdealSeal, EpochEndings;
    if i > 0 { EpochEndingsSnoc(client, events1, i); }
    if j > 0 { EpochEndingsSnoc(client, events2, j); }
    if i > 0 && !EndsEpoch(client, events1[i - 1].header) {
      SkippingClientsAgree(client, signed, seen, states1, events1, states2, events2, i - 1, j);
      InsideEpochStep(client, states1[i - 1], events1[i - 1], states1[i]);
    } else if j > 0 && !EndsEpoch(client, events2[j - 1].header) {
      SkippingClientsAgree(client, signed, seen, states1, events1, states2, events2, i, j - 1);
      InsideEpochStep(client, states2[j - 1], events2[j - 1], states2[j]);
    } else if i > 0 {
      BothEndAlike(client, events1, events2, i, j);
      SkippingClientsAgree(client, signed, seen, states1, events1, states2, events2, i - 1, j - 1);
      CommonHeader(client, signed, seen, states1, events1, states2, events2, i - 1, j - 1);
    } else {
      BothEmpty(client, events1, events2, j);
    }
  }

  /** Equal lists of epoch ends, both of which grew last, grew by the same number. */
  lemma BothEndAlike(client: Client, events1: seq<Event>, events2: seq<Event>, i: nat, j: nat)
    requires 0 < i <= |events1| && j <= |events2| && EndsEpoch(client, events1[i - 1].header)
    requires j > 0 ==> EndsEpoch(client, events2[j - 1].header)
    requires EpochEndings(client, events1[..i]) == EpochEndings(client, events2[..j])
    ensures j > 0 && events1[i - 1].header.number == events2[j - 1].header.number
    ensures EpochEndings(client, events1[..i - 1]) == EpochEndings(client, events2[..j - 1])
  {
    hide EndsEpoch;
    EpochEndingsSnoc(client, events1, i);
    NothingEnded(client, events2);
    if j > 0 {
      EpochEndingsSnoc(client, events2, j);
      var a, b := EpochEndings(client, events1[..i - 1]), EpochEndings(client, events2[..j - 1]);
      var m, n := events1[i - 1].header.number, events2[j - 1].header.number;
      assert (a + [m])[|a|] == m && (b + [n])[|b|] == n;
      assert a == (a + [m])[..|a|] && b == (b + [n])[..|b|];
    }
  }

  lemma BothEmpty(client: Client, events1: seq<Event>, events2: seq<Event>, j: nat)
    requires j <= |events2| && EpochEndings(client, events2[..j]) == EpochEndings(client, events1[..0])
    requires j > 0 ==> EndsEpoch(client, events2[j - 1].header)
    ensures j == 0
  {
    hide EndsEpoch;
    NothingEnded(client, events1);
    if j > 0 { EpochEndingsSnoc(client, events2, j); }
  }

  /** And when both next accept a header of one number, it is the same block. */
  lemma CommonHeader(client: Client, signed: Signed, seen: set<Header>,
                     states1: seq<Snapshot>, events1: seq<Event>,
                     states2: seq<Snapshot>, events2: seq<Event>, i: nat, j: nat)
    requires TrustedRun(client, signed, seen, states1, events1) && TrustedRun(client, signed, seen, states2, events2)
    requires ComparableRuns(client, events1, events2) && HonestAlong(client, signed, seen, states1, |events1|)
    requires i < |events1| && j < |events2| && states1[i].validators == states2[j].validators
    requires events1[i].header.number == events2[j].header.number
    ensures SameCore(states1[i + 1], states2[j + 1])
  {
    hide InsertHeader, Comparable, HonestMajority, IdealSeal, SameCore, Step;
    RunStep(client, signed, seen, states1, events1, i);
    RunStep(client, signed, seen, states2, events2, j);
    AgreementStep(client, signed, seen, states1[i], states2[j], events1[i], events2[j], states1[i + 1], states2[j + 1]);
  }
}
