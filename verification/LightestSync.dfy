/** `examples/lightest-sync/main.rs`: syncing by the last header of each epoch, and why that is as good as
    syncing by every header. */
module LightestSync {
  import opened Outcomes
  import opened Errors
  import opened HeaderTypes
  import opened SnapshotTypes
  import opened IstanbulTypes
  import opened Istanbul
  import opened Crypto
  import opened HeaderHash
  import opened Consensus
  import opened Runs
  import IbftState

  /** The relayer's answers by block number; `None` is a failed fetch. */
  type Relayer = nat -> Option<Header>

  /** The wall clock read before each epoch's insertion. */
  type Clock = nat -> u64

  // ---------- the program ----------

  /** The snapshot after epochs `epoch` up to `current` (exclusive). A failed fetch and a rejected header
      are only logged; a panic ends the program. */
  function SyncEpochs(client: Client, s: Snapshot, epoch: nat, current: nat, relayer: Relayer, clock: Clock)
    : Outcome<Snapshot, Kind>
    decreases current - epoch
  {
    if epoch >= current then Ok(s)
    else
      var number :- GetEpochLastBlockNumber(epoch, client.config.epochSize);
      match relayer(number)
      case None => SyncEpochs(client, s, epoch + 1, current, relayer, clock)
      case Some(header) =>
        var (s', r) := InsertHeader(client, s, header, clock(epoch));
        if r.Panic? then Panic else SyncEpochs(client, s', epoch + 1, current, relayer, clock)
  }

  /** The epoch of the latest header, read with an unwrap and a division. */
  function CurrentEpoch(client: Client, latest: Header): Outcome<nat, Kind> {
    if latest.number >= U64_LIMIT || client.config.epochSize == 0 then Panic
    else Ok(GetEpochNumber(latest.number, client.config.epochSize))
  }

  /** The program: build the state from `start`, then check the latest header against it. */
  method Sync(client: Client, start: Snapshot, latest: Header, relayer: Relayer, clock: Clock, now: u64)
    returns (r: Outcome<(), Kind>, state: IbftState.State)
    ensures latest.number >= U64_LIMIT || client.config.epochSize == 0 ==> r.Panic?
    ensures CurrentEpoch(client, latest).Panic? <==> latest.number >= U64_LIMIT || client.config.epochSize == 0
    ensures CurrentEpoch(client, latest).Ok? ==>
      match SyncEpochs(client, start, 0, CurrentEpoch(client, latest).value, relayer, clock)
      case Ok(s) => state.snapshot == s && r == VerifyHeader(client, s, latest, now)
      case _ => r.Panic?
  {
    hide InsertHeader, VerifyHeader;
    state := new IbftState.State(start, client);
    var current :- CurrentEpoch(client, latest);
    for epoch := 0 to current
      invariant state.client == client
      invariant SyncEpochs(client, start, 0, current, relayer, clock)
             == SyncEpochs(client, state.snapshot, epoch, current, relayer, clock)
    {
      var number :- GetEpochLastBlockNumber(epoch, client.config.epochSize);
      match relayer(number)
      case None =>
      case Some(header) =>
        var inserted := state.InsertHeader(header, clock(epoch));
        if inserted.Panic? {
          return Panic, state;
        }
    }
    r := VerifyHeader(client, state.snapshot, latest, now);
  }

  // ---------- what the loop does, turn by turn ----------

  /** Number of the last block of epoch `e`. */
  function EpochEnd(client: Client, e: nat): nat {
    e * client.config.epochSize
  }

  /** The relayer's answer in the turn for epoch `e`. */
  function Answer(client: Client, relayer: Relayer, e: nat): Option<Header> {
    relayer(EpochEnd(client, e))
  }

  /** The turn for epoch `e` takes state `s` to `s'`: whatever the relayer answers is inserted. */
  ghost predicate Turn(client: Client, s: Snapshot, e: nat, relayer: Relayer, clock: Clock, s': Snapshot) {
    && EpochEnd(client, e) < U64_LIMIT
    && match Answer(client, relayer, e)
       case None => s' == s
       case Some(h) => var (t, r) := InsertHeader(client, s, h, clock(e)); s' == t && !r.Panic?
  }

  /** The states before and after each turn of a loop that does not panic. */
  ghost predicate History(client: Client, states: seq<Snapshot>, relayer: Relayer, clock: Clock) {
    && states != []
    && forall e :: 0 <= e < |states| - 1 ==> Turn(client, states[e], e, relayer, clock, states[e + 1])
  }

  /** What the loop makes of one turn. */
  lemma LoopTurn(client: Client, s: Snapshot, e: nat, current: nat, relayer: Relayer, clock: Clock)
    returns (s': Snapshot)
    requires e < current
    ensures Turn(client, s, e, relayer, clock, s') ==>
      SyncEpochs(client, s, e, current, relayer, clock) == SyncEpochs(client, s', e + 1, current, relayer, clock)
    ensures SyncEpochs(client, s, e, current, relayer, clock).Ok? ==> Turn(client, s, e, relayer, clock, s')
    ensures forall t :: Turn(client, s, e, relayer, clock, t) ==> t == s'
  {
    hide InsertHeader;
    LastOfEpoch(client, e);
    s' := match Answer(client, relayer, e)
      case None => s
      case Some(h) => InsertHeader(client, s, h, clock(e)).0;
  }

  lemma LastOfEpoch(client: Client, e: nat)
    ensures GetEpochLastBlockNumber(e, client.config.epochSize)
         == if EpochEnd(client, e) < U64_LIMIT then Ok(EpochEnd(client, e)) else Panic
  {
    assert 0 * client.config.epochSize == 0;
  }

  /** A history leads the loop from any of its states to its last one. */
  lemma {:induction false} LoopFollowsHistory(client: Client, states: seq<Snapshot>, epoch: nat,
                                              relayer: Relayer, clock: Clock)
    requires History(client, states, relayer, clock) && epoch < |states|
    ensures SyncEpochs(client, states[epoch], epoch, |states| - 1, relayer, clock) == Ok(states[|states| - 1])
    decreases |states| - epoch
  {
    hide Turn;
    if epoch == |states| - 1 {
    } else {
      LoopFollowsHistory(client, states, epoch + 1, relayer, clock);
      hide SyncEpochs;
      assert Turn(client, states[epoch], epoch, relayer, clock, states[epoch + 1]);
      var next := LoopTurn(client, states[epoch], epoch, |states| - 1, relayer, clock);
    }
  }

  /** Every loop that ends without a panic has a history. */
  lemma {:induction false} LoopHasHistory(client: Client, done: seq<Snapshot>, current: nat,
                                          relayer: Relayer, clock: Clock) returns (states: seq<Snapshot>)
    requires History(client, done, relayer, clock) && |done| - 1 <= current
    requires SyncEpochs(client, done[|done| - 1], |done| - 1, current, relayer, clock).Ok?
    ensures History(client, states, relayer, clock) && |states| == current + 1 && done <= states
    ensures SyncEpochs(client, done[|done| - 1], |done| - 1, current, relayer, clock) == Ok(states[current])
    decreases current - |done|
  {
    hide Turn, InsertHeader;
    var last := |done| - 1;
    if last == current {
      states := done;
    } else {
      hide SyncEpochs;
      var next := LoopTurn(client, done[last], last, current, relayer, clock);
      states := LoopHasHistory(client, done + [next], current, relayer, clock);
    }
  }

  // ---------- whatever the relayer answers ----------

  /** The header ends an epoch and its changeset, which loses the addition if that is refused, takes the list
      `vs` to `vs'`; a two-thirds quorum of `vs` signed for it. Only a header with number 0 needs no signatures. */
  ghost predicate Certified(client: Client, signed: Signed, vs: seq<Validator>, h: Header, vs': seq<Validator>) {
    && EndsEpoch(client, h) && Sealable(client.crypto, h)
    && (h.number != 0 ==> QuorumSigned(client.crypto, signed, vs, h))
    && vs' == ApplyDiff(vs, ExtraFromRlp(h.extra).value).0
  }

  ghost predicate CertifiedTurn(client: Client, signed: Signed, s: Snapshot, answer: Option<Header>, s': Snapshot) {
    || s'.validators == s.validators
    || (answer.Some? && Certified(client, signed, s.validators, answer.value, s'.validators))
  }

  lemma VerifiedByQuorum(client: Client, signed: Signed, s: Snapshot, h: Header, now: u64)
    requires VerifyHeader(client, s, h, now).Ok? && IdealSeal(client.crypto, signed, s.validators, h)
    ensures QuorumSigned(client.crypto, signed, s.validators, h)
  {
    hide VerifyHeader, VerifyHeaderSeal, IdealSeal, QuorumSigned;
    VerifiedIff(client, s, h, now);
    SealVerifiedIff(client, s.validators, h);
    SealedByQuorum(client, signed, s.validators, h);
  }

  lemma AcceptanceIsCertified(client: Client, signed: Signed, s: Snapshot, h: Header, now: u64)
    requires client.config.verifyEpochHeaders && IdealSeal(client.crypto, signed, s.validators, h)
    requires InsertHeader(client, s, h, now).1.Ok?
    ensures CertifiedTurn(client, signed, s, Some(h), InsertHeader(client, s, h, now).0)
  {
    hide InsertHeader, HashOf, ExtraFromRlp, EndsEpoch, ApplyDiff, VerifyHeader, IdealSeal, QuorumSigned, Remaining;
    var (s', r) := InsertHeader(client, s, h, now);
    assert r == Ok(()) by { assert r.value == (); }
    AcceptedIffIngested(client, s, h, now, s');
    if h.number != 0 && EndsEpoch(client, h) {
      VerifiedByQuorum(client, signed, s, h, now);
    }
  }

  lemma RejectionIsCertified(client: Client, signed: Signed, s: Snapshot, h: Header, now: u64)
    requires client.config.verifyEpochHeaders && IdealSeal(client.crypto, signed, s.validators, h)
    requires !InsertHeader(client, s, h, now).1.Ok?
    ensures CertifiedTurn(client, signed, s, Some(h), InsertHeader(client, s, h, now).0)
  {
    FailureFrame(client, s, h, now);
    hide InsertHeader, HashOf, ExtraFromRlp, EndsEpoch, VerifyHeader, IdealSeal, QuorumSigned, Remaining;
    hide SharesAddress, Removable, AddedValidators;
    if h.number != 0 && AdditionRefused(client, s, h, now) {
      VerifiedByQuorum(client, signed, s, h, now);
    }
  }

  /** Whatever the relayer answers, and whichever answers are rejected: each turn leaves the validators alone
      or changes them as a quorum of the list it changes certified. */
  lemma SyncIsCertified(client: Client, signed: Signed, states: seq<Snapshot>, relayer: Relayer, clock: Clock)
    requires client.config.verifyEpochHeaders && History(client, states, relayer, clock)
    requires forall e :: 0 <= e < |states| - 1 && Answer(client, relayer, e).Some? ==>
      IdealSeal(client.crypto, signed, states[e].validators, Answer(client, relayer, e).value)
    ensures forall e :: 0 <= e < |states| - 1 ==>
      CertifiedTurn(client, signed, states[e], Answer(client, relayer, e), states[e + 1])
  {
    hide InsertHeader, Certified, IdealSeal, Answer;
    forall e | 0 <= e < |states| - 1
      ensures CertifiedTurn(client, signed, states[e], Answer(client, relayer, e), states[e + 1])
    {
      assert Turn(client, states[e], e, relayer, clock, states[e + 1]);
      if Answer(client, relayer, e).Some? {
        var h := Answer(client, relayer, e).value;
        if InsertHeader(client, states[e], h, clock(e)).1.Ok? {
          AcceptanceIsCertified(client, signed, states[e], h, clock(e));
        } else {
          RejectionIsCertified(client, signed, states[e], h, clock(e));
        }
      }
    }
  }

  // ---------- skipping non-epoch headers ----------

  lemma EpochEnds(client: Client, e: nat, f: nat)
    requires e <= f
    ensures EpochEnd(client, e) <= EpochEnd(client, f)
  {
    MulMonotone(e, f, client.config.epochSize);
  }

  /** A full sync of the chain 0..N: every header accepted in turn, under every check. */
  ghost predicate FullSync(client: Client, states: seq<Snapshot>, events: seq<Event>) {
    && AcceptedRun(client, states, events)
    && VerifiesAll(client.config) && client.config.verifyHeaderTimestamp
    && 0 < |events| < U64_LIMIT
    && forall i :: 0 <= i < |events| ==> events[i].header.number == i
  }

  /** Strictly between two epoch ends the validators stand still. */
  lemma {:induction false} ValidatorsStandStill(client: Client, states: seq<Snapshot>, events: seq<Event>,
                                                j: nat, m: nat)
    requires AcceptedRun(client, states, events) && j <= m < |states|
    requires forall k :: j <= k < m ==> !EndsEpoch(client, events[k].header)
    ensures states[j].validators == states[m].validators
  {
    hide EndsEpoch, InsertHeader, HashOf, ExtraFromRlp, VerifyHeader, ApplyDiff;
    if j == m {
    } else {
      ValidatorsStandStill(client, states, events, j, m - 1);
      AcceptedIffIngested(client, states[m - 1], events[m - 1].header, events[m - 1].now, states[m]);
    }
  }

  lemma Ordered(client: Client, states: seq<Snapshot>, events: seq<Event>, j: nat, m: nat)
    requires FullSync(client, states, events) && 1 <= j <= m < |states|
    ensures states[j].number <= states[m].number && states[j].timestamp <= states[m].timestamp
  {
    hide InsertHeader;
    assert AcceptedRun(client, states[1..], events[1..]);
    MonotoneRun(client, states[1..], events[1..]);
    if j < m { assert states[1..][j - 1] == states[j] && states[1..][m - 1] == states[m]; }
  }

  /** Blocks inside an epoch do not end it. */
  lemma InsideEpoch(client: Client, h: Header, e: nat)
    requires client.config.epochSize > 0 && e > 0
    requires EpochEnd(client, e - 1) < h.number < EpochEnd(client, e) && h.number < U64_LIMIT
    ensures !EndsEpoch(client, h)
  {
    var size := client.config.epochSize;
    assert e * size == (e - 1) * size + size;
    DivMod(h.number, size, e - 1, h.number - (e - 1) * size);
  }

  lemma SizeIsPositive(client: Client, states: seq<Snapshot>, events: seq<Event>)
    requires FullSync(client, states, events)
    ensures client.config.epochSize > 0
  {
    hide HashOf, ExtraFromRlp, ApplyDiff;
    assert InsertHeader(client, states[0], events[0].header, events[0].now) == (states[1], Ok(()));
  }

  /** A header that a newer state with the same validators accepts is accepted by an older one, under any
      later clock that does not overflow. */
  lemma OlderStateAccepts(client: Client, older: Snapshot, newer: Snapshot, h: Header, now: u64, later: u64)
    requires VerifyHeader(client, newer, h, now).Ok?
    requires older.validators == newer.validators
    requires older.number <= newer.number && older.timestamp <= newer.timestamp
    requires now <= later && later + client.config.allowedClockSkew < U64_LIMIT
    ensures VerifyHeader(client, older, h, later).Ok?
  {
    hide VerifyHeaderSeal;
  }

  /** Block `m` of epoch `e` passes verification against the state right after the previous epoch's end. */
  lemma VerifiesAfterSkip(client: Client, states: seq<Snapshot>, events: seq<Event>, e: nat, m: nat, later: u64)
    requires FullSync(client, states, events) && e > 0 && m < |events|
    requires EpochEnd(client, e - 1) < m <= EpochEnd(client, e)
    requires events[m].now <= later && later + client.config.allowedClockSkew < U64_LIMIT
    ensures var skipped := states[EpochEnd(client, e - 1) + 1];
      && skipped.validators == states[m].validators
      && VerifyHeader(client, skipped, events[m].header, later).Ok?
  {
    hide InsertHeader, VerifyHeader, HashOf, ExtraFromRlp, ApplyDiff, EndsEpoch, EpochEnd;
    var j := EpochEnd(client, e - 1) + 1;
    SizeIsPositive(client, states, events);
    forall k | j <= k < m ensures !EndsEpoch(client, events[k].header) {
      InsideEpoch(client, events[k].header, e);
    }
    ValidatorsStandStill(client, states, events, j, m);
    Ordered(client, states, events, j, m);
    AcceptedIffIngested(client, states[m], events[m].header, events[m].now, states[m + 1]);
    OlderStateAccepts(client, states[j], states[m], events[m].header, events[m].now, later);
  }

  /** The states of the light client: those of the full client right after each epoch's end. */
  function LightState(client: Client, states: seq<Snapshot>, epoch: nat): Snapshot
    requires states != []
  {
    var i := if epoch == 0 then 0 else EpochEnd(client, epoch - 1) + 1;
    if i < |states| then states[i] else states[0]
  }

  /** What an insertion stores depends on the earlier state through the validators only. */
  lemma SameValidatorsSameResult(client: Client, s: Snapshot, t: Snapshot, h: Header, now: u64, later: u64,
                                 s': Snapshot)
    requires InsertHeader(client, s, h, now) == (s', Ok(()))
    requires s.validators == t.validators
    requires h.number == 0 || VerifyHeader(client, t, h, later).Ok?
    ensures InsertHeader(client, t, h, later) == (s', Ok(()))
  {
    AcceptedIffIngested(client, s, h, now, s');
    AcceptedIffIngested(client, t, h, later, s');
    hide InsertHeader, VerifyHeader, HashOf, ExtraFromRlp, ApplyDiff, EndsEpoch;
  }

  /** The light client accepts the last header of epoch `e` and lands where the full client did. */
  lemma LightStep(client: Client, states: seq<Snapshot>, events: seq<Event>, e: nat, later: u64)
    requires FullSync(client, states, events) && EpochEnd(client, e) < |events|
    requires events[EpochEnd(client, e)].now <= later && later + client.config.allowedClockSkew < U64_LIMIT
    ensures InsertHeader(client, LightState(client, states, e), events[EpochEnd(client, e)].header, later)
         == (LightState(client, states, e + 1), Ok(()))
  {
    hide InsertHeader, VerifyHeader;
    var size := client.config.epochSize;
    SizeIsPositive(client, states, events);
    var m := e * size;
    var h := events[m].header;
    if e > 0 {
      assert (e - 1) * size == m - size;
      VerifiesAfterSkip(client, states, events, e, m, later);
      assert LightState(client, states, e) == states[(e - 1) * size + 1];
    } else {
      assert m == 0;
    }
    SameValidatorsSameResult(client, states[m], LightState(client, states, e), h, events[m].now, later, states[m + 1]);
  }

  /** The relayer serves the chain of the full sync, and the light client's clocks are not behind. */
  ghost predicate Serves(client: Client, events: seq<Event>, relayer: Relayer, clock: Clock) {
    forall e: nat {:trigger EpochEnd(client, e)} :: EpochEnd(client, e) < |events| ==>
      && relayer(EpochEnd(client, e)) == Some(events[EpochEnd(client, e)].header)
      && events[EpochEnd(client, e)].now <= clock(e)
      && clock(e) + client.config.allowedClockSkew < U64_LIMIT
  }

  function LightStates(client: Client, states: seq<Snapshot>, current: nat): (r: seq<Snapshot>)
    requires states != []
    ensures |r| == current + 1 && forall e :: 0 <= e <= current ==> r[e] == LightState(client, states, e)
  {
    seq(current + 1, e requires 0 <= e => LightState(client, states, e))
  }

  lemma LightTurn(client: Client, states: seq<Snapshot>, events: seq<Event>, e: nat, relayer: Relayer, clock: Clock)
    requires FullSync(client, states, events) && Serves(client, events, relayer, clock)
    requires EpochEnd(client, e) < |events|
    ensures Turn(client, LightState(client, states, e), e, relayer, clock, LightState(client, states, e + 1))
  {
    hide InsertHeader, LightState, AcceptedRun;
    LightStep(client, states, events, e, clock(e));
  }

  lemma LightSyncFollows(client: Client, states: seq<Snapshot>, events: seq<Event>,
                         current: nat, relayer: Relayer, clock: Clock)
    requires FullSync(client, states, events) && Serves(client, events, relayer, clock)
    requires current > 0 ==> EpochEnd(client, current - 1) < |events|
    ensures SyncEpochs(client, states[0], 0, current, relayer, clock) == Ok(LightState(client, states, current))
  {
    var lights := LightStates(client, states, current);
    assert lights[0] == states[0];
    hide LightState, LightStates, Turn, SyncEpochs, AcceptedRun, Serves;
    forall e: nat | e < current ensures Turn(client, lights[e], e, relayer, clock, lights[e + 1]) {
      EpochEnds(client, e, current - 1);
      LightTurn(client, states, events, e, relayer, clock);
    }
    LoopFollowsHistory(client, lights, 0, relayer, clock);
  }

  /** The final check, against the state after the epochs before the one of block N. */
  lemma FinalCheck(client: Client, states: seq<Snapshot>, events: seq<Event>, now: u64)
    requires FullSync(client, states, events)
    requires var n := |events| - 1; events[n].now <= now && now + client.config.allowedClockSkew < U64_LIMIT
    ensures client.config.epochSize > 0
    ensures var n := |events| - 1; var current := GetEpochNumber(n, client.config.epochSize);
      && (current > 0 ==> EpochEnd(client, current - 1) < |events|)
      && LightState(client, states, current).validators == states[n].validators
      && (VerifyHeader(client, LightState(client, states, current), events[n].header, now).Ok? <==> n > 0)
  {
    var n := |events| - 1;
    SizeIsPositive(client, states, events);
    var current := GetEpochNumber(n, client.config.epochSize);
    hide InsertHeader, VerifyHeader, GetEpochNumber, EpochEnd, AcceptedRun;
    if n > 0 {
      EpochOf(client, n);
      VerifiesAfterSkip(client, states, events, current, n, now);
    } else {
      GenesisIsTurnedDown(client, states[0], events[n].header, now);
    }
  }

  lemma EpochOf(client: Client, n: u64)
    requires client.config.epochSize > 0 && n > 0
    ensures var e := GetEpochNumber(n, client.config.epochSize);
      e > 0 && EpochEnd(client, e - 1) < n <= EpochEnd(client, e)
  {
    EpochPartition(n, client.config.epochSize);
  }

  lemma GenesisIsTurnedDown(client: Client, s: Snapshot, h: Header, now: u64)
    requires client.config.epochSize > 0 && h.number == 0
    ensures GetEpochNumber(0, client.config.epochSize) == 0
    ensures VerifyHeader(client, s, h, now) == Err(HeaderVerificationError(HeightNotNewer))
  {
    LastBlockIffEndsItsEpoch(0, client.config.epochSize);
  }

  /** The light client accepts the last header of every epoch it asks for. */
  ghost predicate LightRunAccepted(client: Client, states: seq<Snapshot>, events: seq<Event>, current: nat,
                                   clock: Clock)
    requires states != []
  {
    forall e: nat {:trigger EpochEnd(client, e)} :: e < current && EpochEnd(client, e) < |events| ==>
      InsertHeader(client, LightState(client, states, e), events[EpochEnd(client, e)].header, clock(e))
      == (LightState(client, states, e + 1), Ok(()))
  }

  lemma LightRunIsAccepted(client: Client, states: seq<Snapshot>, events: seq<Event>, current: nat,
                           relayer: Relayer, clock: Clock)
    requires FullSync(client, states, events) && Serves(client, events, relayer, clock)
    ensures LightRunAccepted(client, states, events, current, clock)
  {
    assert states != [];
    hide InsertHeader, FullSync, LightState, EpochEnd;
    forall e: nat | e < current && EpochEnd(client, e) < |events|
      ensures InsertHeader(client, LightState(client, states, e), events[EpochEnd(client, e)].header, clock(e))
              == (LightState(client, states, e + 1), Ok(()))
    {
      LightStep(client, states, events, e, clock(e));
    }
  }

  /** Ultralight sync refines full sync. Let a full sync accept blocks 0..N. Then the light client, fed the
      last header of each earlier epoch, accepts every one of them, holds the validators the full client
      holds right before block N, and accepts block N against them. The one exception is N = 0: a genesis
      header is never newer than the stored height, so the final check always turns it down. */
  lemma UltralightRefinesFull(client: Client, states: seq<Snapshot>, events: seq<Event>,
                              relayer: Relayer, clock: Clock, now: u64)
    requires FullSync(client, states, events) && Serves(client, events, relayer, clock)
    requires var n := |events| - 1; events[n].now <= now && now + client.config.allowedClockSkew < U64_LIMIT
    ensures var n := |events| - 1;
      && CurrentEpoch(client, events[n].header).Ok?
      && var current := CurrentEpoch(client, events[n].header).value;
      var light := SyncEpochs(client, states[0], 0, current, relayer, clock);
      && (current > 0 ==> EpochEnd(client, current - 1) < |events|)
      && LightRunAccepted(client, states, events, current, clock)
      && light == Ok(LightState(client, states, current))
      && light.value.validators == states[n].validators
      && (VerifyHeader(client, light.value, events[n].header, now).Ok? <==> n > 0)
  {
    hide InsertHeader, VerifyHeader, GetEpochNumber, LightRunAccepted;
    FinalCheck(client, states, events, now);
    var current := GetEpochNumber(|events| - 1, client.config.epochSize);
    LightSyncFollows(client, states, events, current, relayer, clock);
    LightRunIsAccepted(client, states, events, current, relayer, clock);
    assert LightState(client, states, 0) == states[0];
  }
}
