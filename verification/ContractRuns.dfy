/** Whole histories of the contract: it tracks the in-memory state, holds signers of conflicting headers
    accountable, and freezes at ever lower heights. */
module ContractRuns {
  import opened Outcomes
  import opened Bytes
  import opened Bits
  import opened Crypto
  import opened IstanbulTypes
  import opened HeaderTypes
  import opened SnapshotTypes
  import opened HeaderHash
  import opened Bls
  import opened Consensus
  import opened Runs
  import opened Agreement
  import opened Ibc
  import opened Contract

  // ---------- updates ----------

  /** An update message and the clock of the block it arrives in. */
  datatype Call = Call(wasmHeader: WasmHeader, now: u64)

  /** Consensus states handed back by successive updates, each fed the previous one, up to the first failure. */
  function ContractRun(host: Host, me: ClientState, cs: ConsensusState, calls: seq<Call>): seq<ConsensusState>
    decreases |calls|
  {
    if calls == [] then []
    else
      match UpdatedConsensusState(host, me, cs, calls[0].wasmHeader, calls[0].now)
      case Ok(cs') => [cs'] + ContractRun(host, me, cs', calls[1..])
      case _ => []
  }

  /** Snapshots one `State` goes through on the same headers and clocks, up to the first failure. */
  function MemoryRun(host: Host, client: Client, s: Snapshot, calls: seq<Call>): seq<Snapshot>
    decreases |calls|
  {
    if calls == [] then []
    else
      match HeaderMessage(host, calls[0].wasmHeader.data)
      case Ok(header) =>
        var (s', inserted) := InsertHeader(client, s, header, calls[0].now);
        if inserted.Ok? then [s'] + MemoryRun(host, client, s', calls[1..]) else []
      case _ => []
  }

  /** The consensus state carries the snapshot. */
  predicate Carries(host: Host, cs: ConsensusState, s: Snapshot) {
    cs.data == host.base64Encode(EncodeSnapshot(s))
  }

  lemma CarriedSnapshotDecodes(host: Host, cs: ConsensusState, s: Snapshot)
    requires Base64RoundTrips(host) && Carries(host, cs, s) && SnapshotFits(s)
    ensures SnapshotMessage(host, cs.data) == Ok(s)
  {
    SnapshotRoundTrip(s, []);
    assert EncodeSnapshot(s) + [] == EncodeSnapshot(s);
    hide EncodeSnapshot, DecodeSnapshot;
    assert host.base64Decode(cs.data) == Some(EncodeSnapshot(s));
  }

  /** One update decides and computes what one in-memory insertion does. */
  lemma UpdateIsInsertion(host: Host, me: ClientState, client: Client, cs: ConsensusState, s: Snapshot, call: Call)
    requires Base64RoundTrips(host) && Carries(host, cs, s) && SnapshotFits(s)
    requires ConfigMessage(host, me.data) == Ok(client.config) && client.crypto == host.crypto
    ensures var updated := UpdatedConsensusState(host, me, cs, call.wasmHeader, call.now);
      var header := HeaderMessage(host, call.wasmHeader.data);
      && (updated.Ok? <==> header.Ok? && InsertHeader(client, s, header.value, call.now).1.Ok?)
      && (header.Ok? && !updated.Ok? ==>
            updated == if InsertHeader(client, s, header.value, call.now).1.Panic? then Panic else Err(GenericErr))
      && (!header.Ok? ==> updated == header.PropagateFailure())
      && (updated.Ok? ==>
            && Carries(host, updated.value, InsertHeader(client, s, header.value, call.now).0)
            && updated.value.codeId == cs.codeId && updated.value.timestamp == header.value.time
            && updated.value.root == host.base64Encode(header.value.root))
  {
    CarriedSnapshotDecodes(host, cs, s);
    hide InsertHeader, EncodeSnapshot, HeaderMessage, SnapshotMessage, ConfigMessage;
  }

  /** An update reads the header first, then the snapshot, then the configuration. */
  lemma UnreadableUpdate(host: Host, me: ClientState, cs: ConsensusState, call: Call)
    ensures var header := HeaderMessage(host, call.wasmHeader.data);
      var snapshot, config := SnapshotMessage(host, cs.data), ConfigMessage(host, me.data);
      var updated := UpdatedConsensusState(host, me, cs, call.wasmHeader, call.now);
      && (!header.Ok? ==> updated == header.PropagateFailure())
      && (header.Ok? && !snapshot.Ok? ==> updated == snapshot.PropagateFailure())
      && (header.Ok? && snapshot.Ok? && !config.Ok? ==> updated == config.PropagateFailure())
  {
    hide InsertHeader, EncodeSnapshot, HeaderMessage, SnapshotMessage, ConfigMessage;
  }

  /** Both runs take their first step together, or both end. */
  lemma RunsStep(host: Host, me: ClientState, client: Client, cs: ConsensusState, s: Snapshot, calls: seq<Call>)
    returns (cs': ConsensusState, s': Snapshot)
    requires Base64RoundTrips(host) && Carries(host, cs, s) && SnapshotFits(s) && calls != []
    requires ConfigMessage(host, me.data) == Ok(client.config) && client.crypto == host.crypto
    ensures MemoryRun(host, client, s, calls) == [] ==> ContractRun(host, me, cs, calls) == []
    ensures MemoryRun(host, client, s, calls) != [] ==>
      && ContractRun(host, me, cs, calls) == [cs'] + ContractRun(host, me, cs', calls[1..])
      && MemoryRun(host, client, s, calls) == [s'] + MemoryRun(host, client, s', calls[1..])
      && Carries(host, cs', s') && cs'.timestamp == s'.timestamp
  {
    UpdateIsInsertion(host, me, client, cs, s, calls[0]);
    cs', s' := cs, s;
    var updated := UpdatedConsensusState(host, me, cs, calls[0].wasmHeader, calls[0].now);
    if updated.Ok? {
      var header := HeaderMessage(host, calls[0].wasmHeader.data).value;
      InsertedTimestamp(client, s, header, calls[0].now);
      cs', s' := updated.value, InsertHeader(client, s, header, calls[0].now).0;
    }
    hide InsertHeader, EncodeSnapshot, HeaderMessage, ConfigMessage, UpdatedConsensusState, SnapshotFits;
  }

  /** The contract's run is the in-memory run: as many accepted updates, and after each of them the
      consensus state carries exactly the snapshot the in-memory state holds. */
  lemma {:induction false} ContractRunIsMemoryRun(host: Host, me: ClientState, client: Client, cs: ConsensusState,
                                                  s: Snapshot, calls: seq<Call>)
    requires Base64RoundTrips(host) && Carries(host, cs, s)
    requires ConfigMessage(host, me.data) == Ok(client.config) && client.crypto == host.crypto
    requires SnapshotFits(s) && forall t :: t in MemoryRun(host, client, s, calls) ==> SnapshotFits(t)
    ensures var carried, held := ContractRun(host, me, cs, calls), MemoryRun(host, client, s, calls);
      && |carried| == |held|
      && forall i :: 0 <= i < |held| ==> Carries(host, carried[i], held[i]) && carried[i].timestamp == held[i].timestamp
    decreases |calls|
  {
    hide InsertHeader, HeaderMessage, ConfigMessage, UpdatedConsensusState, SnapshotFits, Carries;
    if calls == [] {
    } else {
      var cs', s' := RunsStep(host, me, client, cs, s, calls);
      hide ContractRun, MemoryRun;
      var held := MemoryRun(host, client, s, calls);
      if held != [] {
        assert forall t :: t in MemoryRun(host, client, s', calls[1..]) ==> t in held;
        assert s' in held;
        ContractRunIsMemoryRun(host, me, client, cs', s', calls[1..]);
      }
    }
  }

  lemma InsertedTimestamp(client: Client, s: Snapshot, h: Header, now: u64)
    requires InsertHeader(client, s, h, now).1.Ok?
    ensures InsertHeader(client, s, h, now).0.timestamp == h.time
  {
    hide HashOf, ExtraFromRlp, VerifyHeader, ApplyDiff;
  }

  // ---------- misbehaviour ----------

  /** Evidence of misbehaviour, and the trusted consensus state for each of its headers. */
  datatype Report = Report(misbehaviour: Misbehaviour, cs1: ConsensusState, cs2: ConsensusState)

  /** Positions that signed both messages. */
  ghost function DoubleSigners(signed: Signed, vs: seq<Validator>, m1: Bytes, m2: Bytes): set<nat> {
    set p | 0 <= p < |vs| && signed(vs[p].publicKey, m1) && signed(vs[p].publicKey, m2)
  }

  /** At least a third, rounded up, of the positions signed commit messages for both headers, and those
      messages are for different hashes. */
  ghost predicate Accountable(crypto: Crypto, signed: Signed, vs: seq<Validator>, h1: Header, h2: Header) {
    && vs != [] && Sealable(crypto, h1) && Sealable(crypto, h2)
    && HashOf(crypto, h1) != HashOf(crypto, h2)
    && CommitMessage(crypto, h1) != CommitMessage(crypto, h2)
    && 3 * |DoubleSigners(signed, vs, CommitMessage(crypto, h1), CommitMessage(crypto, h2))| >= |vs|
  }

  lemma DifferentRootsDifferentHashes(crypto: Crypto, h1: Header, h2: Header)
    requires Distinguishable(crypto, h1, h2) && h1.root != h2.root
    ensures HashOf(crypto, h1) != HashOf(crypto, h2)
  {
    HashBinds(crypto, h1, h2);
    hide HashOf, ExtraFromRlp, Distinguishable;
    assert h1.(extra := []).root != h2.(extra := []).root;
  }

  lemma DifferentHashesDifferentMessages(crypto: Crypto, h1: Header, h2: Header)
    requires Sealable(crypto, h1) && Sealable(crypto, h2) && HashOf(crypto, h1) != HashOf(crypto, h2)
    ensures CommitMessage(crypto, h1) != CommitMessage(crypto, h2)
  {
    hide HashOf, ExtraFromRlp, PrepareCommitedSeal;
    if CommitMessage(crypto, h1) == CommitMessage(crypto, h2) {
      CommitedSealInjective(HashOf(crypto, h1).value, SealOf(h1).round, HashOf(crypto, h2).value, SealOf(h2).round);
      assert false;
    }
  }

  /** Two headers with different state roots, both sealed by the same validators: a third of them signed both. */
  lemma ConflictingSealsAreAccountable(client: Client, signed: Signed, vs: seq<Validator>, h1: Header, h2: Header)
    requires Distinguishable(client.crypto, h1, h2) && h1.root != h2.root
    requires VerifyHeaderSeal(client, vs, h1).Ok? && IdealSeal(client.crypto, signed, vs, h1)
    requires VerifyHeaderSeal(client, vs, h2).Ok? && IdealSeal(client.crypto, signed, vs, h2)
    ensures Accountable(client.crypto, signed, vs, h1, h2)
  {
    var crypto := client.crypto;
    DifferentRootsDifferentHashes(crypto, h1, h2);
    SealedByQuorum(client, signed, vs, h1);
    SealedByQuorum(client, signed, vs, h2);
    hide HashOf, ExtraFromRlp, VerifyHeaderSeal, CommitMessage, Distinguishable, IdealSeal;
    DifferentHashesDifferentMessages(crypto, h1, h2);
    QuorumIntersection(SealOf(h1).bitmap, SealOf(h2).bitmap, |vs|);
    SubsetSize(SetBits(SealOf(h1).bitmap, |vs|) * SetBits(SealOf(h2).bitmap, |vs|),
               DoubleSigners(signed, vs, CommitMessage(crypto, h1), CommitMessage(crypto, h2)));
  }

  /** When exactly a report is accepted. The client's own frozen height, if any, has to be higher. */
  lemma MisbehaviourAcceptedIff(host: Host, me: ClientState, m: Misbehaviour, cs1: ConsensusState, cs2: ConsensusState)
    ensures CheckMisbehaviour(host, me, m, cs1, cs2).Ok? <==>
      && m.header1.height == m.header2.height
      && (me.frozen && me.frozenHeight.Some? ==> m.header1.height.Rank() < me.frozenHeight.value.Rank())
      && HeaderMessage(host, m.header1.data).Ok? && HeaderMessage(host, m.header2.data).Ok?
      && HeaderMessage(host, m.header1.data).value.root != HeaderMessage(host, m.header2.data).value.root
      && CheckMisbehaviourHeader(host, me, cs1, HeaderMessage(host, m.header1.data).value).Ok?
      && CheckMisbehaviourHeader(host, me, cs2, HeaderMessage(host, m.header2.data).value).Ok?
  {
    hide HeaderMessage, CheckMisbehaviourHeader;
    if me.frozenHeight.Some? { CompareIsRankOrder(me.frozenHeight.value, m.header1.height); }
  }

  /** Why a report is refused: the first of these faults. */
  lemma MisbehaviourRefused(host: Host, me: ClientState, m: Misbehaviour, cs1: ConsensusState, cs2: ConsensusState)
    requires !CheckMisbehaviour(host, me, m, cs1, cs2).Ok?
    ensures CheckMisbehaviour(host, me, m, cs1, cs2) ==
      var header1, header2 := HeaderMessage(host, m.header1.data), HeaderMessage(host, m.header2.data);
      if m.header1.height != m.header2.height then Err(GenericErr)
      else if me.frozen && me.frozenHeight.Some? && me.frozenHeight.value.Rank() <= m.header1.height.Rank() then
        Err(GenericErr)
      else if !header1.Ok? then header1.PropagateFailure()
      else if !header2.Ok? then header2.PropagateFailure()
      else if header1.value.root == header2.value.root then Err(GenericErr)
      else if !CheckMisbehaviourHeader(host, me, cs1, header1.value).Ok? then
        CheckMisbehaviourHeader(host, me, cs1, header1.value).PropagateFailure()
      else CheckMisbehaviourHeader(host, me, cs2, header2.value).PropagateFailure()
  {
    hide HeaderMessage, CheckMisbehaviourHeader;
    MisbehaviourAcceptedIff(host, me, m, cs1, cs2);
    if me.frozenHeight.Some? { CompareIsRankOrder(me.frozenHeight.value, m.header1.height); }
  }

  /** A header of a report passes exactly if everything decodes and the trusted validators sealed it well. */
  lemma MisbehaviourHeaderPassesIff(host: Host, me: ClientState, cs: ConsensusState, h: Header)
    ensures CheckMisbehaviourHeader(host, me, cs, h).Ok? <==>
      && SnapshotMessage(host, cs.data).Ok? && ConfigMessage(host, me.data).Ok?
      && WellSealedHeader(host.crypto, SnapshotMessage(host, cs.data).value.validators, h)
    ensures SnapshotMessage(host, cs.data).Ok? && ConfigMessage(host, me.data).Ok? ==>
      var vs := SnapshotMessage(host, cs.data).value.validators;
      WellSealedHeader(host.crypto, vs, h) || CheckMisbehaviourHeader(host, me, cs, h)
        == if HeaderSealFault(host.crypto, vs, h).Panic? then Panic else Err(GenericErr)
    ensures !SnapshotMessage(host, cs.data).Ok? ==>
      CheckMisbehaviourHeader(host, me, cs, h) == SnapshotMessage(host, cs.data).PropagateFailure()
    ensures SnapshotMessage(host, cs.data).Ok? && !ConfigMessage(host, me.data).Ok? ==>
      CheckMisbehaviourHeader(host, me, cs, h) == ConfigMessage(host, me.data).PropagateFailure()
  {
    hide SnapshotMessage, ConfigMessage, VerifyHeaderSeal, WellSealedHeader, HeaderSealFault;
    if SnapshotMessage(host, cs.data).Ok? && ConfigMessage(host, me.data).Ok? {
      var client := Client(ConfigMessage(host, me.data).value, host.crypto);
      var vs := SnapshotMessage(host, cs.data).value.validators;
      SealVerifiedIff(client, vs, h);
      if !VerifyHeaderSeal(client, vs, h).Ok? { SealCheckFails(client, vs, h); }
    }
  }

  /** The report is about these headers, and both consensus states hold these validators. */
  predicate Concerns(host: Host, report: Report, vs: seq<Validator>, h1: Header, h2: Header) {
    && HeaderMessage(host, report.misbehaviour.header1.data) == Ok(h1)
    && HeaderMessage(host, report.misbehaviour.header2.data) == Ok(h2)
    && SnapshotMessage(host, report.cs1.data).Ok? && SnapshotMessage(host, report.cs1.data).value.validators == vs
    && SnapshotMessage(host, report.cs2.data).Ok? && SnapshotMessage(host, report.cs2.data).value.validators == vs
  }

  /** Accepted evidence of misbehaviour, judged against equal validator lists, names a third of them. It
      convicts them exactly if the two headers carry one block number, which the code never compares:
      otherwise all those signers may be honest. */
  lemma AccountableMisbehaviour(host: Host, signed: Signed, me: ClientState, report: Report,
                                vs: seq<Validator>, h1: Header, h2: Header)
    requires Reported(host, me, report).Ok?
    requires Concerns(host, report, vs, h1, h2) && Distinguishable(host.crypto, h1, h2)
    requires IdealSeal(host.crypto, signed, vs, h1) && IdealSeal(host.crypto, signed, vs, h2)
    ensures Accountable(host.crypto, signed, vs, h1, h2)
    ensures HonestMajority(host.crypto, signed, {h1, h2}, vs) <==> h1.number != h2.number
  {
    hide HeaderMessage, SnapshotMessage, ConfigMessage, VerifyHeaderSeal, CheckMisbehaviour, CheckMisbehaviourHeader;
    hide Distinguishable, Accountable, IdealSeal, HonestMajority, WellSealedHeader;
    MisbehaviourAcceptedIff(host, me, report.misbehaviour, report.cs1, report.cs2);
    MisbehaviourHeaderPassesIff(host, me, report.cs1, h1);
    MisbehaviourHeaderPassesIff(host, me, report.cs2, h2);
    var client := Client(ConfigMessage(host, me.data).value, host.crypto);
    SealVerifiedIff(client, vs, h1);
    SealVerifiedIff(client, vs, h2);
    ConflictingSealsAreAccountable(client, signed, vs, h1, h2);
    EvidenceConvictsIff(host.crypto, signed, vs, h1, h2);
  }

  /** If the two headers carry one block number, every double signer is faulty: with fewer than a third of
      the positions faulty there is no such evidence. */
  lemma NoEvidenceAgainstHonestMajority(crypto: Crypto, signed: Signed, seen: set<Header>, vs: seq<Validator>,
                                        h1: Header, h2: Header)
    requires Accountable(crypto, signed, vs, h1, h2) && h1.number == h2.number
    requires h1 in seen && h2 in seen
    ensures !HonestMajority(crypto, signed, seen, vs)
  {
    hide HashOf, ExtraFromRlp, CommitMessage;
    var double := DoubleSigners(signed, vs, CommitMessage(crypto, h1), CommitMessage(crypto, h2));
    forall p | p in double ensures p in FaultyPositions(crypto, signed, seen, vs) {
      assert SignedHeader(crypto, signed, vs[p].publicKey, h1) && SignedHeader(crypto, signed, vs[p].publicKey, h2);
    }
    SubsetSize(double, FaultyPositions(crypto, signed, seen, vs));
  }

  /** Evidence convicts by itself exactly if the block numbers agree. */
  lemma EvidenceConvictsIff(crypto: Crypto, signed: Signed, vs: seq<Validator>, h1: Header, h2: Header)
    requires Accountable(crypto, signed, vs, h1, h2)
    ensures HonestMajority(crypto, signed, {h1, h2}, vs) <==> h1.number != h2.number
  {
    hide HashOf, ExtraFromRlp, CommitMessage, DoubleSigners, FaultyPositions;
    if h1.number == h2.number {
      NoEvidenceAgainstHonestMajority(crypto, signed, {h1, h2}, vs, h1, h2);
    } else {
      DistinctNumbersConvictNobody(crypto, signed, {h1, h2}, vs);
    }
  }

  // ---------- reports against an honest chain ----------

  /** The message carries the header. */
  predicate CarriesHeader(host: Host, w: WasmHeader, h: Header) {
    w.data == host.base64Encode(EncodeHeader(h))
  }

  lemma CarriedHeaderDecodes(host: Host, w: WasmHeader, h: Header)
    requires Base64RoundTrips(host) && CarriesHeader(host, w, h) && HeaderFits(h)
    ensures HeaderMessage(host, w.data) == Ok(h)
  {
    HeaderRoundTrip(h, []);
    assert EncodeHeader(h) + [] == EncodeHeader(h);
    hide EncodeHeader, DecodeHeader;
    assert host.base64Decode(w.data) == Some(EncodeHeader(h));
  }

  /** The headers of a run. */
  function HeaderSet(events: seq<Event>): set<Header> {
    set e | e in events :: e.header
  }

  /** No header of a fully verified run shares its number with another one. */
  lemma RunNumbersDiffer(client: Client, states: seq<Snapshot>, events: seq<Event>, i: nat, j: nat)
    requires AcceptedRun(client, states, events) && VerifiesAll(client.config)
    requires forall k :: 0 <= k < |events| ==> events[k].header.number != 0
    requires i < j < |events|
    ensures events[i].header.number < events[j].header.number
  {
    hide InsertHeader;
    Increasing(client, states, events, i + 1, j + 1);
    MonotoneStep(client, states[i], events[i].header, events[i].now, states[i + 1]);
    MonotoneStep(client, states[j], events[j].header, events[j].now, states[j + 1]);
  }

  /** A chain convicts nobody, whoever signed its blocks. */
  lemma ChainConvictsNobody(client: Client, signed: Signed, states: seq<Snapshot>, events: seq<Event>,
                            vs: seq<Validator>)
    requires AcceptedRun(client, states, events) && VerifiesAll(client.config)
    requires forall k :: 0 <= k < |events| ==> events[k].header.number != 0
    ensures FaultyPositions(client.crypto, signed, HeaderSet(events), vs) == {}
  {
    hide InsertHeader, FaultyPositions;
    var seen := HeaderSet(events);
    forall g, h | g in seen && h in seen && g.number == h.number ensures g == h {
      var i: nat :| i < |events| && events[i].header == g;
      var j: nat :| j < |events| && events[j].header == h;
      if i < j {
        RunNumbersDiffer(client, states, events, i, j);
      } else if j < i {
        RunNumbersDiffer(client, states, events, j, i);
      }
    }
    DistinctNumbersConvictNobody(client.crypto, signed, seen, vs);
  }

  /** A report that carries a consensus state and the header accepted on top of it passes for that header. */
  lemma AcceptedHeaderPasses(host: Host, me: ClientState, client: Client, cs: ConsensusState,
                             s: Snapshot, e: Event, s': Snapshot)
    requires Base64RoundTrips(host) && Carries(host, cs, s) && SnapshotFits(s)
    requires ConfigMessage(host, me.data) == Ok(client.config) && client.crypto == host.crypto
    requires VerifiesAll(client.config) && e.header.number != 0
    requires InsertHeader(client, s, e.header, e.now) == (s', Ok(()))
    ensures CheckMisbehaviourHeader(host, me, cs, e.header).Ok?
  {
    hide InsertHeader, VerifyHeaderSeal, WellSealedHeader, SealedBy, EndsEpoch;
    hide ConfigMessage, SnapshotMessage, EncodeSnapshot, SnapshotFits;
    CarriedSnapshotDecodes(host, cs, s);
    SealedStep(client, s, e.header, e.now, s');
    SealVerifiedIff(client, s.validators, e.header);
    assert Client(ConfigMessage(host, me.data).value, host.crypto) == client;
    MisbehaviourHeaderPassesIff(host, me, cs, e.header);
  }

  /** Any two blocks of one accepted chain with different state roots, each reported with the consensus state
      it was accepted on and under one message height, freeze the client, although nobody misbehaved. */
  lemma HonestChainFreezes(host: Host, signed: Signed, me: ClientState, client: Client, report: Report,
                           states: seq<Snapshot>, events: seq<Event>, i: nat, j: nat, vs: seq<Validator>)
    requires Base64RoundTrips(host) && ConfigMessage(host, me.data) == Ok(client.config) && client.crypto == host.crypto
    requires AcceptedRun(client, states, events) && VerifiesAll(client.config)
    requires forall k :: 0 <= k < |events| ==> events[k].header.number != 0
    requires i < |events| && j < |events| && events[i].header.root != events[j].header.root
    requires HeaderFits(events[i].header) && SnapshotFits(states[i]) && Carries(host, report.cs1, states[i])
    requires HeaderFits(events[j].header) && SnapshotFits(states[j]) && Carries(host, report.cs2, states[j])
    requires CarriesHeader(host, report.misbehaviour.header1, events[i].header)
    requires CarriesHeader(host, report.misbehaviour.header2, events[j].header)
    requires report.misbehaviour.header1.height == report.misbehaviour.header2.height
    requires me.frozen && me.frozenHeight.Some? ==>
      report.misbehaviour.header1.height.Rank() < me.frozenHeight.value.Rank()
    ensures Reported(host, me, report).Ok?
    ensures FaultyPositions(client.crypto, signed, HeaderSet(events), vs) == {}
  {
    ChainConvictsNobody(client, signed, states, events, vs);
    hide InsertHeader, FaultyPositions, HeaderMessage, ConfigMessage, CheckMisbehaviour, CheckMisbehaviourHeader;
    hide CarriesHeader, Carries, HeaderFits, SnapshotFits, HeaderSet;
    CarriedHeaderDecodes(host, report.misbehaviour.header1, events[i].header);
    CarriedHeaderDecodes(host, report.misbehaviour.header2, events[j].header);
    AcceptedHeaderPasses(host, me, client, report.cs1, states[i], events[i], states[i + 1]);
    AcceptedHeaderPasses(host, me, client, report.cs2, states[j], events[j], states[j + 1]);
    MisbehaviourAcceptedIff(host, me, report.misbehaviour, report.cs1, report.cs2);
  }

  // ---------- freezing ----------

  function Reported(host: Host, me: ClientState, report: Report): Outcome<ClientState, StdError> {
    CheckMisbehaviour(host, me, report.misbehaviour, report.cs1, report.cs2)
  }

  /** Client states along a run of accepted misbehaviour reports. */
  ghost predicate FreezingRun(host: Host, states: seq<ClientState>, reports: seq<Report>) {
    && |states| == |reports| + 1
    && forall i {:trigger Reported(host, states[i], reports[i])} :: 0 <= i < |reports| ==>
         Reported(host, states[i], reports[i]) == Ok(states[i + 1])
  }

  lemma FreezeStep(host: Host, me: ClientState, report: Report, me': ClientState)
    requires Reported(host, me, report) == Ok(me')
    ensures me'.frozen && me'.frozenHeight == Some(report.misbehaviour.header1.height)
    ensures me' == me.(frozen := true, frozenHeight := me'.frozenHeight)
    ensures me.frozen && me.frozenHeight.Some? ==> me'.frozenHeight.value.Rank() < me.frozenHeight.value.Rank()
  {
    hide HeaderMessage, CheckMisbehaviourHeader;
    if me.frozenHeight.Some? { CompareIsRankOrder(me.frozenHeight.value, report.misbehaviour.header1.height); }
  }

  /** Once frozen a client stays frozen, at strictly lower heights with every report; hence the height of
      the first report bounds how many more can be accepted. */
  lemma {:induction false} FreezingDescends(host: Host, states: seq<ClientState>, reports: seq<Report>)
    requires FreezingRun(host, states, reports)
    ensures forall i :: 1 <= i < |states| ==> states[i].frozen && states[i].frozenHeight.Some?
    ensures forall i, j :: 1 <= i < j < |states| ==>
      states[j].frozenHeight.value.Compare(states[i].frozenHeight.value) == Less
    ensures |reports| > 0 ==> |reports| <= states[1].frozenHeight.value.Rank() + 1
  {
    FreezingRanks(host, states, reports);
    hide Reported;
    var last := |reports|;
    assert last > 1 ==> states[last].frozenHeight.value.Rank() + (last - 1) <= states[1].frozenHeight.value.Rank();
    forall i, j | 1 <= i < j < |states|
      ensures states[j].frozenHeight.value.Compare(states[i].frozenHeight.value) == Less
    {
      CompareIsRankOrder(states[j].frozenHeight.value, states[i].frozenHeight.value);
    }
  }

  lemma {:induction false} FreezingRanks(host: Host, states: seq<ClientState>, reports: seq<Report>)
    requires FreezingRun(host, states, reports)
    ensures forall i :: 1 <= i < |states| ==> states[i].frozen && states[i].frozenHeight.Some?
    ensures forall i, j :: 1 <= i < j < |states| ==>
      states[j].frozenHeight.value.Rank() + (j - i) <= states[i].frozenHeight.value.Rank()
  {
    hide Reported;
    if reports == [] {
    } else {
      var last := |reports| - 1;
      var shorter := states[..|reports|];
      assert FreezingRun(host, shorter, reports[..last]);
      FreezingRanks(host, shorter, reports[..last]);
      assert forall i :: 0 <= i < |shorter| ==> shorter[i] == states[i];
      FreezeStep(host, states[last], reports[last], states[|reports|]);
      forall i, j | 1 <= i < j < |states|
        ensures states[j].frozenHeight.value.Rank() + (j - i) <= states[i].frozenHeight.value.Rank()
      {
        if j == |reports| && i < last {
          assert shorter[last].frozenHeight.value.Rank() + (last - i) <= shorter[i].frozenHeight.value.Rank();
        } else if j < |reports| {
          assert shorter[j].frozenHeight.value.Rank() + (j - i) <= shorter[i].frozenHeight.value.Rank();
        }
      }
    }
  }
}
