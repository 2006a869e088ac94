/** `src/contract/mod.rs`: the steps of the IBC client contract. */
module Contract {
  import opened Outcomes
  import opened Bytes
  import opened Errors
  import opened Crypto
  import opened HeaderTypes
  import opened SnapshotTypes
  import opened Bls
  import opened Consensus
  import opened Ibc
  import opened Store
  import IbftState

  // ---------- messages ----------

  /** The encodings around the consensus core that come from elsewhere: base64, JSON, and the derived
      decoding of the configuration a client state carries. */
  datatype Host = Host(
    crypto: Crypto,
    json: Json,
    base64Encode: Bytes -> string,
    base64Decode: string -> Option<Bytes>,
    decodeConfig: Bytes -> Outcome<Config, Kind>)

  ghost predicate Base64RoundTrips(host: Host) {
    forall b: Bytes :: host.base64Decode(host.base64Encode(b)) == Some(b)
  }

  datatype ClientState = ClientState(
    data: string,
    codeId: string,
    frozen: bool,
    frozenHeight: Option<Height>,
    latestHeight: Option<Height>)

  datatype ConsensusState = ConsensusState(codeId: string, data: string, timestamp: u64, root: string)

  datatype WasmHeader = WasmHeader(data: string, height: Height)

  datatype Misbehaviour = Misbehaviour(codeId: string, clientId: string, header1: WasmHeader, header2: WasmHeader)

  function FromBase64(host: Host, data: string): Outcome<Bytes, StdError> {
    match host.base64Decode(data)
    case Some(b) => Ok(b)
    case None => Err(ParseErr)
  }

  function HeaderMessage(host: Host, data: string): Outcome<Header, StdError> {
    var bytes :- FromBase64(host, data);
    HeaderFromRlp(bytes).MapErr(ParseErr)
  }

  function SnapshotMessage(host: Host, data: string): Outcome<Snapshot, StdError> {
    var bytes :- FromBase64(host, data);
    SnapshotFromRlp(bytes).MapErr(ParseErr)
  }

  function ConfigMessage(host: Host, data: string): Outcome<Config, StdError> {
    var bytes :- FromBase64(host, data);
    host.decodeConfig(bytes).MapErr(ParseErr)
  }

  /** What the messages read as: neither base64 nor the codec adds a panic, and every error is a parse error. */
  lemma MessagesRead(host: Host, data: string)
    ensures host.base64Decode(data).None? ==>
      && HeaderMessage(host, data) == Err(ParseErr) && SnapshotMessage(host, data) == Err(ParseErr)
      && ConfigMessage(host, data) == Err(ParseErr)
    ensures host.base64Decode(data).Some? ==>
      var b := host.base64Decode(data).value;
      && HeaderMessage(host, data) == DecodeHeader(b).MapErr(ParseErr)
      && SnapshotMessage(host, data) == DecodeSnapshot(b).MapErr(ParseErr)
      && ConfigMessage(host, data) == host.decodeConfig(b).MapErr(ParseErr)
  {
    hide DecodeHeader, DecodeSnapshot;
  }

  // ---------- steps ----------

  /** `check_header_and_update_state` without its metadata write: the consensus state handed back. */
  function UpdatedConsensusState(host: Host, me: ClientState, cs: ConsensusState, wasmHeader: WasmHeader, now: u64)
    : Outcome<ConsensusState, StdError>
  {
    var header :- HeaderMessage(host, wasmHeader.data);
    var snapshot :- SnapshotMessage(host, cs.data);
    var config :- ConfigMessage(host, me.data);
    var (snapshot', inserted) := InsertHeader(Client(config, host.crypto), snapshot, header, now);
    var _ :- inserted.MapErr(GenericErr);
    Ok(EncodedState(host, cs.codeId, snapshot', header))
  }

  function EncodedState(host: Host, codeId: string, s: Snapshot, header: Header): ConsensusState {
    ConsensusState(codeId, host.base64Encode(EncodeSnapshot(s)), header.time, host.base64Encode(header.root))
  }

  function CheckMisbehaviourHeader(host: Host, me: ClientState, cs: ConsensusState, header: Header)
    : Outcome<(), StdError>
  {
    var snapshot :- SnapshotMessage(host, cs.data);
    var config :- ConfigMessage(host, me.data);
    VerifyHeaderSeal(Client(config, host.crypto), snapshot.validators, header).MapErr(GenericErr)
  }

  /** `check_misbehaviour`: the client state handed back, frozen at the height of the evidence. */
  function CheckMisbehaviour(host: Host, me: ClientState, m: Misbehaviour, cs1: ConsensusState, cs2: ConsensusState)
    : Outcome<ClientState, StdError>
  {
    if m.header1.height != m.header2.height then Err(GenericErr)
    else if me.frozen && me.frozenHeight.Some? && me.frozenHeight.value.Compare(m.header1.height) != Greater then
      Err(GenericErr)
    else
      var header1 :- HeaderMessage(host, m.header1.data);
      var header2 :- HeaderMessage(host, m.header2.data);
      if header1.root == header2.root then Err(GenericErr)
      else
        var _ :- CheckMisbehaviourHeader(host, me, cs1, header1);
        var _ :- CheckMisbehaviourHeader(host, me, cs2, header2);
        Ok(me.(frozen := true, frozenHeight := Some(m.header1.height)))
  }

  /** The steps that write to storage, with the block each runs in. */
  datatype Operation =
    | Init(block: Block, cs: ConsensusState, me: ClientState)
    | Update(block: Block, me: ClientState, cs: ConsensusState, wasmHeader: WasmHeader)

  /** The consensus state carries a snapshot whose own validators sealed it. */
  predicate VerifiedState(host: Host, cs: ConsensusState) {
    && SnapshotMessage(host, cs.data).Ok?
    && var s := SnapshotMessage(host, cs.data).value;
    && WellSealed(host.crypto, s.validators, s.hash, s.aggregatedSeal)
  }

  predicate Succeeds(host: Host, op: Operation) {
    match op
    case Init(_, cs, me) =>
      && VerifiedState(host, cs)
      && me.latestHeight.Some?
    case Update(block, me, cs, wasmHeader) =>
      UpdatedConsensusState(host, me, cs, wasmHeader, block.time).Ok?
  }

  /** The height a successful operation records metadata for. */
  function RecordedHeight(host: Host, op: Operation): Height
    requires Succeeds(host, op)
  {
    match op
    case Init(_, _, me) => me.latestHeight.value
    case Update(_, _, _, wasmHeader) => wasmHeader.height
  }

  function StoreAfter(host: Host, json: Json, data: Data, op: Operation): Data {
    if Succeeds(host, op) then WithConsensusMeta(json, data, op.block, EmptyPrefix, RecordedHeight(host, op)) else data
  }

  class LightClientContract {
    const host: Host
    const storage: Storage

    constructor (host: Host, storage: Storage)
      requires storage.json == host.json
      ensures this.host == host && this.storage == storage
    {
      this.host := host;
      this.storage := storage;
    }

    /** `init_contract`: the initial state has to verify; its metadata is then recorded. */
    method InitContract(block: Block, cs: ConsensusState, me: ClientState) returns (r: Outcome<ClientState, StdError>)
      modifies storage
      ensures r.Ok? <==>
        && VerifiedState(host, cs)
        && me.latestHeight.Some?
      ensures r.Ok? ==> r.value == me
      ensures VerifiedState(host, cs) && me.latestHeight.None? ==> r.Panic?
      ensures SnapshotMessage(host, cs.data).Ok? && !VerifiedState(host, cs) ==>
        r == if SnapshotMessage(host, cs.data).value.validators == [] then Panic else Err(GenericErr)
      ensures !SnapshotMessage(host, cs.data).Ok? ==> r == SnapshotMessage(host, cs.data).PropagateFailure()
      ensures r.Ok? <==> Succeeds(host, Init(block, cs, me))
      ensures storage.data == StoreAfter(host, storage.json, old(storage.data), Init(block, cs, me))
    {
      hide SnapshotMessage, WellSealed, VerifyAggregatedSeal;
      var snapshot :- SnapshotMessage(host, cs.data);
      SnapshotVerifiedIff(host.crypto, snapshot);
      var verified := VerifySnapshot(host.crypto, snapshot);
      if !verified.Ok? {
        SealTurnedDown(host.crypto, snapshot.hash, snapshot.validators, snapshot.aggregatedSeal);
        return verified.MapErr(GenericErr).PropagateFailure();
      }
      if me.latestHeight.None? {
        return Panic;
      }
      storage.SetConsensusMeta(block, EmptyPrefix, me.latestHeight.value);
      r := Ok(me);
    }

    /** `check_header_and_update_state`: metadata is recorded for the height the message names, and only if
        the header was accepted. */
    method CheckHeaderAndUpdateState(block: Block, me: ClientState, cs: ConsensusState, wasmHeader: WasmHeader)
      returns (r: Outcome<(ClientState, ConsensusState), StdError>)
      modifies storage
      ensures r == match UpdatedConsensusState(host, me, cs, wasmHeader, block.time)
        case Ok(cs') => Ok((me, cs'))
        case Err(e) => Err(e)
        case Panic => Panic
      ensures r.Ok? ==>
        && HeaderMessage(host, wasmHeader.data).Ok?
        && SnapshotMessage(host, cs.data).Ok? && ConfigMessage(host, me.data).Ok?
        && var header := HeaderMessage(host, wasmHeader.data).value;
        && var client := Client(ConfigMessage(host, me.data).value, host.crypto);
        && var (s', inserted) := InsertHeader(client, SnapshotMessage(host, cs.data).value, header, block.time);
        && inserted.Ok? && r.value.0 == me
        && r.value.1.codeId == cs.codeId && r.value.1.timestamp == header.time
        && r.value.1.data == host.base64Encode(EncodeSnapshot(s')) && r.value.1.root == host.base64Encode(header.root)
      ensures r.Ok? <==> Succeeds(host, Update(block, me, cs, wasmHeader))
      ensures storage.data == StoreAfter(host, storage.json, old(storage.data), Update(block, me, cs, wasmHeader))
    {
      hide InsertHeader, EncodeSnapshot, HeaderMessage, SnapshotMessage, ConfigMessage, WithConsensusMeta;
      var header :- HeaderMessage(host, wasmHeader.data);
      var snapshot :- SnapshotMessage(host, cs.data);
      var config :- ConfigMessage(host, me.data);
      var state := new IbftState.State(snapshot, Client(config, host.crypto));
      var inserted := state.InsertHeader(header, block.time);
      if !inserted.Ok? {
        return inserted.MapErr(GenericErr).PropagateFailure();
      }
      var newConsensusState := EncodedState(host, cs.codeId, state.snapshot, header);
      storage.SetConsensusMeta(block, EmptyPrefix, wasmHeader.height);
      r := Ok((me, newConsensusState));
    }
  }
}
