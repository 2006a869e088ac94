/** `src/state.rs` as the object it is: `State` owns a snapshot and overwrites it. */
module IbftState {
  import opened Outcomes
  import opened Bytes
  import opened Bits
  import opened Errors
  import opened IstanbulTypes
  import opened HeaderTypes
  import opened SnapshotTypes
  import opened Istanbul
  import opened HeaderHash
  import opened Consensus

  class State {
    var snapshot: Snapshot
    const client: Client

    constructor (snapshot: Snapshot, client: Client)
      ensures this.snapshot == snapshot && this.client == client
    {
      this.snapshot := snapshot;
      this.client := client;
    }

    method AddValidators(validators: seq<Validator>) returns (ok: bool)
      modifies this
      ensures ok <==> !SharesAddress(old(snapshot.validators), validators)
      ensures snapshot == if ok then old(snapshot).(validators := old(snapshot.validators) + validators)
                          else old(snapshot)
    {
      var newAddresses: map<Address, bool> := map[];
      for i := 0 to |validators|
        invariant forall j :: 0 <= j < i ==> validators[j].address in newAddresses
        invariant forall a :: a in newAddresses ==> exists j :: 0 <= j < i && validators[j].address == a
      {
        newAddresses := newAddresses[validators[i].address := true];
      }
      for i := 0 to |snapshot.validators|
        invariant snapshot == old(snapshot)
        invariant forall k, j :: 0 <= k < i && 0 <= j < |validators| ==>
          snapshot.validators[k].address != validators[j].address
      {
        if snapshot.validators[i].address in newAddresses {
          return false;
        }
      }
      snapshot := snapshot.(validators := snapshot.validators + validators);
      ok := true;
    }

    method RemoveValidators(removedValidators: nat) returns (ok: bool)
      modifies this
      ensures ok <==> Removable(old(snapshot.validators), removedValidators)
      ensures snapshot == if ok
                          then old(snapshot).(validators := Remaining(old(snapshot.validators), removedValidators))
                          else old(snapshot)
    {
      if BitLength(removedValidators) == 0 {
        NothingRemoved(snapshot.validators);
        return true;
      }
      if BitLength(removedValidators) > |snapshot.validators| {
        return false;
      }
      snapshot := snapshot.(validators := Select(snapshot.validators, removedValidators, false));
      ok := true;
    }

    method InsertHeader(header: Header, now: u64) returns (r: Outcome<(), Kind>)
      modifies this
      ensures (snapshot, r) == Consensus.InsertHeader(client, old(snapshot), header, now)
    {
      if header.number >= U64_LIMIT || client.config.epochSize == 0 {
        return Panic;
      }
      if IsLastBlockOfEpoch(header.number, client.config.epochSize) {
        r := StoreEpochHeader(header, now);
      } else {
        r := StoreNonEpochHeader(header, now);
      }
    }

    method StoreNonEpochHeader(header: Header, now: u64) returns (r: Outcome<(), Kind>)
      modifies this
      ensures (snapshot, r) == Consensus.StoreNonEpochHeader(client, old(snapshot), header, now)
    {
      hide HashOf, ExtraFromRlp, Consensus.VerifyHeader;
      if client.config.verifyNonEpochHeaders && header.number != 0 {
        var _ :- Consensus.VerifyHeader(client, snapshot, header, now);
      }
      var extra :- ExtraFromRlp(header.extra);
      var number :- CheckedU64<Kind>(header.number);
      var headerHash :- HashOf(client.crypto, header);
      snapshot := Snapshot(number, header.time, snapshot.validators, headerHash, extra.aggregatedSeal);
      r := Ok(());
    }

    method StoreEpochHeader(header: Header, now: u64) returns (r: Outcome<(), Kind>)
      modifies this
      ensures (snapshot, r) == Consensus.StoreEpochHeader(client, old(snapshot), header, now)
    {
      hide HashOf, ExtraFromRlp, Consensus.VerifyHeader;
      if client.config.verifyEpochHeaders && header.number != 0 {
        var _ :- Consensus.VerifyHeader(client, snapshot, header, now);
      }
      var headerHash :- HashOf(client.crypto, header);
      var extra :- ExtraFromRlp(header.extra);

      // addresses and keys become validators
      if |extra.addedValidators| != |extra.addedValidatorsPublicKeys| {
        return Err(InvalidValidatorSetDiff(KeysDoNotMatchAddresses));
      }
      var validators: seq<Validator> := [];
      for i := 0 to |extra.addedValidators|
        invariant snapshot == old(snapshot)
        invariant validators == AddedValidators(extra)[..i]
      {
        validators := validators + [Validator(extra.addedValidators[i], extra.addedValidatorsPublicKeys[i])];
      }
      assert validators == AddedValidators(extra);

      // the changeset is applied in place
      var removed := RemoveValidators(extra.removedValidators);
      if !removed {
        return Err(InvalidValidatorSetDiff(CannotRemove));
      }
      var added := AddValidators(validators);
      if !added {
        return Err(InvalidValidatorSetDiff(CannotAdd));
      }
      var number :- CheckedU64<Kind>(header.number);
      snapshot := Snapshot(number, header.time, snapshot.validators, headerHash, extra.aggregatedSeal);
      r := Ok(());
    }
  }
}
