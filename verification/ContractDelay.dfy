/** The delay period over whole histories of the contract's own steps. */
module ContractDelay {
  import opened Outcomes
  import opened Ibc
  import opened Store
  import opened Delay
  import opened Contract

  /** The store after a sequence of operations, failed ones included. */
  function StoreAfterAll(host: Host, data: Data, ops: seq<Operation>): Data {
    if ops == [] then data
    else
      var last := |ops| - 1;
      StoreAfter(host, host.json, StoreAfterAll(host, data, ops[..last]), ops[last])
  }

  /** The metadata writes the operations carry out. */
  function MetaWrites(host: Host, ops: seq<Operation>): seq<Write> {
    if ops == [] then []
    else
      var last := |ops| - 1;
      var before := MetaWrites(host, ops[..last]);
      if Succeeds(host, ops[last]) then before + [WriteOf(host, ops[last])] else before
  }

  function WriteOf(host: Host, op: Operation): Write
    requires Succeeds(host, op)
  {
    MetaWrite(EmptyPrefix, RecordedHeight(host, op), op.block)
  }

  /** The operation succeeds and records metadata for `h`. */
  predicate Records(host: Host, op: Operation, h: Height) {
    Succeeds(host, op) && RecordedHeight(host, op) == h
  }

  predicate NotLater(b: Block, c: Block) {
    b.time <= c.time && b.height <= c.height
  }

  /** Block time and height never go back from one operation to a later one, nor past `now`. */
  predicate InOrder(ops: seq<Operation>, now: Block) {
    && (forall i, j :: 0 <= i < j < |ops| ==> NotLater(ops[i].block, ops[j].block))
    && (forall i :: 0 <= i < |ops| ==> NotLater(ops[i].block, now))
  }

  lemma {:induction false} StoreIsReplay(host: Host, data: Data, ops: seq<Operation>)
    ensures StoreAfterAll(host, data, ops) == Replay(host.json, data, MetaWrites(host, ops))
  {
    hide Succeeds, WithConsensusMeta, RecordedHeight;
    if ops == [] {
    } else {
      var last := |ops| - 1;
      StoreIsReplay(host, data, ops[..last]);
      if Succeeds(host, ops[last]) {
        var before := MetaWrites(host, ops[..last]);
        assert (before + [WriteOf(host, ops[last])])[..|before|] == before;
      }
    }
  }

  /** The writes are those of the successful operations. */
  lemma {:induction false} WritesAreRecords(host: Host, ops: seq<Operation>)
    ensures forall i :: 0 <= i < |ops| && Succeeds(host, ops[i]) ==> WriteOf(host, ops[i]) in MetaWrites(host, ops)
    ensures forall w :: w in MetaWrites(host, ops) ==>
      exists i :: 0 <= i < |ops| && Succeeds(host, ops[i]) && w == WriteOf(host, ops[i])
  {
    hide Succeeds, RecordedHeight;
    if ops == [] {
    } else {
      var before := ops[..|ops| - 1];
      WritesAreRecords(host, before);
      forall w | w in MetaWrites(host, before)
        ensures exists i :: 0 <= i < |ops| && Succeeds(host, ops[i]) && w == WriteOf(host, ops[i])
      {
        var i :| 0 <= i < |before| && Succeeds(host, before[i]) && w == WriteOf(host, before[i]);
        assert ops[i] == before[i];
      }
    }
  }

  lemma {:induction false} WritesAreChronological(host: Host, ops: seq<Operation>, now: Block)
    requires InOrder(ops, now)
    ensures Chronological(MetaWrites(host, ops), now)
  {
    hide Succeeds, RecordedHeight;
    if ops == [] {
    } else {
      var last := |ops| - 1;
      WritesAreChronological(host, ops[..last], ops[last].block);
    }
  }

  /** When exactly a delay check passes in the life of a contract: some successful step recorded the height,
      and every such step is old enough, in time and in blocks. */
  lemma ContractDelayIff(host: Host, ops: seq<Operation>, h: Height, now: Block, delayTime: u64, delayBlocks: u64)
    requires JsonRoundTrips(host.json) && InOrder(ops, now)
    ensures VerifyDelayPeriodPassed(host.json, StoreAfterAll(host, map[], ops), h, now, delayTime, delayBlocks).Ok? <==>
      && (exists i :: 0 <= i < |ops| && Records(host, ops[i], h))
      && (forall i :: 0 <= i < |ops| && Records(host, ops[i], h) ==>
            ops[i].block.time + delayTime <= now.time && ops[i].block.height + delayBlocks <= now.height)
  {
    hide VerifyDelayPeriodPassed, Replay, Succeeds, RecordedHeight, InOrder, Chronological;
    StoreIsReplay(host, map[], ops);
    WritesAreRecords(host, ops);
    WritesAreChronological(host, ops, now);
    hide MetaWrites, StoreAfterAll;
    var writes := MetaWrites(host, ops);
    DelayPassesIff(host.json, writes, h, now, delayTime, delayBlocks);
    forall i | 0 <= i < |ops| && Records(host, ops[i], h)
      ensures exists k :: 0 <= k < |writes| && WritesMetaOf(writes[k], h) && writes[k].block == ops[i].block
    {
      var k :| 0 <= k < |writes| && writes[k] == WriteOf(host, ops[i]);
    }
    forall k | 0 <= k < |writes| && WritesMetaOf(writes[k], h)
      ensures exists i :: 0 <= i < |ops| && Records(host, ops[i], h) && writes[k].block == ops[i].block
    {
      assert writes[k] in writes;
      var i :| 0 <= i < |ops| && Succeeds(host, ops[i]) && writes[k] == WriteOf(host, ops[i]);
    }
  }

  /** Once passed it passes in later blocks, whatever the contract does meanwhile, until a step records the
      height again. */
  lemma ContractDelayStaysPassed(host: Host, data: Data, ops: seq<Operation>, h: Height, now: Block, later: Block,
                                 delayTime: u64, delayBlocks: u64)
    requires JsonRoundTrips(host.json) && NotLater(now, later)
    requires VerifyDelayPeriodPassed(host.json, data, h, now, delayTime, delayBlocks).Ok?
    requires forall op :: op in ops ==> !Records(host, op, h)
    ensures VerifyDelayPeriodPassed(host.json, StoreAfterAll(host, data, ops), h, later, delayTime, delayBlocks).Ok?
  {
    hide VerifyDelayPeriodPassed, Replay, Succeeds, RecordedHeight;
    StoreIsReplay(host, data, ops);
    WritesAreRecords(host, ops);
    forall w | w in MetaWrites(host, ops) ensures !WritesMetaOf(w, h) {
      var i :| 0 <= i < |ops| && Succeeds(host, ops[i]) && w == WriteOf(host, ops[i]);
      assert ops[i] in ops && !Records(host, ops[i], h);
    }
    DelayStaysPassed(host.json, data, MetaWrites(host, ops), h, now, later, delayTime, delayBlocks);
  }
}
