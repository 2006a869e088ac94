/** `verify_delay_period_passed` of `src/contract/mod.rs`, over whole histories of store writes. */
module Delay {
  import opened Outcomes
  import opened Bytes
  import opened Ibc
  import opened Store

  function VerifyDelayPeriodPassed(json: Json, data: Data, proofHeight: Height, now: Block,
                                   delayTimePeriod: u64, delayBlockPeriod: u64): Outcome<(), StdError> {
    var processedTime :- GetProcessedTime(json, data, EmptyPrefix, proofHeight);
    var validTime :- CheckedU64<StdError>(processedTime + delayTimePeriod);
    if now.time < validTime then Err(GenericErr)
    else
      var processedHeight :- GetProcessedHeight(json, data, EmptyPrefix, proofHeight);
      var validRevisionHeight :- CheckedU64<StdError>(processedHeight.revisionHeight + delayBlockPeriod);
      if GetSelfHeight(now.height).Compare(Height(processedHeight.revisionNumber, validRevisionHeight)) == Less
      then Err(GenericErr) else Ok(())
  }

  /** A write to the store: the metadata of a height, or the bytes of a consensus state. */
  datatype Write =
    | MetaWrite(prefix: KeyPrefix, height: Height, block: Block)
    | StateWrite(prefix: KeyPrefix, height: Height, bytes: Bytes)

  function Apply(json: Json, data: Data, w: Write): Data {
    match w
    case MetaWrite(prefix, height, block) => WithConsensusMeta(json, data, block, prefix, height)
    case StateWrite(prefix, height, bytes) => data[Key(ConsensusStateKey, prefix, height) := bytes]
  }

  function Replay(json: Json, data: Data, writes: seq<Write>): Data {
    if writes == [] then data else Apply(json, Replay(json, data, writes[..|writes| - 1]), writes[|writes| - 1])
  }

  /** The write sets the metadata a delay check for `h` reads. */
  predicate WritesMetaOf(w: Write, h: Height) {
    w.MetaWrite? && w.prefix == EmptyPrefix && w.height == h
  }

  /** Block height and time never go back from one metadata write to a later one, nor past `now`. */
  predicate Chronological(writes: seq<Write>, now: Block) {
    && (forall i, j :: 0 <= i < j < |writes| && writes[i].MetaWrite? && writes[j].MetaWrite? ==>
          writes[i].block.height <= writes[j].block.height && writes[i].block.time <= writes[j].block.time)
    && (forall i :: 0 <= i < |writes| && writes[i].MetaWrite? ==>
          writes[i].block.height <= now.height && writes[i].block.time <= now.time)
  }

  /** The block of the last metadata write for `h`. */
  function LastMeta(writes: seq<Write>, h: Height): Option<Block> {
    if writes == [] then None
    else
      var last := writes[|writes| - 1];
      if WritesMetaOf(last, h) then Some(last.block) else LastMeta(writes[..|writes| - 1], h)
  }

  /** Among chronological writes for `h` the last one is the latest. */
  lemma {:induction false} LastMetaIsLatest(writes: seq<Write>, h: Height, now: Block)
    requires Chronological(writes, now)
    ensures match LastMeta(writes, h)
      case Some(b) =>
        && (exists i :: 0 <= i < |writes| && WritesMetaOf(writes[i], h) && writes[i].block == b)
        && (forall i :: 0 <= i < |writes| && WritesMetaOf(writes[i], h) ==>
              writes[i].block.time <= b.time && writes[i].block.height <= b.height)
      case None => forall i :: 0 <= i < |writes| ==> !WritesMetaOf(writes[i], h)
  {
    if writes == [] || WritesMetaOf(writes[|writes| - 1], h) {
    } else {
      var before := writes[..|writes| - 1];
      assert forall i :: 0 <= i < |before| ==> before[i] == writes[i];
      LastMetaIsLatest(before, h, now);
    }
  }

  /** What the store holds for `h` is what the last such write put there, or what was there before. */
  lemma {:induction false} ReplayedMeta(json: Json, data: Data, writes: seq<Write>, h: Height)
    requires JsonRoundTrips(json)
    ensures var after := Replay(json, data, writes);
      match LastMeta(writes, h)
      case Some(b) =>
        && GetProcessedTime(json, after, EmptyPrefix, h) == Ok(b.time)
        && GetProcessedHeight(json, after, EmptyPrefix, h) == Ok(GetSelfHeight(b.height))
      case None =>
        && GetProcessedTime(json, after, EmptyPrefix, h) == GetProcessedTime(json, data, EmptyPrefix, h)
        && GetProcessedHeight(json, after, EmptyPrefix, h) == GetProcessedHeight(json, data, EmptyPrefix, h)
  {
    hide Key, GetProcessedTime, GetProcessedHeight, Apply;
    if writes == [] {
    } else {
      var n := |writes| - 1;
      ReplayedMeta(json, data, writes[..n], h);
      WriteEffect(json, Replay(json, data, writes[..n]), writes[n], h);
    }
  }

  lemma WriteEffect(json: Json, data: Data, w: Write, h: Height)
    requires JsonRoundTrips(json)
    ensures var after := Apply(json, data, w);
      if WritesMetaOf(w, h) then
        && GetProcessedTime(json, after, EmptyPrefix, h) == Ok(w.block.time)
        && GetProcessedHeight(json, after, EmptyPrefix, h) == Ok(GetSelfHeight(w.block.height))
      else
        && GetProcessedTime(json, after, EmptyPrefix, h) == GetProcessedTime(json, data, EmptyPrefix, h)
        && GetProcessedHeight(json, after, EmptyPrefix, h) == GetProcessedHeight(json, data, EmptyPrefix, h)
  {
    hide Key;
    match w
    case MetaWrite(prefix, height, block) =>
      MetaReadsBack(json, data, block, prefix, height);
    case StateWrite(prefix, height, bytes) =>
      KindsTellApart(ProcessedTimeKey, h, prefix, height);
      KindsTellApart(ProcessedHeightKey, h, prefix, height);
  }

  lemma KindsTellApart(k: KeyKind, h: Height, prefix: KeyPrefix, height: Height)
    requires k != ConsensusStateKey
    ensures Key(k, EmptyPrefix, h) != Key(ConsensusStateKey, prefix, height)
  {
    hide Key;
    if Key(k, EmptyPrefix, h) == Key(ConsensusStateKey, prefix, height) {
      KeysInjective(k, EmptyPrefix, h, ConsensusStateKey, prefix, height);
    }
  }

  /** The check on metadata that reads back. */
  lemma DelayOnMeta(json: Json, data: Data, h: Height, written: Block, now: Block, delayTime: u64, delayBlocks: u64)
    requires GetProcessedTime(json, data, EmptyPrefix, h) == Ok(written.time)
    requires GetProcessedHeight(json, data, EmptyPrefix, h) == Ok(GetSelfHeight(written.height))
    ensures VerifyDelayPeriodPassed(json, data, h, now, delayTime, delayBlocks).Ok? <==>
      written.time + delayTime <= now.time && written.height + delayBlocks <= now.height
  {
    hide GetProcessedTime, GetProcessedHeight;
  }

  /** What the check says of metadata that reads back: time comes before height, and a deadline beyond 64 bits
      panics. */
  lemma DelayOutcome(json: Json, data: Data, h: Height, time: u64, height: Height, now: Block,
                     delayTime: u64, delayBlocks: u64)
    requires GetProcessedTime(json, data, EmptyPrefix, h) == Ok(time)
    requires GetProcessedHeight(json, data, EmptyPrefix, h) == Ok(height)
    ensures VerifyDelayPeriodPassed(json, data, h, now, delayTime, delayBlocks) ==
      if time + delayTime >= U64_LIMIT then Panic
      else if now.time < time + delayTime then Err(GenericErr)
      else if height.revisionHeight + delayBlocks >= U64_LIMIT then Panic
      else if height.revisionNumber > 0 || now.height < height.revisionHeight + delayBlocks then Err(GenericErr)
      else Ok(())
  {
    hide GetProcessedTime, GetProcessedHeight;
  }

  /** When exactly a delay check passes, over the history of a store that starts empty: metadata for the
      height was written, and every such write is old enough, in time and in blocks. */
  lemma DelayPassesIff(json: Json, writes: seq<Write>, h: Height, now: Block, delayTime: u64, delayBlocks: u64)
    requires JsonRoundTrips(json) && Chronological(writes, now)
    ensures VerifyDelayPeriodPassed(json, Replay(json, map[], writes), h, now, delayTime, delayBlocks).Ok? <==>
      && (exists i :: 0 <= i < |writes| && WritesMetaOf(writes[i], h))
      && (forall i :: 0 <= i < |writes| && WritesMetaOf(writes[i], h) ==>
            writes[i].block.time + delayTime <= now.time && writes[i].block.height + delayBlocks <= now.height)
  {
    NothingStored(json, h, now, delayTime, delayBlocks);
    hide Key, GetProcessedTime, GetProcessedHeight, Replay, Chronological;
    LastMetaIsLatest(writes, h, now);
    ReplayedMeta(json, map[], writes, h);
    if LastMeta(writes, h).Some? {
      hide VerifyDelayPeriodPassed;
      DelayOnMeta(json, Replay(json, map[], writes), h, LastMeta(writes, h).value, now, delayTime, delayBlocks);
    }
  }

  lemma NothingStored(json: Json, h: Height, now: Block, delayTime: u64, delayBlocks: u64)
    ensures GetProcessedTime(json, map[], EmptyPrefix, h) == Err(NotFound)
    ensures VerifyDelayPeriodPassed(json, map[], h, now, delayTime, delayBlocks) == Err(NotFound)
  {
  }

  lemma {:induction false} NoMetaWritten(writes: seq<Write>, h: Height)
    requires forall w :: w in writes ==> !WritesMetaOf(w, h)
    ensures LastMeta(writes, h) == None
  {
    if writes == [] {
    } else {
      NoMetaWritten(writes[..|writes| - 1], h);
    }
  }

  /** Once passed, a delay check passes in every later block until metadata for the height is written again,
      whatever else is written meanwhile. */
  lemma DelayStaysPassed(json: Json, data: Data, writes: seq<Write>, h: Height, now: Block, later: Block,
                         delayTime: u64, delayBlocks: u64)
    requires JsonRoundTrips(json)
    requires VerifyDelayPeriodPassed(json, data, h, now, delayTime, delayBlocks).Ok?
    requires now.time <= later.time && now.height <= later.height
    requires forall w :: w in writes ==> !WritesMetaOf(w, h)
    ensures VerifyDelayPeriodPassed(json, Replay(json, data, writes), h, later, delayTime, delayBlocks).Ok?
  {
    hide Key, GetProcessedTime, GetProcessedHeight, Replay;
    NoMetaWritten(writes, h);
    ReplayedMeta(json, data, writes, h);
  }
}
