/** `src/types/state.rs`: validators, configuration and the stored consensus state. */
module SnapshotTypes {
  import opened Outcomes
  import opened Bytes
  import opened Rlp
  import opened Errors
  import opened IstanbulTypes

  datatype Validator = Validator(address: Address, publicKey: PublicKey)

  datatype Config = Config(
    epochSize: u64,
    allowedClockSkew: u64,
    verifyEpochHeaders: bool,
    verifyNonEpochHeaders: bool,
    verifyHeaderTimestamp: bool)

  datatype Snapshot = Snapshot(
    number: u64,
    timestamp: u64,
    validators: seq<Validator>,
    hash: Hash,
    aggregatedSeal: IstanbulAggregatedSeal)

  // ---------- validators ----------

  function ValidatorItems(v: Validator): seq<Bytes> {
    [EncodeBytes(v.address), EncodeBytes(v.publicKey)]
  }

  function EncodeValidator(v: Validator): Bytes {
    EncodeList(Flatten(ValidatorItems(v)))
  }

  function DecodeValidator(b: Bytes): Outcome<Validator, DecoderError> {
    var address :- ListFieldFromBytes(b, 0, ADDRESS_LENGTH);
    var publicKey :- ListFieldFromBytes(b, 1, PUBLIC_KEY_LENGTH);
    Ok(Validator(address, publicKey))
  }

  function EncodeValidators(vs: seq<Validator>): (r: seq<Bytes>)
    ensures |r| == |vs|
  {
    if vs == [] then [] else [EncodeValidator(vs[0])] + EncodeValidators(vs[1..])
  }

  /** `iter().map(as_val).collect()` */
  function CollectValidators(items: seq<Bytes>): Outcome<seq<Validator>, DecoderError> {
    if items == [] then Ok([])
    else
      var head :- DecodeValidator(items[0]);
      var tail :- CollectValidators(items[1..]);
      Ok([head] + tail)
  }

  /** When exactly bytes decode to a validator: the address of 20 bytes comes before the key of 96. */
  lemma ValidatorDecodesIff(b: Bytes, v: Validator)
    ensures DecodeValidator(b) == Ok(v) <==>
      && At(b, 0).Ok? && FieldFromBytes(At(b, 0).value, 20) == Ok(v.address)
      && At(b, 1).Ok? && FieldFromBytes(At(b, 1).value, 96) == Ok(v.publicKey)
  {
    hide At, FieldFromBytes;
  }

  /** Decoding panics exactly on a short address, or on a short key behind a readable address. */
  lemma ValidatorPanicsIff(b: Bytes)
    ensures DecodeValidator(b).Panic? <==>
      || ListFieldFromBytes(b, 0, 20).Panic?
      || (ListFieldFromBytes(b, 0, 20).Ok? && ListFieldFromBytes(b, 1, 96).Panic?)
  {
    hide ListFieldFromBytes;
  }

  /** The first validator that does not decode decides what becomes of the list. */
  lemma {:induction false} ValidatorsFail(items: seq<Bytes>) returns (i: nat)
    requires !CollectValidators(items).Ok?
    ensures i < |items| && !DecodeValidator(items[i]).Ok?
    ensures CollectValidators(items) == DecodeValidator(items[i]).PropagateFailure()
    ensures forall j :: 0 <= j < i ==> DecodeValidator(items[j]).Ok?
  {
    hide DecodeValidator;
    if !DecodeValidator(items[0]).Ok? {
      i := 0;
    } else {
      var tail := items[1..];
      var k := ValidatorsFail(tail);
      i := k + 1;
      assert forall j :: 0 < j < i ==> items[j] == tail[j - 1];
    }
  }

  /** A list of validators decodes item by item. */
  lemma {:induction false} ValidatorsDecodeIff(items: seq<Bytes>, vs: seq<Validator>)
    ensures CollectValidators(items) == Ok(vs) <==>
      |vs| == |items| && forall i :: 0 <= i < |items| ==> DecodeValidator(items[i]) == Ok(vs[i])
  {
    hide DecodeValidator;
    if items == [] {
    } else if vs == [] {
    } else {
      ValidatorsDecodeIff(items[1..], vs[1..]);
      assert vs == [vs[0]] + vs[1..];
    }
  }

  lemma ValidatorRoundTrip(v: Validator)
    ensures IsItem(EncodeValidator(v)) && DecodeValidator(EncodeValidator(v)) == Ok(v)
  {
    var items := ValidatorItems(v);
    assert Flatten(items) == items[0] + (items[1] + Flatten(items[1..][1..]));
    FixedFieldRoundTrip(v.address);
    FixedFieldRoundTrip(v.publicKey);
    EncodeListIsItem(Flatten(items));
    assert EncodeValidator(v) + [] == EncodeValidator(v);
    AtEncodedList(items, 0, []);
    AtEncodedList(items, 1, []);
  }

  lemma {:induction false} ValidatorsRoundTrip(vs: seq<Validator>)
    ensures AllItems(EncodeValidators(vs))
    ensures CollectValidators(EncodeValidators(vs)) == Ok(vs)
  {
    if vs == [] {
    } else {
      ValidatorRoundTrip(vs[0]);
      ValidatorsRoundTrip(vs[1..]);
      assert vs == [vs[0]] + vs[1..];
    }
  }

  // ---------- snapshots ----------

  function SnapshotItems(s: Snapshot): seq<Bytes> {
    [ EncodeU64(s.number), EncodeU64(s.timestamp), EncodeList(Flatten(EncodeValidators(s.validators))),
      EncodeBytes(s.hash), EncodeSeal(s.aggregatedSeal) ]
  }

  function EncodeSnapshot(s: Snapshot): Bytes {
    EncodeList(Flatten(SnapshotItems(s)))
  }

  predicate SnapshotFits(s: Snapshot) {
    |Flatten(SnapshotItems(s))| < U64_LIMIT
  }

  /** The validators are collected first, a panic included; their error is reported before the number is read. */
  function DecodeSnapshot(b: Bytes): Outcome<Snapshot, DecoderError> {
    var validatorsItem :- At(b, 2);
    var validators :- CollectValidators(Iter(validatorsItem));
    var numberItem :- At(b, 0);
    var number :- DecodeU64(numberItem);
    var timestampItem :- At(b, 1);
    var timestamp :- DecodeU64(timestampItem);
    var hash :- ListFieldFromBytes(b, 3, HASH_LENGTH);
    var sealItem :- At(b, 4);
    var aggregatedSeal :- DecodeSeal(sealItem);
    Ok(Snapshot(number, timestamp, validators, hash, aggregatedSeal))
  }

  function SnapshotFromRlp(b: Bytes): Outcome<Snapshot, Kind> {
    DecodeSnapshot(b).MapErr(RlpDecodeError)
  }

  ghost predicate SnapshotItemsDecode(items: seq<Bytes>, s: Snapshot) {
    && |items| == 5
    && DecodeU64(items[0]) == Ok(s.number)
    && DecodeU64(items[1]) == Ok(s.timestamp)
    && CollectValidators(Iter(items[2])) == Ok(s.validators)
    && FieldFromBytes(items[3], HASH_LENGTH) == Ok(s.hash)
    && DecodeSeal(items[4]) == Ok(s.aggregatedSeal)
  }

  lemma SnapshotItemsReadable(items: seq<Bytes>, s: Snapshot)
    requires |Flatten(items)| < U64_LIMIT && |items| == 5
    requires items[0] == EncodeU64(s.number) && items[1] == EncodeU64(s.timestamp)
    requires items[2] == EncodeList(Flatten(EncodeValidators(s.validators)))
    requires items[3] == EncodeBytes(s.hash) && items[4] == EncodeSeal(s.aggregatedSeal)
    ensures AllItems(items) && SnapshotItemsDecode(items, s)
  {
    U64RoundTrip(s.number);
    U64RoundTrip(s.timestamp);
    ListInList(items, 2, EncodeValidators(s.validators));
    ValidatorsRoundTrip(s.validators);
    IterEncodedList(EncodeValidators(s.validators));
    FixedFieldRoundTrip(s.hash);
    SealReadable(items, 4, s.aggregatedSeal);
    FiveItems(items);
  }

  /** When exactly bytes decode to a snapshot. */
  lemma SnapshotDecodesIff(b: Bytes, s: Snapshot)
    ensures DecodeSnapshot(b) == Ok(s) <==> exists items :: SnapshotItemsDecode(items, s) && StartsWith(b, items)
  {
    hide At, DecodeU64, CollectValidators, Iter, FieldFromBytes, DecodeSeal;
    if DecodeSnapshot(b) == Ok(s) {
      var items := ItemsThere(b, 5);
      assert SnapshotItemsDecode(items, s) && StartsWith(b, items);
    }
  }

  /** Decoding panics exactly if collecting the validators does, or if the hash is too short and everything read
      before it, the validators first, is readable. */
  lemma SnapshotPanicsIff(b: Bytes)
    ensures DecodeSnapshot(b).Panic? <==>
      && At(b, 2).Ok?
      && var validators := CollectValidators(Iter(At(b, 2).value));
      || validators.Panic?
      || (&& validators.Ok? && ListFieldFromBytes(b, 3, 32).Panic?
          && At(b, 0).Ok? && DecodeU64(At(b, 0).value).Ok?
          && At(b, 1).Ok? && DecodeU64(At(b, 1).value).Ok?)
  {
    hide At, DecodeValue, DecodeU64, ListFieldFromBytes, FieldFromBytes, ToBigInt, DecodeSeal, CollectValidators, Iter;
    OnlyShortFieldsPanic(b, 0);
    if At(b, 0).Ok? { OnlyShortFieldsPanic(At(b, 0).value, 0); }
    if At(b, 1).Ok? { OnlyShortFieldsPanic(At(b, 1).value, 0); }
    if At(b, 4).Ok? { SealNeverPanics(At(b, 4).value); }
  }

  /** Decoding undoes encoding, whatever bytes follow. */
  lemma SnapshotRoundTrip(s: Snapshot, rest: Bytes)
    requires SnapshotFits(s)
    ensures DecodeSnapshot(EncodeSnapshot(s) + rest) == Ok(s)
  {
    var items := SnapshotItems(s);
    SnapshotItemsReadable(items, s);
    forall i: nat | i < 5 ensures At(EncodeSnapshot(s) + rest, i) == Ok(items[i]) {
      AtEncodedList(items, i, rest);
    }
    SnapshotDecodesIff(EncodeSnapshot(s) + rest, s);
  }

  lemma EncodeSnapshotInjective(s: Snapshot, t: Snapshot)
    requires SnapshotFits(s) && SnapshotFits(t)
    requires EncodeSnapshot(s) == EncodeSnapshot(t)
    ensures s == t
  {
    SnapshotRoundTrip(s, []);
    SnapshotRoundTrip(t, []);
  }
}
