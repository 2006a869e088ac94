/** `src/types/istanbul.rs`: the consensus data carried in a header's extra field, and its encoding. */
module IstanbulTypes {
  import opened Outcomes
  import opened Bytes
  import opened Rlp
  import opened Errors

  datatype IstanbulMsg = PrePrepare | Prepare | Commit | RoundChange {
    /** `msg as u8` */
    function Code(): byte {
      match this
      case PrePrepare => 0
      case Prepare => 1
      case Commit => 2
      case RoundChange => 3
    }
  }

  /** Messages are numbered from zero in this order. */
  lemma MessageCodes()
    ensures [PrePrepare.Code(), Prepare.Code(), Commit.Code(), RoundChange.Code()] == [0, 1, 2, 3]
  {
  }

  datatype IstanbulAggregatedSeal = IstanbulAggregatedSeal(bitmap: nat, signature: Bytes, round: nat)

  const EMPTY_SEAL := IstanbulAggregatedSeal(0, [], 0)

  datatype IstanbulExtra = IstanbulExtra(
    addedValidators: seq<Address>,
    addedValidatorsPublicKeys: seq<PublicKey>,
    removedValidators: nat,
    seal: Bytes,
    aggregatedSeal: IstanbulAggregatedSeal,
    parentAggregatedSeal: IstanbulAggregatedSeal)

  // ---------- aggregated seal ----------

  function SealItems(s: IstanbulAggregatedSeal): seq<Bytes> {
    [ EncodeBytes(BigIntToRlpCompatBytes(s.bitmap)), EncodeBytes(s.signature),
      EncodeBytes(BigIntToRlpCompatBytes(s.round)) ]
  }

  function EncodeSeal(s: IstanbulAggregatedSeal): Bytes {
    EncodeList(Flatten(SealItems(s)))
  }

  function DecodeSeal(b: Bytes): Outcome<IstanbulAggregatedSeal, DecoderError> {
    var bitmap :- ToBigInt(b, 0);
    var signatureItem :- At(b, 1);
    var signature :- DecodeValue(signatureItem);
    var round :- ToBigInt(b, 2);
    Ok(IstanbulAggregatedSeal(bitmap, signature, round))
  }

  /** The items of a seal. */
  ghost predicate SealItemsDecode(items: seq<Bytes>, s: IstanbulAggregatedSeal) {
    && |items| == 3
    && HoldsNumber(items[0], s.bitmap)
    && DecodeValue(items[1]) == Ok(s.signature)
    && HoldsNumber(items[2], s.round)
  }

  lemma SealNeverPanics(b: Bytes)
    ensures !DecodeSeal(b).Panic?
  {
    hide At, DecodeValue, ToBigInt, FieldFromBytes, DecodeU64;
    OnlyShortFieldsPanic(b, 0);
    if At(b, 1).Ok? { OnlyShortFieldsPanic(At(b, 1).value, 0); }
  }

  /** When exactly bytes decode to a seal: further items and bytes do not matter. */
  lemma SealDecodesIff(b: Bytes, s: IstanbulAggregatedSeal)
    ensures DecodeSeal(b) == Ok(s) <==> exists items :: SealItemsDecode(items, s) && StartsWith(b, items)
  {
    hide At, DecodeValue, FromBigEndian;
    if DecodeSeal(b) == Ok(s) {
      var items := ItemsThere(b, 3);
      assert SealItemsDecode(items, s) && StartsWith(b, items);
    }
  }

  lemma SealRoundTrip(s: IstanbulAggregatedSeal)
    requires |Flatten(SealItems(s))| < U64_LIMIT
    ensures IsItem(EncodeSeal(s)) && DecodeSeal(EncodeSeal(s)) == Ok(s)
  {
    var items := SealItems(s);
    hide At, DecodeValue, IsItem, EncodeList, Flatten, EncodeBytes, DecodeSeal;
    StringInList(items, 0, BigIntToRlpCompatBytes(s.bitmap));
    StringInList(items, 1, s.signature);
    StringInList(items, 2, BigIntToRlpCompatBytes(s.round));
    EncodeListIsItem(Flatten(items));
    assert EncodeSeal(s) + [] == EncodeSeal(s);
    AtEncodedList(items, 0, []);
    AtEncodedList(items, 1, []);
    AtEncodedList(items, 2, []);
    BigEndianRoundTrip(s.bitmap);
    BigEndianRoundTrip(s.round);
    assert SealItemsDecode(items, s) && StartsWith(EncodeSeal(s), items);
    SealDecodesIff(EncodeSeal(s), s);
  }

  // ---------- extra data ----------

  function ExtraItems(e: IstanbulExtra): seq<Bytes> {
    [ EncodeList(Flatten(EncodeAll(e.addedValidators))),
      EncodeList(Flatten(EncodeAll(e.addedValidatorsPublicKeys))),
      EncodeBytes(BigIntToRlpCompatBytes(e.removedValidators)),
      EncodeBytes(e.seal),
      EncodeSeal(e.aggregatedSeal),
      EncodeSeal(e.parentAggregatedSeal) ]
  }

  function EncodeExtra(e: IstanbulExtra): Bytes {
    EncodeList(Flatten(ExtraItems(e)))
  }

  /** The encoding has a length an RLP header can express. */
  predicate ExtraFits(e: IstanbulExtra) {
    |Flatten(ExtraItems(e))| < U64_LIMIT
  }

  /** Both validator lists are collected, panics included, before either error is looked at. */
  function DecodeExtra(b: Bytes): Outcome<IstanbulExtra, DecoderError> {
    var addressesItem :- At(b, 0);
    var addresses := CollectFields(Iter(addressesItem), ADDRESS_LENGTH);
    if addresses.Panic? then Panic else
    var keysItem :- At(b, 1);
    var keys := CollectFields(Iter(keysItem), PUBLIC_KEY_LENGTH);
    if keys.Panic? then Panic else
    var addedValidators :- addresses;
    var addedValidatorsPublicKeys :- keys;
    var removedValidators :- ToBigInt(b, 2);
    var sealItem :- At(b, 3);
    var seal :- DecodeValue(sealItem);
    var aggregatedItem :- At(b, 4);
    var aggregatedSeal :- DecodeSeal(aggregatedItem);
    var parentItem :- At(b, 5);
    var parentAggregatedSeal :- DecodeSeal(parentItem);
    Ok(IstanbulExtra(addedValidators, addedValidatorsPublicKeys, removedValidators, seal,
                     aggregatedSeal, parentAggregatedSeal))
  }

  /** `IstanbulExtra::from_rlp`: the encoding sits behind a 32-byte vanity. */
  function ExtraFromRlp(b: Bytes): Outcome<IstanbulExtra, Kind> {
    if |b| < ISTANBUL_EXTRA_VANITY_LENGTH then Err(RlpDecodeError)
    else DecodeExtra(b[ISTANBUL_EXTRA_VANITY_LENGTH..]).MapErr(RlpDecodeError)
  }

  function ExtraToRlp(e: IstanbulExtra, vanity: Hash): Bytes {
    vanity + EncodeExtra(e)
  }

  lemma PrefixLength(base: nat, len: nat)
    requires base == 0x80 || base == 0xc0
    requires len < U64_LIMIT
    ensures |Prefix(base, len)| <= 9
  {
    if len > 55 { LongLength(len); }
  }

  lemma {:induction false} EncodeAllLength(fields: seq<Bytes>)
    requires forall f :: f in fields ==> |f| <= PUBLIC_KEY_LENGTH
    ensures |Flatten(EncodeAll(fields))| <= |fields| * (PUBLIC_KEY_LENGTH + 9)
  {
    hide Prefix;
    if fields == [] {
    } else {
      PrefixLength(0x80, |fields[0]|);
      EncodeAllLength(fields[1..]);
    }
  }

  /** Extra data without signatures that names a few validators is nowhere near the limit. */
  lemma SmallExtraFits(e: IstanbulExtra)
    requires |e.addedValidators| <= 2 && |e.addedValidatorsPublicKeys| <= 2
    requires e.removedValidators < 256 && e.seal == []
    requires e.aggregatedSeal == EMPTY_SEAL && e.parentAggregatedSeal == EMPTY_SEAL
    ensures ExtraFits(e)
  {
    hide EncodeAll, EncodeList, EncodeSeal, Flatten, BigEndian, EncodeBytes;
    var items := ExtraItems(e);
    FieldListLength(e.addedValidators);
    FieldListLength(e.addedValidatorsPublicKeys);
    SmallNumberLength(e.removedValidators);
    EmptyStringLength();
    EmptySealLength();
    SixItemsLength(items);
  }

  lemma FieldListLength(fields: seq<Bytes>)
    requires |fields| <= 2 && forall f :: f in fields ==> |f| <= PUBLIC_KEY_LENGTH
    ensures |EncodeList(Flatten(EncodeAll(fields)))| <= 219
  {
    EncodeAllLength(fields);
    hide Flatten, EncodeAll, Prefix;
    PrefixLength(0xc0, |Flatten(EncodeAll(fields))|);
  }

  lemma SmallNumberLength(n: nat)
    requires n < 256
    ensures |EncodeBytes(BigIntToRlpCompatBytes(n))| <= 2
  {
    BigEndianLength(n, 1);
    hide BigEndian;
  }

  lemma EmptyStringLength()
    ensures |EncodeBytes([])| == 1
  {
  }

  lemma EmptySealLength()
    ensures |EncodeSeal(EMPTY_SEAL)| == 4
  {
    ThreeItemsLength(SealItems(EMPTY_SEAL));
  }

  lemma SixItemsLength(items: seq<Bytes>)
    requires |items| == 6
    ensures |Flatten(items)| == |items[0]| + |items[1]| + |items[2]| + |items[3]| + |items[4]| + |items[5]|
  {
    assert items == [items[0], items[1], items[2]] + [items[3], items[4], items[5]];
    FlattenAppend([items[0], items[1], items[2]], [items[3], items[4], items[5]]);
    ThreeItemsLength([items[0], items[1], items[2]]);
    ThreeItemsLength([items[3], items[4], items[5]]);
  }

  lemma ThreeItemsLength(items: seq<Bytes>)
    requires |items| == 3
    ensures |Flatten(items)| == |items[0]| + |items[1]| + |items[2]|
  {
    assert Flatten(items) == items[0] + Flatten(items[1..]);
    assert Flatten(items[1..]) == items[1] + Flatten(items[2..]);
    assert Flatten(items[2..]) == items[2];
  }

  lemma {:induction false} EncodeAllItems(fields: seq<Bytes>, length: nat)
    requires forall f :: f in fields ==> |f| == length
    requires length < U64_LIMIT
    requires |Flatten(EncodeAll(fields))| < U64_LIMIT
    ensures CollectFields(Iter(EncodeList(Flatten(EncodeAll(fields)))), length) == Ok(fields)
  {
    CollectEncoded(fields, length);
    IterEncodedList(EncodeAll(fields));
  }

  /** What the six items of an encoded extra decode to. */
  ghost predicate ExtraItemsDecode(items: seq<Bytes>, e: IstanbulExtra) {
    && |items| == 6
    && CollectFields(Iter(items[0]), ADDRESS_LENGTH) == Ok(e.addedValidators)
    && CollectFields(Iter(items[1]), PUBLIC_KEY_LENGTH) == Ok(e.addedValidatorsPublicKeys)
    && HoldsNumber(items[2], e.removedValidators)
    && DecodeValue(items[3]) == Ok(e.seal)
    && DecodeSeal(items[4]) == Ok(e.aggregatedSeal)
    && DecodeSeal(items[5]) == Ok(e.parentAggregatedSeal)
  }

  lemma FieldListReadable(items: seq<Bytes>, i: nat, fields: seq<Bytes>, length: nat)
    requires |Flatten(items)| < U64_LIMIT
    requires i < |items| && items[i] == EncodeList(Flatten(EncodeAll(fields)))
    requires length < U64_LIMIT && forall f :: f in fields ==> |f| == length
    ensures IsItem(items[i]) && CollectFields(Iter(items[i]), length) == Ok(fields)
  {
    ListInList(items, i, EncodeAll(fields));
    EncodeAllItems(fields, length);
  }

  lemma SealReadable(items: seq<Bytes>, i: nat, s: IstanbulAggregatedSeal)
    requires |Flatten(items)| < U64_LIMIT
    requires i < |items| && items[i] == EncodeSeal(s)
    ensures IsItem(items[i]) && DecodeSeal(items[i]) == Ok(s)
  {
    ListInList(items, i, SealItems(s));
    SealRoundTrip(s);
  }

  lemma ExtraItemsReadable(items: seq<Bytes>, e: IstanbulExtra)
    requires |Flatten(items)| < U64_LIMIT && |items| == 6
    requires items[0] == EncodeList(Flatten(EncodeAll(e.addedValidators)))
    requires items[1] == EncodeList(Flatten(EncodeAll(e.addedValidatorsPublicKeys)))
    requires items[2] == EncodeBytes(BigIntToRlpCompatBytes(e.removedValidators))
    requires items[3] == EncodeBytes(e.seal)
    requires items[4] == EncodeSeal(e.aggregatedSeal) && items[5] == EncodeSeal(e.parentAggregatedSeal)
    ensures AllItems(items) && ExtraItemsDecode(items, e)
  {
    FieldListReadable(items, 0, e.addedValidators, ADDRESS_LENGTH);
    FieldListReadable(items, 1, e.addedValidatorsPublicKeys, PUBLIC_KEY_LENGTH);
    StringInList(items, 2, BigIntToRlpCompatBytes(e.removedValidators));
    BigEndianRoundTrip(e.removedValidators);
    StringInList(items, 3, e.seal);
    SealReadable(items, 4, e.aggregatedSeal);
    SealReadable(items, 5, e.parentAggregatedSeal);
    SixItems(items);
  }

  /** When exactly bytes decode to extra data. */
  lemma ExtraDecodesIff(b: Bytes, e: IstanbulExtra)
    ensures DecodeExtra(b) == Ok(e) <==> exists items :: ExtraItemsDecode(items, e) && StartsWith(b, items)
  {
    hide At, DecodeValue, FromBigEndian, DecodeSeal, CollectFields, Iter;
    if DecodeExtra(b) == Ok(e) {
      var items := ItemsThere(b, 6);
      assert ExtraItemsDecode(items, e) && StartsWith(b, items);
    }
  }

  /** Decoding panics exactly on a field that is too short; one among the keys panics even behind an error among
      the addresses. */
  lemma ExtraPanicsIff(b: Bytes)
    ensures DecodeExtra(b).Panic? <==>
      && At(b, 0).Ok?
      && (|| CollectFields(Iter(At(b, 0).value), 20).Panic?
          || (At(b, 1).Ok? && CollectFields(Iter(At(b, 1).value), 96).Panic?))
  {
    hide At, ToBigInt, CollectFields, Iter, DecodeValue, DecodeSeal, FieldFromBytes, DecodeU64;
    OnlyShortFieldsPanic(b, 0);
    if At(b, 3).Ok? { OnlyShortFieldsPanic(At(b, 3).value, 0); }
    if At(b, 4).Ok? { SealNeverPanics(At(b, 4).value); }
    if At(b, 5).Ok? { SealNeverPanics(At(b, 5).value); }
  }

  /** Behind 32 bytes of vanity, which have to be there, the extra data is read. */
  lemma ExtraBehindVanity(b: Bytes)
    ensures ExtraFromRlp(b) ==
      if |b| < 32 then Err(RlpDecodeError)
      else match DecodeExtra(b[32..])
        case Ok(e) => Ok(e)
        case Err(_) => Err(RlpDecodeError)
        case Panic => Panic
  {
    hide DecodeExtra;
  }

  /** Decoding undoes encoding, whatever bytes follow. */
  lemma ExtraRoundTrip(e: IstanbulExtra, rest: Bytes)
    requires ExtraFits(e)
    ensures DecodeExtra(EncodeExtra(e) + rest) == Ok(e)
  {
    var items := ExtraItems(e);
    ExtraItemsReadable(items, e);
    forall i: nat | i < 6 ensures At(EncodeExtra(e) + rest, i) == Ok(items[i]) {
      AtEncodedList(items, i, rest);
    }
    ExtraDecodesIff(EncodeExtra(e) + rest, e);
  }

  /** `from_rlp` undoes `to_rlp` for every vanity. */
  lemma ExtraRlpRoundTrip(e: IstanbulExtra, vanity: Hash, rest: Bytes)
    requires ExtraFits(e)
    ensures ExtraFromRlp(ExtraToRlp(e, vanity) + rest) == Ok(e)
    ensures ExtraToRlp(e, vanity)[..ISTANBUL_EXTRA_VANITY_LENGTH] == vanity
  {
    hide DecodeExtra, EncodeExtra, ExtraFits;
    assert (ExtraToRlp(e, vanity) + rest)[ISTANBUL_EXTRA_VANITY_LENGTH..] == EncodeExtra(e) + rest;
    ExtraRoundTrip(e, rest);
  }

  /** Equal encodings come from equal extras and vanities. */
  lemma ExtraToRlpInjective(e: IstanbulExtra, f: IstanbulExtra, v: Hash, w: Hash)
    requires ExtraFits(e) && ExtraFits(f)
    requires ExtraToRlp(e, v) == ExtraToRlp(f, w)
    ensures e == f && v == w
  {
    ExtraRlpRoundTrip(e, v, []);
    ExtraRlpRoundTrip(f, w, []);
    assert ExtraToRlp(e, v) + [] == ExtraToRlp(f, w) + [];
  }
}
