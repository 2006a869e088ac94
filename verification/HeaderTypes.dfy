/** `src/types/header.rs`: block headers and their encoding. The hash is in module `HeaderHash`. */
module HeaderTypes {
  import opened Outcomes
  import opened Bytes
  import opened Rlp
  import opened Errors

  datatype Header = Header(
    parentHash: Hash,
    coinbase: Address,
    root: Hash,
    txHash: Hash,
    receiptHash: Hash,
    bloom: Bloom,
    number: nat,
    gasUsed: u64,
    time: u64,
    extra: Bytes)

  function HeaderItems(h: Header): seq<Bytes> {
    [ EncodeBytes(h.parentHash), EncodeBytes(h.coinbase), EncodeBytes(h.root), EncodeBytes(h.txHash),
      EncodeBytes(h.receiptHash), EncodeBytes(h.bloom), EncodeBytes(BigIntToRlpCompatBytes(h.number)),
      EncodeU64(h.gasUsed), EncodeU64(h.time), EncodeBytes(h.extra) ]
  }

  function EncodeHeader(h: Header): Bytes {
    EncodeList(Flatten(HeaderItems(h)))
  }

  /** The encoding has a length an RLP header can express. */
  predicate HeaderFits(h: Header) {
    |Flatten(HeaderItems(h))| < U64_LIMIT
  }

  function DecodeHeader(b: Bytes): Outcome<Header, DecoderError> {
    var parentHash :- ListFieldFromBytes(b, 0, HASH_LENGTH);
    var coinbase :- ListFieldFromBytes(b, 1, ADDRESS_LENGTH);
    var root :- ListFieldFromBytes(b, 2, HASH_LENGTH);
    var txHash :- ListFieldFromBytes(b, 3, HASH_LENGTH);
    var receiptHash :- ListFieldFromBytes(b, 4, HASH_LENGTH);
    var bloom :- ListFieldFromBytes(b, 5, BLOOM_BYTE_LENGTH);
    var number :- ToBigInt(b, 6);
    var gasUsedItem :- At(b, 7);
    var gasUsed :- DecodeU64(gasUsedItem);
    var timeItem :- At(b, 8);
    var time :- DecodeU64(timeItem);
    var extraItem :- At(b, 9);
    var extra :- DecodeValue(extraItem);
    Ok(Header(parentHash, coinbase, root, txHash, receiptHash, bloom, number, gasUsed, time, extra))
  }

  function HeaderFromRlp(b: Bytes): Outcome<Header, Kind> {
    DecodeHeader(b).MapErr(RlpDecodeError)
  }

  /** What the ten items of an encoded header decode to. */
  ghost predicate HeaderItemsDecode(items: seq<Bytes>, h: Header) {
    && |items| == 10
    && FieldFromBytes(items[0], HASH_LENGTH) == Ok(h.parentHash)
    && FieldFromBytes(items[1], ADDRESS_LENGTH) == Ok(h.coinbase)
    && FieldFromBytes(items[2], HASH_LENGTH) == Ok(h.root)
    && FieldFromBytes(items[3], HASH_LENGTH) == Ok(h.txHash)
    && FieldFromBytes(items[4], HASH_LENGTH) == Ok(h.receiptHash)
    && FieldFromBytes(items[5], 256) == Ok(h.bloom)
    && HoldsNumber(items[6], h.number)
    && DecodeU64(items[7]) == Ok(h.gasUsed)
    && DecodeU64(items[8]) == Ok(h.time)
    && DecodeValue(items[9]) == Ok(h.extra)
  }

  lemma HeaderItemsReadable(items: seq<Bytes>, h: Header)
    requires |Flatten(items)| < U64_LIMIT && |items| == 10
    requires items[0] == EncodeBytes(h.parentHash) && items[1] == EncodeBytes(h.coinbase)
    requires items[2] == EncodeBytes(h.root) && items[3] == EncodeBytes(h.txHash)
    requires items[4] == EncodeBytes(h.receiptHash) && items[5] == EncodeBytes(h.bloom)
    requires items[6] == EncodeBytes(BigIntToRlpCompatBytes(h.number))
    requires items[7] == EncodeU64(h.gasUsed) && items[8] == EncodeU64(h.time) && items[9] == EncodeBytes(h.extra)
    ensures AllItems(items) && HeaderItemsDecode(items, h)
  {
    FixedFieldRoundTrip(h.parentHash);
    FixedFieldRoundTrip(h.coinbase);
    FixedFieldRoundTrip(h.root);
    FixedFieldRoundTrip(h.txHash);
    FixedFieldRoundTrip(h.receiptHash);
    FixedFieldRoundTrip(h.bloom);
    StringInList(items, 6, BigIntToRlpCompatBytes(h.number));
    BigEndianRoundTrip(h.number);
    U64RoundTrip(h.gasUsed);
    U64RoundTrip(h.time);
    StringInList(items, 9, h.extra);
    TenItems(items);
  }

  /** When exactly bytes decode to a header. */
  lemma HeaderDecodesIff(b: Bytes, h: Header)
    ensures DecodeHeader(b) == Ok(h) <==> exists items :: HeaderItemsDecode(items, h) && StartsWith(b, items)
  {
    hide At, DecodeValue, FromBigEndian, DecodeU64, FieldFromBytes;
    if DecodeHeader(b) == Ok(h) {
      var items := ItemsThere(b, 10);
      assert HeaderItemsDecode(items, h) && StartsWith(b, items);
    }
  }

  /** Lengths of the fields a header starts with. */
  const FIXED_FIELDS: seq<nat> := [32, 20, 32, 32, 32, 256]

  /** Decoding panics exactly if one of the leading fields is too short and all before it are readable. */
  lemma HeaderPanicsIff(b: Bytes)
    ensures DecodeHeader(b).Panic? <==>
      exists i: nat :: i < 6 && ListFieldFromBytes(b, i, FIXED_FIELDS[i]).Panic?
        && forall j: nat :: j < i ==> ListFieldFromBytes(b, j, FIXED_FIELDS[j]).Ok?
  {
    hide At, DecodeValue, DecodeU64, ListFieldFromBytes, ToBigInt, FieldFromBytes, DecodeHeader;
    TailNeverPanics(b);
    assert FIXED_FIELDS[0] == 32 && FIXED_FIELDS[1] == 20 && FIXED_FIELDS[2] == 32;
    assert FIXED_FIELDS[3] == 32 && FIXED_FIELDS[4] == 32 && FIXED_FIELDS[5] == 256;
    var first := if !ListFieldFromBytes(b, 0, 32).Ok? then 0
      else if !ListFieldFromBytes(b, 1, 20).Ok? then 1
      else if !ListFieldFromBytes(b, 2, 32).Ok? then 2
      else if !ListFieldFromBytes(b, 3, 32).Ok? then 3
      else if !ListFieldFromBytes(b, 4, 32).Ok? then 4
      else 5;
    assert forall j: nat :: j < first ==> ListFieldFromBytes(b, j, FIXED_FIELDS[j]).Ok?;
    assert DecodeHeader(b).Panic? <==> ListFieldFromBytes(b, first, FIXED_FIELDS[first]).Panic?;
  }

  /** Behind the leading fields decoding cannot panic; on them it goes as the first unreadable one goes. */
  lemma TailNeverPanics(b: Bytes)
    ensures DecodeHeader(b).Panic? <==>
      if !ListFieldFromBytes(b, 0, 32).Ok? then ListFieldFromBytes(b, 0, 32).Panic?
      else if !ListFieldFromBytes(b, 1, 20).Ok? then ListFieldFromBytes(b, 1, 20).Panic?
      else if !ListFieldFromBytes(b, 2, 32).Ok? then ListFieldFromBytes(b, 2, 32).Panic?
      else if !ListFieldFromBytes(b, 3, 32).Ok? then ListFieldFromBytes(b, 3, 32).Panic?
      else if !ListFieldFromBytes(b, 4, 32).Ok? then ListFieldFromBytes(b, 4, 32).Panic?
      else ListFieldFromBytes(b, 5, 256).Panic?
  {
    hide At, DecodeValue, DecodeU64, ListFieldFromBytes, ToBigInt, FieldFromBytes;
    OnlyShortFieldsPanic(b, 0);
    if At(b, 7).Ok? { OnlyShortFieldsPanic(At(b, 7).value, 0); }
    if At(b, 8).Ok? { OnlyShortFieldsPanic(At(b, 8).value, 0); }
    if At(b, 9).Ok? { OnlyShortFieldsPanic(At(b, 9).value, 0); }
  }

  /** Decoding undoes encoding, whatever bytes follow. */
  lemma HeaderRoundTrip(h: Header, rest: Bytes)
    requires HeaderFits(h)
    ensures DecodeHeader(EncodeHeader(h) + rest) == Ok(h)
  {
    var items := HeaderItems(h);
    HeaderItemsReadable(items, h);
    forall i: nat | i < 10 ensures At(EncodeHeader(h) + rest, i) == Ok(items[i]) {
      AtEncodedList(items, i, rest);
    }
    HeaderDecodesIff(EncodeHeader(h) + rest, h);
  }

  lemma EncodeHeaderInjective(g: Header, h: Header)
    requires HeaderFits(g) && HeaderFits(h)
    requires EncodeHeader(g) == EncodeHeader(h)
    ensures g == h
  {
    HeaderRoundTrip(g, []);
    HeaderRoundTrip(h, []);
  }
}
