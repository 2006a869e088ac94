/** Recursive Length Prefix, Appendix B of the Ethereum Yellow Paper, as the types of `src/types` use it.

    An `Rlp` value of the source is a lazy view of a byte slice: `at(i)` walks to the `i`-th item of the
    list at the head of the slice, `iter()` yields items until one cannot be read, and `decode_value`
    hands out the payload of a byte string. Bytes behind the head item are never looked at. Every failure
    of the codec becomes one error kind in the callers, so errors carry no payload here. */
module Rlp {
  import opened Outcomes
  import opened Bytes

  datatype DecoderError = DecoderError

  /** Lengths of the header and of the payload of an item. */
  datatype PayloadInfo = PayloadInfo(headerLen: nat, valueLen: nat) {
    function Total(): nat {
      headerLen + valueLen
    }
  }

  // ---------- encoding ----------

  /** The header of a payload of `len` bytes; `base` is 0x80 for strings and 0xc0 for lists. */
  function Prefix(base: nat, len: nat): Bytes
    requires base == 0x80 || base == 0xc0
  {
    if len <= 55 then [base + len] else [LengthByte(base, |BigEndian(len)|)] + BigEndian(len)
  }

  /** First byte of a header that spells its length out in `n` bytes; eight are the most there can be. */
  function LengthByte(base: nat, n: nat): byte {
    (base + 55 + n) % 256
  }

  function EncodeBytes(v: Bytes): Bytes {
    if |v| == 1 && v[0] < 0x80 then v else Prefix(0x80, |v|) + v
  }

  /** A list, given the concatenation of its encoded items. */
  function EncodeList(payload: Bytes): Bytes {
    Prefix(0xc0, |payload|) + payload
  }

  function Flatten(items: seq<Bytes>): Bytes {
    if items == [] then [] else items[0] + Flatten(items[1..])
  }

  // ---------- decoding ----------

  /** Header of an item whose length is spelled out in `n` bytes after the first one. */
  function LongInfo(b: Bytes, n: nat): Outcome<PayloadInfo, DecoderError>
    requires n > 0
  {
    if |b| < 1 + n || b[1] == 0 then Err(DecoderError)
    else
      var len := FromBigEndian(b[1..1 + n]);
      if len <= 55 then Err(DecoderError) else Ok(PayloadInfo(1 + n, len))
  }

  function HeaderInfo(b: Bytes): Outcome<PayloadInfo, DecoderError> {
    if b == [] then Err(DecoderError)
    else if b[0] <= 0x7f then Ok(PayloadInfo(0, 1))
    else if b[0] <= 0xb7 then Ok(PayloadInfo(1, b[0] - 0x80))
    else if b[0] <= 0xbf then LongInfo(b, b[0] - 0xb7)
    else if b[0] <= 0xf7 then Ok(PayloadInfo(1, b[0] - 0xc0))
    else LongInfo(b, b[0] - 0xf7)
  }

  /** As `HeaderInfo`, and the whole item has to be present. */
  function ItemInfo(b: Bytes): (r: Outcome<PayloadInfo, DecoderError>)
    ensures r.Ok? ==> 0 < r.value.Total() <= |b|
    ensures !r.Panic?
  {
    var info :- HeaderInfo(b);
    if info.Total() <= |b| then Ok(info) else Err(DecoderError)
  }

  predicate IsList(b: Bytes) {
    b != [] && b[0] >= 0xc0
  }

  function ListPayload(b: Bytes): Outcome<Bytes, DecoderError> {
    if !IsList(b) then Err(DecoderError)
    else
      var info :- ItemInfo(b);
      Ok(b[info.headerLen..info.Total()])
  }

  /** Items of a list payload up to the first unreadable one. */
  function Items(payload: Bytes): seq<Bytes> {
    var info := ItemInfo(payload);
    if !info.Ok? then []
    else
      var total := info.value.Total();
      [payload[..total]] + Items(payload[total..])
  }

  /** `Rlp::at`: reaching an item means reading all items before it. */
  function At(b: Bytes, index: nat): Outcome<Bytes, DecoderError> {
    var payload :- ListPayload(b);
    var items := Items(payload);
    if index < |items| then Ok(items[index]) else Err(DecoderError)
  }

  /** `Rlp::iter`: `at(0)`, `at(1)`, ... while that succeeds; a view that is no list yields nothing. */
  function Iter(b: Bytes): seq<Bytes> {
    var payload := ListPayload(b);
    if payload.Ok? then Items(payload.value) else []
  }

  /** `decode_value`: the payload of a byte string. */
  function DecodeValue(b: Bytes): Outcome<Bytes, DecoderError> {
    if IsList(b) then Err(DecoderError)
    else
      var info :- ItemInfo(b);
      var data := b[info.headerLen..info.Total()];
      if info.headerLen == 1 && |data| == 1 && data[0] < 0x80 then Err(DecoderError) else Ok(data)
  }

  function DecodeU64(b: Bytes): Outcome<u64, DecoderError> {
    var data :- DecodeValue(b);
    if |data| > 8 || (data != [] && data[0] == 0) then Err(DecoderError)
    else
      FromBigEndianBound(data);
      CapacityMonotone(|data|, 8);
      CapacityOfU64();
      Ok(FromBigEndian(data))
  }

  function EncodeU64(n: u64): Bytes {
    EncodeBytes(BigEndian(n))
  }

  // ---------- src/serialization/rlp.rs ----------

  /** `T::from_bytes` behind `decode_value`: longer data is cut, shorter data is an out-of-range slice. */
  function FieldFromBytes(b: Bytes, length: nat): (r: Outcome<Bytes, DecoderError>)
    ensures r.Ok? ==> |r.value| == length
  {
    var data :- DecodeValue(b);
    if |data| < length then Panic else Ok(data[..length])
  }

  function ListFieldFromBytes(b: Bytes, index: nat, length: nat): (r: Outcome<Bytes, DecoderError>)
    ensures r.Ok? ==> |r.value| == length
  {
    var item :- At(b, index);
    FieldFromBytes(item, length)
  }

  function ToBigInt(b: Bytes, index: nat): Outcome<nat, DecoderError> {
    var item :- At(b, index);
    var data :- DecodeValue(item);
    Ok(FromBigEndian(data))
  }

  /** `BigInt::to_bytes_be` spells zero as one zero byte. */
  function ToBytesBe(val: nat): Bytes {
    if val == 0 then [0] else BigEndian(val)
  }

  function BigIntToRlpCompatBytes(val: nat): Bytes {
    if val == 0 then [] else ToBytesBe(val)
  }

  /** `map(rlp_field_from_bytes).collect()`: the first failing item decides. */
  function CollectFields(items: seq<Bytes>, length: nat): (r: Outcome<seq<Bytes>, DecoderError>)
    ensures r.Ok? ==> |r.value| == |items| && forall f :: f in r.value ==> |f| == length
  {
    if items == [] then Ok([])
    else
      var head :- FieldFromBytes(items[0], length);
      var tail :- CollectFields(items[1..], length);
      Ok([head] + tail)
  }

  // ---------- items ----------

  /** `e` is exactly one item: its header announces its own length. */
  predicate IsItem(e: Bytes) {
    var info := HeaderInfo(e);
    info.Ok? && info.value.Total() == |e|
  }

  predicate AllItems(items: seq<Bytes>) {
    forall e :: e in items ==> IsItem(e)
  }

  /** `AllItems` of a struct with five fields, away from what the fields are. */
  lemma FiveItems(items: seq<Bytes>)
    requires |items| == 5
    requires IsItem(items[0]) && IsItem(items[1]) && IsItem(items[2]) && IsItem(items[3]) && IsItem(items[4])
    ensures AllItems(items)
  {
  }

  /** Likewise for six fields. */
  lemma SixItems(items: seq<Bytes>)
    requires |items| == 6
    requires IsItem(items[0]) && IsItem(items[1]) && IsItem(items[2])
    requires IsItem(items[3]) && IsItem(items[4]) && IsItem(items[5])
    ensures AllItems(items)
  {
  }

  /** Likewise for ten fields. */
  lemma TenItems(items: seq<Bytes>)
    requires |items| == 10
    requires IsItem(items[0]) && IsItem(items[1]) && IsItem(items[2]) && IsItem(items[3]) && IsItem(items[4])
    requires IsItem(items[5]) && IsItem(items[6]) && IsItem(items[7]) && IsItem(items[8]) && IsItem(items[9])
    ensures AllItems(items)
  {
  }

  lemma LongInfoOfPrefix(e: Bytes, rest: Bytes, n: nat)
    requires n > 0 && LongInfo(e, n).Ok?
    ensures LongInfo(e + rest, n) == LongInfo(e, n)
  {
    assert (e + rest)[1..1 + n] == e[1..1 + n];
  }

  /** A header reads the same whatever follows the item. */
  lemma HeaderOfPrefix(e: Bytes, rest: Bytes)
    requires IsItem(e)
    ensures e != [] && HeaderInfo(e + rest) == HeaderInfo(e)
    ensures ItemInfo(e + rest) == Ok(HeaderInfo(e).value)
  {
    hide LongInfo;
    if 0xb7 < e[0] <= 0xbf {
      LongInfoOfPrefix(e, rest, e[0] - 0xb7);
    } else if 0xf7 < e[0] {
      LongInfoOfPrefix(e, rest, e[0] - 0xf7);
    }
  }

  /** A length that does not fit the first byte is spelled out in at most eight, none of them leading zero. */
  lemma LongLength(len: nat)
    requires 55 < len < U64_LIMIT
    ensures 1 <= |BigEndian(len)| <= 8 && BigEndian(len)[0] != 0 && FromBigEndian(BigEndian(len)) == len
  {
    CapacityOfU64();
    BigEndianLength(len, 8);
    BigEndianMinimal(len);
    BigEndianRoundTrip(len);
  }

  lemma LongInfoReads(first: byte, digits: Bytes, v: Bytes)
    requires digits != [] && digits[0] != 0 && FromBigEndian(digits) == |v| && |v| > 55
    ensures LongInfo([first] + digits + v, |digits|) == Ok(PayloadInfo(1 + |digits|, |v|))
  {
    hide FromBigEndian;
    var b := [first] + digits + v;
    assert b[1..1 + |digits|] == digits && b[1] == digits[0];
  }

  /** Which header a first byte announces. */
  lemma HeaderByFirstByte(b: Bytes, base: nat, n: nat)
    requires base == 0x80 || base == 0xc0
    requires b != []
    ensures n <= 55 && b[0] == base + n ==> HeaderInfo(b) == Ok(PayloadInfo(1, n))
    ensures 1 <= n <= 8 && b[0] == base + 55 + n ==> HeaderInfo(b) == LongInfo(b, n)
  {
    hide LongInfo;
  }

  lemma LengthByteFits(base: nat, n: nat)
    requires base == 0x80 || base == 0xc0
    requires n <= 8
    ensures LengthByte(base, n) == base + 55 + n
  {
  }

  lemma LongPrefixReads(base: nat, digits: Bytes, v: Bytes)
    requires base == 0x80 || base == 0xc0
    requires 1 <= |digits| <= 8 && digits[0] != 0 && FromBigEndian(digits) == |v| && |v| > 55
    ensures var b := [LengthByte(base, |digits|)] + digits + v;
      b[0] == base + 55 + |digits| && HeaderInfo(b) == Ok(PayloadInfo(1 + |digits|, |v|))
  {
    hide FromBigEndian, LongInfo, HeaderInfo, LengthByte;
    LengthByteFits(base, |digits|);
    LongInfoReads(LengthByte(base, |digits|), digits, v);
    HeaderByFirstByte([LengthByte(base, |digits|)] + digits + v, base, |digits|);
  }

  /** The header of a payload can be read back. */
  lemma PrefixReads(base: nat, v: Bytes)
    requires base == 0x80 || base == 0xc0
    requires |v| < U64_LIMIT
    ensures HeaderInfo(Prefix(base, |v|) + v) == Ok(PayloadInfo(|Prefix(base, |v|)|, |v|))
    ensures base == 0xc0 <==> IsList(Prefix(base, |v|) + v)
  {
    hide BigEndian, FromBigEndian, HeaderInfo, LengthByte;
    if |v| > 55 {
      LongLength(|v|);
      LongPrefixReads(base, BigEndian(|v|), v);
    } else {
      HeaderByFirstByte(Prefix(base, |v|) + v, base, |v|);
    }
  }

  lemma EncodeBytesIsItem(v: Bytes)
    requires |v| < U64_LIMIT
    ensures IsItem(EncodeBytes(v)) && !IsList(EncodeBytes(v))
    ensures DecodeValue(EncodeBytes(v)) == Ok(v)
  {
    if !(|v| == 1 && v[0] < 0x80) {
      PrefixReads(0x80, v);
      var e := EncodeBytes(v);
      assert e[|Prefix(0x80, |v|)|..|e|] == v;
    } else {
      assert v[0..1] == v;
    }
  }

  lemma EncodeListIsItem(payload: Bytes)
    requires |payload| < U64_LIMIT
    ensures IsItem(EncodeList(payload)) && IsList(EncodeList(payload))
    ensures ListPayload(EncodeList(payload)) == Ok(payload)
  {
    PrefixReads(0xc0, payload);
    var e := EncodeList(payload);
    assert e[|Prefix(0xc0, |payload|)|..|e|] == payload;
  }

  /** A long header that reads is the header the encoder writes. */
  lemma LongInfoCanonical(b: Bytes, n: nat)
    requires 0 < n <= 8 && LongInfo(b, n).Ok?
    ensures 55 < LongInfo(b, n).value.valueLen < U64_LIMIT
    ensures BigEndian(LongInfo(b, n).value.valueLen) == b[1..1 + n]
  {
    var digits := b[1..1 + n];
    FromBigEndianCanonical(digits);
    FromBigEndianBound(digits);
    CapacityMonotone(n, 8);
    CapacityOfU64();
  }

  /** Whatever reads as an item starts with the header the encoder writes for its payload. */
  lemma HeaderCanonical(b: Bytes)
    requires IsItem(b) && b[0] > 0x7f
    ensures var info := HeaderInfo(b).value;
      && |b[info.headerLen..]| == info.valueLen < U64_LIMIT
      && b == Prefix(if IsList(b) then 0xc0 else 0x80, info.valueLen) + b[info.headerLen..]
  {
    var info := HeaderInfo(b).value;
    var base := if IsList(b) then 0xc0 else 0x80;
    hide LongInfo, BigEndian, FromBigEndian, LengthByte;
    if base + 55 < b[0] {
      var n := b[0] - base - 55;
      LongInfoCanonical(b, n);
      LengthByteFits(base, n);
      LongInfoLength(b, n);
      assert b == [b[0]] + b[1..1 + n] + b[1 + n..];
    } else {
      assert b == [b[0]] + b[1..];
    }
  }

  lemma LongInfoLength(b: Bytes, n: nat)
    requires n > 0 && LongInfo(b, n).Ok?
    ensures LongInfo(b, n).value.headerLen == 1 + n <= |b|
  {
  }

  /** The decoder accepts no spelling of a byte string but the encoder's. */
  lemma StringCanonical(b: Bytes, v: Bytes)
    requires |v| < U64_LIMIT
    ensures IsItem(b) && DecodeValue(b) == Ok(v) <==> b == EncodeBytes(v)
  {
    EncodeBytesIsItem(v);
    if IsItem(b) && DecodeValue(b) == Ok(v) {
      assert b[..|b|] == b;
      if b[0] > 0x7f { HeaderCanonical(b); }
    }
  }

  /** Nor any spelling of a list. */
  lemma ListCanonical(b: Bytes, payload: Bytes)
    requires |payload| < U64_LIMIT
    ensures IsItem(b) && ListPayload(b) == Ok(payload) <==> b == EncodeList(payload)
  {
    EncodeListIsItem(payload);
    if IsItem(b) && ListPayload(b) == Ok(payload) {
      HeaderCanonical(b);
      assert b[HeaderInfo(b).value.headerLen..|b|] == b[HeaderInfo(b).value.headerLen..];
    }
  }

  lemma {:induction false} FlattenAppend(a: seq<Bytes>, b: seq<Bytes>)
    ensures Flatten(a + b) == Flatten(a) + Flatten(b)
  {
    if a == [] {
      assert a + b == b;
    } else {
      assert (a + b)[0] == a[0] && (a + b)[1..] == a[1..] + b;
      FlattenAppend(a[1..], b);
    }
  }

  lemma {:induction false} FlattenBounds(items: seq<Bytes>, i: nat)
    requires i < |items|
    ensures |items[i]| <= |Flatten(items)|
  {
    if i == 0 {
    } else {
      FlattenBounds(items[1..], i - 1);
    }
  }

  lemma ListPayloadOfPrefix(items: seq<Bytes>, rest: Bytes)
    requires |Flatten(items)| < U64_LIMIT
    ensures ListPayload(EncodeList(Flatten(items)) + rest) == Ok(Flatten(items))
  {
    var e := EncodeList(Flatten(items));
    EncodeListIsItem(Flatten(items));
    HeaderOfPrefix(e, rest);
    var info := HeaderInfo(e).value;
    assert (e + rest)[info.headerLen..info.Total()] == e[info.headerLen..info.Total()];
  }

  lemma {:induction false} ItemsOfFlattened(items: seq<Bytes>)
    requires AllItems(items)
    ensures Items(Flatten(items)) == items
  {
    if items == [] {
    } else {
      HeaderOfPrefix(items[0], Flatten(items[1..]));
      assert Flatten(items)[..|items[0]|] == items[0];
      assert Flatten(items)[|items[0]|..] == Flatten(items[1..]);
      ItemsOfFlattened(items[1..]);
    }
  }

  lemma LongInfoOfTake(b: Bytes, n: nat, k: nat)
    requires n > 0 && LongInfo(b, n).Ok? && 1 + n <= k <= |b|
    ensures LongInfo(b[..k], n) == LongInfo(b, n)
  {
    assert b[..k][1..1 + n] == b[1..1 + n];
  }

  /** An item is read exactly if some first bytes are one. */
  lemma ItemReadsIff(b: Bytes)
    ensures ItemInfo(b).Ok? ==>
      var total := ItemInfo(b).value.Total();
      IsItem(b[..total]) && HeaderInfo(b[..total]) == ItemInfo(b)
    ensures !ItemInfo(b).Ok? ==> ItemInfo(b) == Err(DecoderError) && forall k :: 0 <= k <= |b| ==> !IsItem(b[..k])
  {
    if ItemInfo(b).Ok? {
      var total := ItemInfo(b).value.Total();
      if 0xb7 < b[0] <= 0xbf {
        LongInfoOfTake(b, b[0] - 0xb7, total);
      } else if 0xf7 < b[0] {
        LongInfoOfTake(b, b[0] - 0xf7, total);
      }
    } else {
      hide IsItem, HeaderInfo;
      forall k | 0 <= k <= |b| ensures !IsItem(b[..k]) {
        assert b == b[..k] + b[k..];
        if IsItem(b[..k]) { HeaderOfPrefix(b[..k], b[k..]); }
      }
    }
  }

  /** Only the item at the head of a view counts. */
  lemma ReadFromHead(e: Bytes, b: Bytes)
    requires IsItem(e) && e <= b
    ensures DecodeValue(b) == DecodeValue(e) && ListPayload(b) == ListPayload(e)
  {
    assert b == e + b[|e|..] && e == e + [];
    HeaderOfPrefix(e, b[|e|..]);
    HeaderOfPrefix(e, []);
    hide IsItem, HeaderInfo, ItemInfo;
    var info := HeaderInfo(e).value;
    assert b[info.headerLen..info.Total()] == e[info.headerLen..info.Total()];
  }

  /** Bytes that read as a string or a list start with the item they are read from. */
  lemma HeadOf(b: Bytes) returns (e: Bytes)
    requires DecodeValue(b).Ok? || ListPayload(b).Ok?
    ensures IsItem(e) && e <= b
  {
    ItemReadsIff(b);
    hide IsItem, HeaderInfo, ItemInfo;
    e := b[..ItemInfo(b).value.Total()];
  }

  /** Bytes read as a string exactly if they start with its encoding; what follows does not matter. */
  lemma StringReadsIff(b: Bytes, v: Bytes)
    requires |v| < U64_LIMIT
    ensures DecodeValue(b) == Ok(v) <==> EncodeBytes(v) <= b
  {
    EncodeBytesIsItem(v);
    hide IsItem, DecodeValue, EncodeBytes, ListPayload;
    if EncodeBytes(v) <= b {
      ReadFromHead(EncodeBytes(v), b);
    } else if DecodeValue(b) == Ok(v) {
      var e := HeadOf(b);
      ReadFromHead(e, b);
      StringCanonical(e, v);
    }
  }

  /** Likewise for a list and its payload. */
  lemma ListReadsIff(b: Bytes, payload: Bytes)
    requires |payload| < U64_LIMIT
    ensures ListPayload(b) == Ok(payload) <==> EncodeList(payload) <= b
  {
    EncodeListIsItem(payload);
    hide IsItem, DecodeValue, EncodeList, ListPayload;
    if EncodeList(payload) <= b {
      ReadFromHead(EncodeList(payload), b);
    } else if ListPayload(b) == Ok(payload) {
      var e := HeadOf(b);
      ReadFromHead(e, b);
      ListCanonical(e, payload);
    }
  }

  /** Likewise for an integer. */
  lemma U64ReadsIff(b: Bytes, n: u64)
    ensures DecodeU64(b) == Ok(n) <==> EncodeU64(n) <= b
  {
    U64RoundTrip(n);
    StringReadsIff(b, BigEndian(n));
    if DecodeU64(b) == Ok(n) { FromBigEndianCanonical(DecodeValue(b).value); }
    if EncodeU64(n) <= b {
      BigEndianRoundTrip(n);
      if n > 0 { BigEndianMinimal(n); }
    }
  }

  /** The items of any payload, well-formed or not: it is cut into items until the bytes that are left start with
      none. */
  lemma {:induction false} ItemsOfAnything(payload: Bytes) returns (rest: Bytes)
    ensures AllItems(Items(payload)) && payload == Flatten(Items(payload)) + rest
    ensures forall k :: 0 <= k <= |rest| ==> !IsItem(rest[..k])
    decreases |payload|
  {
    ItemReadsIff(payload);
    hide IsItem, ItemInfo, HeaderInfo;
    if !ItemInfo(payload).Ok? {
      rest := payload;
      assert payload == Flatten([]) + rest;
    } else {
      var total := ItemInfo(payload).value.Total();
      rest := ItemsOfAnything(payload[total..]);
      assert payload == payload[..total] + payload[total..];
      assert Items(payload)[1..] == Items(payload[total..]);
    }
  }

  /** Indexing an encoded list finds its items, whatever bytes follow the list. */
  lemma AtEncodedList(items: seq<Bytes>, index: nat, rest: Bytes)
    requires AllItems(items) && |Flatten(items)| < U64_LIMIT && index < |items|
    ensures At(EncodeList(Flatten(items)) + rest, index) == Ok(items[index])
  {
    ListPayloadOfPrefix(items, rest);
    ItemsOfFlattened(items);
  }

  /** Iterating is indexing until that fails, whatever the view is; on a view that is no list it fails at once. */
  lemma IterIsIndexing(b: Bytes, i: nat)
    ensures At(b, i) == if i < |Iter(b)| then Ok(Iter(b)[i]) else Err(DecoderError)
    ensures !IsList(b) ==> Iter(b) == []
  {
    hide Items;
  }

  /** The view starts with these items, and may go on. */
  ghost predicate StartsWith(b: Bytes, items: seq<Bytes>) {
    forall i: nat :: i < |items| ==> At(b, i) == Ok(items[i])
  }

  /** The first `n` items of a view that has as many. */
  lemma ItemsThere(b: Bytes, n: nat) returns (items: seq<Bytes>)
    requires forall i: nat :: i < n ==> At(b, i).Ok?
    ensures |items| == n && StartsWith(b, items)
  {
    items := seq(n, i requires 0 <= i < n => At(b, i).value);
  }

  /** A string that holds these digits, leading zeros or not. */
  predicate HoldsNumber(item: Bytes, n: nat) {
    DecodeValue(item).Ok? && FromBigEndian(DecodeValue(item).value) == n
  }

  /** Iterating over an encoded list yields its items. */
  lemma IterEncodedList(items: seq<Bytes>)
    requires AllItems(items) && |Flatten(items)| < U64_LIMIT
    ensures Iter(EncodeList(Flatten(items))) == items
  {
    EncodeListIsItem(Flatten(items));
    ItemsOfFlattened(items);
  }

  lemma U64RoundTrip(n: u64)
    ensures IsItem(EncodeU64(n)) && DecodeU64(EncodeU64(n)) == Ok(n)
    ensures |BigEndian(n)| <= 8
  {
    CapacityOfU64();
    BigEndianLength(n, 8);
    BigEndianRoundTrip(n);
    if n > 0 { BigEndianMinimal(n); }
    EncodeBytesIsItem(BigEndian(n));
  }

  /** An integer is accepted in its shortest spelling only. */
  lemma U64Canonical(v: Bytes, n: u64)
    requires |v| < U64_LIMIT
    ensures DecodeU64(EncodeBytes(v)) == Ok(n) <==> v == BigEndian(n)
  {
    U64RoundTrip(n);
    EncodeBytesIsItem(v);
    if v == [] || v[0] != 0 { FromBigEndianCanonical(v); }
  }

  /** A fixed-length field: longer data is cut off, shorter data makes the decoder panic, no data is an error. */
  lemma FixedFieldOfAnyLength(b: Bytes, v: Bytes, length: nat)
    requires |v| < U64_LIMIT
    ensures EncodeBytes(v) <= b ==> FieldFromBytes(b, length) == if |v| < length then Panic else Ok(v[..length])
    ensures !DecodeValue(b).Ok? ==> FieldFromBytes(b, length) == Err(DecoderError)
  {
    StringReadsIff(b, v);
    hide EncodeBytes;
  }

  /** Only a string that is too short makes a fixed-length field panic; numbers and views never do. */
  lemma OnlyShortFieldsPanic(b: Bytes, length: nat)
    ensures FieldFromBytes(b, length).Panic? <==> DecodeValue(b).Ok? && |DecodeValue(b).value| < length
    ensures !DecodeValue(b).Panic? && !DecodeU64(b).Panic?
    ensures forall i: nat :: !At(b, i).Panic? && !ToBigInt(b, i).Panic?
  {
    hide Items, HeaderInfo, FromBigEndian, Capacity;
    forall i: nat ensures !At(b, i).Panic? && !ToBigInt(b, i).Panic? {
      var item := At(b, i);
      assert !item.Panic?;
      if item.Ok? { assert !DecodeValue(item.value).Panic?; }
    }
  }

  lemma BigIntCompatRoundTrip(n: nat)
    requires |BigIntToRlpCompatBytes(n)| < U64_LIMIT
    ensures IsItem(EncodeBytes(BigIntToRlpCompatBytes(n)))
    ensures DecodeValue(EncodeBytes(BigIntToRlpCompatBytes(n))) == Ok(BigIntToRlpCompatBytes(n))
    ensures FromBigEndian(BigIntToRlpCompatBytes(n)) == n
    ensures BigIntToRlpCompatBytes(n) != [] ==> BigIntToRlpCompatBytes(n)[0] != 0
  {
    EncodeBytesIsItem(BigIntToRlpCompatBytes(n));
    BigEndianRoundTrip(n);
    if n > 0 { BigEndianMinimal(n); }
  }

  lemma FixedFieldRoundTrip(v: Bytes)
    requires |v| < U64_LIMIT
    ensures IsItem(EncodeBytes(v)) && FieldFromBytes(EncodeBytes(v), |v|) == Ok(v)
  {
    EncodeBytesIsItem(v);
    assert v[..|v|] == v;
  }

  /** Byte strings encoded one after the other. */
  function EncodeAll(fields: seq<Bytes>): (r: seq<Bytes>)
    ensures |r| == |fields|
  {
    if fields == [] then [] else [EncodeBytes(fields[0])] + EncodeAll(fields[1..])
  }

  lemma {:induction false} CollectEncoded(fields: seq<Bytes>, length: nat)
    requires forall f :: f in fields ==> |f| == length
    requires length < U64_LIMIT
    ensures AllItems(EncodeAll(fields))
    ensures CollectFields(EncodeAll(fields), length) == Ok(fields)
  {
    if fields == [] {
    } else {
      FixedFieldRoundTrip(fields[0]);
      CollectEncoded(fields[1..], length);
      assert fields == [fields[0]] + fields[1..];
    }
  }

  /** Collecting fields gives the fields of all items, or what the first failing one gives. */
  lemma {:induction false} CollectedFields(items: seq<Bytes>, length: nat)
    ensures var r := CollectFields(items, length);
      if r.Ok? then forall i :: 0 <= i < |items| ==> FieldFromBytes(items[i], length) == Ok(r.value[i])
      else exists i :: IsFirstFailure(items, length, i) && FieldFromBytes(items[i], length) == r.PropagateFailure()
  {
    hide FieldFromBytes;
    if items == [] {
    } else if !FieldFromBytes(items[0], length).Ok? {
      assert IsFirstFailure(items, length, 0);
    } else {
      CollectedFields(items[1..], length);
      if !CollectFields(items[1..], length).Ok? {
        var i :| IsFirstFailure(items[1..], length, i)
          && FieldFromBytes(items[1..][i], length) == CollectFields(items[1..], length).PropagateFailure();
        assert IsFirstFailure(items, length, i + 1);
      }
    }
  }

  ghost predicate IsFirstFailure(items: seq<Bytes>, length: nat, i: int) {
    && 0 <= i < |items| && !FieldFromBytes(items[i], length).Ok?
    && forall j :: 0 <= j < i ==> FieldFromBytes(items[j], length).Ok?
  }

  /** A byte string inside a list that fits is itself short enough to be read back. */
  lemma StringInList(items: seq<Bytes>, i: nat, v: Bytes)
    requires i < |items| && items[i] == EncodeBytes(v) && |Flatten(items)| < U64_LIMIT
    ensures |v| < U64_LIMIT && IsItem(items[i]) && DecodeValue(items[i]) == Ok(v)
  {
    FlattenBounds(items, i);
    EncodeBytesIsItem(v);
  }

  /** Likewise for a nested list. */
  lemma ListInList(items: seq<Bytes>, i: nat, nested: seq<Bytes>)
    requires i < |items| && items[i] == EncodeList(Flatten(nested)) && |Flatten(items)| < U64_LIMIT
    ensures |Flatten(nested)| < U64_LIMIT && IsItem(items[i])
  {
    FlattenBounds(items, i);
    EncodeListIsItem(Flatten(nested));
  }
}
