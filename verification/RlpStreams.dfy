/** The `rlp_append` methods of `src/types`, which write structs to an `RlpStream` item by item. A list is
    announced with its number of items and closes by itself when the last one has arrived. Each method is
    proved to deliver exactly one item, the encoding the decoders of `src/types` are proved against. */
module RlpStreams {
  import opened Outcomes
  import opened Bytes
  import opened Rlp
  import opened IstanbulTypes
  import opened HeaderTypes
  import opened SnapshotTypes

  /** A list under construction: items still to come, and those that have arrived. */
  datatype Frame = Frame(missing: nat, payload: Bytes)

  datatype Buffer = Buffer(out: Bytes, open: seq<Frame>)

  /** Delivering one item: it goes to the innermost open list, which may complete it and so deliver that
      list to the one around it. */
  function Feed(b: Buffer, item: Bytes): Buffer
    decreases |b.open|
  {
    if b.open == [] then Buffer(b.out + item, [])
    else
      var last := |b.open| - 1;
      var top := b.open[last];
      if top.missing <= 1 then Feed(Buffer(b.out, b.open[..last]), EncodeList(top.payload + item))
      else b.(open := b.open[..last] + [Frame(top.missing - 1, top.payload + item)])
  }

  /** The buffer with a further list opened, `payload` of which has arrived. */
  function Opened(b: Buffer, missing: nat, payload: Bytes): Buffer {
    b.(open := b.open + [Frame(missing, payload)])
  }

  lemma FeedOpened(b: Buffer, missing: nat, payload: Bytes, item: Bytes)
    requires missing > 0
    ensures Feed(Opened(b, missing, payload), item)
         == if missing == 1 then Feed(b, EncodeList(payload + item)) else Opened(b, missing - 1, payload + item)
  {
    var o := Opened(b, missing, payload);
    assert o.open[..|o.open| - 1] == b.open;
  }

  /** Delivering all items of a list that was announced with the right length delivers the list. */
  function FeedAll(b: Buffer, items: seq<Bytes>): Buffer {
    if items == [] then b else Feed(FeedAll(b, items[..|items| - 1]), items[|items| - 1])
  }

  lemma {:induction false} FeedAllOpened(b: Buffer, n: nat, items: seq<Bytes>)
    requires n > 0 && |items| <= n
    ensures FeedAll(Opened(b, n, []), items)
         == if |items| < n then Opened(b, n - |items|, Flatten(items)) else Feed(b, EncodeList(Flatten(items)))
  {
    if items != [] {
      var last := |items| - 1;
      FeedAllOpened(b, n, items[..last]);
      FeedOpened(b, n - last, Flatten(items[..last]), items[last]);
      assert items == items[..last] + [items[last]];
      FlattenAppend(items[..last], [items[last]]);
      assert Flatten([items[last]]) == items[last] + Flatten([items[last]][1..]);
      assert Flatten(items) == Flatten(items[..last]) + items[last];
    } else {
      assert Flatten(items) == [];
    }
  }

  /** The first `k` items delivered one after the other. */
  function Fed(b: Buffer, items: seq<Bytes>, k: nat): Buffer
    requires k <= |items|
  {
    if k == 0 then b else Feed(Fed(b, items, k - 1), items[k - 1])
  }

  lemma {:induction false} FedIsFeedAll(b: Buffer, items: seq<Bytes>, k: nat)
    requires k <= |items|
    ensures FeedAll(b, items[..k]) == Fed(b, items, k)
  {
    if k == 0 {
    } else {
      FedIsFeedAll(b, items, k - 1);
      assert items[..k][..k - 1] == items[..k - 1];
    }
  }

  /** Items delivered one after the other to a list announced with their number deliver the list. */
  lemma FedList(b: Buffer, items: seq<Bytes>)
    requires items != []
    ensures Fed(Opened(b, |items|, []), items, |items|) == Feed(b, EncodeList(Flatten(items)))
  {
    assert items[..|items|] == items;
    FedIsFeedAll(Opened(b, |items|, []), items, |items|);
    FeedAllOpened(b, |items|, items);
  }

  class RlpStream {
    var out: Bytes
    var open: seq<Frame>

    function Buffered(): Buffer
      reads this
    {
      Buffer(out, open)
    }

    constructor ()
      ensures Buffered() == Buffer([], [])
    {
      out := [];
      open := [];
    }

    /** An item has arrived: lists are closed from the inside out as long as it completes them. */
    method Deliver(item: Bytes)
      modifies this
      ensures Buffered() == Feed(old(Buffered()), item)
    {
      var current := item;
      while open != [] && open[|open| - 1].missing <= 1
        invariant Feed(Buffered(), current) == Feed(old(Buffered()), item)
        decreases |open|
      {
        current := EncodeList(open[|open| - 1].payload + current);
        open := open[..|open| - 1];
      }
      if open == [] {
        out := out + current;
      } else {
        var top := open[|open| - 1];
        open := open[..|open| - 1] + [Frame(top.missing - 1, top.payload + current)];
      }
    }

    method BeginList(len: nat)
      modifies this
      ensures Buffered() == if len == 0 then Feed(old(Buffered()), EncodeList([])) else Opened(old(Buffered()), len, [])
    {
      if len == 0 {
        Deliver(EncodeList([]));
      } else {
        open := open + [Frame(len, [])];
      }
    }

    /** `append` of a byte string */
    method AppendBytes(v: Bytes)
      modifies this
      ensures Buffered() == Feed(old(Buffered()), EncodeBytes(v))
    {
      Deliver(EncodeBytes(v));
    }

    /** `append` of a `u64` */
    method AppendU64(n: u64)
      modifies this
      ensures Buffered() == Feed(old(Buffered()), EncodeU64(n))
    {
      Deliver(EncodeU64(n));
    }
  }

  // ---------- rlp_append ----------

  lemma {:induction false} EncodeAllSnoc(fields: seq<Bytes>, i: nat)
    requires i < |fields|
    ensures EncodeAll(fields[..i + 1]) == EncodeAll(fields[..i]) + [EncodeBytes(fields[i])]
  {
    if i > 0 {
      EncodeAllSnoc(fields[1..], i - 1);
      assert fields[..i + 1][1..] == fields[1..][..i] && fields[..i][1..] == fields[1..][..i - 1];
    } else {
      assert fields[..1][1..] == [] && fields[..0] == [];
    }
  }

  lemma {:induction false} EncodeValidatorsSnoc(vs: seq<Validator>, i: nat)
    requires i < |vs|
    ensures EncodeValidators(vs[..i + 1]) == EncodeValidators(vs[..i]) + [EncodeValidator(vs[i])]
  {
    hide EncodeValidator;
    if i > 0 {
      EncodeValidatorsSnoc(vs[1..], i - 1);
      assert vs[..i + 1][1..] == vs[1..][..i] && vs[..i][1..] == vs[1..][..i - 1];
    } else {
      assert vs[..1][1..] == [] && vs[..0] == [];
    }
  }

  /** A list of byte strings: announced, then appended in a loop. */
  method AppendFields(s: RlpStream, fields: seq<Bytes>)
    modifies s
    ensures s.Buffered() == Feed(old(s.Buffered()), EncodeList(Flatten(EncodeAll(fields))))
  {
    ghost var before := s.Buffered();
    ghost var items := EncodeAll(fields);
    s.BeginList(|fields|);
    ghost var begun := s.Buffered();
    for i := 0 to |fields|
      invariant s.Buffered() == FeedAll(begun, EncodeAll(fields[..i]))
    {
      EncodeAllSnoc(fields, i);
      s.AppendBytes(fields[i]);
    }
    assert fields[..|fields|] == fields;
    if fields != [] { FeedAllOpened(before, |fields|, items); }
  }

  method AppendSeal(s: RlpStream, seal: IstanbulAggregatedSeal)
    modifies s
    ensures s.Buffered() == Feed(old(s.Buffered()), EncodeSeal(seal))
  {
    ghost var before := s.Buffered();
    ghost var items := SealItems(seal);
    hide Feed, Flatten, EncodeBytes, EncodeList;
    s.BeginList(3);
    ghost var begun := s.Buffered();
    s.AppendBytes(BigIntToRlpCompatBytes(seal.bitmap));
    assert s.Buffered() == Fed(begun, items, 1);
    s.AppendBytes(seal.signature);
    assert s.Buffered() == Fed(begun, items, 2);
    s.AppendBytes(BigIntToRlpCompatBytes(seal.round));
    assert s.Buffered() == Fed(begun, items, 3);
    FedList(before, items);
  }

  method AppendExtra(s: RlpStream, extra: IstanbulExtra)
    modifies s
    ensures s.Buffered() == Feed(old(s.Buffered()), EncodeExtra(extra))
  {
    ghost var before := s.Buffered();
    ghost var items := ExtraItems(extra);
    hide Feed, Flatten, EncodeBytes, EncodeList, EncodeSeal;
    s.BeginList(6);
    ghost var begun := s.Buffered();
    AppendFields(s, extra.addedValidators);
    assert s.Buffered() == Fed(begun, items, 1);
    AppendFields(s, extra.addedValidatorsPublicKeys);
    assert s.Buffered() == Fed(begun, items, 2);
    s.AppendBytes(BigIntToRlpCompatBytes(extra.removedValidators));
    assert s.Buffered() == Fed(begun, items, 3);
    s.AppendBytes(extra.seal);
    assert s.Buffered() == Fed(begun, items, 4);
    AppendSeal(s, extra.aggregatedSeal);
    assert s.Buffered() == Fed(begun, items, 5);
    AppendSeal(s, extra.parentAggregatedSeal);
    assert s.Buffered() == Fed(begun, items, 6);
    FedList(before, items);
  }

  method AppendHeader(s: RlpStream, h: Header)
    modifies s
    ensures s.Buffered() == Feed(old(s.Buffered()), EncodeHeader(h))
  {
    ghost var before := s.Buffered();
    ghost var items := HeaderItems(h);
    hide Feed, Flatten, EncodeBytes, EncodeList;
    s.BeginList(10);
    ghost var begun := s.Buffered();
    s.AppendBytes(h.parentHash);
    assert s.Buffered() == Fed(begun, items, 1);
    s.AppendBytes(h.coinbase);
    assert s.Buffered() == Fed(begun, items, 2);
    s.AppendBytes(h.root);
    assert s.Buffered() == Fed(begun, items, 3);
    s.AppendBytes(h.txHash);
    assert s.Buffered() == Fed(begun, items, 4);
    s.AppendBytes(h.receiptHash);
    assert s.Buffered() == Fed(begun, items, 5);
    s.AppendBytes(h.bloom);
    assert s.Buffered() == Fed(begun, items, 6);
    s.AppendBytes(BigIntToRlpCompatBytes(h.number));
    assert s.Buffered() == Fed(begun, items, 7);
    s.AppendU64(h.gasUsed);
    assert s.Buffered() == Fed(begun, items, 8);
    s.AppendU64(h.time);
    assert s.Buffered() == Fed(begun, items, 9);
    s.AppendBytes(h.extra);
    assert s.Buffered() == Fed(begun, items, 10);
    FedList(before, items);
  }

  method AppendValidator(s: RlpStream, v: Validator)
    modifies s
    ensures s.Buffered() == Feed(old(s.Buffered()), EncodeValidator(v))
  {
    ghost var before := s.Buffered();
    ghost var items := ValidatorItems(v);
    hide Feed, Flatten, EncodeBytes, EncodeList;
    s.BeginList(2);
    ghost var begun := s.Buffered();
    s.AppendBytes(v.address);
    assert s.Buffered() == Fed(begun, items, 1);
    s.AppendBytes(v.publicKey);
    assert s.Buffered() == Fed(begun, items, 2);
    FedList(before, items);
  }

  method AppendSnapshot(s: RlpStream, snapshot: Snapshot)
    modifies s
    ensures s.Buffered() == Feed(old(s.Buffered()), EncodeSnapshot(snapshot))
  {
    ghost var before := s.Buffered();
    ghost var items := SnapshotItems(snapshot);
    hide Feed, Flatten, EncodeBytes, EncodeList, EncodeSeal;
    s.BeginList(5);
    ghost var begun := s.Buffered();
    s.AppendU64(snapshot.number);
    assert s.Buffered() == Fed(begun, items, 1);
    s.AppendU64(snapshot.timestamp);
    assert s.Buffered() == Fed(begun, items, 2);
    AppendValidators(s, snapshot.validators);
    assert s.Buffered() == Fed(begun, items, 3);
    s.AppendBytes(snapshot.hash);
    assert s.Buffered() == Fed(begun, items, 4);
    AppendSeal(s, snapshot.aggregatedSeal);
    assert s.Buffered() == Fed(begun, items, 5);
    FedList(before, items);
  }

  /** The loop over the validators of a snapshot. */
  method AppendValidators(s: RlpStream, vs: seq<Validator>)
    modifies s
    ensures s.Buffered() == Feed(old(s.Buffered()), EncodeList(Flatten(EncodeValidators(vs))))
  {
    ghost var before := s.Buffered();
    s.BeginList(|vs|);
    ghost var begun := s.Buffered();
    for i := 0 to |vs|
      invariant s.Buffered() == FeedAll(begun, EncodeValidators(vs[..i]))
    {
      EncodeValidatorsSnoc(vs, i);
      AppendValidator(s, vs[i]);
    }
    assert vs[..|vs|] == vs;
    if vs != [] { FeedAllOpened(before, |vs|, EncodeValidators(vs)); }
  }
}
