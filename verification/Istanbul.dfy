/** `src/istanbul.rs`: epoch arithmetic, the quorum size, and the header filter behind the hash. */
module Istanbul {
  import opened Outcomes
  import opened Bytes
  import opened Errors
  import opened IstanbulTypes
  import opened HeaderTypes

  // ---------- epochs ----------
  // A zero epoch size makes `%` and `/` panic; callers answer for that case.

  function GetNumberWithinEpoch(number: u64, epochSize: u64): u64
    requires epochSize > 0
  {
    var within := number % epochSize;
    if within == 0 then epochSize else within
  }

  predicate IsLastBlockOfEpoch(number: u64, epochSize: u64)
    requires epochSize > 0
  {
    GetNumberWithinEpoch(number, epochSize) == epochSize
  }

  function GetEpochNumber(number: u64, epochSize: u64): nat
    requires epochSize > 0
  {
    var epochNumber := number / epochSize;
    if IsLastBlockOfEpoch(number, epochSize) then epochNumber else epochNumber + 1
  }

  /** No block comes first in epoch 0; beyond `u64` the arithmetic panics. */
  function GetEpochFirstBlockNumber(epochNumber: nat, epochSize: nat): Outcome<Option<u64>, Kind> {
    if epochNumber == 0 then Ok(None)
    else
      var product :- CheckedU64<Kind>((epochNumber - 1) * epochSize);
      var first :- CheckedU64<Kind>(product + 1);
      Ok(Some(first))
  }

  function GetEpochLastBlockNumber(epochNumber: nat, epochSize: nat): Outcome<u64, Kind> {
    if epochNumber == 0 then Ok(0) else CheckedU64(epochNumber * epochSize)
  }

  /** `n` lies strictly after the end of epoch `e - 1` and not after the end of epoch `e`. */
  predicate InEpoch(n: nat, e: nat, epochSize: nat) {
    e > 0 && (e - 1) * epochSize < n <= e * epochSize
  }

  lemma DivMod(n: nat, size: nat, q: nat, r: nat)
    requires size > 0 && r < size && n == q * size + r
    ensures n / size == q && n % size == r
  {
    var q' := n / size;
    var r' := n % size;
    assert n == q' * size + r';
    if q' < q {
      MulMonotone(q' + 1, q, size);
    } else if q < q' {
      MulMonotone(q + 1, q', size);
    }
  }

  lemma MulMonotone(a: nat, b: nat, size: nat)
    requires a <= b
    ensures a * size <= b * size
  {
  }

  /** The epoch of a block is the only one that contains it, and gives its position within the epoch. */
  lemma EpochPartition(n: u64, size: u64)
    requires size > 0 && n > 0
    ensures InEpoch(n, GetEpochNumber(n, size), size)
    ensures n == (GetEpochNumber(n, size) - 1) * size + GetNumberWithinEpoch(n, size)
    ensures forall e: nat :: InEpoch(n, e, size) ==> e == GetEpochNumber(n, size)
  {
    var q, r := n / size, n % size;
    var epoch := GetEpochNumber(n, size);
    assert n == q * size + r;
    if r == 0 {
      assert epoch == q;
      assert (q - 1) * size == q * size - size;
    } else {
      assert epoch == q + 1;
      assert (q + 1) * size == q * size + size;
    }
    forall e: nat | InEpoch(n, e, size) ensures e == epoch {
      if e < epoch {
        MulMonotone(e, epoch - 1, size);
      } else if epoch < e {
        MulMonotone(epoch, e - 1, size);
      }
    }
  }

  /** The first and last block numbers bound exactly the blocks of an epoch; the next epoch follows at once.
      The last block of the epoch can lie beyond `u64` even if the block does not. */
  lemma EpochBounds(n: u64, size: u64)
    requires size > 0 && n > 0
    ensures var e := GetEpochNumber(n, size);
      && (exists first :: GetEpochFirstBlockNumber(e, size) == Ok(Some(first)) && first <= n)
      && (GetEpochLastBlockNumber(e, size).Panic? <==> e * size >= U64_LIMIT)
      && (forall last :: GetEpochLastBlockNumber(e, size) == Ok(last) ==>
            && n <= last
            && (last + 1 < U64_LIMIT ==> GetEpochFirstBlockNumber(e + 1, size) == Ok(Some(last + 1))))
  {
    EpochPartition(n, size);
    var e := GetEpochNumber(n, size);
    assert GetEpochFirstBlockNumber(e, size) == Ok(Some((e - 1) * size + 1));
  }

  /** No block comes first in epoch 0; in any other the block after the previous epoch does, if 64 bits hold it. */
  lemma FirstBlockOfEpoch(e: nat, size: nat)
    ensures GetEpochFirstBlockNumber(0, size) == Ok(None)
    ensures e > 0 ==>
      var first := (e - 1) * size + 1;
      GetEpochFirstBlockNumber(e, size) == if first < U64_LIMIT then Ok(Some(first)) else Panic
    ensures GetEpochLastBlockNumber(e, size) == if e * size < U64_LIMIT then Ok(e * size) else Panic
  {
  }

  /** A block closes an epoch exactly when it is the last block of its own epoch, genesis included. */
  lemma LastBlockIffEndsItsEpoch(n: u64, size: u64)
    requires size > 0
    ensures IsLastBlockOfEpoch(n, size) <==> GetEpochLastBlockNumber(GetEpochNumber(n, size), size) == Ok(n)
    ensures IsLastBlockOfEpoch(n, size) <==> exists e: nat :: n == e * size
  {
    var q, r := n / size, n % size;
    assert n == q * size + r;
    if r == 0 {
      assert n == q * size;
    } else {
      assert (q + 1) * size == q * size + size;
      forall e: nat ensures n != e * size {
        if n == e * size { DivMod(n, size, e, 0); }
      }
    }
  }

  // ---------- quorum ----------

  /** The subtraction underflows for an empty validator set. */
  function MinQuorumSize(totalValidators: nat): Outcome<nat, Kind> {
    if totalValidators == 0 then Panic else Ok((2 * totalValidators - 1 + 3) / 3)
  }

  /** The integer formula is the two-thirds ceiling of its comment. */
  lemma QuorumIsTwoThirdsCeiling(n: nat)
    requires n > 0
    ensures MinQuorumSize(n).Ok?
    ensures var q := MinQuorumSize(n).value; 3 * (q - 1) < 2 * n <= 3 * q && q <= n
  {
  }

  // ---------- filtered header ----------

  /** `IstanbulExtraVanity::from_bytes` slices before it checks a length. */
  function VanityFromBytes(data: Bytes): Outcome<Hash, Kind> {
    if |data| < ISTANBUL_EXTRA_VANITY_LENGTH then Panic else Ok(data[..ISTANBUL_EXTRA_VANITY_LENGTH])
  }

  function IstanbulFilteredHeader(header: Header, keepSeal: bool): Outcome<Header, Kind> {
    var decoded :- ExtraFromRlp(header.extra);
    var extra := Filtered(decoded, keepSeal);
    var vanity :- VanityFromBytes(header.extra);
    Ok(header.(extra := ExtraToRlp(extra, vanity)))
  }

  /** The extra data with the aggregated seal, and on demand the proposer's seal, emptied. */
  function Filtered(extra: IstanbulExtra, keepSeal: bool): IstanbulExtra {
    (if keepSeal then extra else extra.(seal := [])).(aggregatedSeal := EMPTY_SEAL)
  }

  lemma VanityOfAnyLength(data: Bytes)
    ensures VanityFromBytes(data) == if |data| < 32 then Panic else Ok(data[..32])
  {
  }

  /** What the filter does: the vanity stays, the aggregated seal and on demand the proposer's seal are zeroed. */
  lemma FilteredHeaderIs(h: Header, keepSeal: bool)
    ensures IstanbulFilteredHeader(h, keepSeal) ==
      match ExtraFromRlp(h.extra)
      case Ok(e) =>
        var filtered := e.(seal := if keepSeal then e.seal else [], aggregatedSeal := IstanbulAggregatedSeal(0, [], 0));
        Ok(h.(extra := h.extra[..32] + EncodeExtra(filtered)))
      case Err(_) => Err(RlpDecodeError)
      case Panic => Panic
  {
    hide DecodeExtra, EncodeExtra;
    match ExtraFromRlp(h.extra)
    case Ok(e) =>
      var filtered := e.(seal := if keepSeal then e.seal else [], aggregatedSeal := IstanbulAggregatedSeal(0, [], 0));
      assert Filtered(e, keepSeal) == filtered;
    case _ =>
  }

  /** Filtering a filtered header changes nothing. */
  lemma FilterIdempotent(h: Header, keepSeal: bool)
    requires IstanbulFilteredHeader(h, keepSeal).Ok?
    requires ExtraFits(Filtered(ExtraFromRlp(h.extra).value, keepSeal))
    ensures var f := IstanbulFilteredHeader(h, keepSeal).value;
      IstanbulFilteredHeader(f, keepSeal) == Ok(f)
  {
    var extra := Filtered(ExtraFromRlp(h.extra).value, keepSeal);
    var vanity := VanityFromBytes(h.extra).value;
    ExtraRlpRoundTrip(extra, vanity, []);
    assert ExtraToRlp(extra, vanity) + [] == ExtraToRlp(extra, vanity);
    assert Filtered(extra, keepSeal) == extra;
  }
}
