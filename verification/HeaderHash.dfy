/** `Header::hash` of `src/types/header.rs`: the digest of the header with its aggregated seal blanked. */
module HeaderHash {
  import opened Outcomes
  import opened Bytes
  import opened Rlp
  import opened Errors
  import opened Crypto
  import opened IstanbulTypes
  import opened HeaderTypes
  import opened Istanbul

  /** The header whose encoding is digested. Only an error of the filter falls back on the header itself. */
  function HashedHeader(h: Header): Outcome<Header, Kind> {
    if |h.extra| >= ISTANBUL_EXTRA_VANITY_LENGTH then
      match IstanbulFilteredHeader(h, true)
      case Ok(f) => Ok(f)
      case Err(_) => Ok(h)
      case Panic => Panic
    else
      Ok(h)
  }

  function RlpHash(crypto: Crypto, h: Header): Hash {
    crypto.digest(EncodeHeader(h))
  }

  function HashOf(crypto: Crypto, h: Header): Outcome<Hash, Kind> {
    var hashed :- HashedHeader(h);
    Ok(RlpHash(crypto, hashed))
  }

  /** The hash can be taken and the digested encoding is of expressible length, which memory guarantees. */
  predicate Hashable(h: Header) {
    HashedHeader(h).Ok? && HeaderFits(HashedHeader(h).value)
  }

  ghost predicate NoHashCollision(crypto: Crypto, g: Header, h: Header) {
    HashedHeader(g).Ok? && HashedHeader(h).Ok? ==>
      NoCollision(crypto, EncodeHeader(HashedHeader(g).value), EncodeHeader(HashedHeader(h).value))
  }

  /** The two headers have hashes, and these do not collide. */
  ghost predicate Distinguishable(crypto: Crypto, g: Header, h: Header) {
    Hashable(g) && Hashable(h) && NoHashCollision(crypto, g, h)
  }

  /** Everything the hash is meant to commit to agrees: the plain fields, and the extra data up to the
      aggregated seal when it decodes, verbatim when it does not. */
  predicate SameUpToAggregatedSeal(g: Header, h: Header) {
    && g.(extra := []) == h.(extra := [])
    && match (ExtraFromRlp(g.extra), ExtraFromRlp(h.extra))
       case (Ok(e), Ok(f)) =>
         && e.(aggregatedSeal := EMPTY_SEAL) == f.(aggregatedSeal := EMPTY_SEAL)
         && g.extra[..ISTANBUL_EXTRA_VANITY_LENGTH] == h.extra[..ISTANBUL_EXTRA_VANITY_LENGTH]
       case (Err(_), Err(_)) => g.extra == h.extra
       case _ => false
  }

  /** What is digested, by whether the extra data decodes. */
  lemma HashedHeaderCases(h: Header)
    ensures match ExtraFromRlp(h.extra)
      case Ok(e) => |h.extra| >= ISTANBUL_EXTRA_VANITY_LENGTH
        && HashedHeader(h) == Ok(h.(extra := ExtraToRlp(Filtered(e, true), h.extra[..ISTANBUL_EXTRA_VANITY_LENGTH])))
      case Err(_) => HashedHeader(h) == Ok(h)
      case Panic => HashedHeader(h) == Panic
  {
  }

  /** What the hash is the digest of: the encoding of the header with nothing but the aggregated seal in its extra
      data zeroed, or the header as it is if its extra data does not decode. */
  lemma DigestedBytes(crypto: Crypto, h: Header)
    ensures HashOf(crypto, h) ==
      match ExtraFromRlp(h.extra)
      case Ok(e) =>
        var blanked := EncodeExtra(e.(aggregatedSeal := IstanbulAggregatedSeal(0, [], 0)));
        Ok(crypto.digest(EncodeHeader(h.(extra := h.extra[..32] + blanked))))
      case Err(_) => Ok(crypto.digest(EncodeHeader(h)))
      case Panic => Panic
  {
    HashedHeaderCases(h);
    hide HashedHeader, ExtraFromRlp, EncodeExtra, EncodeHeader;
  }

  /** A digested header that fits holds extra data that fits. */
  lemma HashedExtraFits(h: Header)
    requires Hashable(h) && ExtraFromRlp(h.extra).Ok?
    ensures ExtraFits(Filtered(ExtraFromRlp(h.extra).value, true))
  {
    HashedHeaderCases(h);
    var f := HashedHeader(h).value;
    var items := HeaderItems(f);
    assert items[9] == EncodeBytes(f.extra);
    StringInList(items, 9, f.extra);
  }

  /** The filter leaves extra data that decodes again. */
  lemma HashedExtraDecodes(h: Header)
    requires Hashable(h) && ExtraFromRlp(h.extra).Ok?
    ensures ExtraFromRlp(HashedHeader(h).value.extra) == Ok(Filtered(ExtraFromRlp(h.extra).value, true))
    ensures HashedHeader(h).value.extra[..ISTANBUL_EXTRA_VANITY_LENGTH] == h.extra[..ISTANBUL_EXTRA_VANITY_LENGTH]
  {
    HashedHeaderCases(h);
    HashedExtraFits(h);
    var extra := Filtered(ExtraFromRlp(h.extra).value, true);
    var vanity: Hash := h.extra[..ISTANBUL_EXTRA_VANITY_LENGTH];
    ExtraRlpRoundTrip(extra, vanity, []);
    assert ExtraToRlp(extra, vanity) + [] == ExtraToRlp(extra, vanity);
  }

  /** Two headers are digested alike exactly when they agree up to the aggregated seal; in particular a
      header with decodable extra data is never digested like one without. */
  lemma HashedHeaderBinds(g: Header, h: Header)
    requires Hashable(g) && Hashable(h)
    ensures HashedHeader(g) == HashedHeader(h) <==> SameUpToAggregatedSeal(g, h)
  {
    HashedHeaderCases(g);
    HashedHeaderCases(h);
    if ExtraFromRlp(g.extra).Ok? { HashedExtraDecodes(g); }
    if ExtraFromRlp(h.extra).Ok? { HashedExtraDecodes(h); }
    assert HashedHeader(g).value.(extra := []) == g.(extra := []);
    assert HashedHeader(h).value.(extra := []) == h.(extra := []);
    assert g.(extra := []) == h.(extra := []) ==> g == h.(extra := g.extra);
  }

  /** The hash commits to everything but the aggregated seal, and to nothing else. */
  lemma HashBinds(crypto: Crypto, g: Header, h: Header)
    requires Distinguishable(crypto, g, h)
    ensures HashOf(crypto, g) == HashOf(crypto, h) <==> SameUpToAggregatedSeal(g, h)
  {
    HashedHeaderBinds(g, h);
    if HashOf(crypto, g) == HashOf(crypto, h) {
      EncodeHeaderInjective(HashedHeader(g).value, HashedHeader(h).value);
    }
  }

  /** Replacing the aggregated seal leaves the hash alone: no assumption on the digest is needed. */
  lemma HashIgnoresAggregatedSeal(crypto: Crypto, h: Header, seal: IstanbulAggregatedSeal)
    requires ExtraFromRlp(h.extra).Ok?
    requires ExtraFits(ExtraFromRlp(h.extra).value.(aggregatedSeal := seal))
    ensures var extra := ExtraFromRlp(h.extra).value.(aggregatedSeal := seal);
      HashOf(crypto, h.(extra := ExtraToRlp(extra, h.extra[..ISTANBUL_EXTRA_VANITY_LENGTH]))) == HashOf(crypto, h)
  {
    var vanity: Hash := h.extra[..ISTANBUL_EXTRA_VANITY_LENGTH];
    var extra := ExtraFromRlp(h.extra).value.(aggregatedSeal := seal);
    var sealed := h.(extra := ExtraToRlp(extra, vanity));
    ExtraRlpRoundTrip(extra, vanity, []);
    assert sealed.extra + [] == sealed.extra;
    HashedHeaderCases(h);
    HashedHeaderCases(sealed);
    assert Filtered(extra, true) == Filtered(ExtraFromRlp(h.extra).value, true);
  }

  /** Hashing the filtered header gives the hash of the header. */
  lemma HashOfFiltered(crypto: Crypto, h: Header)
    requires Hashable(h)
    ensures HashOf(crypto, HashedHeader(h).value) == HashOf(crypto, h)
  {
    HashedHeaderCases(h);
    if ExtraFromRlp(h.extra).Ok? {
      HashedExtraFits(h);
      FilterIdempotent(h, true);
    }
  }
}
