/** `src/bls.rs`: a header hash is accepted when a quorum of the validators signed it. */
module Bls {
  import opened Outcomes
  import opened Bytes
  import opened Bits
  import opened Rlp
  import opened Errors
  import opened Crypto
  import opened IstanbulTypes
  import opened SnapshotTypes
  import opened Istanbul

  /** The message a validator signs to commit to a block in a round. */
  function PrepareCommitedSeal(hash: Hash, round: nat): Bytes {
    hash + BigIntToRlpCompatBytes(round) + [IstanbulMsg.Commit.Code()]
  }

  /** `map(deserialize_pub_key).collect()` */
  function DeserializePubKeys(crypto: Crypto, vs: seq<Validator>): Outcome<seq<PublicKey>, Kind> {
    if vs == [] then Ok([])
    else if !crypto.keyOk(vs[0].publicKey) then Err(BlsInvalidPublicKey)
    else
      var tail :- DeserializePubKeys(crypto, vs[1..]);
      Ok([vs[0].publicKey] + tail)
  }

  function VerifyAggregatedSeal(crypto: Crypto, headerHash: Hash, validators: seq<Validator>,
                                aggregatedSeal: IstanbulAggregatedSeal): Outcome<(), Kind> {
    var proposalSeal := PrepareCommitedSeal(headerHash, aggregatedSeal.round);
    var expected :- MinQuorumSize(|validators|);
    var publicKeys :- DeserializePubKeys(crypto, Select(validators, aggregatedSeal.bitmap, true));
    if |publicKeys| < expected then Err(MissingSeals(|publicKeys|, expected))
    else if !crypto.signatureOk(aggregatedSeal.signature) then Err(BlsInvalidSignature)
    else if crypto.aggregateOk(publicKeys, proposalSeal, aggregatedSeal.signature) then Ok(())
    else Err(BlsVerifyError)
  }

  /** A commit message determines the hash, although the round has no fixed length. */
  lemma CommitedSealInjective(h1: Hash, r1: nat, h2: Hash, r2: nat)
    requires PrepareCommitedSeal(h1, r1) == PrepareCommitedSeal(h2, r2)
    ensures h1 == h2 && r1 == r2
  {
    var m1, m2 := PrepareCommitedSeal(h1, r1), PrepareCommitedSeal(h2, r2);
    assert h1 == m1[..HASH_LENGTH] && h2 == m2[..HASH_LENGTH];
    assert BigEndian(r1) == m1[HASH_LENGTH..|m1| - 1] && BigEndian(r2) == m2[HASH_LENGTH..|m2| - 1];
    BigEndianInjective(r1, r2);
  }

  /** What a commit message consists of: the 32 bytes of the hash, the shortest digits of the round, none for
      round zero, and the code of a commit. No other bytes do. */
  lemma CommitedSealLayout(hash: Hash, round: nat, m: Bytes)
    ensures m == PrepareCommitedSeal(hash, round) <==>
      && |m| >= 33 && m[..32] == hash && m[|m| - 1] == 2
      && FromBigEndian(m[32..|m| - 1]) == round && (|m| > 33 ==> m[32] != 0)
  {
    BigEndianRoundTrip(round);
    var digits := BigEndian(round);
    if round > 0 { BigEndianMinimal(round); }
    if m == PrepareCommitedSeal(hash, round) {
      assert m[32..|m| - 1] == digits;
    } else if |m| >= 33 && m[..32] == hash && m[|m| - 1] == 2 && (|m| > 33 ==> m[32] != 0) {
      var read := m[32..|m| - 1];
      assert m == hash + read + [2];
      FromBigEndianCanonical(read);
    }
  }

  /** The public keys of the validators whose bit is set, in validator order. */
  function SelectedKeys(validators: seq<Validator>, bitmap: nat): seq<PublicKey> {
    var signers := Select(validators, bitmap, true);
    seq(|signers|, i requires 0 <= i < |signers| => signers[i].publicKey)
  }

  lemma {:induction false} DeserializedKeys(crypto: Crypto, vs: seq<Validator>)
    ensures var keys := DeserializePubKeys(crypto, vs);
      && (keys.Ok? <==> forall v :: v in vs ==> crypto.keyOk(v.publicKey))
      && (keys.Ok? ==> keys.value == seq(|vs|, i requires 0 <= i < |vs| => vs[i].publicKey))
      && (!keys.Ok? ==> keys == Err(BlsInvalidPublicKey))
  {
    if vs == [] {
    } else {
      DeserializedKeys(crypto, vs[1..]);
      assert vs == [vs[0]] + vs[1..];
    }
  }

  /** At least two thirds, rounded up, of the positions below `n` are set. */
  predicate Quorum(bitmap: nat, n: nat) {
    n > 0 && 3 * |SetBits(bitmap, n)| >= 2 * n
  }

  /** Every position of the bitmap signed the commit message for the hash. */
  ghost predicate AllSigned(signed: Signed, vs: seq<Validator>, bitmap: nat, message: Bytes) {
    forall p :: p in SetBits(bitmap, |vs|) ==> signed(vs[p].publicKey, message)
  }

  /** The keys deserialized are those of the set positions. */
  lemma SelectedKeysDeserialized(crypto: Crypto, vs: seq<Validator>, bitmap: nat)
    ensures var keys := DeserializePubKeys(crypto, Select(vs, bitmap, true));
      && (keys.Ok? <==> SignersOk(crypto, vs, bitmap))
      && (keys.Ok? ==> keys.value == SelectedKeys(vs, bitmap))
      && (!keys.Ok? ==> keys == Err(BlsInvalidPublicKey))
    ensures |SelectedKeys(vs, bitmap)| == |SetBits(bitmap, |vs|)|
  {
    var signers := Select(vs, bitmap, true);
    DeserializedKeys(crypto, signers);
    SelectLength(vs, bitmap, true);
    SetBitsCount(bitmap, |vs|);
    forall p | p in SetBits(bitmap, |vs|) ensures vs[p] in signers {
      SelectAt(vs, bitmap, true, p);
    }
    forall v | v in signers ensures exists p :: p in SetBits(bitmap, |vs|) && vs[p] == v {
      var j: nat :| j < |signers| && signers[j] == v;
      var p := SelectedFrom(vs, bitmap, true, j);
      assert p in SetBits(bitmap, |vs|);
    }
  }

  /** The key of every set position deserializes. */
  predicate SignersOk(crypto: Crypto, vs: seq<Validator>, bitmap: nat) {
    forall p :: p in SetBits(bitmap, |vs|) ==> crypto.keyOk(vs[p].publicKey)
  }

  /** A quorum is set, its keys and the signature deserialize, and the aggregate of exactly these keys verifies
      the commit message. */
  predicate WellSealed(crypto: Crypto, vs: seq<Validator>, hash: Hash, seal: IstanbulAggregatedSeal) {
    && Quorum(seal.bitmap, |vs|)
    && SignersOk(crypto, vs, seal.bitmap)
    && crypto.signatureOk(seal.signature)
    && crypto.aggregateOk(SelectedKeys(vs, seal.bitmap), PrepareCommitedSeal(hash, seal.round), seal.signature)
  }

  /** When exactly a seal is accepted. */
  lemma SealAcceptedIff(crypto: Crypto, hash: Hash, vs: seq<Validator>, seal: IstanbulAggregatedSeal)
    ensures VerifyAggregatedSeal(crypto, hash, vs, seal).Ok? <==> WellSealed(crypto, vs, hash, seal)
  {
    SelectedKeysDeserialized(crypto, vs, seal.bitmap);
    hide Select, SelectedKeys, SetBits, DeserializePubKeys, SignersOk, PrepareCommitedSeal;
  }

  /** What is wrong with a seal that is not accepted: the first of these faults. */
  function SealFault(crypto: Crypto, vs: seq<Validator>, seal: IstanbulAggregatedSeal): Outcome<(), Kind> {
    if vs == [] then Panic
    else if !SignersOk(crypto, vs, seal.bitmap) then Err(BlsInvalidPublicKey)
    else if !Quorum(seal.bitmap, |vs|) then Err(MissingSeals(|SetBits(seal.bitmap, |vs|)|, (2 * |vs| + 2) / 3))
    else if !crypto.signatureOk(seal.signature) then Err(BlsInvalidSignature)
    else Err(BlsVerifyError)
  }

  /** When it is turned down, and why: the checks come in this order. Only an empty validator set panics. */
  lemma SealTurnedDown(crypto: Crypto, hash: Hash, vs: seq<Validator>, seal: IstanbulAggregatedSeal)
    requires !VerifyAggregatedSeal(crypto, hash, vs, seal).Ok?
    ensures VerifyAggregatedSeal(crypto, hash, vs, seal) == SealFault(crypto, vs, seal)
  {
    SelectedKeysDeserialized(crypto, vs, seal.bitmap);
    hide Select, SelectedKeys, SetBits, DeserializePubKeys, SignersOk, PrepareCommitedSeal;
  }

  /** What acceptance of a seal means: a two-thirds quorum, every member of which signed. */
  lemma AcceptedSealIsQuorum(crypto: Crypto, signed: Signed, hash: Hash, vs: seq<Validator>,
                             seal: IstanbulAggregatedSeal)
    requires IdealBls(crypto, signed, SelectedKeys(vs, seal.bitmap),
                      PrepareCommitedSeal(hash, seal.round), seal.signature)
    requires VerifyAggregatedSeal(crypto, hash, vs, seal).Ok?
    ensures Quorum(seal.bitmap, |vs|)
    ensures AllSigned(signed, vs, seal.bitmap, PrepareCommitedSeal(hash, seal.round))
  {
    SealAcceptedIff(crypto, hash, vs, seal);
    var signers, keys := Select(vs, seal.bitmap, true), SelectedKeys(vs, seal.bitmap);
    forall p | p in SetBits(seal.bitmap, |vs|)
      ensures signed(vs[p].publicKey, PrepareCommitedSeal(hash, seal.round))
    {
      SelectAt(vs, seal.bitmap, true, p);
      assert keys[CountBelow(seal.bitmap, p, true)] == vs[p].publicKey;
    }
  }

  /** Two quorums over the same `n` validators share at least a third of the positions. */
  lemma QuorumIntersection(b1: nat, b2: nat, n: nat)
    requires Quorum(b1, n) && Quorum(b2, n)
    ensures 3 * |SetBits(b1, n) * SetBits(b2, n)| >= n
  {
    Overlap(SetBits(b1, n), SetBits(b2, n), n);
  }

  /** If fewer than a third of the positions are faulty, two quorums share one that is not. */
  lemma HonestInBothQuorums(b1: nat, b2: nat, n: nat, faulty: set<nat>) returns (p: nat)
    requires Quorum(b1, n) && Quorum(b2, n)
    requires 3 * |faulty| < n
    ensures p in SetBits(b1, n) && p in SetBits(b2, n) && p !in faulty
  {
    QuorumIntersection(b1, b2, n);
    var shared := SetBits(b1, n) * SetBits(b2, n);
    if shared <= faulty {
      SubsetSize(shared, faulty);
      assert false;
    }
    p :| p in shared && p !in faulty;
  }

  lemma {:induction false} SubsetSize(a: set<nat>, b: set<nat>)
    requires a <= b
    ensures |a| <= |b|
  {
    if a == {} {
    } else {
      var x :| x in a;
      SubsetSize(a - {x}, b - {x});
    }
  }
}
