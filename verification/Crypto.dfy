/** The foreign cryptography, as functions nothing is assumed about until a lemma says so. */
module Crypto {
  import opened Bytes

  /** `digest` is Keccak-256; `keyOk` and `signatureOk` say whether deserialization succeeds, and
      `aggregateOk(keys, message, signature)` whether the aggregate of the keys verifies the signature.
      Keys stand for their serialized form. */
  datatype Crypto = Crypto(
    digest: Bytes -> Hash,
    keyOk: PublicKey -> bool,
    signatureOk: Bytes -> bool,
    aggregateOk: (seq<PublicKey>, Bytes, Bytes) -> bool)

  /** Who signed what, for stating ideal properties of signatures. */
  type Signed = (PublicKey, Bytes) -> bool

  /** The digest does not collide on these two inputs. A fixed-length digest cannot be injective on all
      inputs, so every statement that needs this names the inputs it needs it for. */
  ghost predicate NoCollision(crypto: Crypto, a: Bytes, b: Bytes) {
    crypto.digest(a) == crypto.digest(b) ==> a == b
  }

  /** This aggregate signature is ideal: if it verifies, every key contributed to it. Some message and keys
      verify any signature by accident, so statements name the signature, keys and message they mean. */
  ghost predicate IdealBls(crypto: Crypto, signed: Signed, keys: seq<PublicKey>, message: Bytes, signature: Bytes) {
    crypto.aggregateOk(keys, message, signature) ==> forall key :: key in keys ==> signed(key, message)
  }
}
