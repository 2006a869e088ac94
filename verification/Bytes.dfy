/** Bytes, big-endian numbers and the fixed-length byte arrays of the chain. */
module Bytes {
  type byte = b: int | 0 <= b < 256
  type Bytes = seq<byte>

  const HASH_LENGTH: nat := 32
  const ADDRESS_LENGTH: nat := 20
  const BLOOM_BYTE_LENGTH: nat := 256
  const PUBLIC_KEY_LENGTH: nat := 96
  const ISTANBUL_EXTRA_VANITY_LENGTH: nat := 32

  type Hash = b: Bytes | |b| == HASH_LENGTH witness seq(HASH_LENGTH, _ => 0)
  type Address = b: Bytes | |b| == ADDRESS_LENGTH witness seq(ADDRESS_LENGTH, _ => 0)
  type Bloom = b: Bytes | |b| == BLOOM_BYTE_LENGTH witness seq(BLOOM_BYTE_LENGTH, _ => 0)
  type PublicKey = b: Bytes | |b| == PUBLIC_KEY_LENGTH witness seq(PUBLIC_KEY_LENGTH, _ => 0)

  /** Shortest big-endian digits in base 256; zero has none. */
  function BigEndian(n: nat): Bytes {
    if n == 0 then [] else BigEndian(n / 256) + [n % 256]
  }

  /** `from_bytes_be`: leading zeros are accepted. */
  function FromBigEndian(b: Bytes): nat {
    if b == [] then 0 else FromBigEndian(b[..|b| - 1]) * 256 + b[|b| - 1]
  }

  /** Upper bound of the numbers that fit in `k` bytes. */
  function Capacity(k: nat): nat {
    if k == 0 then 1 else 256 * Capacity(k - 1)
  }

  lemma {:induction false} BigEndianRoundTrip(n: nat)
    ensures FromBigEndian(BigEndian(n)) == n
  {
    if n == 0 {
    } else {
      BigEndianRoundTrip(n / 256);
      assert BigEndian(n)[..|BigEndian(n)| - 1] == BigEndian(n / 256);
    }
  }

  lemma BigEndianInjective(m: nat, n: nat)
    requires BigEndian(m) == BigEndian(n)
    ensures m == n
  {
    BigEndianRoundTrip(m);
    BigEndianRoundTrip(n);
  }

  lemma {:induction false} BigEndianMinimal(n: nat)
    requires n > 0
    ensures BigEndian(n) != [] && BigEndian(n)[0] != 0
  {
    if n < 256 {
    } else {
      BigEndianMinimal(n / 256);
    }
  }

  /** Digits without a leading zero are the shortest digits of their number. */
  lemma {:induction false} FromBigEndianCanonical(b: Bytes)
    requires b != [] ==> b[0] != 0
    ensures BigEndian(FromBigEndian(b)) == b
  {
    if b == [] {
    } else {
      var front, d := b[..|b| - 1], b[|b| - 1];
      FromBigEndianCanonical(front);
      assert front != [] ==> FromBigEndian(front) > 0;
      var n := FromBigEndian(front) * 256 + d;
      assert n > 0 && n / 256 == FromBigEndian(front) && n % 256 == d;
      assert b == front + [d];
    }
  }

  lemma {:induction false} BigEndianLength(n: nat, k: nat)
    requires n < Capacity(k)
    ensures |BigEndian(n)| <= k
  {
    if n == 0 {
    } else {
      BigEndianLength(n / 256, k - 1);
    }
  }

  lemma {:induction false} FromBigEndianBound(b: Bytes)
    ensures FromBigEndian(b) < Capacity(|b|)
  {
    if b == [] {
    } else {
      FromBigEndianBound(b[..|b| - 1]);
    }
  }

  lemma {:induction false} CapacityMonotone(j: nat, k: nat)
    requires j <= k
    ensures Capacity(j) <= Capacity(k)
  {
    if j == k {
    } else {
      CapacityMonotone(j, k - 1);
    }
  }

  lemma CapacityOfU64()
    ensures Capacity(8) == 0x1_0000_0000_0000_0000
  {
    assert Capacity(4) == 256 * (256 * (256 * (256 * Capacity(0))));
    assert Capacity(8) == 256 * (256 * (256 * (256 * Capacity(4))));
  }
}
