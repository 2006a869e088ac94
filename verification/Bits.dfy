/** Non-negative big integers read as bitmaps, and selection of list entries by such a bitmap. */
module Bits {
  /** `BigInt::bit`: bit `i`, counted from the least significant one. */
  predicate Bit(n: nat, i: nat) {
    if i == 0 then n % 2 == 1 else Bit(n / 2, i - 1)
  }

  /** `BigInt::bits`: the fewest bits that can express `n`. */
  function BitLength(n: nat): nat {
    if n == 0 then 0 else 1 + BitLength(n / 2)
  }

  /** Number of set bits of `n`. */
  function PopCount(n: nat): nat {
    if n == 0 then 0 else n % 2 + PopCount(n / 2)
  }

  /** Number of positions below `k` whose bit equals `want`. */
  function CountBelow(n: nat, k: nat, want: bool): nat {
    if k == 0 then 0 else CountBelow(n, k - 1, want) + (if Bit(n, k - 1) == want then 1 else 0)
  }

  /** Positions below `k` whose bit is set. */
  function SetBits(n: nat, k: nat): set<nat> {
    set i | 0 <= i < k && Bit(n, i)
  }

  /** The entries whose position carries the bit `want`, in order: `enumerate().filter(..).map(..)`. */
  function Select<T>(xs: seq<T>, bitmap: nat, want: bool): seq<T> {
    if xs == [] then []
    else
      var last := |xs| - 1;
      Select(xs[..last], bitmap, want) + (if Bit(bitmap, last) == want then [xs[last]] else [])
  }

  lemma {:induction false} ZeroHasNoBits(i: nat)
    ensures !Bit(0, i)
  {
    if i == 0 {
    } else {
      ZeroHasNoBits(i - 1);
    }
  }

  /** No bit is set at position `k` or above. */
  ghost predicate NoBitsFrom(n: nat, k: nat) {
    forall i: nat :: k <= i ==> !Bit(n, i)
  }

  /** The bit length is the least bound above every set bit. */
  lemma {:induction false} BitLengthBounds(n: nat, k: nat)
    ensures BitLength(n) <= k <==> NoBitsFrom(n, k)
  {
    if n == 0 {
      forall i: nat ensures !Bit(n, i) { ZeroHasNoBits(i); }
    } else if k == 0 {
      TopBitSet(n);
    } else {
      BitLengthBounds(n / 2, k - 1);
      if NoBitsFrom(n / 2, k - 1) {
        forall i: nat | k <= i ensures !Bit(n, i) {
          assert !Bit(n / 2, i - 1);
        }
      } else {
        var j: nat :| k - 1 <= j && Bit(n / 2, j);
        assert Bit(n, j + 1);
      }
    }
  }

  function PowerOfTwo(i: nat): nat {
    if i == 0 then 1 else 2 * PowerOfTwo(i - 1)
  }

  /** A number is what its upper bits, bit `i` and its lower bits make up. */
  lemma {:induction false} BitIsDigit(n: nat, i: nat) returns (high: nat, low: nat)
    ensures n == (2 * high + (if Bit(n, i) then 1 else 0)) * PowerOfTwo(i) + low && low < PowerOfTwo(i)
  {
    if i == 0 {
      high, low := n / 2, 0;
    } else {
      var l: nat;
      high, l := BitIsDigit(n / 2, i - 1);
      low := 2 * l + n % 2;
      assert Bit(n, i) == Bit(n / 2, i - 1) && PowerOfTwo(i) == 2 * PowerOfTwo(i - 1);
      hide Bit, PowerOfTwo;
      Doubled(2 * high + (if Bit(n, i) then 1 else 0), PowerOfTwo(i - 1));
    }
  }

  lemma Doubled(digits: nat, power: nat)
    ensures digits * (2 * power) == 2 * (digits * power)
  {
  }

  lemma {:induction false} TopBitSet(n: nat)
    requires n > 0
    ensures Bit(n, BitLength(n) - 1)
  {
    if n == 1 {
    } else {
      TopBitSet(n / 2);
    }
  }

  lemma {:induction false} CountBelowShift(n: nat, k: nat)
    requires k > 0
    ensures CountBelow(n, k, true) == n % 2 + CountBelow(n / 2, k - 1, true)
  {
    if k == 1 {
    } else {
      CountBelowShift(n, k - 1);
    }
  }

  /** A bound on the bit length makes the count below it a full population count. */
  lemma {:induction false} CountIsPopCount(n: nat, k: nat)
    requires BitLength(n) <= k
    ensures CountBelow(n, k, true) == PopCount(n)
  {
    if k == 0 {
    } else {
      CountBelowShift(n, k);
      CountIsPopCount(n / 2, k - 1);
    }
  }

  lemma {:induction false} CountsPartition(n: nat, k: nat)
    ensures CountBelow(n, k, true) + CountBelow(n, k, false) == k
  {
    if k == 0 {
    } else {
      CountsPartition(n, k - 1);
    }
  }

  lemma {:induction false} SetBitsCount(n: nat, k: nat)
    ensures |SetBits(n, k)| == CountBelow(n, k, true)
  {
    if k == 0 {
    } else {
      SetBitsCount(n, k - 1);
      var before := SetBits(n, k - 1);
      assert SetBits(n, k) == if Bit(n, k - 1) then before + {k - 1} else before;
    }
  }

  lemma {:induction false} SelectLength<T>(xs: seq<T>, bitmap: nat, want: bool)
    ensures |Select(xs, bitmap, want)| == CountBelow(bitmap, |xs|, want)
  {
    if xs == [] {
    } else {
      SelectLength(xs[..|xs| - 1], bitmap, want);
    }
  }

  /** Where a selected entry ends up: its rank among the selected positions. With `SelectLength` this
      fixes the selection completely, order included. */
  lemma {:induction false} SelectAt<T>(xs: seq<T>, bitmap: nat, want: bool, i: nat)
    requires i < |xs| && Bit(bitmap, i) == want
    ensures CountBelow(bitmap, i, want) < |Select(xs, bitmap, want)|
    ensures Select(xs, bitmap, want)[CountBelow(bitmap, i, want)] == xs[i]
  {
    var last := |xs| - 1;
    SelectLength(xs[..last], bitmap, want);
    if i == last {
    } else {
      SelectAt(xs[..last], bitmap, want, i);
    }
  }

  /** Every selected entry comes from a selected position. */
  lemma {:induction false} SelectedFrom<T>(xs: seq<T>, bitmap: nat, want: bool, j: nat) returns (i: nat)
    requires j < |Select(xs, bitmap, want)|
    ensures i < |xs| && Bit(bitmap, i) == want && CountBelow(bitmap, i, want) == j
    ensures Select(xs, bitmap, want)[j] == xs[i]
  {
    var last := |xs| - 1;
    SelectLength(xs[..last], bitmap, want);
    if j < |Select(xs[..last], bitmap, want)| {
      i := SelectedFrom(xs[..last], bitmap, want, j);
    } else {
      i := last;
    }
  }

  /** Inclusion and exclusion below `k`: two sets that together are larger than `k` overlap. */
  lemma {:induction false} BoundedSetSize(s: set<nat>, k: nat)
    requires forall i :: i in s ==> i < k
    ensures |s| <= k
  {
    if k == 0 {
      assert s == {};
    } else {
      BoundedSetSize(s - {k - 1}, k - 1);
      assert k - 1 in s ==> |s| == |s - {k - 1}| + 1;
      assert k - 1 !in s ==> s - {k - 1} == s;
    }
  }

  lemma Overlap(a: set<nat>, b: set<nat>, k: nat)
    requires forall i :: i in a || i in b ==> i < k
    ensures |a| + |b| <= k + |a * b|
  {
    BoundedSetSize(a + b, k);
    assert |a + b| == |a| + |b| - |a * b|;
  }
}
