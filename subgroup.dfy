/**
 * `get_circuit_subgroup_size`: the number of rows rounded up to a power of
 * two, computed from the index of the most significant set bit
 * (`numeric::get_msb64`): two to that index when the count is already a
 * power of two, two to the next index otherwise.
 */
module Subgroup {
  /** 2^k. */
  function Pow2(k: nat): (r: nat)
    ensures r >= 1
  {
    if k == 0 then 1 else 2 * Pow2(k - 1)
  }

  ghost predicate IsPowerOfTwo(m: nat) {
    exists k: nat :: Pow2(k) == m
  }

  /** `get_msb64(n)`: the index of the most significant set bit of n. */
  function Msb(n: nat): (log2: nat)
    requires n >= 1
    ensures log2 < n
  {
    if n == 1 then 0 else 1 + Msb(n / 2)
  }

  /** Bit Msb(n) is the highest set bit: 2^Msb(n) <= n < 2^(Msb(n)+1). */
  lemma {:induction false} MsbBounds(n: nat)
    requires n >= 1
    ensures Pow2(Msb(n)) <= n < 2 * Pow2(Msb(n))
  {
    if n > 1 {
      MsbBounds(n / 2);
    }
  }

  lemma {:induction false} Pow2Monotone(a: nat, b: nat)
    requires a <= b
    ensures Pow2(a) <= Pow2(b)
    decreases b
  {
    if a < b {
      Pow2Monotone(a, b - 1);
    }
  }

  /** The highest set bit of 2^k is bit k. */
  lemma MsbOfPow2(k: nat)
    ensures Msb(Pow2(k)) == k
  {
    var m := Msb(Pow2(k));
    MsbBounds(Pow2(k));
    if m < k {
      Pow2Monotone(m + 1, k);
    }
  }

  /** `get_circuit_subgroup_size()` for `get_num_gates() == n`. */
  function SubgroupSize(n: nat): (size: nat)
    requires n >= 1
    ensures IsPowerOfTwo(size)
  {
    var log2 := Msb(n);
    Pow2(log2 + (if Pow2(log2) == n then 0 else 1))
  }

  /** The subgroup size is a power of two that holds every row and is less than twice their number. */
  lemma SubgroupSizeBounds(n: nat)
    requires n >= 1
    ensures IsPowerOfTwo(SubgroupSize(n))
    ensures n <= SubgroupSize(n) < 2 * n
  {
    MsbBounds(n);
    var log2 := Msb(n);
    var k := log2 + (if Pow2(log2) == n then 0 else 1);
    assert Pow2(k) == SubgroupSize(n);
  }

  /** It is the least power of two that holds every row. */
  lemma SubgroupSizeLeast(n: nat, k: nat)
    requires n >= 1 && n <= Pow2(k)
    ensures SubgroupSize(n) <= Pow2(k)
  {
    MsbBounds(n);
    var log2 := Msb(n);
    if Pow2(log2) != n {
      if k <= log2 {
        Pow2Monotone(k, log2);
      } else {
        Pow2Monotone(log2 + 1, k);
      }
    }
  }

  /** A number of rows that is already a power of two is kept, and only then. */
  lemma SubgroupSizeFixesPowers(n: nat)
    requires n >= 1
    ensures SubgroupSize(n) == n <==> IsPowerOfTwo(n)
  {
    if IsPowerOfTwo(n) {
      var k: nat :| Pow2(k) == n;
      MsbOfPow2(k);
    } else {
      SubgroupSizeBounds(n);
    }
  }

  /** Rounding up twice is rounding up once. */
  lemma SubgroupSizeIdempotent(n: nat)
    requires n >= 1
    ensures SubgroupSize(SubgroupSize(n)) == SubgroupSize(n)
  {
    SubgroupSizeBounds(n);
    SubgroupSizeFixesPowers(SubgroupSize(n));
  }
}
