/** Types shared by every module of the model. */
module Basics {

  /** A 256-bit hash value. The modelled code compares digests for equality and by their
      byte order only, so a digest is its rank in that order. Ranks are unbounded, hence
      an injective hash function exists and the collision-free hypotheses of the soundness
      theorems can be met. */
  datatype Digest = Digest(rank: int)

  /** Decentralised identifier. */
  type Did = string

  const ZERO: Digest := Digest(0)

  datatype Option<+T> = None | Some(value: T)

  datatype Result<+T, +E> = Ok(value: T) | Err(error: E)

  type u32 = x: int | 0 <= x < 0x1_0000_0000
  type u64 = x: int | 0 <= x < 0x1_0000_0000_0000_0000

  const U32_MAX: u32 := 0xFFFF_FFFF
  const U64_MAX: u64 := 0xFFFF_FFFF_FFFF_FFFF

  /** Hybrid timestamp, ordered lexicographically. */
  datatype Timestamp = Timestamp(physicalMs: u64, logical: u32) {
    predicate Before(other: Timestamp) {
      physicalMs < other.physicalMs || (physicalMs == other.physicalMs && logical < other.logical)
    }

    predicate AtMost(other: Timestamp) {
      this == other || Before(other)
    }

    /** `exp.IsExpired(now)`: the instant `exp` has been reached. */
    predicate IsExpired(now: Timestamp) {
      AtMost(now)
    }
  }

  function Min(a: int, b: int): int {
    if a <= b then a else b
  }

  function Pow2(n: nat): (r: nat)
    ensures r > 0
  {
    if n == 0 then 1 else 2 * Pow2(n - 1)
  }

  lemma {:induction false} Pow2Monotone(a: nat, b: nat)
    requires a < b
    ensures 2 * Pow2(a) <= Pow2(b)
  {
    if a + 1 < b {
      Pow2Monotone(a, b - 1);
    }
  }

  lemma MulMonotone(m: nat, a: int, b: int)
    requires a <= b
    ensures m * a <= m * b
  {
  }

  /** Division by `m` recovers the quotient and the remainder. */
  lemma MultipleMod(q: nat, m: nat, r: nat)
    requires r < m
    ensures (m * q + r) % m == r
    ensures (m * q + r) / m == q
  {
    var d := (m * q + r) / m;
    if d < q {
      MulMonotone(m, d + 1, q);
    } else if q < d {
      MulMonotone(m, q + 1, d);
    }
  }

  function Members<T(==)>(s: seq<T>): set<T> {
    set x | x in s
  }

  lemma {:induction false} SubsetSize<T>(a: set<T>, b: set<T>)
    requires a <= b
    ensures |a| <= |b|
  {
    assert b == a + (b - a);
  }
}
