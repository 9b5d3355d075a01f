/** Fixed-width unsigned integers of the runtime, the `as` casts that narrow
    them, and the wrapping and checked arithmetic a Rust `+` or `*` performs
    in a release and a debug build respectively. */
module Primitives {

  const U32_LIMIT: int := 0x1_0000_0000
  const U64_LIMIT: int := 0x1_0000_0000_0000_0000
  const U128_LIMIT: int := 0x1_0000_0000_0000_0000_0000_0000_0000_0000

  /** `u64::max_value()` */
  const U64_MAX: int := U64_LIMIT - 1

  type U32 = x: int | 0 <= x < U32_LIMIT
  type U64 = x: int | 0 <= x < U64_LIMIT
  type U128 = x: int | 0 <= x < U128_LIMIT

  datatype Option<+T> = None | Some(value: T)

  /** `n as u32`: keeps the low 32 bits of `n`, never fails. */
  function AsU32(n: nat): (r: U32)
    ensures n < U32_LIMIT ==> r == n
    ensures r <= n
    ensures (n - r) % U32_LIMIT == 0
  {
    n % U32_LIMIT
  }

  /** `n as u64`: keeps the low 64 bits of `n`, never fails. */
  function AsU64(n: nat): (r: U64)
    ensures n < U64_LIMIT ==> r == n
    ensures r <= n
    ensures (n - r) % U64_LIMIT == 0
  {
    n % U64_LIMIT
  }

  /** `a + b` on `u32` in a release build: the carry out of bit 31 is dropped. */
  function WrappingAddU32(a: U32, b: U32): (r: U32)
    ensures a + b < U32_LIMIT ==> r == a + b
    ensures (a + b - r) % U32_LIMIT == 0
  {
    if a + b < U32_LIMIT then a + b else a + b - U32_LIMIT
  }

  /** `a * b` on `u32` in a release build: only the low 32 bits of the product survive. */
  function WrappingMulU32(a: U32, b: U32): (r: U32)
    ensures a * b < U32_LIMIT ==> r == a * b
    ensures (a * b - r) % U32_LIMIT == 0
  {
    (a * b) % U32_LIMIT
  }

  /** `a + b` on `u32` in a debug build: `None` stands for the overflow panic. */
  function CheckedAddU32(a: U32, b: U32): (r: Option<U32>)
    ensures r.Some? <==> a + b < U32_LIMIT
    ensures r.Some? ==> r.value == WrappingAddU32(a, b)
  {
    if a + b < U32_LIMIT then Some(a + b) else None
  }

  /** `a * b` on `u32` in a debug build: `None` stands for the overflow panic. */
  function CheckedMulU32(a: U32, b: U32): (r: Option<U32>)
    ensures r.Some? <==> a * b < U32_LIMIT
    ensures r.Some? ==> r.value == WrappingMulU32(a, b)
  {
    MulMonotone(0, a, b);
    if a * b < U32_LIMIT then Some(a * b) else None
  }

  /** Two numbers that differ by a multiple of `m` leave the same remainder. */
  lemma ModOfMultipleDifference(x: int, y: int, k: int, m: int)
    requires m > 0
    requires x - y == k * m
    ensures x % m == y % m
  {
    var d := x / m - y / m - k;
    assert x == (x / m) * m + x % m;
    assert y == (y / m) * m + y % m;
    assert d * m == y % m - x % m by {
      calc {
        d * m;
        (x / m) * m - (y / m) * m - k * m;
        (x - x % m) - (y - y % m) - (x - y);
        y % m - x % m;
      }
    }
  }

  /** Multiplying by `a` keeps two numbers congruent modulo `m`. */
  lemma MulKeepsCongruence(a: nat, n: nat, m: int)
    requires m > 0
    ensures a * n - a * (n % m) == (a * (n / m)) * m
  {
  }

  /** Dividing an exact multiple of `m` by `m` recovers the other factor. */
  lemma DivOfMultiple(x: int, m: int)
    requires m > 0
    ensures (x * m) % m == 0
    ensures (x * m) / m == x
  {
    ModOfMultipleDifference(x * m, 0, x, m);
    var q := (x * m) / m;
    assert x * m == q * m;
    assert (x - q) * m == 0;
  }

  /** Division by a positive number preserves order. */
  lemma DivMonotone(x: int, y: int, m: int)
    requires m > 0
    requires x <= y
    ensures x / m <= y / m
  {
    assert x == (x / m) * m + x % m;
    assert y == (y / m) * m + y % m;
    var d := x / m - y / m;
    assert d * m < m by {
      calc {
        d * m;
        (x / m) * m - (y / m) * m;
        (x - x % m) - (y - y % m);
      }
    }
    PositiveMultipleAtLeast(d, m);
  }

  /** A positive multiple of a positive number is at least that number. */
  lemma PositiveMultipleAtLeast(d: int, m: int)
    requires m > 0
    ensures d >= 1 ==> d * m >= m
  {
  }

  /** The quotient is the largest multiplier of `m` not exceeding `x`. */
  lemma DivBounds(x: int, m: int)
    requires m > 0
    ensures (x / m) * m <= x < (x / m + 1) * m
  {
  }

  /** Multiplying by a non-negative number preserves order. */
  lemma MulMonotone(a: int, b: int, m: int)
    requires a <= b
    requires m >= 0
    ensures a * m <= b * m
  {
  }
}
