/** Fixed-width integers and the three arithmetic disciplines the contract mixes:
    saturating (`saturating_add`, `saturating_mul`), clamped, and plain operators.
    The workspace sets no `overflow-checks`, so in the release build the plain
    operators wrap; every place where that can matter writes the wrap out. */
module Ints {

  const I32_MAX: int := 0x7FFF_FFFF
  const U32_MAX: int := 0xFFFF_FFFF
  const U64_MAX: int := 0xFFFF_FFFF_FFFF_FFFF
  const I128_MAX: int := 0x7FFF_FFFF_FFFF_FFFF_FFFF_FFFF_FFFF_FFFF
  const I128_MIN: int := -I128_MAX - 1
  const U128_MAX: int := 0xFFFF_FFFF_FFFF_FFFF_FFFF_FFFF_FFFF_FFFF

  type u32 = x: int | 0 <= x <= U32_MAX
  type u64 = x: int | 0 <= x <= U64_MAX
  type i32 = x: int | -I32_MAX - 1 <= x <= I32_MAX
  type i128 = x: int | I128_MIN <= x <= I128_MAX
  type u128 = x: int | 0 <= x <= U128_MAX

  function Min(a: int, b: int): int { if a < b then a else b }

  function Max(a: int, b: int): int { if a > b then a else b }

  /** What `saturating_*` leaves of an exact i128 result. */
  function SatI128(x: int): (r: i128)
  {
    if x > I128_MAX then I128_MAX else if x < I128_MIN then I128_MIN else x
  }

  /** What `saturating_add` leaves of an exact u64 result. */
  function SatU64(x: nat): (r: u64)
  {
    Min(x, U64_MAX)
  }

  function WrapI128(x: int): (r: i128)
    ensures I128_MIN <= x <= I128_MAX ==> r == x
    ensures (x - r) % (U128_MAX + 1) == 0
  {
    (x - I128_MIN) % (U128_MAX + 1) + I128_MIN
  }

  function WrapI32(x: int): (r: i32)
    ensures -I32_MAX - 1 <= x <= I32_MAX ==> r == x
    ensures (x - r) % (U32_MAX + 1) == 0
  {
    (x + I32_MAX + 1) % (U32_MAX + 1) - I32_MAX - 1
  }

  function WrapU64(x: int): (r: u64)
    ensures 0 <= x <= U64_MAX ==> r == x
    ensures (x - r) % (U64_MAX + 1) == 0
  {
    x % (U64_MAX + 1)
  }

  lemma ModUnshift128(a: int, k: int)
    ensures (a + k * (U128_MAX + 1)) % (U128_MAX + 1) == a % (U128_MAX + 1)
  {
    var q := a / (U128_MAX + 1);
    assert a + k * (U128_MAX + 1) == (q + k) * (U128_MAX + 1) + a % (U128_MAX + 1);
  }

  /** Wrapping once at the end is the same as wrapping at every addition. */
  lemma WrapI128Add(x: int, y: int)
    ensures WrapI128(WrapI128(x) + y) == WrapI128(x + y)
  {
    var k := (x - WrapI128(x)) / (U128_MAX + 1);
    assert x == WrapI128(x) + k * (U128_MAX + 1);
    ModUnshift128(WrapI128(x) + y - I128_MIN, k);
  }

  lemma ModUnshift32(a: int, k: int)
    ensures (a + k * (U32_MAX + 1)) % (U32_MAX + 1) == a % (U32_MAX + 1)
  {
    var q := a / (U32_MAX + 1);
    assert a + k * (U32_MAX + 1) == (q + k) * (U32_MAX + 1) + a % (U32_MAX + 1);
  }

  lemma WrapI32Add(x: int, y: int)
    ensures WrapI32(WrapI32(x) + y) == WrapI32(x + y)
  {
    var k := (x - WrapI32(x)) / (U32_MAX + 1);
    assert x == WrapI32(x) + k * (U32_MAX + 1);
    ModUnshift32(WrapI32(x) + y + I32_MAX + 1, k);
  }

  /** Division toward zero, Rust's `/` on signed integers. */
  function TruncDiv(a: int, b: int): (q: int)
    requires b > 0
    ensures a >= 0 ==> q >= 0 && q * b <= a < q * b + b
    ensures a < 0 ==> q <= 0 && q * b - b < a <= q * b
  {
    if a >= 0 then a / b else -((-a) / b)
  }
}
