/** 64-bit machine integers as mathematical ones. */
module MachineInts {
  const I64_MIN: int := -0x8000_0000_0000_0000
  const I64_MAX: int := 0x7fff_ffff_ffff_ffff
  const U64_MOD: int := 0x1_0000_0000_0000_0000

  type Usize = x: int | 0 <= x < U64_MOD

  /** `x as u64`, for an `x` computed in wrapping 64-bit arithmetic. */
  function AsU64(x: int): (r: int)
    ensures 0 <= r < U64_MOD && (0 <= x < U64_MOD ==> r == x) && (-U64_MOD <= x < 0 ==> r == x + U64_MOD)
  {
    x % U64_MOD
  }

  /** `x as i64`. */
  function AsI64(x: int): (r: int)
    ensures I64_MIN <= r <= I64_MAX
    ensures r == AsU64(x) || r == AsU64(x) - U64_MOD
  {
    var u := AsU64(x);
    if u > I64_MAX then u - U64_MOD else u
  }
}
