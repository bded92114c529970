/** Shared vocabulary: optional values, machine-integer ranges and addresses. */
module Base {
  datatype Option<+T> = None | Some(value: T) {
    function GetOr(default: T): T {
      if Some? then value else default
    }
  }

  const U64_MAX: int := 0xFFFF_FFFF_FFFF_FFFF
  const I128_MAX: int := 0x7FFF_FFFF_FFFF_FFFF_FFFF_FFFF_FFFF_FFFF

  /** Rust's `u64` and `i128`. Overflow is never silent: every addition below is checked. */
  type U64 = x: int | 0 <= x <= U64_MAX
  type I128 = x: int | -I128_MAX - 1 <= x <= I128_MAX

  /** The text form of an account or contract address. */
  type Address = string

  /** What a call that allocates nothing allocates. */
  ghost const NOTHING: set<object> := {}
}
