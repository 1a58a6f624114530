/** Shared vocabulary: optional values, I/O results and Rust's fixed-width integers. */
module Base {

  datatype Option<+T> = None | Some(value: T)

  /** The `std::io::ErrorKind`s the stores produce. `Io` stands for any other
      operating-system failure, which the stores propagate unchanged. */
  datatype ErrorKind = AlreadyExists | InvalidData | InvalidInput | NotFound | WouldBlock | Io

  datatype Result<+T> = Ok(value: T) | Err(error: ErrorKind)

  const U16_MAX: nat := 0xFFFF
  const U32_MAX: nat := 0xFFFF_FFFF
  const U64_MAX: nat := 0xFFFF_FFFF_FFFF_FFFF

  type u16 = x: nat | x <= U16_MAX
  type u32 = x: nat | x <= U32_MAX
  type u64 = x: nat | x <= U64_MAX

  type byte = x: nat | x < 256

  /** `v as u32` on a `u64`: keeps the low 32 bits. */
  function TruncateU32(v: nat): (r: u32)
    ensures v <= U32_MAX ==> r == v
    ensures r == v % (U32_MAX + 1)
  {
    v % (U32_MAX + 1)
  }

  /** `x.checked_add(1)` on an unsigned integer whose largest value is `max`. */
  function CheckedIncrement(x: nat, max: nat): (r: Option<nat>)
    requires x <= max
    ensures r.Some? <==> x < max
    ensures r.Some? ==> r.value == x + 1 && r.value <= max
  {
    if x < max then Some(x + 1) else None
  }

  /** A float-to-integer `as` cast of a non-negative value: saturates at `max`. */
  function Saturate(v: nat, max: nat): (r: nat)
    ensures r <= max && r <= v
    ensures v <= max ==> r == v
    ensures v > max ==> r == max
  {
    if v <= max then v else max
  }

  function Max(a: nat, b: nat): (r: nat)
    ensures r >= a && r >= b && (r == a || r == b)
  {
    if a >= b then a else b
  }
}
