/** Unsigned arithmetic that clips instead of wrapping. */
module Saturating {
  const U64_MAX: nat := 0xFFFF_FFFF_FFFF_FFFF

  function SatAdd(a: nat, b: nat): nat { if a + b < U64_MAX then a + b else U64_MAX }

  function SatSub(a: nat, b: nat): nat { if a < b then 0 else a - b }
}
