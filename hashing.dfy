/**
 * Hash codes in unchecked 32-bit arithmetic. `string.GetHashCode` is randomised per
 * process by the runtime, so a string's hash is modelled as some fixed function of
 * its characters; only that matters to the properties proved.
 */
module Hashes {
  import opened Wrappers

  /** A stand-in for `string.GetHashCode`. */
  function StringHash(s: string): bv32
  {
    if s == [] then 0 else StringHash(s[..|s| - 1]) * 31 + (s[|s| - 1] as int) as bv32
  }

  function OptionStringHash(s: Option<string>): bv32
  {
    if s.None? then 0 else StringHash(s.value)
  }

  /** `int?.GetHashCode()`: 0 for null, the value otherwise. */
  function NullableIntHash(n: Option<nat>): bv32
  {
    if n.None? then 0 else IntHash(n.value)
  }

  /** One step of the hash combination: `(h * 397) ^ x` in unchecked 32-bit arithmetic. */
  function Mix(h: bv32, x: bv32): bv32
  {
    (h * 397) ^ x
  }

  /** `int.GetHashCode()`: the value itself, taken modulo 2^32. */
  function IntHash(n: nat): bv32
  {
    (n % 0x1_0000_0000) as bv32
  }
}
