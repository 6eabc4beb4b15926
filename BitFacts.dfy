/**
 * C#'s shift operators on a 32-bit `int`, held as its two's-complement bit
 * pattern (`bv32`, bit 31 is the sign), and the facts about them that the
 * bit-field proofs use. C# masks a shift count to its low five bits, and `>>`
 * on an `int` copies the sign bit into the vacated positions.
 */
module BitFacts {
  /** `x << count` on a C# `int`. */
  function Shl(x: bv32, count: bv32): bv32
  {
    x << (count & 31)
  }

  /** `x >> count` on a C# `int`: an arithmetic shift. */
  function Sar(x: bv32, count: bv32): bv32
  {
    if x & 0x8000_0000 == 0 then x >> (count & 31) else !(!x >> (count & 31))
  }

  /** `~(-1 << len)`: the low `len & 31` bits set. */
  function LowMask(len: bv32): bv32
  {
    !Shl(0xFFFF_FFFF, len)
  }

  /** `v` has no bit set at or above position `len & 31`, that is `v < 2^(len & 31)`. */
  predicate Fits(v: bv32, len: bv32)
  {
    v & !LowMask(len) == 0
  }

  /** `(~mask & s) | bits`: clear the bits of `mask` in `s`, then OR `bits` in. */
  function Place(s: bv32, mask: bv32, bits: bv32): bv32
  {
    (!mask & s) | bits
  }

  lemma PlaceField(s: bv32, mk: bv32, vk: bv32)
    requires vk & !mk == 0
    ensures mk & Place(s, mk, vk) == vk && !mk & Place(s, mk, vk) == !mk & s
  {}

  lemma ShlKeepsDisjoint(x: bv32, y: bv32, k: bv32)
    requires x & !y == 0
    ensures Shl(x, k) & !Shl(y, k) == 0
  {}

  /**
   * Placing `vk = v << k` under the mask `mk = m << k`, where `v` lies inside
   * `m`, puts `vk` in the field and keeps every other bit of `s`.
   */
  lemma PlaceShifted(s: bv32, v: bv32, m: bv32, k: bv32, mk: bv32, vk: bv32)
    requires v & !m == 0 && mk == Shl(m, k) && vk == Shl(v, k)
    ensures mk & Place(s, mk, vk) == vk && !mk & Place(s, mk, vk) == !mk & s
  {
    ShlKeepsDisjoint(v, m, k);
    PlaceField(s, mk, vk);
  }

  lemma ShlBelowSign(v: bv32, k: bv32, len: bv32)
    requires 1 <= len && k < 32 && len < 32 - k && Fits(v, len)
    ensures Shl(v, k) & 0x8000_0000 == 0
  {}

  lemma ShlBack(v: bv32, k: bv32, len: bv32)
    requires 1 <= len && k < 32 && len < 32 - k && Fits(v, len)
    ensures Shl(v, k) >> (k & 31) == v
  {}

  /** A `len`-bit value shifted left by `k` stays below the sign bit and shifts back unchanged. */
  lemma SarOfShl(v: bv32, k: bv32, len: bv32)
    requires 1 <= len && k < 32 && len < 32 - k && Fits(v, len)
    ensures Sar(Shl(v, k), k) == v
  {
    ShlBelowSign(v, k, len);
    ShlBack(v, k, len);
  }
}
