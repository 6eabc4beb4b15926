/**
 * The bit-field helpers of Utility.Convert: `SetBitValue` overwrites a run of
 * bits of a C# `int` and `GetBitValue` reads one back. The `int`s are held as
 * 32-bit patterns, and the C# operators as the functions of BitFacts.
 */
module BitField {
  import opened Results
  import opened BitFacts

  /** `(~(~(-1 << len) << start) & s) | (value << start)`. */
  function SetBits(s: bv32, start: bv32, value: bv32, len: bv32): bv32
  {
    Place(s, Shl(LowMask(len), start), Shl(value, start))
  }

  /**
   * Overwrites `len` bits of `s` from bit `startPos` with `value`. A negative
   * `value` or a `startPos` outside 0..31 is refused; `value` is not masked to
   * the field width.
   */
  function SetBitValue(s: bv32, startPos: bv32, value: bv32, len: bv32): (r: Result<bv32>)
    ensures r.Err? <==> value & 0x8000_0000 != 0 || startPos > 31
    ensures r.Err? ==> r.error == InvalidParam
  {
    if value & 0x8000_0000 != 0 || startPos > 31 then Err(InvalidParam)
    else Ok(SetBits(s, startPos, value, len))
  }

  /** `((~(-1 << len) << startPos) & s) >> startPos`; `startPos` is not checked. */
  function GetBitValue(s: bv32, startPos: bv32, len: bv32): bv32
  {
    Sar(Shl(LowMask(len), startPos) & s, startPos)
  }

  /**
   * When `value` fits in `len` bits, the field `Shl(LowMask(len), start)` of the
   * result holds `value << start` and every bit outside it is the bit of `s`.
   */
  lemma SetBitsField(s: bv32, start: bv32, v: bv32, len: bv32)
    requires Fits(v, len)
    ensures Shl(LowMask(len), start) & SetBits(s, start, v, len) == Shl(v, start)
    ensures !Shl(LowMask(len), start) & SetBits(s, start, v, len) == !Shl(LowMask(len), start) & s
  {
    PlaceShifted(s, v, LowMask(len), start, Shl(LowMask(len), start), Shl(v, start));
  }

  /** Reading a field that holds `v << start`, wholly below the sign bit, gives `v`. */
  lemma GetOfField(r: bv32, start: bv32, v: bv32, len: bv32)
    requires 1 <= len && start < 32 && len < 32 - start && Fits(v, len)
    requires Shl(LowMask(len), start) & r == Shl(v, start)
    ensures GetBitValue(r, start, len) == v
  {
    SarOfShl(v, start, len);
  }

  /**
   * SetBitValue succeeds for a non-negative `value` and a `startPos` in 0..31.
   * When `value` fits in `len` bits, the field of the result holds
   * `value << startPos` and every other bit is the bit of `s`.
   */
  lemma SetBitValueField(s: bv32, start: bv32, v: bv32, len: bv32)
    requires start < 32 && v & 0x8000_0000 == 0 && Fits(v, len)
    ensures SetBitValue(s, start, v, len) == Ok(SetBits(s, start, v, len))
    ensures Shl(LowMask(len), start) & SetBits(s, start, v, len) == Shl(v, start)
    ensures !Shl(LowMask(len), start) & SetBits(s, start, v, len) == !Shl(LowMask(len), start) & s
  {
    SetBitsField(s, start, v, len);
  }

  /**
   * Round trip: a field written by SetBitValue that lies wholly below the sign
   * bit (`startPos + len < 32`) reads back as the value written.
   */
  lemma GetOfSet(s: bv32, start: bv32, v: bv32, len: bv32)
    requires 1 <= len && start < 32 && len < 32 - start && Fits(v, len)
    ensures SetBitValue(s, start, v, len).Ok?
    ensures GetBitValue(SetBitValue(s, start, v, len).value, start, len) == v
  {
    SetBitsField(s, start, v, len);
    GetOfField(SetBits(s, start, v, len), start, v, len);
  }

  /** 5 written into bits 4..6 of 0 gives 0x50, and reads back as 5. */
  lemma BitFieldExample()
    ensures SetBitValue(0, 4, 5, 3) == Ok(0x50)
    ensures GetBitValue(0x50, 4, 3) == 5
  {}

  /**
   * Behaviour of the C# code at its edges: a field reaching bit 31 is
   * sign-extended on reading (8 in bits 28..31 reads back as -8); `value` is not
   * masked, so 4 written into a 2-bit field spills into bit 2; a length of 32
   * is a shift by 0, an empty mask, so SetBitValue only ORs `value` in and
   * GetBitValue returns 0.
   */
  lemma BitFieldEdges()
    ensures GetBitValue(SetBitValue(0, 28, 8, 4).value, 28, 4) == 0xFFFF_FFF8
    ensures SetBitValue(0, 0, 4, 2) == Ok(4)
    ensures SetBitValue(0xF0, 0, 1, 32) == Ok(0xF1)
    ensures GetBitValue(0xFFFF_FFFF, 0, 32) == 0
    ensures SetBitValue(0, 32, 1, 1).Err? && SetBitValue(0, 0, 0x8000_0000, 1).Err?
  {}
}
