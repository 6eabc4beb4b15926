# FrameworkUnityPlugin common utilities — a Dafny model

This project models the self-contained logic of the FrameworkUnityPlugin
common library, a C# helper library for Unity, and proves properties about it:

- **Utility.Convert.** Bounds-checked writers and readers of `bool`, 16-, 32- and
  64-bit integers in a caller's `byte[]`, little-endian as on the targeted hosts
  (`Convert.dfy`). The `SetBitValue`/`GetBitValue` bit-field helpers over a C#
  `int` (`BitField.dfy`, with the C# shift operators in `BitFacts.dfy`). The
  nibble/hex-digit converters, the byte-array ⇄ hex-text converters, and the
  `rrggbb` and `rgb(r,g,b)` colour strings (`Hex.dfy`).
- **Utility.Marshal.** The process-wide unmanaged scratch region, grown in
  blocks of 2048 bytes, and the structure ⇄ byte-array copies that go through
  it (`Marshal.dfy`). The state is a class `HGlobalCache`. Its transitions are
  also given as pure functions `Malloc`/`Free` over the two static fields.
- **StringExtension.** The cursor-based `ReadLine` (CR, LF and CRLF end a line),
  `SplitToLines`, and the split-and-trim `SplitToArray` (`StringExtension.dfy`).
- **ArrayExtension and ListExtension.** `Merge`, the two in-place swap
  shuffles and `GetRandom`. The random draws are parameters
  (`ArrayExtension.dfy`, `ListExtension.dfy`, `Permutations.dfy`).
- **Utility.MathX.** Unchecked 32-bit `int` addition, subtraction and
  multiplication, and truncating division (`MathX.dfy`, on the integer model of
  `Numeric.dfy`).

A thrown exception is modelled as an `Err`/`Fail` value of `Results.dfy`. A C#
reference that may be null is an `Option` or an `array?`. C# fixed-width
integers are subset types of `int`: `i32`, `u16`, `byte` and so on. Their
wrap-around is written out as `Wrap32` and the `Unsigned`/`Signed` casts.
An array size computed in unchecked 32-bit arithmetic (`ChangeByte2HpyChar`,
`Merge`) wraps negative past int.MaxValue, and the allocation then throws
OverflowException; the model returns `Err(Overflow)` for those sizes.
Bit-level code on `int` uses `bv32`.

Where the code and its documentation differ, the model follows the code.
Examples:

- `GetInt16` ignores its offset.
- `ChangeChar2Hpy` does not decode upper-case digits.
- `SetBitValue` does not mask its value.
- `GetBitValue` sign-extends.

## Model

Paths are relative to the repository root. `Utility.Convert.cs` is
`src/managed/common/common/Utility/Utility.Convert.cs`, and likewise for the others.

Definitions without a row of their own are reference functions whose
properties other rows state: `BitField.GetBitValue` in `BitField.GetOfField`,
`BitField.GetOfSet` and `BitField.BitFieldEdges`; `Marshal.CachedSize` in
`Marshal.CachedSizeRounds` and `Marshal.CachedSizeOverflows`; `Marshal.Malloc` in
`Marshal.MallocRejectsNegative` through `Marshal.MallocIdempotent` and in the
`Marshal.HGlobalCache` method rows; `Hex.Combine` in `Hex.OrNibble`,
`Hex.CombineOfNibbles` and `Hex.CombineNibbles`; `Hex.HexOf` and `Hex.UnhexOf` in
`Hex.HexOfShape`, `Hex.UnhexOfHexOf`, `Hex.UnhexOfDropsOddTail` and
`Hex.HexOfAppend`; `Hex.GetHexString` in `Hex.GetHexStringIsHex`;
`StringExtension.Lines` in `StringExtension.SplitToLines`,
`StringExtension.LinesHaveNoBreaks`, `StringExtension.TrailingNewline` and
`StringExtension.JoinLines`; `StringExtension.Split` in
`StringExtension.SplitPieces`; `StringExtension.Trim` in
`StringExtension.TrimIsSlice`; `ArrayExtension.ShuffleSteps` in
`ArrayExtension.ShuffleStepsPermutes` and `ArrayExtension.Shuffle`;
`ListExtension.Steps` and `ListExtension.Rounds` in `ListExtension.StepAt`,
`ListExtension.StepsPermutes`, `ListExtension.SuffixFixed`,
`ListExtension.LastStepIsIdentity` and `ListExtension.Shuffle`.

| member | source | states |
|---|---|---|
| MathX.Add | src/managed/common/common/Utility/Utility.MathX.cs:21-24 | the result is `val1 + val2` modulo 2^32, equal to it when it fits and off by exactly 2^32 on overflow either way |
| MathX.Sub | src/managed/common/common/Utility/Utility.MathX.cs:26-29 | the result is `val1 - val2` modulo 2^32, equal to it when it fits |
| MathX.Mul | src/managed/common/common/Utility/Utility.MathX.cs:36-39 | the result is the product modulo 2^32, equal to it when it fits |
| MathX.Div | src/managed/common/common/Utility/Utility.MathX.cs:31-34 | fails with DivideByZero exactly when `val2 == 0`, with Overflow exactly for int.MinValue / -1, and succeeds in every other case; then the remainder is smaller than the divisor and has the sign of the dividend (truncation toward zero) |
| MathX.TruncDivBound | src/managed/common/common/Utility/Utility.MathX.cs:31-34 | the truncated quotient of two ints fits an int except for int.MinValue / -1 |
| MathX.SubUndoesAdd | src/managed/common/common/Utility/Utility.MathX.cs:21-29 | wrapping subtraction undoes wrapping addition for all ints |
| MathX.AddCommutes | src/managed/common/common/Utility/Utility.MathX.cs:21-24 | wrapping addition commutes and has 0 as identity |
| MathX.WrapExamples | src/managed/common/common/Utility/Utility.MathX.cs:21-39 | int.MaxValue + 1 is int.MinValue; int.MinValue - 1 is int.MaxValue; int.MinValue * -1 is int.MinValue |
| MathX.DivExamples | src/managed/common/common/Utility/Utility.MathX.cs:31-34 | 7 / -2 and -7 / 2 are -3, -7 / -2 is 3; the two error cases |
| Numeric.Wrap32 | src/managed/common/common/Utility/Utility.MathX.cs:21-39 | unchecked `int` arithmetic: the result differs from the exact value by a multiple of 2^32 and is the exact value when it fits |
| Numeric.TruncDiv | src/managed/common/common/Utility/Utility.MathX.cs:31-34 | C#'s `/`: quotient times divisor plus the truncated remainder is the dividend |
| Numeric.TruncRem | src/managed/common/common/Utility/Utility.MathX.cs:31-34 | the remainder has the sign of the dividend and is smaller than the divisor in magnitude |
| Numeric.Signed | src/managed/common/common/Utility/Utility.Convert.cs:431-445 | the unchecked signed cast lands in the signed range and has the given unsigned pattern |
| Numeric.SignedUnsigned | src/managed/common/common/Utility/Utility.Convert.cs:431-445 | the signed and unsigned casts are inverse on the signed range |
| Numeric.FromLittleEndianOfLittleEndian | src/managed/common/common/Utility/Utility.Convert.cs:29-32 | decoding the n little-endian bytes of `u` gives `u` modulo 256^n |
| Numeric.LittleEndianOfFromLittleEndian | src/managed/common/common/Utility/Utility.Convert.cs:29-32 | encoding a decoded byte sequence gives the same bytes: the codec is a bijection |
| Numeric.Splice | src/managed/common/common/Utility/Utility.Convert.cs:399-402 | the bytes at `pos` are replaced by the new ones and every other byte is kept |
| Convert.SignedOfSignedBytes | src/managed/common/common/Utility/Utility.Convert.cs:357-403 | decoding the layout of a value in the signed range gives the value |
| Convert.SignedBytesOfSignedOf | src/managed/common/common/Utility/Utility.Convert.cs:357-403 | every byte sequence is the layout of the value decoded from it |
| Convert.UnsignedOfLittleEndian | src/managed/common/common/Utility/Utility.Convert.cs:410-445 | decoding the layout of an unsigned value gives it back |
| Convert.UnsignedBytesAreSignedCast | src/managed/common/common/Utility/Utility.Convert.cs:431-445 | the bytes of an unsigned value are those of its signed cast, as `GetBytes(uint)` writes them |
| Convert.LayoutExamples | src/managed/common/common/Utility/Utility.Convert.cs:367-403 | 0x12345678 is laid out as 78 56 34 12; -1 as four 0xFF; -2 in two bytes as FE FF |
| Convert.ReadCheck | src/managed/common/common/Utility/Utility.Convert.cs:357-360 | BitConverter's checks pass exactly when the buffer is non-null and the `width` bytes at `startPos` lie inside it; null and start-out-of-range errors come first |
| Convert.GetBool | src/managed/common/common/Utility/Utility.Convert.cs:239-255 | succeeds exactly for a non-null buffer and `0 <= startPos < Length`, giving `buffer[startPos] != 0`; the two failures are distinguished |
| Convert.GetInt16 | src/managed/common/common/Utility/Utility.Convert.cs:464-495 | as written: succeeds exactly when the two bytes at `startPos` are inside the buffer, and then returns the value whose layout is `buffer[0..2]` |
| Convert.GetInt16Corrected | src/managed/common/common/Utility/Utility.Convert.cs:464-495 | the same checks, returning the value whose layout is the two bytes at `startPos` |
| Convert.GetInt16IgnoresStartPos | src/managed/common/common/Utility/Utility.Convert.cs:481-493 | at every accepted offset GetInt16 returns the value at offset 0 |
| Convert.GetInt16Counterexample | src/managed/common/common/Utility/Utility.Convert.cs:481-493 | for bytes 00 00 34 12, GetInt16 at offset 2 gives 0 while the corrected reader gives 0x1234 |
| Convert.GetUInt16 | src/managed/common/common/Utility/Utility.Convert.cs:545-559 | fails as ReadCheck does; otherwise the little-endian layout of the result is the two bytes at `startPos` |
| Convert.GetInt32 | src/managed/common/common/Utility/Utility.Convert.cs:346-360 | fails as ReadCheck does; otherwise the layout of the result is the four bytes at `startPos` |
| Convert.GetUInt32 | src/managed/common/common/Utility/Utility.Convert.cs:410-424 | fails as ReadCheck does; otherwise the little-endian layout of the result is the four bytes at `startPos` |
| Convert.GetInt64 | src/managed/common/common/Utility/Utility.Convert.cs:629-643 | fails as ReadCheck does; otherwise the layout of the result is the eight bytes at `startPos` |
| Convert.GetUInt64 | src/managed/common/common/Utility/Utility.Convert.cs:676-684 | fails as ReadCheck does; otherwise the little-endian layout of the result is the eight bytes at `startPos` |
| Convert.WriteCheckAsWritten | src/managed/common/common/Utility/Utility.Convert.cs:384-397 | the writers' checks as written pass exactly for a non-null buffer, `startPos >= 0` and the 32-bit wrapped `startPos + width` within the length |
| Convert.WriteCheck | src/managed/common/common/Utility/Utility.Convert.cs:384-397 | the corrected checks pass exactly when the `width` bytes at `startPos` lie inside a non-null buffer |
| Convert.WriteCheckAgrees | src/managed/common/common/Utility/Utility.Convert.cs:394-397 | both checks agree whenever `startPos + width` does not overflow |
| Convert.WriteCheckOverflows | src/managed/common/common/Utility/Utility.Convert.cs:394-397 | at `startPos == int.MaxValue` the written check passes although the corrected one fails |
| Convert.WriteBytes | src/managed/common/common/Utility/Utility.Convert.cs:382-403 | fails as WriteCheck does, leaving the buffer unchanged; otherwise exactly the bytes at `startPos` are replaced |
| Convert.GetBytesBoolAt | src/managed/common/common/Utility/Utility.Convert.cs:279-297 | succeeds exactly when the byte at `startPos` is inside a non-null buffer; the wrapped check lets `int.MaxValue` through to the array store, which throws; on success only that byte changes, to 1 or 0, and GetBool reads back the value |
| Convert.GetBytesBool | src/managed/common/common/Utility/Utility.Convert.cs:264-270 | a fresh one-byte array holding 1 or 0, from which GetBool reads back the value |
| Convert.GetBytesInt16At | src/managed/common/common/Utility/Utility.Convert.cs:517-538 | fails as WriteCheck does with no change; otherwise splices the two layout bytes in at `startPos`; the corrected reader reads the value back there, and GetInt16 does at offset 0 |
| Convert.GetBytesInt16 | src/managed/common/common/Utility/Utility.Convert.cs:502-508 | a fresh array holding the two layout bytes, from which GetInt16 reads back the value |
| Convert.GetBytesUInt16At | src/managed/common/common/Utility/Utility.Convert.cs:577-580 | writes through the signed cast; the bytes spliced in are the little-endian bytes of the value, and GetUInt16 reads it back |
| Convert.GetBytesUInt16 | src/managed/common/common/Utility/Utility.Convert.cs:566-569 | a fresh array holding the little-endian bytes of the value; GetUInt16 reads it back |
| Convert.GetBytesInt32At | src/managed/common/common/Utility/Utility.Convert.cs:382-403 | fails as WriteCheck does with no change; otherwise splices the four layout bytes in at `startPos` and GetInt32 reads the value back there |
| Convert.GetBytesInt32 | src/managed/common/common/Utility/Utility.Convert.cs:367-373 | a fresh array holding the four layout bytes; GetInt32 reads the value back |
| Convert.GetBytesUInt32At | src/managed/common/common/Utility/Utility.Convert.cs:442-445 | writes through the signed cast; the bytes spliced in are the little-endian bytes of the value, and GetUInt32 reads it back |
| Convert.GetBytesUInt32 | src/managed/common/common/Utility/Utility.Convert.cs:431-434 | a fresh array holding the little-endian bytes of the value; GetUInt32 reads it back |
| Convert.GetBytesInt64At | src/managed/common/common/Utility/Utility.Convert.cs:653-674 | fails as WriteCheck does with no change; otherwise splices the eight layout bytes in at `startPos` and GetInt64 reads the value back there |
| Convert.GetBytesInt64 | src/managed/common/common/Utility/Utility.Convert.cs:645-651 | a fresh array holding the eight layout bytes; GetInt64 reads the value back |
| Convert.GetBytesUInt64At | src/managed/common/common/Utility/Utility.Convert.cs:691-694 | writes through the signed cast; the bytes spliced in are the little-endian bytes of the value, and GetUInt64 reads it back |
| Convert.GetBytesUInt64 | src/managed/common/common/Utility/Utility.Convert.cs:686-689 | a fresh array holding the little-endian bytes of the value; GetUInt64 reads it back |
| Convert.Int32RoundTrip | src/managed/common/common/Utility/Utility.Convert.cs:357-403 | the four layout bytes of a value at any in-bounds offset read back as the value |
| Convert.Int64RoundTrip | src/managed/common/common/Utility/Utility.Convert.cs:640-674 | the eight layout bytes of a value at any in-bounds offset read back as the value |
| BitFacts.PlaceField | src/managed/common/common/Utility/Utility.Convert.cs:811 | clearing a mask and OR-ing in bits inside it puts those bits in the field and keeps every other bit |
| BitFacts.ShlKeepsDisjoint | src/managed/common/common/Utility/Utility.Convert.cs:811 | shifting two patterns by the same count keeps one inside the other |
| BitFacts.PlaceShifted | src/managed/common/common/Utility/Utility.Convert.cs:811 | placing a shifted value under the equally shifted mask sets the field and keeps the rest |
| BitFacts.SarOfShl | src/managed/common/common/Utility/Utility.Convert.cs:823 | a `len`-bit value shifted left below the sign bit comes back unchanged from the arithmetic right shift |
| BitField.SetBitValue | src/managed/common/common/Utility/Utility.Convert.cs:804-812 | fails with InvalidParam exactly for a negative value or a start outside 0..31 |
| BitField.SetBitsField | src/managed/common/common/Utility/Utility.Convert.cs:811 | for a value that fits the field, the field holds `value << start` and every bit outside it is that of `s` |
| BitField.GetOfField | src/managed/common/common/Utility/Utility.Convert.cs:821-824 | reading a field below the sign bit that holds `v << start` gives `v` |
| BitField.SetBitValueField | src/managed/common/common/Utility/Utility.Convert.cs:804-812 | SetBitValue succeeds for a non-negative value and start in 0..31; a fitting value fills the field and leaves the other bits |
| BitField.GetOfSet | src/managed/common/common/Utility/Utility.Convert.cs:804-824 | a field written by SetBitValue that lies below bit 31 reads back as the value written |
| BitField.BitFieldExample | src/managed/common/common/Utility/Utility.Convert.cs:804-824 | 5 in bits 4..6 of 0 is 0x50, and reads back as 5 |
| BitField.BitFieldEdges | src/managed/common/common/Utility/Utility.Convert.cs:804-824 | a field reaching bit 31 reads back sign-extended; an unmasked value spills out of the field; a length of 32 gives an empty mask; the refused arguments |
| Hex.ChangeHyp2Char | src/managed/common/common/Utility/Utility.Convert.cs:883-898 | succeeds exactly for 0..15, giving a lower-case hex digit; fails with InvalidParam otherwise |
| Hex.ChangeHpyChar2Byte | src/managed/common/common/Utility/Utility.Convert.cs:866-876 | a digit `0`-`9`/`a`-`f` decodes to a nibble |
| Hex.DigitOfNibble | src/managed/common/common/Utility/Utility.Convert.cs:866-898 | decoding the digit of a nibble gives the nibble |
| Hex.NibbleOfDigit | src/managed/common/common/Utility/Utility.Convert.cs:866-898 | encoding the nibble of a digit gives the digit |
| Hex.UpperCaseDigits | src/managed/common/common/Utility/Utility.Convert.cs:868-875 | `'A'` decodes to 234, `'F'` to 239 and a space to 240: the cast wraps |
| Hex.OrEven | src/managed/common/common/Utility/Utility.Convert.cs:855 | OR-ing into an even number: the low bit comes from the other operand |
| Hex.OrShifted | src/managed/common/common/Utility/Utility.Convert.cs:855 | `h << 4 \| l` keeps the low nibble of `l` and ORs the rest of `l` into `h` |
| Hex.OrNibble | src/managed/common/common/Utility/Utility.Convert.cs:855 | OR-ing a nibble into a number shifted up a nibble is adding it |
| Hex.CombineOfNibbles | src/managed/common/common/Utility/Utility.Convert.cs:855 | for two nibbles, `(byte)(hi << 4 \| lo)` is `16 * hi + lo` |
| Hex.CombineNibbles | src/managed/common/common/Utility/Utility.Convert.cs:855 | the two nibbles of a byte combine back to the byte |
| Hex.DigitAt | src/managed/common/common/Utility/Utility.Convert.cs:835-839 | every character of the hex text is a lower-case hex digit |
| Hex.HexOfShape | src/managed/common/common/Utility/Utility.Convert.cs:831-842 | the hex text is twice as long, uses only `0-9a-f`, and holds the high nibble of each byte first |
| Hex.UnhexOfHexOf | src/managed/common/common/Utility/Utility.Convert.cs:831-859 | round trip: decoding the hex text of any bytes gives the bytes |
| Hex.UnhexOfDropsOddTail | src/managed/common/common/Utility/Utility.Convert.cs:851 | an odd trailing character is ignored |
| Hex.HexOfAppend | src/managed/common/common/Utility/Utility.Convert.cs:835-839 | the hex text of a concatenation is the concatenation of the hex texts |
| Hex.HexExamples | src/managed/common/common/Utility/Utility.Convert.cs:831-842 | 0xAB 0x01 is "ab01" |
| Hex.UnhexExamples | src/managed/common/common/Utility/Utility.Convert.cs:849-876 | "ab0" decodes to 0xAB; "0A" decodes to 0xEA |
| Hex.CombineExamples | src/managed/common/common/Utility/Utility.Convert.cs:855 | `10 << 4 \| 11` is 0xAB and `0 << 4 \| 234` is 0xEA |
| Hex.ChangeByte2HpyChar | src/managed/common/common/Utility/Utility.Convert.cs:831-842 | fails with Overflow exactly when the unchecked size `s.Length * 2` passes int.MaxValue; otherwise a fresh array holding the hex text of the bytes |
| Hex.ChangeChar2Hpy | src/managed/common/common/Utility/Utility.Convert.cs:849-859 | a fresh array holding the decoding of the characters, pair by pair |
| Hex.FormatX2IsHexOf | src/managed/common/common/Utility/Utility.Convert.cs:136-139 | the `x2` format of a byte is its two digits as ChangeByte2HpyChar writes them |
| Hex.DigitTable | src/managed/common/common/Utility/Utility.Convert.cs:136-139 | the `x` format's digit for each nibble is ChangeHyp2Char's |
| Hex.GetHexStringIsHex | src/managed/common/common/Utility/Utility.Convert.cs:136-139 | `rrggbb` is the hex text of the three bytes: six lower-case digits that decode back to them |
| Hex.ParseDecOfDec | src/managed/common/common/Utility/Utility.Convert.cs:148-151 | the decimal rendering of a number parses back to it, with at most three digits for a byte |
| Hex.GetRGBString | src/managed/common/common/Utility/Utility.Convert.cs:148-151 | `rgb(` ... `)`, 10 to 16 characters |
| Hex.GetRGBStringSlices | src/managed/common/common/Utility/Utility.Convert.cs:148-151 | the text between the separators is the decimal rendering of each component |
| Hex.GetRGBStringFields | src/managed/common/common/Utility/Utility.Convert.cs:148-151 | each of the three fields parses back to its component |
| Hex.RGBExample | src/managed/common/common/Utility/Utility.Convert.cs:136-151 | (255, 0, 16) is "rgb(255,0,16)" and "ff0010" |
| Hex.GetColorString | src/managed/common/common/Utility/Utility.Convert.cs:124-127 | the hex form decodes back to r, g, b; the other form is GetRGBString's |
| Hex.ColorStringIgnoresAlpha | src/managed/common/common/Utility/Utility.Convert.cs:124-127 | colours that differ only in alpha give the same string |
| Marshal.CachedSizeRounds | src/managed/common/common/Utility/Utility.Marshal.cs:47 | below the overflow point the size is the least multiple of 2048 holding `size` bytes |
| Marshal.CachedSizeOverflows | src/managed/common/common/Utility/Utility.Marshal.cs:47 | above it the 32-bit computation wraps negative |
| Marshal.CachedSizeExamples | src/managed/common/common/Utility/Utility.Marshal.cs:47 | 0→0, 1→2048, 10→2048, 2048→2048, 2049→4096, 5000→6144 |
| Marshal.Free | src/managed/common/common/Utility/Utility.Marshal.cs:53-60 | afterwards nothing is held; a held region is released with size 0; an empty state is left as is |
| Marshal.MallocRejectsNegative | src/managed/common/common/Utility/Utility.Marshal.cs:41-43 | a negative size fails and changes nothing |
| Marshal.MallocGrows | src/managed/common/common/Utility/Utility.Marshal.cs:45-50 | a missing or too small region becomes a held one of the least multiple of 2048 holding `size` |
| Marshal.MallocKeepsLargeEnough | src/managed/common/common/Utility/Utility.Marshal.cs:45 | a held region of at least `size` bytes is kept |
| Marshal.MallocOverflows | src/managed/common/common/Utility/Utility.Marshal.cs:46-48 | a size whose rounding overflows fails with nothing held |
| Marshal.MallocInvariant | src/managed/common/common/Utility/Utility.Marshal.cs:39-51 | the state stays a whole number of blocks; after success at least `size` bytes are held; a held region never shrinks |
| Marshal.MallocIdempotent | src/managed/common/common/Utility/Utility.Marshal.cs:39-51 | asking again for the same size after a success changes nothing |
| Marshal.FreeResets | src/managed/common/common/Utility/Utility.Marshal.cs:53-60 | freeing leaves nothing held, and freeing twice is freeing once |
| Marshal.ArgCheck | src/managed/common/common/Utility/Utility.Marshal.cs:96-110 | the four checks pass exactly for a non-negative size, a non-null array, a non-negative index and the wrapped end within the length; the errors come in the source's order |
| Marshal.ArgCheckInRange | src/managed/common/common/Utility/Utility.Marshal.cs:96-110 | without overflow the checks pass exactly when the range lies inside the array |
| Marshal.ArgCheckWraps | src/managed/common/common/Utility/Utility.Marshal.cs:108 | at index int.MaxValue the wrapped check passes for a range outside the array |
| Marshal.HGlobalCache.constructor | src/managed/common/common/Utility/Utility.Marshal.cs:22-23 | the static fields start with no region held |
| Marshal.HGlobalCache.FreeCachedHGlobal | src/managed/common/common/Utility/Utility.Marshal.cs:53-60 | the new state is `Free` of the old one |
| Marshal.HGlobalCache.MallocCachedHGlobalSize | src/managed/common/common/Utility/Utility.Marshal.cs:39-51 | the outcome and new state are `Malloc`'s; a kept region keeps its bytes; success leaves at least `size` bytes held |
| Marshal.HGlobalCache.StructureToPtr | src/managed/common/common/Utility/Utility.Marshal.cs:73 | the image of the structure is written over the start of the region and nothing else changes |
| Marshal.HGlobalCache.StructureToBytes | src/managed/common/common/Utility/Utility.Marshal.cs:62-77 | fails on a negative size with no change; otherwise the state is `Malloc`'s and the result is a fresh array of the first `structureSize` bytes of the region, starting with the structure's image |
| Marshal.HGlobalCache.StructureToBytesAt | src/managed/common/common/Utility/Utility.Marshal.cs:79-115 | a failed check changes nothing; success exactly when the range is inside the array and the region could be grown; once the argument checks pass, the cache is in the state the size request leaves it in; only `bytes[startIndex..startIndex + structureSize]` changes, to the region's first bytes, which hold the encoded structure |
| Marshal.HGlobalCache.BytesToStructure | src/managed/common/common/Utility/Utility.Marshal.cs:117-153 | the same checks; once they pass, the cache is in the state the size request leaves it in; `bytes` is only read; on success the region starts with the copied range and the result is the decoding of its first `size` bytes |
| Marshal.StructureRoundTrip | src/managed/common/common/Utility/Utility.Marshal.cs:62-153 | bytes from StructureToBytes decode back through BytesToStructure to the structure, and this succeeds when the region is already large enough |
| StringExtension.LineEnd | src/managed/common/common/Extension/StringExtension.cs:80-96 | the first CR or LF at or after `from`, or the end, with no terminator before it |
| StringExtension.Resume | src/managed/common/common/Extension/StringExtension.cs:86-89 | reading resumes after the terminator, two characters on exactly for CRLF |
| StringExtension.NextLine | src/managed/common/common/Extension/StringExtension.cs:73-104 | no line exactly at or past the end; otherwise the position strictly advances and stays within the text |
| StringExtension.NextLineShape | src/managed/common/common/Extension/StringExtension.cs:80-101 | a line is the text from `pos` on, holds no terminator, and is followed by one terminator (CRLF counting as one) or the end |
| StringExtension.ReadLine | src/managed/common/common/Extension/StringExtension.cs:73-104 | null text gives null with `position` unchanged; a negative position throws; otherwise the result is NextLine's line and position |
| StringExtension.SplitToLines | src/managed/common/common/Extension/StringExtension.cs:55-65 | a fresh array of the lines in order; a null text gives an empty array |
| StringExtension.LinesHaveNoBreaks | src/managed/common/common/Extension/StringExtension.cs:55-65 | no line holds CR or LF |
| StringExtension.TrailingNewline | src/managed/common/common/Extension/StringExtension.cs:98-103 | a trailing terminator (LF, lone CR or CRLF) after a last line that has none adds no empty line |
| StringExtension.JoinLines | src/managed/common/common/Extension/StringExtension.cs:55-65 | without CR or a final LF, joining the lines with LF gives the text back |
| StringExtension.LinesExamples | src/managed/common/common/Extension/StringExtension.cs:80-103 | "a\r\nb", "a\rb\nc\n", "\n\n", "\r\r\n" and "" split as documented: CRLF is one terminator, a lone CR or LF is one, an empty text has no lines |
| StringExtension.SplitPieces | src/managed/common/common/Extension/StringExtension.cs:118 | `Split` gives one more piece than there are separators, no piece holds the separator, and joining the pieces gives the string back |
| StringExtension.SkipWhiteSpace | src/managed/common/common/Extension/StringExtension.cs:120 | the first non-white-space position from `from`, with only white space before it |
| StringExtension.BackWhiteSpace | src/managed/common/common/Extension/StringExtension.cs:120 | the end of `s[..to]` without its trailing white space, with only white space after it |
| StringExtension.TrimIsSlice | src/managed/common/common/Extension/StringExtension.cs:120 | the trimmed string is a slice of `s`, neither starting nor ending with white space, with only white space cut off |
| StringExtension.SplitToArray | src/managed/common/common/Extension/StringExtension.cs:112-124 | null for a null or empty string; otherwise a fresh array with one element per piece, element `i` being the `i`-th piece trimmed |
| StringExtension.SplitExample | src/managed/common/common/Extension/StringExtension.cs:118 | "a\| b \|" splits into "a", " b " and "" |
| StringExtension.TrimExample | src/managed/common/common/Extension/StringExtension.cs:120 | " b " trims to "b" |
| Permutations.Swap | src/managed/common/common/Extension/ArrayExtension.cs:55-58 | the two positions exchange their elements and every other one is kept |
| Permutations.SwapPermutes | src/managed/common/common/Extension/ListExtension.cs:25-27 | an exchange keeps the multiset of elements |
| ArrayExtension.Merge | src/managed/common/common/Extension/ArrayExtension.cs:23-29 | fails with Overflow exactly when the unchecked size `array1.Length + array2.Length` passes int.MaxValue; otherwise a fresh array of both lengths together, holding the first array followed by the second |
| ArrayExtension.ShuffleStepsPermutes | src/managed/common/common/Extension/ArrayExtension.cs:54-59 | any number of the shuffle's swaps keeps the multiset of elements |
| ArrayExtension.Shuffle | src/managed/common/common/Extension/ArrayExtension.cs:52-60 | the array ends as the swaps with the drawn indices make it, a permutation of what it held |
| ArrayExtension.GetRandom | src/managed/common/common/Extension/ArrayExtension.cs:68-71 | the element at the drawn index, which is in the array; an empty array fails |
| ListExtension.StepsPermutes | src/managed/common/common/Extension/ListExtension.cs:22-28 | the Fisher-Yates steps keep the multiset of elements |
| ListExtension.SuffixFixed | src/managed/common/common/Extension/ListExtension.cs:22-28 | positions fixed by earlier steps are never changed by later ones |
| ListExtension.StepAt | src/managed/common/common/Extension/ListExtension.cs:23-27 | one pass of the loop body, exchanging `list[k]` and `list[n]`, performs the next Fisher-Yates step |
| ListExtension.LastStepIsIdentity | src/managed/common/common/Extension/ListExtension.cs:22 | stopping at `n == 1` loses nothing: the step for position 0 could only draw 0 |
| ListExtension.Shuffle | src/managed/common/common/Extension/ListExtension.cs:18-29 | the loop makes exactly `Count - 1` exchanges for a non-empty list and none for an empty one; the list ends as that many Fisher-Yates steps with the drawn indices make it, a permutation of what it held; a list of at most one element is unchanged |

## Left out

- Floating point is not modelled. This covers `GetSingle`, `GetDouble`, `GetBytes(float)`, `GetBytes(double)`, the DPI conversions and `GetColorString(Color)`.
- Text encodings and culture-dependent conversions are not modelled. This covers `GetBytes(string…)`, `GetString(…)`, `ChangeValue<T>`, `SplitToArray<T>` and `ToTitleCase`. They are thin wrappers over library code.
- The runtime marshaller (`SizeOf`, `StructureToPtr`, `PtrToStructure`) is an abstract `Layout`: a size plus encode and decode functions. The overloads that pass `SizeOf(typeof(T))` or a zero index are the modelled methods applied to `layout.size` and 0.
- `AllocHGlobal` is modelled as succeeding for every non-negative size and refusing a negative one. An out-of-memory failure of the host is not modelled. A fresh region is zero-filled, where the host leaves it undefined.
- The `fDeleteOld` argument of `StructureToPtr` is not modelled. It frees sub-structures of an old value, which a `Layout` does not have.
- Marshal.HGlobalCache.StructureToBytes: requires `layout.size <= structureSize` when the size is non-negative. The source does not check this; a smaller size lets the runtime write past the requested bytes, which the model does not follow. StructureToBytesAt and BytesToStructure have the same requirement.
- The scratch region is a process-wide static with no locking. The model is a single object used by one thread.
- Random draws (`UnityEngine.Random.Range`, `System.Random.Next`) are parameters constrained to the ranges those functions document. The seed handling of `ListExtension.Shuffle` is not modelled.
- ListExtension.Shuffle: an `IList<T>` is modelled as an array of fixed length. The shuffle only reads and writes elements.
- Null arrays passed to `Merge`, `Shuffle`, `GetRandom`, `ChangeByte2HpyChar` and `ChangeChar2Hpy` are not modelled. The source would throw a NullReferenceException; the model takes non-null arrays.
- StringExtension.IsWhiteSpace: `char.IsWhiteSpace` is the fixed list of Unicode white-space characters. A C# `char` is a UTF-16 unit; a Dafny `char` is a Unicode scalar value. The characters these helpers produce are ASCII, but `ChangeHpyChar2Byte`, `ChangeChar2Hpy`, `ReadLine`, `SplitToLines` and `SplitToArray` take arbitrary text. Text holding a lone surrogate is outside the model, since a Dafny `char` cannot hold one. For text holding characters outside the Basic Multilingual Plane, the source's positions (`ReadLine`'s `position`, the trim bounds) count UTF-16 units where the model counts scalar values.
- Hex.Combine: the `|` of `ChangeHpyChar2Byte(hi) << 4 | ChangeHpyChar2Byte(lo)` is the bitwise OR `BitOr` on non-negative integers, cut to a byte.
- `Convert.IsLittleEndian` is the constant `true`. The big-endian branch of GetInt16 is unreachable and not modelled.
- The writers for 16-, 32- and 64-bit values use the corrected range check (see Findings). As written, their check wraps for `startPos` near int.MaxValue and the unsafe store writes outside the array; that memory corruption is not modelled.
- `ArrayExtension.To<T>`, `EnumExtension`, the engine glue (transforms, game objects, singletons, FPS counter) and `Utility.Text` are not part of this model.

## Findings

| source | as written | input that shows it | evidently intended | confidence | as-written member | corrected member |
|---|---|---|---|---|---|---|
| src/managed/common/common/Utility/Utility.Convert.cs:481-493 | `GetInt16(buffer, startPos)` decodes `buffer[0]` and `buffer[1]` in both branches, whatever `startPos` is | bytes `00 00 34 12`, `startPos` 2: gives 0 | the two bytes at `startPos`: 0x1234 | not executed | Convert.GetInt16, Convert.GetInt16Counterexample | Convert.GetInt16Corrected |
| src/managed/common/common/Utility/Utility.Convert.cs:394-397 | the writers test `startPos + 4 > buffer.Length` in 32-bit arithmetic, which wraps negative for `startPos` near int.MaxValue | `startPos` = int.MaxValue, any buffer: the check passes and the unsafe store writes outside the array | the bytes at `startPos` lie inside the buffer | not executed | Convert.WriteCheckAsWritten, Convert.WriteCheckOverflows | Convert.WriteCheck |
