/**
 * The scalar byte codec of Utility.Convert: bounds-checked readers and writers
 * of `bool` and of 16-, 32- and 64-bit integers in a caller's `byte[]`, laid
 * out little-endian as on the hosts the code targets. A C# `byte[]` that may be
 * null is an `array?<byte>`; a thrown exception is an `Err`/`Fail` result.
 * Methods without a `startPos` call their `startPos` form with 0 and appear
 * below as that form applied to 0.
 */
module Convert {
  import opened Numeric
  import opened Results

  // ---------------------------------------------------------------------------
  // Byte layouts
  // ---------------------------------------------------------------------------

  /** The n-byte little-endian two's complement layout of `v`, as an unsafe store writes it. */
  function SignedBytes(v: int, n: nat): (s: seq<byte>)
    ensures |s| == n
  {
    LittleEndian(Unsigned(v, n), n)
  }

  /** The signed value whose little-endian layout is `s`. */
  function SignedOf(s: seq<byte>): (v: int)
    requires 1 <= |s|
    ensures -Half(|s|) <= v < Half(|s|)
  {
    Signed(FromLittleEndian(s), |s|)
  }

  /** Decoding the layout of a value in the signed range gives the value back. */
  lemma SignedOfSignedBytes(v: int, n: nat)
    requires 1 <= n && -Half(n) <= v < Half(n)
    ensures SignedOf(SignedBytes(v, n)) == v
  {
    var u := Unsigned(v, n);
    FromLittleEndianOfLittleEndian(u, n);
    UniqueMod(u, Pow256(n), 0, u);
    SignedUnsigned(v, n);
  }

  /** Encoding a decoded value gives the bytes back: every byte sequence is some value's layout. */
  lemma SignedBytesOfSignedOf(s: seq<byte>)
    requires 1 <= |s|
    ensures SignedBytes(SignedOf(s), |s|) == s
  {
    LittleEndianOfFromLittleEndian(s);
  }

  /** Decoding the layout of an unsigned value gives the value back. */
  lemma UnsignedOfLittleEndian(u: nat, n: nat)
    requires u < Pow256(n)
    ensures FromLittleEndian(LittleEndian(u, n)) == u
  {
    FromLittleEndianOfLittleEndian(u, n);
    UniqueMod(u, Pow256(n), 0, u);
  }

  /** The layout of an unsigned value is the layout of its unchecked signed cast. */
  lemma UnsignedBytesAreSignedCast(u: nat, n: nat)
    requires 1 <= n && u < Pow256(n)
    ensures SignedBytes(Signed(u, n), n) == LittleEndian(u, n)
  {
  }

  /** `0x12345678` is stored as 78 56 34 12, and -1 as four 0xFF bytes. */
  lemma LayoutExamples()
    ensures SignedBytes(0x1234_5678, 4) == [0x78, 0x56, 0x34, 0x12]
    ensures SignedBytes(-1, 4) == [0xFF, 0xFF, 0xFF, 0xFF]
    ensures SignedBytes(-2, 2) == [0xFE, 0xFF]
  {
    Pow256Values();
  }

  // ---------------------------------------------------------------------------
  // Readers
  // ---------------------------------------------------------------------------

  /** The argument checks of BitConverter.ToInt16/32/64 and ToUInt16/32/64. */
  function ReadCheck(buffer: array?<byte>, startPos: i32, width: nat): (r: Outcome)
    requires 1 <= width
    ensures r.Pass? <==> buffer != null && 0 <= startPos && startPos + width <= buffer.Length
    ensures buffer == null ==> r == Fail(NullBuffer)
    ensures buffer != null && !(0 <= startPos < buffer.Length) ==> r == Fail(StartPosOutOfRange)
  {
    if buffer == null then Fail(NullBuffer)
    else if startPos < 0 || startPos >= buffer.Length then Fail(StartPosOutOfRange)
    else if startPos > buffer.Length - width then Fail(BufferTooShort)
    else Pass
  }

  /** `buffer[startPos] != 0`, after the method's own null and range checks. */
  function GetBool(buffer: array?<byte>, startPos: i32): (r: Result<bool>)
    reads buffer
    ensures r.Ok? <==> buffer != null && 0 <= startPos < buffer.Length
    ensures buffer == null ==> r == Err(NullBuffer)
    ensures buffer != null && r.Err? ==> r == Err(StartPosOutOfRange)
    ensures r.Ok? ==> (r.value <==> buffer[startPos] != 0)
  {
    if buffer == null then Err(NullBuffer)
    else if startPos < 0 then Err(StartPosOutOfRange)
    else if startPos > buffer.Length - 1 then Err(StartPosOutOfRange)
    else Ok(buffer[startPos] != 0)
  }

  /**
   * GetInt16 as written: after its range checks it decodes `buffer[0]` and
   * `buffer[1]` whatever `startPos` is (both of its branches read from the
   * start of the buffer).
   */
  function GetInt16(buffer: array?<byte>, startPos: i32): (r: Result<i16>)
    reads buffer
    ensures r.Ok? <==> buffer != null && 0 <= startPos && startPos + 2 <= buffer.Length
    ensures buffer == null ==> r == Err(NullBuffer)
    ensures buffer != null && r.Err? ==> r == Err(StartPosOutOfRange)
    ensures r.Ok? ==> SignedBytes(r.value, 2) == buffer[0..2]
  {
    if buffer == null then Err(NullBuffer)
    else if startPos < 0 || startPos > buffer.Length - 2 then Err(StartPosOutOfRange)
    else
      var bytes := buffer[0..2];
      HalfValues();
      SignedBytesOfSignedOf(bytes);
      if startPos % 2 == 0 then
        Ok(SignedOf(bytes))
      else
        TwoBytes(bytes);
        Ok(Signed(buffer[0] as int + 0x100 * buffer[1] as int, 2))
  }

  /** Two bytes decode as `b0 | b1 << 8`. */
  lemma TwoBytes(s: seq<byte>)
    requires |s| == 2
    ensures FromLittleEndian(s) == s[0] as int + 0x100 * s[1] as int
  {
    assert s[1..][1..] == [];
  }

  /** GetInt16 as evidently intended: it decodes the two bytes at `startPos`. */
  function GetInt16Corrected(buffer: array?<byte>, startPos: i32): (r: Result<i16>)
    reads buffer
    ensures r.Ok? <==> buffer != null && 0 <= startPos && startPos + 2 <= buffer.Length
    ensures buffer == null ==> r == Err(NullBuffer)
    ensures buffer != null && r.Err? ==> r == Err(StartPosOutOfRange)
    ensures r.Ok? ==> SignedBytes(r.value, 2) == buffer[startPos..startPos + 2]
  {
    if buffer == null then Err(NullBuffer)
    else if startPos < 0 || startPos > buffer.Length - 2 then Err(StartPosOutOfRange)
    else
      var bytes := buffer[startPos..startPos + 2];
      HalfValues();
      SignedBytesOfSignedOf(bytes);
      Ok(SignedOf(bytes))
  }

  /** GetInt16 returns the same value at every accepted `startPos`: the value at offset 0. */
  lemma GetInt16IgnoresStartPos(buffer: array<byte>, startPos: i32)
    requires 0 <= startPos && startPos + 2 <= buffer.Length
    ensures GetInt16(buffer, startPos) == GetInt16(buffer, 0) == GetInt16Corrected(buffer, 0)
  {
    TwoBytes(buffer[0..2]);
  }

  /** Where the two differ: a 16-bit value stored at offset 2 reads back as the bytes at offset 0. */
  lemma GetInt16Counterexample(buffer: array<byte>)
    requires buffer[..] == [0, 0, 0x34, 0x12]
    ensures GetInt16(buffer, 2) == Ok(0)
    ensures GetInt16Corrected(buffer, 2) == Ok(0x1234)
  {
    assert buffer[0..2] == [0, 0];
    assert buffer[2..4] == [0x34, 0x12];
    TwoBytes(buffer[0..2]);
    TwoBytes(buffer[2..4]);
    Pow256Values();
    HalfValues();
  }

  /** BitConverter.ToUInt16: the unsigned value of the two bytes at `startPos`. */
  function GetUInt16(buffer: array?<byte>, startPos: i32): (r: Result<u16>)
    reads buffer
    ensures r.Ok? <==> ReadCheck(buffer, startPos, 2).Pass?
    ensures r.Err? ==> r.error == ReadCheck(buffer, startPos, 2).error
    ensures r.Ok? ==> LittleEndian(r.value, 2) == buffer[startPos..startPos + 2]
  {
    match ReadCheck(buffer, startPos, 2)
    case Fail(e) => Err(e)
    case Pass =>
      var bytes := buffer[startPos..startPos + 2];
      Pow256Values();
      LittleEndianOfFromLittleEndian(bytes);
      Ok(FromLittleEndian(bytes))
  }

  /** BitConverter.ToInt32: the signed value of the four bytes at `startPos`. */
  function GetInt32(buffer: array?<byte>, startPos: i32): (r: Result<i32>)
    reads buffer
    ensures r.Ok? <==> ReadCheck(buffer, startPos, 4).Pass?
    ensures r.Err? ==> r.error == ReadCheck(buffer, startPos, 4).error
    ensures r.Ok? ==> SignedBytes(r.value, 4) == buffer[startPos..startPos + 4]
  {
    match ReadCheck(buffer, startPos, 4)
    case Fail(e) => Err(e)
    case Pass =>
      var bytes := buffer[startPos..startPos + 4];
      HalfValues();
      SignedBytesOfSignedOf(bytes);
      Ok(SignedOf(bytes))
  }

  /** BitConverter.ToUInt32: the unsigned value of the four bytes at `startPos`. */
  function GetUInt32(buffer: array?<byte>, startPos: i32): (r: Result<u32>)
    reads buffer
    ensures r.Ok? <==> ReadCheck(buffer, startPos, 4).Pass?
    ensures r.Err? ==> r.error == ReadCheck(buffer, startPos, 4).error
    ensures r.Ok? ==> LittleEndian(r.value, 4) == buffer[startPos..startPos + 4]
  {
    match ReadCheck(buffer, startPos, 4)
    case Fail(e) => Err(e)
    case Pass =>
      var bytes := buffer[startPos..startPos + 4];
      Pow256Values();
      LittleEndianOfFromLittleEndian(bytes);
      Ok(FromLittleEndian(bytes))
  }

  /** BitConverter.ToInt64: the signed value of the eight bytes at `startPos`. */
  function GetInt64(buffer: array?<byte>, startPos: i32): (r: Result<i64>)
    reads buffer
    ensures r.Ok? <==> ReadCheck(buffer, startPos, 8).Pass?
    ensures r.Err? ==> r.error == ReadCheck(buffer, startPos, 8).error
    ensures r.Ok? ==> SignedBytes(r.value, 8) == buffer[startPos..startPos + 8]
  {
    match ReadCheck(buffer, startPos, 8)
    case Fail(e) => Err(e)
    case Pass =>
      var bytes := buffer[startPos..startPos + 8];
      HalfValues();
      SignedBytesOfSignedOf(bytes);
      Ok(SignedOf(bytes))
  }

  /** BitConverter.ToUInt64: the unsigned value of the eight bytes at `startPos`. */
  function GetUInt64(buffer: array?<byte>, startPos: i32): (r: Result<u64>)
    reads buffer
    ensures r.Ok? <==> ReadCheck(buffer, startPos, 8).Pass?
    ensures r.Err? ==> r.error == ReadCheck(buffer, startPos, 8).error
    ensures r.Ok? ==> LittleEndian(r.value, 8) == buffer[startPos..startPos + 8]
  {
    match ReadCheck(buffer, startPos, 8)
    case Fail(e) => Err(e)
    case Pass =>
      var bytes := buffer[startPos..startPos + 8];
      Pow256Values();
      LittleEndianOfFromLittleEndian(bytes);
      Ok(FromLittleEndian(bytes))
  }

  // ---------------------------------------------------------------------------
  // Writers
  // ---------------------------------------------------------------------------

  /**
   * The argument checks of the unsafe writers as written: `startPos + width` is
   * a 32-bit sum, which wraps to a negative number when `startPos` is within
   * `width` of int.MaxValue.
   */
  function WriteCheckAsWritten(buffer: array?<byte>, startPos: i32, width: nat): (r: Outcome)
    ensures r.Pass? <==> buffer != null && 0 <= startPos && Wrap32(startPos + width) <= buffer.Length
  {
    if buffer == null then Fail(NullBuffer)
    else if startPos < 0 then Fail(StartPosOutOfRange)
    else if Wrap32(startPos + width) > buffer.Length then Fail(StartPosOutOfRange)
    else Pass
  }

  /** The writers' checks as evidently intended: the `width` bytes at `startPos` lie inside the buffer. */
  function WriteCheck(buffer: array?<byte>, startPos: i32, width: nat): (r: Outcome)
    ensures r.Pass? <==> buffer != null && 0 <= startPos && startPos + width <= buffer.Length
    ensures buffer == null ==> r == Fail(NullBuffer)
    ensures r.Fail? && buffer != null ==> r == Fail(StartPosOutOfRange)
  {
    if buffer == null then Fail(NullBuffer)
    else if startPos < 0 || startPos + width > buffer.Length then Fail(StartPosOutOfRange)
    else Pass
  }

  /** The two checks agree whenever `startPos + width` does not overflow. */
  lemma WriteCheckAgrees(buffer: array?<byte>, startPos: i32, width: nat)
    requires startPos + width <= INT_MAX
    ensures WriteCheckAsWritten(buffer, startPos, width) == WriteCheck(buffer, startPos, width)
  {
  }

  /**
   * At `startPos == int.MaxValue` the written check wraps and accepts any buffer
   * a C# program can have, although no byte at that position exists.
   */
  lemma WriteCheckOverflows(buffer: array<byte>, width: nat)
    requires 1 <= width <= 8 && buffer.Length <= INT_MAX
    ensures WriteCheckAsWritten(buffer, INT_MAX, width) == Pass
    ensures WriteCheck(buffer, INT_MAX, width) == Fail(StartPosOutOfRange)
  {
  }

  /** Stores `bytes` at `startPos` after the (corrected) checks; the shared body of the unsafe writers. */
  method WriteBytes(bytes: seq<byte>, buffer: array?<byte>, startPos: i32) returns (r: Outcome)
    modifies buffer
    ensures r == WriteCheck(buffer, startPos, |bytes|)
    ensures r.Fail? && buffer != null ==> buffer[..] == old(buffer[..])
    ensures r.Pass? ==> buffer != null && buffer[..] == Splice(old(buffer[..]), startPos as nat, bytes)
  {
    r := WriteCheck(buffer, startPos, |bytes|);
    if r.Pass? {
      forall i | startPos <= i < startPos + |bytes| {
        buffer[i] := bytes[i - startPos];
      }
      assert buffer[..] == Splice(old(buffer[..]), startPos as nat, bytes);
    }
  }

  /** GetBytes(bool, buffer, startPos): stores 1 or 0; its checks are safe as written. */
  method GetBytesBoolAt(val: bool, buffer: array?<byte>, startPos: i32) returns (r: Outcome)
    modifies buffer
    ensures r.Pass? <==> buffer != null && 0 <= startPos && startPos + 1 <= buffer.Length
    ensures buffer == null ==> r == Fail(NullBuffer)
    ensures buffer != null && startPos == INT_MAX && buffer.Length <= INT_MAX ==> r == Fail(IndexOutOfRange)
    ensures r.Fail? && buffer != null ==> buffer[..] == old(buffer[..])
    ensures r.Pass? ==> buffer[..] == old(buffer[..])[startPos := if val then 1 else 0]
    ensures r.Pass? ==> GetBool(buffer, startPos) == Ok(val)
  {
    r := WriteCheckAsWritten(buffer, startPos, 1);
    if r.Pass? {
      if startPos >= buffer.Length {
        // `startPos + 1` wrapped; the array store itself throws.
        r := Fail(IndexOutOfRange);
        return;
      }
      buffer[startPos] := if val then 1 else 0;
    }
  }

  /** GetBytes(bool): a fresh one-byte array. */
  method GetBytesBool(val: bool) returns (a: array<byte>)
    ensures fresh(a) && a[..] == [if val then 1 else 0]
    ensures GetBool(a, 0) == Ok(val)
  {
    a := new byte[1];
    var _ := GetBytesBoolAt(val, a, 0);
  }

  /** GetBytes(short, buffer, startPos): the two layout bytes of `val` at `startPos`. */
  method GetBytesInt16At(val: i16, buffer: array?<byte>, startPos: i32) returns (r: Outcome)
    modifies buffer
    ensures r == WriteCheck(buffer, startPos, 2)
    ensures r.Fail? && buffer != null ==> buffer[..] == old(buffer[..])
    ensures r.Pass? ==> buffer != null && buffer[..] == Splice(old(buffer[..]), startPos as nat, SignedBytes(val, 2))
    ensures r.Pass? ==> GetInt16Corrected(buffer, startPos) == Ok(val)
    ensures r.Pass? && startPos == 0 ==> GetInt16(buffer, 0) == Ok(val)
  {
    r := WriteBytes(SignedBytes(val, 2), buffer, startPos);
    HalfValues();
    SignedOfSignedBytes(val, 2);
  }

  /** GetBytes(short): a fresh two-byte array. */
  method GetBytesInt16(val: i16) returns (a: array<byte>)
    ensures fresh(a) && a[..] == SignedBytes(val, 2)
    ensures GetInt16(a, 0) == Ok(val)
  {
    a := new byte[2];
    var _ := GetBytesInt16At(val, a, 0);
  }

  /** GetBytes(ushort, buffer, startPos): stores `(short) val`. */
  method GetBytesUInt16At(val: u16, buffer: array?<byte>, startPos: i32) returns (r: Outcome)
    modifies buffer
    ensures r == WriteCheck(buffer, startPos, 2)
    ensures r.Fail? && buffer != null ==> buffer[..] == old(buffer[..])
    ensures r.Pass? ==> buffer != null && buffer[..] == Splice(old(buffer[..]), startPos as nat, LittleEndian(val, 2))
    ensures r.Pass? ==> GetUInt16(buffer, startPos) == Ok(val)
  {
    Pow256Values();
    HalfValues();
    UnsignedBytesAreSignedCast(val, 2);
    UnsignedOfLittleEndian(val, 2);
    r := GetBytesInt16At(Signed(val, 2), buffer, startPos);
  }

  /** GetBytes(ushort): the bytes of `(short) val`. */
  method GetBytesUInt16(val: u16) returns (a: array<byte>)
    ensures fresh(a) && a[..] == LittleEndian(val, 2)
    ensures GetUInt16(a, 0) == Ok(val)
  {
    Pow256Values();
    HalfValues();
    UnsignedBytesAreSignedCast(val, 2);
    UnsignedOfLittleEndian(val, 2);
    a := GetBytesInt16(Signed(val, 2));
  }

  /** GetBytes(int, buffer, startPos): the four layout bytes of `val` at `startPos`. */
  method GetBytesInt32At(val: i32, buffer: array?<byte>, startPos: i32) returns (r: Outcome)
    modifies buffer
    ensures r == WriteCheck(buffer, startPos, 4)
    ensures r.Fail? && buffer != null ==> buffer[..] == old(buffer[..])
    ensures r.Pass? ==> buffer != null && buffer[..] == Splice(old(buffer[..]), startPos as nat, SignedBytes(val, 4))
    ensures r.Pass? ==> GetInt32(buffer, startPos) == Ok(val)
  {
    r := WriteBytes(SignedBytes(val, 4), buffer, startPos);
    HalfValues();
    SignedOfSignedBytes(val, 4);
  }

  /** GetBytes(int): a fresh four-byte array. */
  method GetBytesInt32(val: i32) returns (a: array<byte>)
    ensures fresh(a) && a[..] == SignedBytes(val, 4)
    ensures GetInt32(a, 0) == Ok(val)
  {
    a := new byte[4];
    var _ := GetBytesInt32At(val, a, 0);
  }

  /** GetBytes(uint, buffer, startPos): stores `(int) val`. */
  method GetBytesUInt32At(val: u32, buffer: array?<byte>, startPos: i32) returns (r: Outcome)
    modifies buffer
    ensures r == WriteCheck(buffer, startPos, 4)
    ensures r.Fail? && buffer != null ==> buffer[..] == old(buffer[..])
    ensures r.Pass? ==> buffer != null && buffer[..] == Splice(old(buffer[..]), startPos as nat, LittleEndian(val, 4))
    ensures r.Pass? ==> GetUInt32(buffer, startPos) == Ok(val)
  {
    Pow256Values();
    HalfValues();
    UnsignedBytesAreSignedCast(val, 4);
    UnsignedOfLittleEndian(val, 4);
    r := GetBytesInt32At(Signed(val, 4), buffer, startPos);
  }

  /** GetBytes(uint): the bytes of `(int) val`. */
  method GetBytesUInt32(val: u32) returns (a: array<byte>)
    ensures fresh(a) && a[..] == LittleEndian(val, 4)
    ensures GetUInt32(a, 0) == Ok(val)
  {
    Pow256Values();
    HalfValues();
    UnsignedBytesAreSignedCast(val, 4);
    UnsignedOfLittleEndian(val, 4);
    a := GetBytesInt32(Signed(val, 4));
  }

  /** GetBytes(long, buffer, startPos): the eight layout bytes of `val` at `startPos`. */
  method GetBytesInt64At(val: i64, buffer: array?<byte>, startPos: i32) returns (r: Outcome)
    modifies buffer
    ensures r == WriteCheck(buffer, startPos, 8)
    ensures r.Fail? && buffer != null ==> buffer[..] == old(buffer[..])
    ensures r.Pass? ==> buffer != null && buffer[..] == Splice(old(buffer[..]), startPos as nat, SignedBytes(val, 8))
    ensures r.Pass? ==> GetInt64(buffer, startPos) == Ok(val)
  {
    r := WriteBytes(SignedBytes(val, 8), buffer, startPos);
    HalfValues();
    SignedOfSignedBytes(val, 8);
  }

  /** GetBytes(long): a fresh eight-byte array. */
  method GetBytesInt64(val: i64) returns (a: array<byte>)
    ensures fresh(a) && a[..] == SignedBytes(val, 8)
    ensures GetInt64(a, 0) == Ok(val)
  {
    a := new byte[8];
    var _ := GetBytesInt64At(val, a, 0);
  }

  /** GetBytes(ulong, buffer, startPos): stores `(long) val`. */
  method GetBytesUInt64At(val: u64, buffer: array?<byte>, startPos: i32) returns (r: Outcome)
    modifies buffer
    ensures r == WriteCheck(buffer, startPos, 8)
    ensures r.Fail? && buffer != null ==> buffer[..] == old(buffer[..])
    ensures r.Pass? ==> buffer != null && buffer[..] == Splice(old(buffer[..]), startPos as nat, LittleEndian(val, 8))
    ensures r.Pass? ==> GetUInt64(buffer, startPos) == Ok(val)
  {
    Pow256Values();
    HalfValues();
    UnsignedBytesAreSignedCast(val, 8);
    UnsignedOfLittleEndian(val, 8);
    r := GetBytesInt64At(Signed(val, 8), buffer, startPos);
  }

  /** GetBytes(ulong): the bytes of `(long) val`. */
  method GetBytesUInt64(val: u64) returns (a: array<byte>)
    ensures fresh(a) && a[..] == LittleEndian(val, 8)
    ensures GetUInt64(a, 0) == Ok(val)
  {
    Pow256Values();
    HalfValues();
    UnsignedBytesAreSignedCast(val, 8);
    UnsignedOfLittleEndian(val, 8);
    a := GetBytesInt64(Signed(val, 8));
  }

  /** Reading back the bytes a writer stored at an accepted offset gives the value written. */
  lemma Int32RoundTrip(buffer: array<byte>, startPos: i32, val: i32)
    requires 0 <= startPos && startPos + 4 <= buffer.Length
    requires buffer[startPos..startPos + 4] == SignedBytes(val, 4)
    ensures GetInt32(buffer, startPos) == Ok(val)
  {
    HalfValues();
    SignedOfSignedBytes(val, 4);
  }

  /** The same for 64-bit values. */
  lemma Int64RoundTrip(buffer: array<byte>, startPos: i32, val: i64)
    requires 0 <= startPos && startPos + 8 <= buffer.Length
    requires buffer[startPos..startPos + 8] == SignedBytes(val, 8)
    ensures GetInt64(buffer, startPos) == Ok(val)
  {
    HalfValues();
    SignedOfSignedBytes(val, 8);
  }
}
