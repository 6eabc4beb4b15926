/**
 * The hex and colour text helpers of Utility.Convert: nibble <-> digit
 * conversion, byte arrays to and from lower-case hex text, and the `rrggbb`
 * and `rgb(r,g,b)` forms of a colour. Every character these helpers produce
 * is ASCII. Input text is a sequence of Unicode scalar values; C# text holding
 * a lone surrogate is outside the model.
 */
module Hex {
  import opened Numeric
  import opened Results

  /** A digit this code produces: `0`-`9` or `a`-`f`. */
  predicate IsHexDigit(c: char)
  {
    '0' <= c <= '9' || 'a' <= c <= 'f'
  }

  /** ChangeHyp2Char: the lower-case hex digit of a nibble; values outside 0..15 are refused. */
  function ChangeHyp2Char(val: int): (r: Result<char>)
    ensures r.Ok? <==> 0 <= val <= 15
    ensures r.Err? ==> r.error == InvalidParam
    ensures r.Ok? ==> IsHexDigit(r.value)
  {
    if val < 0 || val > 15 then Err(InvalidParam)
    else if val < 10 then Ok((48 + val) as char)
    else Ok((87 + val) as char)
  }

  /**
   * ChangeHpyChar2Byte: `(byte)(val - 87)` above `'9'` and `(byte)(val - 48)`
   * otherwise. Only `0`-`9` and `a`-`f` are decoded as intended; the cast keeps
   * the low 8 bits of anything else.
   */
  function ChangeHpyChar2Byte(val: char): (b: byte)
    ensures IsHexDigit(val) ==> b < 16
  {
    if val as int > 57 then (val as int - 87) % 0x100
    else (val as int - 48) % 0x100
  }

  /** Digit and nibble are inverse: decoding the digit of a nibble gives the nibble. */
  lemma DigitOfNibble(v: int)
    requires 0 <= v <= 15
    ensures ChangeHpyChar2Byte(ChangeHyp2Char(v).value) == v
  {
  }

  /** And encoding the nibble of a digit gives the digit. */
  lemma NibbleOfDigit(c: char)
    requires IsHexDigit(c)
    ensures ChangeHyp2Char(ChangeHpyChar2Byte(c) as int) == Ok(c)
  {
  }

  /**
   * Upper-case digits are not recognised: `'A'` decodes to `(byte)(65 - 87)`,
   * 234, and `'F'` to 239; a non-digit below `':'` wraps the same way.
   */
  lemma UpperCaseDigits()
    ensures ChangeHpyChar2Byte('A') == 234 && ChangeHpyChar2Byte('F') == 239
    ensures ChangeHpyChar2Byte(' ') == 240
  {
  }

  /** `a | b` on non-negative integers, bit by bit from the lowest. */
  function BitOr(a: nat, b: nat): nat
    decreases a + b
  {
    if a == 0 then b
    else if b == 0 then a
    else 2 * BitOr(a / 2, b / 2) + (if a % 2 == 1 || b % 2 == 1 then 1 else 0)
  }

  /** Or-ing into an even number: the lowest bit is that of `b`, the rest is the or of the halves. */
  lemma OrEven(a: nat, b: nat)
    requires a % 2 == 0
    ensures BitOr(a, b) == 2 * BitOr(a / 2, b / 2) + b % 2
  {
    if b == 0 {
      assert BitOr(a / 2, 0) == a / 2;
    }
  }

  /**
   * `(byte)(hi << 4 | lo)`: `hi` shifted up a nibble (a byte promoted to `int`
   * does not overflow), or-ed with `lo`, and cut to its low 8 bits.
   */
  function Combine(hi: byte, lo: byte): byte
  {
    BitOr(16 * hi, lo) % 0x100
  }

  /** Two nibbles combine to the byte they are the digits of. */
  lemma CombineNibbles(b: byte)
    ensures Combine(b / 16, b % 16) == b
  {
    OrNibble(b / 16, b % 16);
  }

  /** Or-ing into a number shifted up a nibble keeps the low nibble of `l` and or-s the rest of it in above. */
  lemma OrShifted(h: nat, l: nat)
    ensures BitOr(16 * h, l) == 16 * BitOr(h, l / 16) + l % 16
  {
    var l1 := l / 2;
    var l2 := l1 / 2;
    var l3 := l2 / 2;
    var l4 := l3 / 2;
    assert (16 * h) / 2 == 8 * h && (8 * h) / 2 == 4 * h && (4 * h) / 2 == 2 * h && (2 * h) / 2 == h;
    OrEven(16 * h, l);
    OrEven(8 * h, l1);
    OrEven(4 * h, l2);
    OrEven(2 * h, l3);
    var low := 8 * (l3 % 2) + 4 * (l2 % 2) + 2 * (l1 % 2) + l % 2;
    assert l == 16 * l4 + low && 0 <= low < 16;
    assert l4 == l / 16 && low == l % 16;
    var o := BitOr(h, l4);
    assert BitOr(2 * h, l3) == 2 * o + l3 % 2;
    assert BitOr(4 * h, l2) == 4 * o + 2 * (l3 % 2) + l2 % 2;
    assert BitOr(8 * h, l1) == 8 * o + 4 * (l3 % 2) + 2 * (l2 % 2) + l1 % 2;
    assert BitOr(16 * h, l) == 16 * o + low;
  }

  /** Or-ing a nibble into a number shifted up a nibble is adding it. */
  lemma OrNibble(h: nat, l: nat)
    requires l < 16
    ensures BitOr(16 * h, l) == 16 * h + l
  {
    OrShifted(h, l);
    assert BitOr(h, 0) == h;
  }

  /** For nibbles, `hi << 4 | lo` is `16 * hi + lo`. */
  lemma CombineOfNibbles(hi: byte, lo: byte)
    requires hi < 16 && lo < 16
    ensures Combine(hi, lo) == 16 * hi + lo
  {
    OrNibble(hi, lo);
  }

  /** The k-th digit of the hex text of `s`: the high nibble of `s[k / 2]` for even `k`, the low one for odd. */
  function DigitAt(s: seq<byte>, k: nat): (c: char)
    requires k < 2 * |s|
    ensures IsHexDigit(c)
  {
    var b := s[k / 2];
    // `(b >> 4) & 0x0F` and `b & 0x0F` are b / 16 and b % 16 for a byte
    ChangeHyp2Char(if k % 2 == 0 then b / 16 else b % 16).value
  }

  /** The hex text ChangeByte2HpyChar produces for `s`. */
  function HexOf(s: seq<byte>): (t: seq<char>)
    ensures |t| == 2 * |s|
  {
    seq(2 * |s|, k requires 0 <= k < 2 * |s| => DigitAt(s, k))
  }

  /** The i-th byte ChangeChar2Hpy decodes from `t`: the digits at 2i and 2i+1. */
  function ByteAt(t: seq<char>, i: nat): byte
    requires 2 * i + 1 < |t|
  {
    Combine(ChangeHpyChar2Byte(t[2 * i]), ChangeHpyChar2Byte(t[2 * i + 1]))
  }

  /** The bytes ChangeChar2Hpy decodes from `t`: one per pair of characters. */
  function UnhexOf(t: seq<char>): (s: seq<byte>)
    ensures |s| == |t| / 2
  {
    seq(|t| / 2, i requires 0 <= i < |t| / 2 => ByteAt(t, i))
  }

  /**
   * The hex text of `s` is twice as long, made of `0`-`9a-f` only, with the
   * high nibble of each byte first.
   */
  lemma HexOfShape(s: seq<byte>)
    ensures |HexOf(s)| == 2 * |s|
    ensures forall k :: 0 <= k < |HexOf(s)| ==> IsHexDigit(HexOf(s)[k])
    ensures forall i :: 0 <= i < |s| ==>
      ChangeHpyChar2Byte(HexOf(s)[2 * i]) == s[i] / 16 && ChangeHpyChar2Byte(HexOf(s)[2 * i + 1]) == s[i] % 16
  {
    forall i | 0 <= i < |s|
      ensures ChangeHpyChar2Byte(HexOf(s)[2 * i]) == s[i] / 16
      ensures ChangeHpyChar2Byte(HexOf(s)[2 * i + 1]) == s[i] % 16
    {
      assert HexOf(s)[2 * i] == DigitAt(s, 2 * i);
      assert HexOf(s)[2 * i + 1] == DigitAt(s, 2 * i + 1);
      DigitOfNibble(s[i] / 16);
      DigitOfNibble(s[i] % 16);
    }
  }

  /** Round trip: decoding the hex text of any bytes gives the bytes back. */
  lemma UnhexOfHexOf(s: seq<byte>)
    ensures UnhexOf(HexOf(s)) == s
  {
    HexOfShape(s);
    forall i | 0 <= i < |s|
      ensures UnhexOf(HexOf(s))[i] == s[i]
    {
      CombineNibbles(s[i]);
    }
  }

  /** An odd trailing character is ignored. */
  lemma UnhexOfDropsOddTail(t: seq<char>, c: char)
    requires |t| % 2 == 0
    ensures UnhexOf(t + [c]) == UnhexOf(t)
  {
    forall i | 0 <= i < |t| / 2
      ensures UnhexOf(t + [c])[i] == UnhexOf(t)[i]
    {
      assert (t + [c])[2 * i] == t[2 * i] && (t + [c])[2 * i + 1] == t[2 * i + 1];
    }
  }

  /** Example: the bytes 0xAB 0x01 are the text "ab01". */
  lemma HexExamples()
    ensures HexOf([0xAB, 0x01]) == ['a', 'b', '0', '1']
  {
    var t := HexOf([0xAB, 0x01]);
    assert t[0] == DigitAt([0xAB, 0x01], 0);
    assert t[1] == DigitAt([0xAB, 0x01], 1);
    assert t[2] == DigitAt([0xAB, 0x01], 2);
    assert t[3] == DigitAt([0xAB, 0x01], 3);
  }

  /**
   * Examples: "ab0" decodes to 0xAB, dropping the odd trailing digit. An
   * upper-case digit decodes to something else: "0A" is `(byte)(0 << 4 | 234)`, 0xEA.
   */
  lemma UnhexExamples()
    ensures UnhexOf(['a', 'b', '0']) == [0xAB]
    ensures UnhexOf(['0', 'A']) == [0xEA]
  {
    CombineExamples();
    assert UnhexOf(['a', 'b', '0'])[0] == ByteAt(['a', 'b', '0'], 0) == Combine(10, 11);
    assert UnhexOf(['0', 'A'])[0] == ByteAt(['0', 'A'], 0) == Combine(0, 234);
  }

  /** Combine on two lower-case digits, and on a zero high nibble with the value of an upper-case digit. */
  lemma CombineExamples()
    ensures Combine(10, 11) == 0xAB && Combine(0, 234) == 0xEA
  {
    CombineLower();
    CombineZero();
  }

  lemma CombineLower()
    ensures Combine(10, 11) == 0xAB
  {
    OrNibble(10, 11);
    assert BitOr(160, 11) == 171;
  }

  lemma CombineZero()
    ensures Combine(0, 234) == 0xEA
  {
    assert BitOr(0, 234) == 234;
  }

  /** ChangeByte2HpyChar: a fresh array with two hex digits per byte. The size
      `s.Length * 2` is an unchecked 32-bit product: from 2^30 bytes on it wraps
      negative and the allocation throws OverflowException. */
  method ChangeByte2HpyChar(s: array<byte>) returns (r: Result<array<char>>)
    ensures r.Err? <==> 2 * s.Length > INT_MAX
    ensures r.Err? ==> r.error == Overflow
    ensures r.Ok? ==> fresh(r.value) && r.value[..] == HexOf(s[..])
  {
    if 2 * s.Length > INT_MAX {
      return Err(Overflow);
    }
    var a := new char[s.Length * 2];
    for i := 0 to s.Length
      invariant forall k :: 0 <= k < 2 * i ==> a[k] == DigitAt(s[..], k)
    {
      a[i * 2] := ChangeHyp2Char((s[i] / 16) % 16).value;
      a[i * 2 + 1] := ChangeHyp2Char(s[i] % 16).value;
    }
    r := Ok(a);
  }

  /** ChangeChar2Hpy: a fresh array with one byte per pair of characters. */
  method ChangeChar2Hpy(s: array<char>) returns (r: array<byte>)
    ensures fresh(r) && r[..] == UnhexOf(s[..])
  {
    r := new byte[s.Length / 2];
    for i := 0 to r.Length
      invariant forall j :: 0 <= j < i ==> r[j] == ByteAt(s[..], j)
    {
      r[i] := Combine(ChangeHpyChar2Byte(s[i * 2]), ChangeHpyChar2Byte(s[i * 2 + 1]));
      assert r[i] == ByteAt(s[..], i);
    }
    assert r[..] == UnhexOf(s[..]);
  }

  // ---------------------------------------------------------------------------
  // Colour strings
  // ---------------------------------------------------------------------------

  /** `{0:x2}`: two lower-case hex digits of a byte, looked up in the digit table. */
  function FormatX2(b: byte): (t: seq<char>)
    ensures |t| == 2
  {
    var digits := "0123456789abcdef";
    [digits[b / 16], digits[b % 16]]
  }

  /** GetHexString: `rrggbb`, two lower-case hex digits per component. */
  function GetHexString(r: byte, g: byte, b: byte): (t: seq<char>)
    ensures |t| == 6
  {
    FormatX2(r) + FormatX2(g) + FormatX2(b)
  }

  /** The `x2` format agrees with the digits of ChangeByte2HpyChar. */
  lemma FormatX2IsHexOf(b: byte)
    ensures FormatX2(b) == HexOf([b])
  {
    assert HexOf([b])[0] == DigitAt([b], 0);
    assert HexOf([b])[1] == DigitAt([b], 1);
    DigitTable(b / 16);
    DigitTable(b % 16);
  }

  /** The digit table holds the digits ChangeHyp2Char produces. */
  lemma DigitTable(v: int)
    requires 0 <= v < 16
    ensures "0123456789abcdef"[v] == ChangeHyp2Char(v).value
  {
  }

  /**
   * The colour hex string is the hex text of the three components: six
   * lower-case digits that decode back to `[r, g, b]`.
   */
  lemma GetHexStringIsHex(r: byte, g: byte, b: byte)
    ensures GetHexString(r, g, b) == HexOf([r, g, b])
    ensures forall k :: 0 <= k < 6 ==> IsHexDigit(GetHexString(r, g, b)[k])
    ensures UnhexOf(GetHexString(r, g, b)) == [r, g, b]
  {
    FormatX2IsHexOf(r);
    FormatX2IsHexOf(g);
    FormatX2IsHexOf(b);
    assert [r, g, b] == [r] + [g] + [b];
    HexOfAppend([r], [g]);
    HexOfAppend([r] + [g], [b]);
    HexOfShape([r, g, b]);
    UnhexOfHexOf([r, g, b]);
  }

  /** The hex text of a concatenation is the concatenation of the hex texts. */
  lemma HexOfAppend(a: seq<byte>, b: seq<byte>)
    ensures HexOf(a + b) == HexOf(a) + HexOf(b)
  {
    forall k | 0 <= k < 2 * |a + b|
      ensures HexOf(a + b)[k] == (HexOf(a) + HexOf(b))[k]
    {
      if k < 2 * |a| {
        assert (a + b)[k / 2] == a[k / 2];
      } else {
        var m := k - 2 * |a|;
        assert m / 2 == k / 2 - |a| && m % 2 == k % 2;
        assert (a + b)[k / 2] == b[m / 2];
        assert HexOf(b)[m] == DigitAt(b, m);
      }
    }
  }

  /** `{0}` of a non-negative integer: its decimal digits, no leading zero. */
  function Dec(n: nat): (t: seq<char>)
    ensures 1 <= |t|
    ensures forall k :: 0 <= k < |t| ==> '0' <= t[k] <= '9'
  {
    if n < 10 then [(48 + n) as char] else Dec(n / 10) + [(48 + n % 10) as char]
  }

  /** The value of a string of decimal digits. */
  function ParseDec(t: seq<char>): int
  {
    if t == [] then 0 else 10 * ParseDec(t[..|t| - 1]) + (t[|t| - 1] as int - 48)
  }

  /** Reading back a decimal rendering gives the number; a byte has at most three digits. */
  lemma {:induction false} ParseDecOfDec(n: nat)
    ensures ParseDec(Dec(n)) == n
    ensures n < 0x100 ==> |Dec(n)| <= 3
  {
    if n >= 10 {
      var t := Dec(n);
      assert t[..|t| - 1] == Dec(n / 10);
      ParseDecOfDec(n / 10);
    }
  }

  /** GetRGBString: `rgb(r,g,b)` with the components in decimal. */
  function GetRGBString(r: byte, g: byte, b: byte): (t: seq<char>)
    ensures 10 <= |t| <= 16
    ensures t[..4] == "rgb(" && t[|t| - 1] == ')'
  {
    ParseDecOfDec(r);
    ParseDecOfDec(g);
    ParseDecOfDec(b);
    "rgb(" + Dec(r) + "," + Dec(g) + "," + Dec(b) + ")"
  }

  /** The text between the separators of the `rgb(...)` form is the decimal rendering of each component. */
  lemma GetRGBStringSlices(r: byte, g: byte, b: byte)
    ensures var t := GetRGBString(r, g, b);
      var i := 4 + |Dec(r)|;
      var j := i + 1 + |Dec(g)|;
      t[i] == ',' && t[j] == ',' &&
      t[4..i] == Dec(r) && t[i + 1..j] == Dec(g) && t[j + 1..|t| - 1] == Dec(b)
  {
    var t, x, y, z := GetRGBString(r, g, b), Dec(r), Dec(g), Dec(b);
    Fields(t, x, y, z);
  }

  /** Each component can be read back from the `rgb(...)` form: the text between the separators parses back to it. */
  lemma GetRGBStringFields(r: byte, g: byte, b: byte)
    ensures var t := GetRGBString(r, g, b);
      var i := 4 + |Dec(r)|;
      var j := i + 1 + |Dec(g)|;
      ParseDec(t[4..i]) == r && ParseDec(t[i + 1..j]) == g && ParseDec(t[j + 1..|t| - 1]) == b
  {
    GetRGBStringSlices(r, g, b);
    ParseDecOfDec(r);
    ParseDecOfDec(g);
    ParseDecOfDec(b);
  }

  /** The three fields of `rgb(x,y,z)` are the slices between the separators. */
  lemma Fields(t: seq<char>, x: seq<char>, y: seq<char>, z: seq<char>)
    requires t == "rgb(" + x + "," + y + "," + z + ")"
    ensures var i := 4 + |x|;
      var j := i + 1 + |y|;
      t[i] == ',' && t[j] == ',' && t[4..i] == x && t[i + 1..j] == y && t[j + 1..|t| - 1] == z
  {
    var p := "rgb(" + x + ",";
    var q := p + y + ",";
    assert t == q + z + ")";
    Prefix(q + z, ")", |q|, |q| + |z|);
    Middle(q, z, "");
    Prefix(p + y + ",", z + ")", |p|, |p| + |y|);
    assert t == p + y + "," + (z + ")");
    Middle(p, y, ",");
    Prefix("rgb(" + x + "," , y + "," + z + ")", 4, 4 + |x|);
    assert t == "rgb(" + x + "," + (y + "," + z + ")");
    Middle("rgb(", x, ",");
  }

  /** A slice within the first part of a concatenation is a slice of that part. */
  lemma Prefix(p: seq<char>, q: seq<char>, lo: nat, hi: nat)
    requires lo <= hi <= |p|
    ensures (p + q)[lo..hi] == p[lo..hi]
  {
  }

  /** The middle part of a three-part concatenation is the slice between the other two. */
  lemma Middle(p: seq<char>, x: seq<char>, q: seq<char>)
    ensures (p + x + q)[|p|..|p| + |x|] == x
  {
  }

  lemma RGBExample()
    ensures GetRGBString(255, 0, 16) == "rgb(255,0,16)"
    ensures GetHexString(255, 0, 16) == "ff0010"
  {
  }

  /** UnityEngine.Color32: four byte components. */
  datatype Color32 = Color32(r: byte, g: byte, b: byte, a: byte)

  /** GetColorString(Color32): the hex or the `rgb(...)` form of the colour; alpha is not shown. */
  function GetColorString(color: Color32, isColorHex: bool): (t: seq<char>)
    ensures isColorHex ==> |t| == 6 && UnhexOf(t) == [color.r, color.g, color.b]
    ensures !isColorHex ==> t == GetRGBString(color.r, color.g, color.b)
  {
    GetHexStringIsHex(color.r, color.g, color.b);
    if isColorHex then GetHexString(color.r, color.g, color.b)
    else GetRGBString(color.r, color.g, color.b)
  }

  /** Two colours that differ only in alpha give the same string. */
  lemma ColorStringIgnoresAlpha(color: Color32, a: byte, isColorHex: bool)
    ensures GetColorString(color, isColorHex) == GetColorString(color.(a := a), isColorHex)
  {
  }
}
