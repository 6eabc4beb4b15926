/** C# fixed-width integers, two's complement and little-endian byte layout. */
module Numeric {

  /** A C# `byte`. */
  type byte = b: int | 0 <= b < 0x100

  type i16 = x: int | -0x8000 <= x < 0x8000
  type u16 = x: int | 0 <= x < 0x1_0000
  type i32 = x: int | -0x8000_0000 <= x < 0x8000_0000
  type u32 = x: int | 0 <= x < 0x1_0000_0000
  type i64 = x: int | -0x8000_0000_0000_0000 <= x < 0x8000_0000_0000_0000
  type u64 = x: int | 0 <= x < 0x1_0000_0000_0000_0000

  const INT_MIN: i32 := -0x8000_0000
  const INT_MAX: i32 := 0x7FFF_FFFF

  /** 256^n: the number of distinct values of n bytes. */
  function Pow256(n: nat): (p: nat)
    ensures p >= 1
  {
    if n == 0 then 1 else 0x100 * Pow256(n - 1)
  }

  lemma Pow256Values()
    ensures Pow256(1) == 0x100 && Pow256(2) == 0x1_0000 && Pow256(4) == 0x1_0000_0000
    ensures Pow256(8) == 0x1_0000_0000_0000_0000
  {
  }

  /** The value of `x` reduced to a signed 32-bit int, as unchecked C# `int` arithmetic wraps it. */
  function Wrap32(x: int): (r: i32)
    ensures (r - x) % 0x1_0000_0000 == 0
    ensures INT_MIN <= x <= INT_MAX ==> r == x
  {
    (x + 0x8000_0000) % 0x1_0000_0000 - 0x8000_0000
  }

  /** Division truncated toward zero, as C#, C and Java divide; Dafny's `/` is Euclidean. */
  function TruncDiv(a: int, b: int): (q: int)
    requires b != 0
    ensures q * b + TruncRem(a, b) == a
  {
    if a >= 0 then (if b > 0 then a / b else -(a / -b))
    else (if b > 0 then -(-a / b) else -a / -b)
  }

  /** The remainder that goes with `TruncDiv`: it has the sign of the dividend. */
  function TruncRem(a: int, b: int): (r: int)
    requires b != 0
    ensures (a >= 0 ==> 0 <= r) && (a <= 0 ==> r <= 0)
    ensures -Abs(b) < r < Abs(b)
  {
    if a >= 0 then a % Abs(b) else -(-a % Abs(b))
  }

  function Abs(x: int): (a: int)
    ensures a >= 0 && (a == x || a == -x)
  {
    if x < 0 then -x else x
  }

  /** The n-byte two's complement pattern of `v` read as an unsigned number (an unchecked C# cast). */
  function Unsigned(v: int, n: nat): (u: nat)
    ensures u < Pow256(n)
  {
    v % Pow256(n)
  }

  /** The signed value whose n-byte two's complement pattern is `u` (an unchecked C# cast). */
  function Signed(u: nat, n: nat): (v: int)
    requires 1 <= n && u < Pow256(n)
    ensures -Half(n) <= v < Half(n)
    ensures Unsigned(v, n) == u
  {
    HalfIsHalf(n);
    if u < Half(n) then
      UniqueMod(u, Pow256(n), 0, u);
      u
    else
      UniqueMod(u - Pow256(n), Pow256(n), -1, u);
      u - Pow256(n)
  }

  /** Half the n-byte range: the signed values are exactly [-Half(n), Half(n)). */
  function Half(n: nat): (h: int)
    requires 1 <= n
    ensures h >= 0x80
  {
    0x80 * Pow256(n - 1)
  }

  lemma HalfValues()
    ensures Half(2) == 0x8000 && Half(4) == 0x8000_0000 && Half(8) == 0x8000_0000_0000_0000
  {
    assert Pow256(3) == 0x100_0000;
    assert Pow256(7) == 0x100_0000_0000_0000;
  }

  lemma HalfIsHalf(n: nat)
    requires 1 <= n
    ensures Pow256(n) == 2 * Half(n)
  {
  }

  /** Reading back a signed value's pattern gives the value: the two casts are inverse on the signed range. */
  lemma SignedUnsigned(v: int, n: nat)
    requires 1 <= n && -Half(n) <= v < Half(n)
    ensures Signed(Unsigned(v, n), n) == v
  {
    HalfIsHalf(n);
    if v >= 0 {
      UniqueMod(v, Pow256(n), 0, v);
    } else {
      UniqueMod(v, Pow256(n), -1, v + Pow256(n));
    }
  }

  /** The n bytes of `u`, least significant first (the layout of a little-endian host). */
  function LittleEndian(u: nat, n: nat): (s: seq<byte>)
    ensures |s| == n
  {
    if n == 0 then [] else [u % 0x100] + LittleEndian(u / 0x100, n - 1)
  }

  /** The unsigned number whose little-endian bytes are `s`. */
  function FromLittleEndian(s: seq<byte>): (u: nat)
    ensures u < Pow256(|s|)
  {
    if s == [] then 0 else s[0] + 0x100 * FromLittleEndian(s[1..])
  }

  /** Decoding the n bytes of `u` gives `u` back, reduced modulo 256^n. */
  lemma {:induction false} FromLittleEndianOfLittleEndian(u: nat, n: nat)
    ensures FromLittleEndian(LittleEndian(u, n)) == u % Pow256(n)
  {
    if n > 0 {
      var s := LittleEndian(u, n);
      assert s[1..] == LittleEndian(u / 0x100, n - 1);
      FromLittleEndianOfLittleEndian(u / 0x100, n - 1);
      DivModStep(u, Pow256(n - 1));
    }
  }

  /** u mod 256p splits into its low byte and (u / 256) mod p. */
  lemma DivModStep(u: nat, p: nat)
    requires p >= 1
    ensures u % (0x100 * p) == u % 0x100 + 0x100 * ((u / 0x100) % p)
  {
    var q := u / 0x100;
    var r := u % 0x100;
    assert u == 0x100 * q + r;
    var q2 := q / p;
    var r2 := q % p;
    assert q == p * q2 + r2;
    assert u == (0x100 * p) * q2 + (0x100 * r2 + r) by {
      assert 0x100 * q == 0x100 * p * q2 + 0x100 * r2;
    }
    assert 0 <= 0x100 * r2 + r < 0x100 * p;
    UniqueMod(u, 0x100 * p, q2, 0x100 * r2 + r);
  }

  /** Euclidean division is determined by its defining equation. */
  lemma UniqueMod(u: int, m: int, q: int, r: int)
    requires m >= 1 && u == m * q + r && 0 <= r < m
    ensures u % m == r && u / m == q
  {
    var q0, r0 := u / m, u % m;
    assert m * (q - q0) == r0 - r;
    if q - q0 >= 1 {
      MulAtLeast(m, q - q0);
    } else if q0 - q >= 1 {
      MulAtLeast(m, q0 - q);
    }
  }

  lemma {:induction false} MulAtLeast(m: int, k: int)
    requires m >= 1 && k >= 1
    ensures m * k >= m
  {
    if k > 1 {
      MulAtLeast(m, k - 1);
      assert m * k == m * (k - 1) + m;
    }
  }

  /** Encoding the decoded value of a byte sequence gives the same bytes: the codec is a bijection. */
  lemma {:induction false} LittleEndianOfFromLittleEndian(s: seq<byte>)
    ensures LittleEndian(FromLittleEndian(s), |s|) == s
  {
    if s != [] {
      var u := FromLittleEndian(s);
      assert u % 0x100 == s[0] && u / 0x100 == FromLittleEndian(s[1..]);
      LittleEndianOfFromLittleEndian(s[1..]);
    }
  }

  /** `s` with the bytes from `pos` on replaced by `bytes`. */
  function Splice(s: seq<byte>, pos: nat, bytes: seq<byte>): (t: seq<byte>)
    requires pos + |bytes| <= |s|
    ensures |t| == |s|
    ensures t[pos..pos + |bytes|] == bytes
    ensures forall i :: 0 <= i < |s| && !(pos <= i < pos + |bytes|) ==> t[i] == s[i]
  {
    s[..pos] + bytes + s[pos + |bytes|..]
  }
}
