/** Utility.MathX: C# `int` arithmetic, unchecked (wrapping) except where the runtime throws. */
module MathX {
  import opened Numeric
  import opened Results

  /** `val1 + val2` on C# `int`: the sum wrapped to 32-bit two's complement. */
  function Add(val1: i32, val2: i32): (r: i32)
    ensures (r - (val1 + val2)) % 0x1_0000_0000 == 0
    ensures INT_MIN <= val1 + val2 <= INT_MAX ==> r == val1 + val2
    ensures val1 + val2 > INT_MAX ==> r == val1 + val2 - 0x1_0000_0000
    ensures val1 + val2 < INT_MIN ==> r == val1 + val2 + 0x1_0000_0000
  {
    Wrap32(val1 + val2)
  }

  /** `val1 - val2` on C# `int`: the difference wrapped to 32-bit two's complement. */
  function Sub(val1: i32, val2: i32): (r: i32)
    ensures (r - (val1 - val2)) % 0x1_0000_0000 == 0
    ensures INT_MIN <= val1 - val2 <= INT_MAX ==> r == val1 - val2
  {
    Wrap32(val1 - val2)
  }

  /** `val1 * val2` on C# `int`: the low 32 bits of the product, read as signed. */
  function Mul(val1: i32, val2: i32): (r: i32)
    ensures (r - val1 * val2) % 0x1_0000_0000 == 0
    ensures INT_MIN <= val1 * val2 <= INT_MAX ==> r == val1 * val2
  {
    Wrap32(val1 * val2)
  }

  /** `val1 / val2` on C# `int`: truncates toward zero; dividing by zero throws DivideByZeroException and
      int.MinValue / -1 throws OverflowException. */
  function Div(val1: i32, val2: i32): (r: Result<i32>)
    ensures val2 == 0 <==> r == Err(DivideByZero)
    ensures val1 == INT_MIN && val2 == -1 <==> r == Err(Overflow)
    ensures r.Ok? <==> val2 != 0 && !(val1 == INT_MIN && val2 == -1)
    ensures r.Ok? ==> var rem := val1 - r.value * val2;
                      Abs(rem) < Abs(val2) && (rem == 0 || (rem < 0 <==> val1 < 0))
  {
    if val2 == 0 then Err(DivideByZero)
    else if val1 == INT_MIN && val2 == -1 then Err(Overflow)
    else
      var q := TruncDiv(val1, val2);
      assert q * val2 + TruncRem(val1, val2) == val1;
      TruncDivBound(val1, val2);
      Ok(q)
  }

  /** The truncated quotient of two ints fits an int except for int.MinValue / -1. */
  lemma TruncDivBound(a: i32, b: i32)
    requires b != 0 && !(a == INT_MIN && b == -1)
    ensures INT_MIN <= TruncDiv(a, b) <= INT_MAX
  {
    var x, y := Abs(a), Abs(b);
    DivBound(x, y);
    assert TruncDiv(a, b) == x / y || TruncDiv(a, b) == -(x / y);
    if y == 1 {
      assert x / y == x;
    }
  }

  lemma DivBound(x: nat, y: nat)
    requires y >= 1
    ensures x / y <= x && (y >= 2 ==> 2 * (x / y) <= x)
  {
    var q := x / y;
    assert y * q <= x;
    MulMono(q, y, 1);
    if y >= 2 {
      MulMono(q, y, 2);
    }
  }

  lemma {:induction false} MulMono(k: nat, y: nat, c: nat)
    requires y >= c
    ensures k * y >= k * c
  {
    if k > 0 {
      MulMono(k - 1, y, c);
      assert k * y == (k - 1) * y + y;
      assert k * c == (k - 1) * c + c;
    }
  }

  /** Wrapping subtraction undoes wrapping addition for every pair of ints. */
  lemma SubUndoesAdd(a: i32, b: i32)
    ensures Sub(Add(a, b), b) == a
  {
    var s := Add(a, b);
    var d := s - b;
    assert (d - a) % 0x1_0000_0000 == 0;
  }

  /** Wrapping addition is commutative and has 0 as identity, like the mathematical sum. */
  lemma AddCommutes(a: i32, b: i32)
    ensures Add(a, b) == Add(b, a) && Add(a, 0) == a
  {
  }

  /** int.MaxValue + 1 wraps to int.MinValue; int.MinValue * -1 wraps to itself. */
  lemma WrapExamples()
    ensures Add(INT_MAX, 1) == INT_MIN
    ensures Sub(INT_MIN, 1) == INT_MAX
    ensures Mul(INT_MIN, -1) == INT_MIN
  {
  }

  /** Division truncates toward zero whatever the signs. */
  lemma DivExamples()
    ensures Div(7, -2) == Ok(-3) && Div(-7, 2) == Ok(-3) && Div(-7, -2) == Ok(3)
    ensures Div(INT_MIN, -1) == Err(Overflow) && Div(1, 0) == Err(DivideByZero)
  {
  }
}
