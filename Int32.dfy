/**
 * The C# `int` type: 32-bit two's complement, wrapping on overflow in the
 * default unchecked context, with division truncating toward zero.
 */
module Int32 {
  const MIN: int := -0x8000_0000
  const MAX: int := 0x7FFF_FFFF
  const MODULUS: int := 0x1_0000_0000

  type Int32 = x: int | -0x8000_0000 <= x <= 0x7FFF_FFFF

  /** The value an unchecked C# int operation stores when the exact result is `x`. */
  function Wrap(x: int): (r: Int32)
    ensures MIN <= x <= MAX ==> r == x
    ensures (x - r) % MODULUS == 0
  {
    var w := (x - MIN) % MODULUS + MIN;
    assert (x - w) == MODULUS * ((x - MIN) / MODULUS);
    w
  }

  function Abs(x: int): nat { if x < 0 then -x else x }

  function NatDiv(n: nat, d: nat): nat
    requires d > 0
  {
    n / d
  }

  /**
   * C# `a / b` on ints: the quotient truncated toward zero. Division by zero
   * and `int.MinValue / -1` throw in C#, hence the precondition.
   */
  function DivTrunc(a: Int32, b: Int32): Int32
    requires b != 0 && !(a == MIN && b == -1)
  {
    var m := NatDiv(Abs(a), Abs(b));
    QuotientInRange(a, b, m);
    if (a < 0) == (b < 0) then m else -(m as int)
  }

  /**
   * The remainder `a - DivTrunc(a, b) * b` is smaller than the divisor and
   * carries the sign of the dividend, which characterises truncation toward zero.
   */
  lemma DivTruncRemainder(a: Int32, b: Int32)
    requires b != 0 && !(a == MIN && b == -1)
    ensures var q := DivTrunc(a, b);
      && Abs(a - q * b) < Abs(b)
      && (a - q * b == 0 || (a - q * b < 0 <==> a < 0))
      && Abs(q * b) <= Abs(a)
  {
    var m := NatDiv(Abs(a), Abs(b));
    var q := DivTrunc(a, b);
    assert q == if (a < 0) == (b < 0) then m as int else -(m as int);
    TruncRemainder(a, b, m, q);
  }

  lemma QuotientInRange(a: Int32, b: Int32, m: nat)
    requires b != 0 && !(a == MIN && b == -1) && m == NatDiv(Abs(a), Abs(b))
    ensures (a < 0) == (b < 0) ==> m <= MAX
    ensures m <= -MIN
  {
    DivBounds(Abs(a), Abs(b));
    if Abs(a) == -MIN {
      assert a == MIN;
    }
  }

  lemma DivBounds(n: nat, d: nat)
    requires d > 0
    ensures n / d <= n
    ensures d > 1 && n > 0 ==> n / d < n
  {
    var q, r := n / d, n % d;
    assert n == d * q + r && 0 <= r;
    MulAtLeast(d, q);
    if d > 1 && q > 0 {
      MulAtLeast(d - 1, q);
      assert d * q == (d - 1) * q + q;
    }
  }

  lemma {:induction false} MulAtLeast(x: nat, y: nat)
    requires x >= 1
    ensures x * y >= y
  {
    if x > 1 {
      MulAtLeast(x - 1, y);
      assert x * y == (x - 1) * y + y;
    }
  }

  lemma TruncRemainder(a: int, b: int, m: nat, q: int)
    requires b != 0 && m == NatDiv(Abs(a), Abs(b))
    requires q == if (a < 0) == (b < 0) then m as int else -(m as int)
    ensures Abs(a - q * b) < Abs(b)
      && (a - q * b == 0 || (a - q * b < 0 <==> a < 0))
      && Abs(q * b) <= Abs(a)
  {
    var A, B := Abs(a), Abs(b);
    var r := A % B;
    assert A == B * m + r && 0 <= r < B;
    if a >= 0 && b > 0 {
      assert q * b == B * m;
    } else if a >= 0 {
      assert q * b == (-(m as int)) * (-(B as int)) == B * m;
    } else if b > 0 {
      assert q * b == (-(m as int)) * B == -(B * m);
    } else {
      assert q * b == m * (-B) == -(B * m);
    }
  }
}
