/**
 C integer semantics the two programs rely on, written out explicitly:
 signed `char` (taken to be 8-bit two's complement), 32-bit `int` and
 `unsigned int` with wrap-around, and C's truncating `/` and `%`.
 */
module CInts {

  const TWO_TO_31: int := 0x8000_0000
  const TWO_TO_32: int := 0x1_0000_0000

  /** An `unsigned char`: one octet of a file or pixel buffer. */
  type byte = x: int | 0 <= x < 256

  /** A signed C `char`. */
  type int8 = x: int | -128 <= x < 128

  /** A C `int` on a 32-bit two's complement target. */
  type int32 = x: int | -TWO_TO_31 <= x < TWO_TO_31

  /** A C `unsigned short`. */
  type u16 = x: int | 0 <= x < 0x1_0000

  /** A C `unsigned int`. */
  type u32 = x: int | 0 <= x < TWO_TO_32

  /** Wrap-around of a mathematical integer into a 32-bit `int`. */
  function Wrap32(x: int): (r: int32)
    ensures (r - x) % TWO_TO_32 == 0
  {
    (x + TWO_TO_31) % TWO_TO_32 - TWO_TO_31
  }

  /** Conversion of an integer to `unsigned int`: reduction modulo 2^32. */
  function U32(x: int): (r: u32)
    ensures (r - x) % TWO_TO_32 == 0
  {
    if 0 <= x < TWO_TO_32 then x else x % TWO_TO_32
  }

  /** `(char) v` for 0 <= v < 256 on a target whose `char` is signed. */
  function ToSignedChar(v: int): (r: int8)
    requires 0 <= v < 256
    ensures (r - v) % 256 == 0
  {
    if v < 128 then v else v - 256
  }

  /** C's `/` on `int`: truncation toward zero. The quotient is the one
      whose product with b lies within one divisor of a, on the side of zero:
      it never exceeds a for a non-negative a, nor falls below it for a
      negative one. */
  function CDiv(a: int, b: int): (q: int)
    requires b > 0
    ensures a >= 0 ==> 0 <= a - q * b < b
    ensures a < 0 ==> -b < a - q * b <= 0
  {
    if a >= 0 then a / b else -((-a) / b)
  }

  /** Truncation is symmetric about zero: negating the dividend negates the
      quotient. */
  lemma CDivNegate(a: int, b: int)
    requires b > 0
    ensures CDiv(-a, b) == -CDiv(a, b)
  {
  }

  /** C's `%` on `int`: the remainder takes the sign of the dividend. */
  function CRem(a: int, b: int): (r: int)
    requires b > 0
    ensures a == CDiv(a, b) * b + r
    ensures a >= 0 ==> 0 <= r < b
    ensures a < 0 ==> -b < r <= 0
  {
    a - CDiv(a, b) * b
  }

  /** Two 32-bit wrappings compose: accumulating in an `int` that wraps on every
      step gives the same value as wrapping the exact sum once. */
  lemma Wrap32Add(x: int, y: int)
    ensures Wrap32(Wrap32(x) + y) == Wrap32(x + y)
  {
    var w := Wrap32(x);
    var k := (x + TWO_TO_31) / TWO_TO_32;
    assert w == x - k * TWO_TO_32;
    assert (w + y + TWO_TO_31) == (x + y + TWO_TO_31) - k * TWO_TO_32;
    ModShift(x + y + TWO_TO_31, k, TWO_TO_32);
  }

  lemma ModShift(a: int, k: int, m: int)
    requires m > 0
    ensures (a - k * m) % m == a % m
  {
    var q := a / m;
    var r := a % m;
    assert a - k * m == (q - k) * m + r;
    DivModUnique(a - k * m, q - k, r, m);
  }

  /** The quotient and remainder of Euclidean division are unique. */
  lemma DivModUnique(a: int, q: int, r: int, m: int)
    requires m > 0 && 0 <= r < m && a == q * m + r
    ensures a / m == q && a % m == r
  {
    var q' := a / m;
    var r' := a % m;
    assert a == q' * m + r';
    if q > q' {
      MulSubRight(q, q', m);
      MulMono(1, q - q', m);
    } else if q < q' {
      MulSubRight(q', q, m);
      MulMono(1, q' - q, m);
    }
  }

  lemma MulMono(a: int, b: int, m: int)
    requires 0 <= a <= b && m >= 0
    ensures a * m <= b * m
  {
  }

  /** Euclidean division by a positive divisor is monotone. */
  lemma DivMono(a: int, b: int, c: int)
    requires 0 <= a <= b && c > 0
    ensures a / c <= b / c
  {
    if a / c > b / c {
      assert a == (a / c) * c + a % c;
      assert b == (b / c) * c + b % c;
      MulMono(b / c + 1, a / c, c);
    }
  }

  /** A quotient is below b when the dividend is below b times the divisor. */
  lemma DivBelow(a: int, b: int, c: int)
    requires c > 0 && 0 <= a < b * c
    ensures a / c < b
  {
    DivMono(a, b * c - 1, c);
    DivModUnique(b * c - 1, b - 1, c - 1, c);
  }

  lemma MulSubRight(x: int, y: int, m: int)
    ensures (x - y) * m == x * m - y * m
  {
  }

  lemma MulAddRight(a: int, b: int, m: int)
    ensures (a + b) * m == a * m + b * m
  {
  }

  lemma MulAssoc(a: int, b: int, c: int)
    ensures a * b * c == a * (b * c)
  {
  }

  lemma DivModParts(a: int, m: int)
    requires m > 0
    ensures a == (a / m) * m + a % m && 0 <= a % m < m
  {
  }

  function Min(a: int, b: int): int
  {
    if a <= b then a else b
  }

  lemma MulCommute(a: int, b: int)
    ensures a * b == b * a
  {
  }
}
