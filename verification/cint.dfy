/**
  C integer semantics used by the watchdog: the 32-bit `int` range, 64-bit
  unsigned wrap-around, gcc's narrowing conversion to `int`, and division that
  truncates toward zero. Dafny's own `/` is Euclidean, so every C division of a
  possibly negative value goes through `TDiv`.
 */
module CInt {

  const IntMin: int := -0x8000_0000
  const IntMax: int := 0x7fff_ffff
  const TwoTo32: int := 0x1_0000_0000
  const TwoTo64: int := 0x1_0000_0000_0000_0000

  /** `unsigned long` on the 64-bit kernel. */
  type u64 = x: int | 0 <= x < 0x1_0000_0000_0000_0000

  /** `long long` / `ktime_t`. */
  type s64 = x: int | -0x8000_0000_0000_0000 <= x < 0x8000_0000_0000_0000

  predicate InInt(x: int) {
    IntMin <= x <= IntMax
  }

  /** Reduction of an exact result into `unsigned long`, as C does for
      unsigned subtraction and multiplication. */
  function Wrap64(x: int): (r: u64)
    ensures (r - x) % TwoTo64 == 0
    ensures 0 <= x < TwoTo64 ==> r == x
  {
    x % TwoTo64
  }

  /** `a - b` on `unsigned long`. */
  function Sub64(a: u64, b: u64): (r: u64)
    ensures b <= a ==> r == a - b
    ensures a < b ==> r == a - b + TwoTo64
  {
    Wrap64(a - b)
  }

  /** Conversion of a wider integer to `int` (gcc keeps the low 32 bits and
      reads them as two's complement). */
  function Narrow32(x: int): (r: int)
    ensures InInt(r)
    ensures (r - x) % TwoTo32 == 0
    ensures InInt(x) ==> r == x
  {
    var m := x % TwoTo32;
    if m <= IntMax then m else m - TwoTo32
  }

  /** C's `a / d` for a positive divisor: the quotient is truncated toward
      zero, so the remainder has the sign of the dividend. */
  function TDiv(a: int, d: int): (q: int)
    requires d > 0
    ensures 0 <= a ==> 0 <= a - d * q < d
    ensures a <= 0 ==> -d < a - d * q <= 0
  {
    if a >= 0 then a / d else -((-a) / d)
  }

  /** Truncation is symmetric about zero, unlike Euclidean division. */
  lemma TDivNeg(a: int, d: int)
    requires d > 0
    ensures TDiv(-a, d) == -TDiv(a, d)
  {
  }

  lemma MulAtLeast(d: int, k: int)
    requires d > 0 && k >= 1
    ensures d * k >= d
  {
  }

  lemma MulMono(b: int, x: int, y: int)
    requires b > 0 && 0 <= x <= y
    ensures 0 <= b * x <= b * y
  {
  }

  /** A quotient is determined by the range of its remainder. */
  lemma QuotientUnique(a: int, d: int, q: int, q': int)
    requires d > 0
    requires 0 <= a - d * q < d
    requires 0 <= a - d * q' < d
    ensures q == q'
  {
    if q < q' {
      MulAtLeast(d, q' - q);
    } else if q' < q {
      MulAtLeast(d, q - q');
    }
  }

  /** The remainder bound behind `TDivTDivNonNeg`, stated over plain
      quotients so that no division is in scope. */
  lemma ChainedRemainder(a: int, b: int, c: int, q1: int, q2: int)
    requires b > 0 && c > 0
    requires 0 <= a - b * q1 < b
    requires 0 <= q1 - c * q2 < c
    ensures 0 <= a - (b * c) * q2 < b * c
  {
    var r2 := q1 - c * q2;
    MulMono(b, r2, c - 1);
    assert b * (c - 1) == b * c - b;
    assert b * r2 == b * q1 - (b * c) * q2;
  }

  lemma TDivTDivNonNeg(a: int, b: int, c: int)
    requires a >= 0 && b > 0 && c > 0
    ensures TDiv(TDiv(a, b), c) == TDiv(a, b * c)
  {
    var q1 := TDiv(a, b);
    var q2 := TDiv(q1, c);
    ChainedRemainder(a, b, c, q1, q2);
    MulAtLeast(b, c);
    QuotientUnique(a, b * c, q2, TDiv(a, b * c));
  }

  /** Truncating twice equals truncating once by the product of the divisors,
      which is how the source's chained `x / CALIBRATION / 10` reads. */
  lemma TDivTDiv(a: int, b: int, c: int)
    requires b > 0 && c > 0
    ensures TDiv(TDiv(a, b), c) == TDiv(a, b * c)
  {
    if a < 0 {
      TDivTDivNonNeg(-a, b, c);
      TDivNeg(a, b);
      TDivNeg(TDiv(a, b), c);
      TDivNeg(a, b * c);
    } else {
      TDivTDivNonNeg(a, b, c);
    }
  }
}
