/**
 C integer arithmetic that differs from Dafny's: the remainder operator `%`
 truncates toward zero (the result takes the sign of the dividend), and a
 conversion to a 32-bit `int` wraps modulo 2^32.
 */
module CArith {

  const INT32_MIN: int := -0x8000_0000
  const INT32_MAX: int := 0x7fff_ffff

  predicate InInt32(x: int) {
    INT32_MIN <= x <= INT32_MAX
  }

  /** Every entry is a non-negative 32-bit int. */
  predicate NonnegInts(s: seq<int>) {
    forall i :: 0 <= i < |s| ==> 0 <= s[i] <= INT32_MAX
  }

  function Abs(x: int): (r: nat)
    ensures r == x || r == -x
  {
    if x < 0 then -x else x
  }

  /** C's `a % m`: magnitude `|a| mod |m|`, sign of `a`. */
  function CRem(a: int, m: int): (r: int)
    requires m != 0
    ensures Abs(r) < Abs(m)
    ensures a >= 0 ==> 0 <= r
    ensures a <= 0 ==> r <= 0
  {
    if a >= 0 then a % Abs(m) else -((-a) % Abs(m))
  }

  /** C's conversion of a wide integer to a 32-bit `int` (two's complement wrap-around). */
  function Int32Cast(x: int): (r: int)
    ensures InInt32(r)
    ensures InInt32(x) ==> r == x
  {
    (x - INT32_MIN) % 0x1_0000_0000 + INT32_MIN
  }

  /** A product of non-negative numbers is non-negative. */
  lemma {:induction false} MulNonneg(e: nat, m: nat)
    ensures e * m >= 0
  {
    if e > 0 {
      MulNonneg(e - 1, m);
      assert e * m == (e - 1) * m + m;
    }
  }

  /** A non-zero multiple of a positive number is at least that number away from zero. */
  lemma MulAwayFromZero(d: int, m: int)
    requires m > 0
    ensures d != 0 ==> d * m >= m || d * m <= -m
  {
    if d > 0 {
      MulNonneg(d - 1, m);
      assert d * m == (d - 1) * m + m;
    } else if d < 0 {
      MulNonneg(-d - 1, m);
      assert d * m == -((-d - 1) * m) - m;
    }
  }

  /** Multiplying by a positive number preserves strict order, read backwards. */
  lemma MulCancelLess(a: int, b: int, u: int)
    requires u > 0
    ensures a * u < b * u ==> a < b
  {
    if a >= b {
      MulNonneg(a - b, u);
      assert a * u - b * u == (a - b) * u;
    }
  }

  /** Uniqueness of Euclidean division: a decomposition with remainder in range is the one `%` gives. */
  lemma ModUnique(x: int, q: int, r: int, m: int)
    requires m > 0 && 0 <= r < m && x == q * m + r
    ensures x % m == r
  {
    var d := x / m - q;
    assert d * m == r - x % m;
    MulAwayFromZero(d, m);
  }

  /** Reducing the left factor first does not change a non-negative product's remainder. */
  lemma ModMulLeft(a: nat, b: nat, m: int)
    requires m > 0
    ensures ((a % m) * b) % m == (a * b) % m
  {
    var q, r := a / m, a % m;
    var y := r * b;
    var qy, ry := y / m, y % m;
    assert a * b == (q * m + r) * b == (q * b + qy) * m + ry;
    ModUnique(a * b, q * b + qy, ry, m);
  }

  /** C's remainder is odd in its dividend. */
  lemma CRemNeg(a: int, m: int)
    requires m != 0
    ensures CRem(-a, m) == -CRem(a, m)
  {
  }

  /** The step `r = (r * b) % m` of an accumulator loop keeps `r == x % m` in C's arithmetic. */
  lemma CRemMulLeft(x: int, b: int, m: int)
    requires m != 0
    ensures CRem(CRem(x, m) * b, m) == CRem(x * b, m)
  {
    var mm, ax, ab := Abs(m), Abs(x), Abs(b);
    ModMulLeft(ax, ab, mm);
    var t := (ax % mm) * ab;
    assert CRem(t, m) == CRem(ax * ab, m);
    var sameSign := (x >= 0) == (b >= 0);
    ProductSigns(x, b, CRem(x, m), ax % mm);
    if !sameSign {
      CRemNeg(t, m);
      CRemNeg(ax * ab, m);
    }
  }

  /** Signs of the two products compared in CRemMulLeft. */
  lemma ProductSigns(x: int, b: int, rx: int, ar: int)
    requires ar >= 0 && rx == (if x >= 0 then ar else -ar)
    ensures (x >= 0) == (b >= 0) ==> rx * b == ar * Abs(b) && x * b == Abs(x) * Abs(b)
    ensures (x >= 0) != (b >= 0) ==> rx * b == -(ar * Abs(b)) && x * b == -(Abs(x) * Abs(b))
  {
    if x >= 0 && b < 0 {
      assert rx * b == -(ar * -b);
      assert x * b == -(x * -b);
    } else if x < 0 && b >= 0 {
      assert rx * b == -(ar * b);
      assert x * b == -(-x * b);
    } else if x < 0 && b < 0 {
      assert rx * b == ar * -b;
      assert x * b == -x * -b;
    }
  }

  /** The quotient `v / u` is `q` exactly when `v` lies in `[q * u, (q + 1) * u)`. */
  lemma DivSpan(v: int, u: int, q: int)
    requires u > 0
    ensures v / u == q <==> q * u <= v < (q + 1) * u
  {
    assert (v / u) * u + v % u == v;
    assert (q + 1) * u == q * u + u;
    assert (v / u + 1) * u == (v / u) * u + u;
    if q * u <= v < (q + 1) * u {
      MulCancelLess(q, v / u + 1, u);
      MulCancelLess(v / u, q + 1, u);
    }
  }
}
