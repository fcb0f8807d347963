/**
 Integer exponentiation by an accumulator loop, plain (`power`) and with a
 remainder taken after every multiplication (`powerMod`). Both return 1 for
 an exponent of zero or below, because their loops then do not run.
 */
module Powers {
  import opened CArith

  /** The mathematical power `b^e`. */
  function Pow(b: int, e: nat): int {
    if e == 0 then 1 else Pow(b, e - 1) * b
  }

  /** Exponents add under multiplication. */
  lemma {:induction false} PowAdd(b: int, e1: nat, e2: nat)
    ensures Pow(b, e1 + e2) == Pow(b, e1) * Pow(b, e2)
  {
    if e2 > 0 {
      PowAdd(b, e1, e2 - 1);
      assert Pow(b, e1 + e2) == Pow(b, e1 + e2 - 1) * b;
    }
  }

  /** The value range of the sort, `power(2, 31)`. */
  lemma Pow2To31()
    ensures Pow(2, 31) == 0x8000_0000
  {
    assert Pow(2, 4) == 16;
    PowAdd(2, 4, 4);
    PowAdd(2, 8, 8);
    PowAdd(2, 16, 8);
    PowAdd(2, 24, 4);
    PowAdd(2, 28, 3);
    assert Pow(2, 3) == 8;
  }

  /** `power(base, exp)`: multiplies an accumulator by `base` `exp` times. */
  method Power(base: int, exp: int) returns (r: int)
    ensures exp <= 0 ==> r == 1
    ensures exp >= 0 ==> r == Pow(base, exp)
  {
    r := 1;
    var i := 0;
    while i < exp
      invariant exp <= 0 ==> i == 0
      invariant exp > 0 ==> 0 <= i <= exp
      invariant r == Pow(base, i)
    {
      r := r * base;
      i := i + 1;
    }
  }

  /**
   `powerMod(base, exp, modulo)`: like Power, but reduces the accumulator with
   C's `%` after each multiplication, so for `exp >= 1` the result is C's
   `base^exp % modulo`; for `exp <= 0` it is 1, not `1 % modulo`, and the
   modulus is never used, so it may be 0.
   */
  method PowerMod(base: int, exp: int, modulo: int) returns (r: int)
    requires exp >= 1 ==> modulo != 0
    ensures exp <= 0 ==> r == 1
    ensures exp >= 1 ==> r == CRem(Pow(base, exp), modulo)
  {
    r := 1;
    var i := 0;
    while i < exp
      invariant exp <= 0 ==> i == 0
      invariant exp > 0 ==> 0 <= i <= exp
      invariant i == 0 ==> r == 1
      invariant i >= 1 ==> modulo != 0 && r == CRem(Pow(base, i), modulo)
    {
      if i >= 1 {
        CRemMulLeft(Pow(base, i), base, modulo);
      }
      r := CRem(r * base, modulo);
      i := i + 1;
    }
  }

  /** `power(2, 31)`, the call the program makes for its value range and LCG modulus. */
  method PowerOfTwo31() returns (r: int)
    ensures r == 0x8000_0000
  {
    r := Power(2, 31);
    Pow2To31();
  }
}
