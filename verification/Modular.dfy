/** Powers, binomial coefficients and unsigned arithmetic modulo 2^32 and 2^64. */
module Modular {
  import opened BinaryNumbers

  const TWO_32: nat := 0x1_0000_0000

  /** The value of a u32 computation whose exact result is n. */
  function U32(n: int): (r: nat)
    ensures r < TWO_32
  {
    n % TWO_32
  }

  ghost predicate Same(a: int, b: int, m: nat)
    requires m > 0
  {
    a % m == b % m
  }

  lemma SameShift(a: int, k: int, m: nat)
    requires m > 0
    ensures Same(a + k * m, a, m)
  {
    DivMod(a, m);
    assert a + k * m == (a / m + k) * m + a % m;
    DivModUnique(a + k * m, a / m + k, m, a % m);
  }

  lemma SameDifference(a: int, b: int, m: nat) returns (k: int)
    requires m > 0 && Same(a, b, m)
    ensures a == b + k * m
  {
    DivMod(a, m);
    DivMod(b, m);
    k := a / m - b / m;
    assert k * m == a / m * m - b / m * m;
  }

  lemma SameAdd(a: int, b: int, c: int, d: int, m: nat)
    requires m > 0 && Same(a, b, m) && Same(c, d, m)
    ensures Same(a + c, b + d, m) && Same(a - c, b - d, m)
  {
    hide Same;
    var k := SameDifference(a, b, m);
    var l := SameDifference(c, d, m);
    AddOut(k, l, m);
    SameShift(b + d, k + l, m);
    SameShift(b - d, k - l, m);
  }

  lemma AddOut(k: int, l: int, m: int)
    ensures (k + l) * m == k * m + l * m && (k - l) * m == k * m - l * m
  {
  }

  lemma SameMul(a: int, b: int, c: int, d: int, m: nat)
    requires m > 0 && Same(a, b, m) && Same(c, d, m)
    ensures Same(a * c, b * d, m)
  {
    var k := SameDifference(a, b, m);
    var l := SameDifference(c, d, m);
    MulOut(b, k, d, l, m);
    SameShift(b * d, k * d + b * l + k * l * m, m);
  }

  lemma MulOut(b: int, k: int, d: int, l: int, m: nat)
    ensures (b + k * m) * (d + l * m) == b * d + (k * d + b * l + k * l * m) * m
  {
  }

  lemma SameReduced(a: int, m: nat)
    requires m > 0
    ensures 0 <= a % m < m && Same(a % m, a, m)
  {
    DivMod(a, m);
    DivModUnique(a % m, 0, m, a % m);
  }

  /** Equal modulo 2^64 is equal modulo 2^32. */
  lemma SameBelow(a: int, b: int)
    requires Same(a, b, TwoTo64())
    ensures Same(a, b, TWO_32)
  {
    var k := SameDifference(a, b, TwoTo64());
    assert k * TwoTo64() == (k * TWO_32) * TWO_32;
    SameShift(b, k * TWO_32, TWO_32);
  }

  function Power(b: int, e: nat): (r: int)
    ensures b >= 0 ==> r >= 0
  {
    if e == 0 then 1 else Power(b, e - 1) * b
  }

  lemma {:induction false} SamePower(a: int, b: int, e: nat, m: nat)
    requires m > 0 && Same(a, b, m)
    ensures Same(Power(a, e), Power(b, e), m)
  {
    if e > 0 {
      SamePower(a, b, e - 1, m);
      SameMul(Power(a, e - 1), Power(b, e - 1), a, b, m);
    }
  }

  lemma {:induction false} PowerSquare(b: int, h: nat)
    ensures Power(b, 2 * h) == Power(b * b, h)
  {
    if h > 0 {
      PowerSquare(b, h - 1);
      var p := Power(b, 2 * h - 2);
      assert Power(b, 2 * h - 1) == p * b;
      assert Power(b, 2 * h) == p * b * b;
      Regroup(p, b, b);
    }
  }

  lemma Regroup(a: int, b: int, c: int)
    ensures a * b * c == a * (b * c)
  {
  }

  /** fast_pow<T>: the base wraps as a u64, the result as a T. */
  method FastPow(base0: nat, exp0: nat, modulus: nat) returns (result: nat)
    requires base0 < TwoTo64() && (modulus == TWO_32 || modulus == TwoTo64())
    ensures result == Power(base0, exp0) % modulus
  {
    var base: nat, exp: nat := base0, exp0;
    result := 1;
    while exp > 0
      invariant result < modulus && base < TwoTo64()
      invariant Same(result * Power(base, exp), Power(base0, exp0), modulus)
    {
      result, base, exp := PowStep(result, base, exp, modulus);
    }
    DivModUnique(result, 0, modulus, result);
  }

  /** One round of the loop keeps result * base^exp. */
  method PowStep(result0: nat, base0: nat, exp0: nat, modulus: nat) returns (result: nat, base: nat, exp: nat)
    requires base0 < TwoTo64() && exp0 > 0 && result0 < modulus && (modulus == TWO_32 || modulus == TwoTo64())
    ensures base < TwoTo64() && exp == exp0 / 2 && result < modulus
    ensures Same(result * Power(base, exp), result0 * Power(base0, exp0), modulus)
  {
    result, base, exp := result0, base0, exp0;
    if exp % 2 == 1 {
      result := result * base % modulus;
    }
    base := U64(base * base);
    exp := exp / 2;
    StepKeepsPower(result0, base0, exp0, modulus, result, base);
  }

  lemma StepKeepsPower(result0: nat, base0: nat, exp0: nat, m: nat, result: nat, base: nat)
    requires exp0 > 0 && (m == TWO_32 || m == TwoTo64()) && base == U64(base0 * base0) && result0 < m
    requires result == if exp0 % 2 == 1 then result0 * base0 % m else result0
    ensures result < m && Same(result * Power(base, exp0 / 2), result0 * Power(base0, exp0), m)
  {
    var h := exp0 / 2;
    var top := if exp0 % 2 == 1 then result0 * base0 else result0;
    SquareWraps(base0, base, m);
    SamePower(base, base0 * base0, h, m);
    PowerSquare(base0, h);
    SameReduced(top, m);
    SameMul(result, top, Power(base, h), Power(base0, 2 * h), m);
    if exp0 % 2 == 1 {
      assert Power(base0, exp0) == Power(base0, 2 * h) * base0;
      Regroup(result0, base0, Power(base0, 2 * h));
      assert base0 * Power(base0, 2 * h) == Power(base0, exp0);
    }
  }

  lemma SquareWraps(base0: nat, base: nat, m: nat)
    requires (m == TWO_32 || m == TwoTo64()) && base == U64(base0 * base0)
    ensures Same(base, base0 * base0, m)
  {
    SameReduced(base0 * base0, TwoTo64());
    if m == TWO_32 {
      SameBelow(base, base0 * base0);
    }
  }
}
