/** Inversion in GF(2^(2^k)) (k = 7 for a block) and of matrices over it. */
module Inversion {
  import opened Fields
  import opened BinaryNumbers

  function Pow<T(!new)>(f: Field<T>, x: T, n: nat): T {
    if n == 0 then f.one else f.Mul(Pow(f, x, n - 1), x)
  }

  /** The field has 2^(2^k) elements, so raising to that power changes nothing. */
  ghost predicate Galois<T(!new)>(f: Field<T>, k: nat) {
    f.XorGroup() && f.Domain() && forall x :: FrobeniusAt(f, k, x)
  }

  ghost predicate FrobeniusAt<T(!new)>(f: Field<T>, k: nat, x: T) {
    Pow(f, x, Exp2(Exp2(k))) == x
  }

  lemma {:induction false} PowAdd<T(!new)>(f: Field<T>, x: T, a: nat, b: nat)
    requires f.Domain()
    ensures Pow(f, x, a + b) == f.Mul(Pow(f, x, a), Pow(f, x, b))
  {
    if b == 0 {
      f.One(Pow(f, x, a));
    } else {
      PowAdd(f, x, a, b - 1);
      f.MAssoc(Pow(f, x, a), Pow(f, x, b - 1), x);
    }
  }

  /** The exponent reached after i rounds of the addition chain. */
  function Chain(i: nat): (c: nat)
    ensures c >= 1
  {
    Exp2(Exp2(i)) - 1
  }

  /** The exponent of the 2^i-fold square of the chain value. */
  function Run(i: nat): nat {
    Chain(i) * Exp2(Exp2(i))
  }

  /** Squaring 2^i times and multiplying doubles the run of ones. */
  lemma ChainStep(i: nat)
    ensures Run(i) + Chain(i) == Chain(i + 1)
  {
    var e := Exp2(i);
    Exp2Add(e, e);
    assert Exp2(i + 1) == e + e;
    hide Exp2;
    AlmostSquare(Exp2(e));
  }

  lemma AlmostSquare(q: int)
    ensures (q - 1) * q + (q - 1) == q * q - 1
  {
  }

  lemma ChainStart()
    ensures Chain(0) == 1 && Run(0) == 2 == Chain(1) - 1
  {
    assert Exp2(1) == 2 * Exp2(0);
    assert Exp2(2) == 2 * Exp2(1);
  }

  /** The inverse by an addition chain of `rounds` squaring runs. */
  method ScalarInverse<T(!new)>(f: Field<T>, x: T, rounds: nat) returns (result: T)
    requires f.Domain() && rounds >= 1
    ensures result == Pow(f, x, Exp2(Exp2(rounds)) - 2)
  {
    var a := x;
    result := f.zero;
    f.One(x);
    assert Pow(f, x, 1) == f.Mul(Pow(f, x, 0), x);
    ChainStart();
    assert Chain(rounds) == Exp2(Exp2(rounds)) - 1;
    hide Exp2, Pow, Chain, Run;
    for i := 0 to rounds
      invariant a == Pow(f, x, Chain(i))
      invariant i >= 1 ==> result == Pow(f, x, Chain(i) - 1)
    {
      var b := SquareRun(f, x, a, i);
      ChainStep(i);
      PowAdd(f, x, Chain(i), Run(i));
      a := f.Mul(a, b);
      if i == 0 {
        result := b;
      } else {
        PowAdd(f, x, Chain(i) - 1, Run(i));
        result := f.Mul(result, b);
      }
    }
  }

  /** Squares 2^i times. */
  method SquareRun<T(!new)>(f: Field<T>, ghost x: T, a: T, i: nat) returns (b: T)
    requires f.Domain() && a == Pow(f, x, Chain(i))
    ensures b == Pow(f, x, Run(i))
  {
    b := a;
    var n := Exp2(i);
    assert Chain(i) * Exp2(0) == Chain(i);
    for j := 0 to n
      invariant b == Pow(f, x, Chain(i) * Exp2(j))
    {
      ghost var e := Chain(i) * Exp2(j);
      PowAdd(f, x, e, e);
      assert Exp2(j + 1) == 2 * Exp2(j);
      Twice(Chain(i), Exp2(j));
      b := f.Mul(b, b);
    }
  }

  /** x to the power 2^(2^k) - 2 is the inverse of x. */
  lemma PowerInverts<T(!new)>(f: Field<T>, k: nat, x: T)
    requires Galois(f, k) && k >= 1 && x != f.zero
    ensures f.Mul(Pow(f, x, Exp2(Exp2(k)) - 2), x) == f.one
  {
    var n := Exp2(Exp2(k));
    var y := Pow(f, x, n - 1);
    assert FrobeniusAt(f, k, x);
    assert Pow(f, x, n) == f.Mul(y, x);
    f.MComm(y, x);
    f.One(x);
    f.MulCancel(x, y, f.one);
  }
}
