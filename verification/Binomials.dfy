/** Binomial coefficients: the loop of combination, and the binomial theorem. */
module Binomials {
  import opened BinaryNumbers
  import opened Modular

  function Choose(n: nat, k: nat): (r: nat)
    ensures k > n ==> r == 0
  {
    if k == 0 then 1 else if n == 0 then 0 else Choose(n - 1, k - 1) + Choose(n - 1, k)
  }

  lemma {:induction false} ChooseAll(n: nat)
    ensures Choose(n, n) == 1
  {
    if n > 0 {
      ChooseAll(n - 1);
    }
  }

  lemma {:induction false} ChooseSymmetric(n: nat, k: nat)
    requires k <= n
    ensures Choose(n, k) == Choose(n, n - k)
  {
    if k == 0 || k == n {
      ChooseAll(n);
    } else {
      ChooseSymmetric(n - 1, k - 1);
      ChooseSymmetric(n - 1, k);
    }
  }

  /** The ratio of neighbouring coefficients. */
  lemma {:induction false} Neighbours(n: nat, k: nat)
    requires k < n
    ensures (k + 1) * Choose(n, k + 1) == (n - k) * Choose(n, k) == n * Choose(n - 1, k)
  {
    var a := Choose(n - 1, k);
    if k + 1 < n {
      Neighbours(n - 1, k);
    } else {
      ChooseAll(n - 1);
      assert Choose(n - 1, n) == 0;
    }
    assert Choose(n, k + 1) == a + Choose(n - 1, k + 1);
    Spread(k + 1, a, Choose(n - 1, k + 1));
    Gather(k + 1, n - 1 - k, a);
    if k > 0 {
      Neighbours(n - 1, k - 1);
      assert Choose(n, k) == Choose(n - 1, k - 1) + a;
      Spread(n - k, Choose(n - 1, k - 1), a);
      Gather(k, n - k, a);
    }
  }

  lemma Spread(a: int, b: int, c: int)
    ensures a * (b + c) == a * b + a * c
  {
  }

  lemma Gather(a: int, b: int, c: int)
    ensures (a + b) * c == a * c + b * c
  {
  }

  /** The value after i rounds of the loop, whose products wrap at m. */
  function Rounds(n: nat, i: nat, m: nat): nat
    requires i <= n && m > 0
  {
    if i == 0 then 1 else Rounds(n, i - 1, m) * (n - (i - 1)) % m / i
  }

  method Combination(n: nat, k0: nat, m: nat) returns (result: nat)
    requires 1 < m && n < m && k0 < m
    ensures k0 > n ==> result == 0 == Choose(n, k0)
    ensures k0 <= n ==> result == Rounds(n, if k0 > n - k0 then n - k0 else k0, m)
  {
    if k0 > n {
      return 0;
    }
    var k := k0;
    if k > n - k {
      k := n - k;
    }
    result := 1;
    for i := 0 to k
      invariant result == Rounds(n, i, m)
    {
      result := result * (n - i) % m / (i + 1);
    }
  }

  /** No product of the first k rounds wraps. */
  ghost predicate Fits(n: nat, k: nat, m: nat) {
    forall i :: 0 <= i < k && i <= n ==> Choose(n, i) * (n - i) < m
  }

  /** The rounds never exceed the coefficient, and they give it exactly if no
      product wraps: from the first wrap on they stay below it. */
  lemma {:induction false} RoundsAreExact(n: nat, i: nat, m: nat)
    requires i <= n && m > 0
    ensures Rounds(n, i, m) <= Choose(n, i)
    ensures Rounds(n, i, m) == Choose(n, i) <==> Fits(n, i, m)
  {
    hide Choose, Rounds, Fits;
    RoundsUnfold(n, i, m);
    FitsNext(n, i, m);
    if i > 0 {
      RoundsAreExact(n, i - 1, m);
      var r, c, d := Rounds(n, i - 1, m), Choose(n, i - 1), n - (i - 1);
      Neighbours(n, i - 1);
      RoundOnce(r, c, d, m, i, Choose(n, i));
    }
  }

  lemma FitsNext(n: nat, i: nat, m: nat)
    requires i <= n
    ensures i == 0 ==> Fits(n, i, m)
    ensures i > 0 ==> (Fits(n, i, m) <==> Fits(n, i - 1, m) && Choose(n, i - 1) * (n - (i - 1)) < m)
  {
    hide Choose;
  }

  /** One round from r instead of c: exact if r is c and nothing wraps, too small
      otherwise. */
  lemma RoundOnce(r: nat, c: nat, d: nat, m: nat, i: nat, next: nat)
    requires r <= c && d > 0 && m > 0 && i > 0 && i * next == d * c
    ensures 0 <= r * d % m / i <= next
    ensures r * d % m / i == next <==> r == c && c * d < m
  {
    assert i * next == c * d;
    if r == c && c * d < m {
      ExactQuotient(c * d, m, i, next);
    } else {
      ProductIsNat(r, d);
      DivMod(r * d, m);
      WrapsBelow(r, c, d, m);
      SmallerQuotient(r * d % m, i, next);
    }
  }

  lemma WrapsBelow(r: nat, c: nat, d: nat, m: nat)
    requires r <= c && d > 0 && m > 0 && (r < c || c * d >= m)
    ensures 0 <= r * d % m < c * d
  {
    ProductIsNat(r, d);
    DivMod(r * d, m);
    if r < c {
      TimesMono(r + 1, d, c, d);
      assert (r + 1) * d == r * d + d;
      if r * d / m < 0 {
        TimesNext(r * d / m, 0, m);
      }
      ProductAtLeast(r * d / m, m);
    }
  }

  lemma ProductAtLeast(q: int, m: nat)
    ensures q >= 0 ==> q * m >= 0
  {
  }

  lemma SmallerQuotient(p: nat, i: nat, c: nat)
    requires i > 0 && p < i * c
    ensures 0 <= p / i < c
  {
    DivMod(p, i);
    if p / i >= c {
      TimesMono(i, c, i, p / i);
    }
    if p / i < 0 {
      TimesNext(p / i, 0, i);
    }
  }

  lemma RoundsUnfold(n: nat, i: nat, m: nat)
    requires i <= n && m > 0
    ensures i == 0 ==> Rounds(n, i, m) == 1 == Choose(n, i)
    ensures i > 0 ==> Rounds(n, i, m) == Rounds(n, i - 1, m) * (n - (i - 1)) % m / i
  {
  }

  lemma ExactQuotient(p: nat, m: nat, i: nat, c: nat)
    requires p < m && i > 0 && p == i * c
    ensures p % m / i == c
  {
    DivModUnique(p, 0, m, p);
    DivModUnique(p, c, i, 0);
  }

  /** The result is the binomial coefficient exactly if no product wraps. */
  lemma CombinationIsExact(n: nat, k: nat, m: nat)
    requires k <= n && m > 0
    ensures var i := if k > n - k then n - k else k;
      Rounds(n, i, m) == Choose(n, k) <==> Fits(n, i, m)
  {
    RoundsAreExact(n, if k > n - k then n - k else k, m);
    ChooseSymmetric(n, k);
  }

  function Row30(i: nat): nat
    requires i <= 15
  {
    [1, 30, 435, 4060, 27405, 142506, 593775, 2035800, 5852925, 14307150, 30045015, 54627300, 86493225, 119759850, 145422675, 155117520][i]
  }

  lemma Row30Step(i: nat)
    requires 0 < i <= 15
    ensures i * Row30(i) == (31 - i) * Row30(i - 1)
    ensures Row30(i - 1) * (31 - i) < TWO_32
  {
  }

  lemma {:induction false} Row30Is(i: nat)
    requires i <= 15
    ensures Choose(30, i) == Row30(i)
  {
    hide Choose, Row30;
    FirstIsOne();
    if i > 0 {
      Row30Is(i - 1);
      Row30Step(i);
      Neighbours(30, i - 1);
      CancelFactor(i, Choose(30, i), Row30(i));
    }
  }

  lemma FirstIsOne()
    ensures Choose(30, 0) == Row30(0)
  {
  }

  lemma CancelFactor(c: nat, a: nat, b: nat)
    requires c > 0 && c * a == c * b
    ensures a == b
  {
    DivModUnique(c * a, a, c, 0);
    DivModUnique(c * b, b, c, 0);
  }

  lemma {:induction false} ChooseMono(n: nat, n': nat, k: nat)
    requires n <= n'
    ensures Choose(n, k) <= Choose(n', k)
  {
    if n < n' {
      ChooseMono(n, n' - 1, k);
    }
  }

  lemma TimesMono(a: nat, b: nat, a': nat, b': nat)
    requires a <= a' && b <= b'
    ensures a * b <= a' * b'
  {
    assert a * b <= a' * b;
    assert a' * b <= a' * b';
  }

  /** Up to n = 30 no product wraps a u32. */
  lemma SmallFits(n: nat, k: nat)
    requires n <= 30 && k <= n
    ensures Fits(n, if k > n - k then n - k else k, TWO_32)
  {
    hide Choose, Row30;
    forall i | 0 <= i < (if k > n - k then n - k else k) && i <= n
      ensures Choose(n, i) * (n - i) < TWO_32
    {
      ChooseMono(n, 30, i);
      Row30Is(i);
      TimesMono(Choose(n, i), n - i, Row30(i), 30 - i);
      Row30Step(i + 1);
    }
  }

  /** Up to the 14th round it fits at n = 31 too. */
  lemma Fits31(k: nat)
    requires k <= 14
    ensures Fits(31, k, TWO_32)
  {
    hide Row30, Choose;
    forall i | 0 <= i < k && i <= 31
      ensures Choose(31, i) * (31 - i) < TWO_32
    {
      Neighbours(31, i);
      Row30Is(i);
      Row31Small(i);
    }
  }

  /** At n = 31 the 15th round wraps, and the coefficient is wrong. */
  lemma CombinationWraps()
    ensures Rounds(31, 15, TWO_32) == 14209041
    ensures Choose(31, 15) == 300540195
  {
    hide Rounds, Row30, Choose;
    Fits31(14);
    RoundsAreExact(31, 14, TWO_32);
    RoundsUnfold(31, 15, TWO_32);
    Row30Values();
  }

  lemma Row31Small(i: nat)
    requires i < 14
    ensures 31 * Row30(i) < TWO_32
  {
  }

  lemma Row30Values()
    ensures Choose(31, 14) == 265182525 && Choose(31, 15) == 300540195
  {
    hide Choose;
    Row30Is(13);
    Row30Is(14);
    Row30Is(15);
    Pascal(31, 14);
    Pascal(31, 15);
  }

  /** All coefficients of a power come out right in 32 bits exactly up to 30. */
  lemma ExactUpTo30(n: nat)
    ensures (forall k :: 0 <= k <= n ==> Rounds(n, if k > n - k then n - k else k, TWO_32) == Choose(n, k)) <==> n <= 30
  {
    hide Choose, Rounds, Fits;
    if n <= 30 {
      forall k | 0 <= k <= n
        ensures Rounds(n, if k > n - k then n - k else k, TWO_32) == Choose(n, k)
      {
        SmallFits(n, k);
        CombinationIsExact(n, k, TWO_32);
      }
    } else {
      CombinationIsExact(n, 15, TWO_32);
      FitsNext(n, 15, TWO_32);
      Row30Values();
      ChooseMono(31, n, 14);
      TimesMono(Choose(31, 14), 17, Choose(n, 14), n - 14);
    }
  }

  lemma Pascal(n: nat, k: nat)
    requires n > 0 && k > 0
    ensures Choose(n, k) == Choose(n - 1, k - 1) + Choose(n - 1, k)
  {
  }

  /** One summand of the expansion of (e + x)^p. */
  function Term(p: nat, e: int, x: int, t: nat): int {
    if t > p then 0 else Choose(p, t) * Power(e, p - t) * Power(x, t)
  }

  function Expansion(p: nat, e: int, x: int, k: nat): int {
    if k == 0 then 0 else Expansion(p, e, x, k - 1) + Term(p, e, x, k - 1)
  }

  lemma TermStep(p: nat, e: int, x: int, t: nat)
    requires t <= p + 1
    ensures Term(p + 1, e, x, t) == e * Term(p, e, x, t) + if t > 0 then x * Term(p, e, x, t - 1) else 0
  {
    hide Power;
    if t <= p {
      PowerNext(e, p - t);
      Factor3(Choose(p, t), Power(e, p - t), Power(x, t), e);
    }
    if t > 0 {
      PowerNext(x, t - 1);
      Factor4(Choose(p, t - 1), Power(e, p + 1 - t), Power(x, t - 1), x);
    }
    if t > 0 && t <= p {
      Distribute3(Choose(p, t), Choose(p, t - 1), Power(e, p + 1 - t), Power(x, t));
    }
  }

  lemma PowerNext(b: int, e: nat)
    ensures Power(b, e + 1) == Power(b, e) * b
  {
  }

  lemma Factor3(c: int, a: int, b: int, e: int)
    ensures e * (c * a * b) == c * (a * e) * b
  {
  }

  lemma Factor4(c: int, a: int, b: int, x: int)
    ensures x * (c * a * b) == c * a * (b * x)
  {
  }

  lemma Distribute3(c: int, d: int, a: int, b: int)
    ensures (c + d) * a * b == c * a * b + d * a * b
  {
  }

  lemma {:induction false} ExpansionStep(p: nat, e: int, x: int, k: nat)
    requires k <= p + 1
    ensures Expansion(p + 1, e, x, k + 1) == e * Expansion(p, e, x, k + 1) + x * Expansion(p, e, x, k)
  {
    hide Term;
    TermStep(p, e, x, k);
    Spread(e, Expansion(p, e, x, k), Term(p, e, x, k));
    if k > 0 {
      ExpansionStep(p, e, x, k - 1);
      Spread(x, Expansion(p, e, x, k - 1), Term(p, e, x, k - 1));
    }
  }

  /** The binomial theorem. */
  lemma {:induction false} BinomialTheorem(p: nat, e: int, x: int)
    ensures Expansion(p, e, x, p + 1) == Power(e + x, p)
  {
    if p == 0 {
      assert Expansion(0, e, x, 1) == Term(0, e, x, 0) == 1;
    } else {
      BinomialTheorem(p - 1, e, x);
      ExpansionStep(p - 1, e, x, p);
      assert Term(p - 1, e, x, p) == 0;
      assert Expansion(p - 1, e, x, p + 1) == Expansion(p - 1, e, x, p);
      Gather(e, x, Power(e + x, p - 1));
    }
  }
}
