/** Shares of the p-th power distance of two points modulo 2^32, from an OPPRF
    and VOLE correlations. */
module LpShares {
  import opened BinaryNumbers
  import opened Modular
  import opened Binomials
  import opened Decompose
  import opened SetDec

  type Word32 = n: nat | n < TWO_32

  /** What combination<u32>(p, s) returns. */
  function Coef(p: nat, s: nat): nat
    requires s <= p
  {
    Rounds(p, if s > p - s then p - s else s, TWO_32)
  }

  /** The coefficients are right modulo 2^32. */
  ghost predicate ExactCoefs(p: nat) {
    forall s :: 0 <= s <= p ==> Same(Coef(p, s), Choose(p, s), TWO_32)
  }

  lemma SmallMetricsAreExact(p: nat)
    requires p <= 30
    ensures ExactCoefs(p)
  {
    hide Rounds, Choose;
    ExactUpTo30(p);
    forall s | 0 <= s <= p
      ensures Same(Coef(p, s), Choose(p, s), TWO_32)
    {
      assert Rounds(p, if s > p - s then p - s else s, TWO_32) == Choose(p, s);
    }
  }

  lemma U32Add(a: int, b: int)
    ensures U32(a + U32(b)) == U32(a + b)
  {
  }

  lemma U32Same(a: int, b: int)
    ensures Same(U32(a), a, TWO_32)
    ensures Same(a, b, TWO_32) <==> U32(a) == U32(b)
  {
  }

  /** The values the receiver programs for a prefix at distance diff. */
  method PrefixVals(p: nat, diff: nat, a0: Word32, ap: Word32, aVole: seq<Word32>) returns (row: seq<Word32>)
    requires 1 <= p == |aVole| + 1 && p < TWO_32 && diff < TwoTo64()
    ensures |row| == p + 1 && row[0] == a0 && row[p] == U32(ap + Power(diff, p))
    ensures forall s :: 1 <= s < p ==> row[s] == U32(aVole[s - 1] + Power(diff, s))
  {
    hide TwoTo64, Power;
    var high := FastPow(diff, p, TWO_32);
    U32Add(ap, Power(diff, p));
    row := [a0];
    for s := 1 to p
      invariant |row| == s && row[0] == a0
      invariant forall k :: 1 <= k < s ==> row[k] == U32(aVole[k - 1] + Power(diff, k))
    {
      var pow := FastPow(diff, s, TWO_32);
      U32Add(aVole[s - 1], Power(diff, s));
      row := row + [U32(aVole[s - 1] + pow)];
    }
    row := row + [U32(ap + high)];
  }

  /** A term of the sender's sum: a middle value times an OPPRF output, less the VOLE share. */
  function MidTerm(m: int, u: int, d: int): int { m * u - d }

  /** A term of the receiver's sum. */
  function OpenTerm(v: int, a: int, c: int): int { v * a - c }

  /** The sender's middle terms before k. */
  function MidSum(p: nat, u: seq<Word32>, e: nat, dVole: seq<Word32>, k: nat): int
    requires 1 <= k <= p && |u| == p + 1 && |dVole| == p - 1
  {
    if k == 1 then 0 else MidSum(p, u, e, dVole, k - 1) + MidTerm(Coef(p, k - 1) * Power(e, p - (k - 1)), u[k - 1], dVole[k - 2])
  }

  /** What the sender programs for one of its prefixes, e away from the value. */
  method Candidate(p: nat, u: seq<Word32>, e: nat, dVole: seq<Word32>, bDelta: Word32, mask: Word32) returns (uHat: Word32, v: seq<Word32>)
    requires 1 <= p == |dVole| + 1 == |u| - 1 && p < TWO_32 && e < TwoTo64()
    ensures Same(uHat, u[p] + Power(e, p) + MidSum(p, u, e, dVole, p), TWO_32)
    ensures |v| == p && v[p - 1] == U32(mask - uHat)
    ensures forall s :: 1 <= s < p ==> Same(v[s - 1], Coef(p, s) * Power(e, p - s) + bDelta, TWO_32)
  {
    hide TwoTo64, Power, Same, MidSum, Rounds, U32;
    if p == 1 {
      PowerOne(e);
      MidNone(p, u, e, dVole);
      U32Same(u[1] + e, 0);
      uHat := U32(u[1] + e);
      v := [U32(mask - uHat)];
    } else {
      var high := FastPow(e, p, TWO_32);
      SumReduced(u[p], Power(e, p), high);
      MidNone(p, u, e, dVole);
      uHat := U32(u[p] + high);
      v := [];
      for s := 1 to p
        invariant Same(uHat, u[p] + Power(e, p) + MidSum(p, u, e, dVole, s), TWO_32) && |v| == s - 1
        invariant forall k :: 1 <= k < s ==> Same(v[k - 1], Coef(p, k) * Power(e, p - k) + bDelta, TWO_32)
      {
        var midVal := MidValue(p, e, s);
        v := v + [U32(midVal + bDelta)];
        MidStep(p, u, e, dVole, s, bDelta, uHat, midVal);
        uHat := U32(uHat + MidTerm(midVal, u[s], dVole[s - 1]));
      }
      v := v + [U32(mask - uHat)];
    }
  }

  lemma PowerOne(e: nat)
    ensures Power(e, 1) == e
  {
    assert Power(e, 0) == 1;
  }

  lemma MidNone(p: nat, u: seq<Word32>, e: nat, dVole: seq<Word32>)
    requires 1 <= p && |u| == p + 1 && |dVole| == p - 1
    ensures MidSum(p, u, e, dVole, 1) == 0
  {
  }

  lemma SumReduced(a: nat, b: nat, c: nat)
    requires c == b % TWO_32
    ensures Same(U32(a + c), a + b, TWO_32)
  {
  }

  /** combination<u32>(p, s) * fast_pow<u32>(e, p - s), as a u32. */
  method MidValue(p: nat, e: nat, s: nat) returns (midVal: Word32)
    requires 1 <= s < p < TWO_32 && e < TwoTo64()
    ensures Same(midVal, Coef(p, s) * Power(e, p - s), TWO_32)
  {
    var comb := Combination(p, s, TWO_32);
    var pow := FastPow(e, p - s, TWO_32);
    midVal := U32(comb * pow);
    hide Power, Rounds, TwoTo64;
    SameReduced(Power(e, p - s), TWO_32);
    SameMul(comb, comb, pow, Power(e, p - s), TWO_32);
  }

  lemma MidStep(p: nat, u: seq<Word32>, e: nat, dVole: seq<Word32>, s: nat, bDelta: Word32, uHat: Word32, midVal: Word32)
    requires 1 <= s < p && |u| == p + 1 && |dVole| == p - 1
    requires Same(uHat, u[p] + Power(e, p) + MidSum(p, u, e, dVole, s), TWO_32)
    requires Same(midVal, Coef(p, s) * Power(e, p - s), TWO_32)
    ensures Same(U32(midVal + bDelta), Coef(p, s) * Power(e, p - s) + bDelta, TWO_32)
    ensures Same(U32(uHat + MidTerm(midVal, u[s], dVole[s - 1])), u[p] + Power(e, p) + MidSum(p, u, e, dVole, s + 1), TWO_32)
  {
    hide Power, Same, MidSum, Coef, U32;
    MidUnfold(p, u, e, dVole, s);
    var c := Coef(p, s) * Power(e, p - s);
    SameRefl(bDelta);
    SameAdd(midVal, c, bDelta, bDelta, TWO_32);
    U32Same(midVal + bDelta, 0);
    SameTrans(U32(midVal + bDelta), midVal + bDelta, c + bDelta);
    SameRefl(u[s]);
    SameRefl(dVole[s - 1]);
    SameMul(midVal, c, u[s], u[s], TWO_32);
    SameAdd((midVal as int) * u[s], c * u[s], dVole[s - 1], dVole[s - 1], TWO_32);
    SameAdd(uHat, u[p] + Power(e, p) + MidSum(p, u, e, dVole, s), MidTerm(midVal, u[s], dVole[s - 1]), MidTerm(c, u[s], dVole[s - 1]), TWO_32);
    U32Same(uHat + MidTerm(midVal, u[s], dVole[s - 1]), 0);
    SameTrans(U32(uHat + MidTerm(midVal, u[s], dVole[s - 1])), uHat + MidTerm(midVal, u[s], dVole[s - 1]), u[p] + Power(e, p) + MidSum(p, u, e, dVole, s + 1));
  }

  lemma MidUnfold(p: nat, u: seq<Word32>, e: nat, dVole: seq<Word32>, s: nat)
    requires 1 <= s < p && |u| == p + 1 && |dVole| == p - 1
    ensures MidSum(p, u, e, dVole, s + 1) == MidSum(p, u, e, dVole, s) + MidTerm(Coef(p, s) * Power(e, p - s), u[s], dVole[s - 1])
  {
  }

  lemma SameTrans(a: int, b: int, c: int)
    requires Same(a, b, TWO_32) && Same(b, c, TWO_32)
    ensures Same(a, c, TWO_32)
  {
  }

  /** The receiver's opened terms before k. */
  function OpenSum(p: nat, v: seq<Word32>, aVole: seq<Word32>, cVole: seq<Word32>, k: nat): int
    requires 1 <= k <= p == |v| && |aVole| == |cVole| == p - 1
  {
    if k == 1 then 0 else OpenSum(p, v, aVole, cVole, k - 1) + OpenTerm(v[k - 2], aVole[k - 2], cVole[k - 2])
  }

  /** The receiver's share. */
  method VHat(p: nat, v: seq<Word32>, ap: Word32, aVole: seq<Word32>, cVole: seq<Word32>) returns (vHat: Word32)
    requires 1 <= p == |v| && |aVole| == |cVole| == p - 1
    ensures Same(vHat, ap + v[p - 1] + OpenSum(p, v, aVole, cVole, p), TWO_32)
  {
    var maskI := v[p - 1];
    vHat := U32(ap + maskI);
    U32Same(ap + maskI, 0);
    for s := 1 to p
      invariant Same(vHat, ap + v[p - 1] + OpenSum(p, v, aVole, cVole, s), TWO_32)
    {
      OpenStep(p, v, ap, aVole, cVole, s, vHat);
      vHat := U32(vHat + OpenTerm(v[s - 1], aVole[s - 1], cVole[s - 1]));
    }
  }

  lemma OpenStep(p: nat, v: seq<Word32>, ap: Word32, aVole: seq<Word32>, cVole: seq<Word32>, s: nat, vHat: Word32)
    requires 1 <= s < p == |v| && |aVole| == |cVole| == p - 1
    requires Same(vHat, ap + v[p - 1] + OpenSum(p, v, aVole, cVole, s), TWO_32)
    ensures Same(U32(vHat + OpenTerm(v[s - 1], aVole[s - 1], cVole[s - 1])), ap + v[p - 1] + OpenSum(p, v, aVole, cVole, s + 1), TWO_32)
  {
    hide Same, OpenSum, U32;
    OpenUnfold(p, v, aVole, cVole, s);
    var x := OpenTerm(v[s - 1], aVole[s - 1], cVole[s - 1]);
    SameAdd(vHat, ap + v[p - 1] + OpenSum(p, v, aVole, cVole, s), x, x, TWO_32) by {
      SameRefl(x);
    }
    U32Same(vHat + x, 0);
    SameTrans(U32(vHat + x), vHat + x, ap + v[p - 1] + OpenSum(p, v, aVole, cVole, s + 1));
  }

  lemma SameRefl(a: int)
    ensures Same(a, a, TWO_32)
  {
  }

  lemma OpenUnfold(p: nat, v: seq<Word32>, aVole: seq<Word32>, cVole: seq<Word32>, s: nat)
    requires 1 <= s < p == |v| && |aVole| == |cVole| == p - 1
    ensures OpenSum(p, v, aVole, cVole, s + 1) == OpenSum(p, v, aVole, cVole, s) + OpenTerm(v[s - 1], aVole[s - 1], cVole[s - 1])
  {
  }

  /** The VOLE correlation: C = D + A * Delta. */
  ghost predicate Vole(aVole: seq<Word32>, cVole: seq<Word32>, dVole: seq<Word32>, bDelta: Word32) {
    && |aVole| == |cVole| == |dVole|
    && forall s :: 0 <= s < |aVole| ==> Same(cVole[s], dVole[s] + aVole[s] * bDelta, TWO_32)
  }

  /** One opened term against its middle term: they differ by a summand of the
      binomial expansion. */
  lemma TermsDiffer(coef: int, choose: int, e: int, x: int, v: int, a: int, c: int, d: int, b: int, u: int)
    requires Same(coef, choose, TWO_32) && Same(v, coef * e + b, TWO_32) && Same(c, d + a * b, TWO_32) && Same(u, a + x, TWO_32)
    ensures Same(OpenTerm(v, a, c), MidTerm(coef * e, u, d) - choose * e * x, TWO_32)
  {
    hide Same;
    SameRefl(a);
    SameRefl(e);
    SameRefl(x);
    SameRefl(d);
    SameMul(v, coef * e + b, a, a, TWO_32);
    SameAdd(v * a, (coef * e + b) * a, c, d + a * b, TWO_32);
    SameRefl(coef * e);
    SameMul(coef * e, coef * e, u, a + x, TWO_32);
    SameMul(coef, choose, e, e, TWO_32);
    SameMul(coef * e, choose * e, x, x, TWO_32);
    SameAdd(coef * e * u, coef * e * (a + x), d, d, TWO_32);
    SameAdd(coef * e * u - d, coef * e * (a + x) - d, choose * e * x, coef * e * x, TWO_32) by {
      SameSym(coef * e * x, choose * e * x);
    }
    OpenedTerm(coef * e, a, b, d, x);
    SameSym(coef * e * u - d - choose * e * x, coef * e * a - d);
    SameTrans(v * a - c, coef * e * a - d, coef * e * u - d - choose * e * x);
  }

  lemma SameSym(a: int, b: int)
    requires Same(a, b, TWO_32)
    ensures Same(b, a, TWO_32)
  {
  }

  lemma OpenedTerm(m: int, a: int, b: int, d: int, x: int)
    ensures (m + b) * a - (d + a * b) == m * a - d
    ensures m * (a + x) - d - m * x == m * a - d
  {
  }

  /** What the OPPRF gives the sender for the matching prefix. */
  ghost predicate Programmed(p: nat, u: seq<Word32>, diff: nat, ap: Word32, aVole: seq<Word32>) {
    && |u| == p + 1 && |aVole| + 1 == p
    && Same(u[p], ap + Power(diff, p), TWO_32)
    && forall s :: 1 <= s < p ==> Same(u[s], aVole[s - 1] + Power(diff, s), TWO_32)
  }

  ghost predicate Offered(p: nat, v: seq<Word32>, e: nat, bDelta: Word32) {
    |v| == p && forall s :: 1 <= s < p ==> Same(v[s - 1], Coef(p, s) * Power(e, p - s) + bDelta, TWO_32)
  }

  /** The expansion of (e + x)^p with the coefficients as the code computes them. */
  function CodeSum(p: nat, e: int, x: int, k: nat): int
    requires k <= p + 1
  {
    if k == 0 then 0 else CodeSum(p, e, x, k - 1) + Coef(p, k - 1) * Power(e, p - (k - 1)) * Power(x, k - 1)
  }

  /** The opened sum is the middle sum less the middle of the expansion. */
  lemma {:induction false} SumsDiffer(p: nat, u: seq<Word32>, v: seq<Word32>, e: nat, diff: nat, ap: Word32,
                                      aVole: seq<Word32>, cVole: seq<Word32>, dVole: seq<Word32>, bDelta: Word32, k: nat)
    requires 1 <= k <= p && Programmed(p, u, diff, ap, aVole) && Offered(p, v, e, bDelta) && Vole(aVole, cVole, dVole, bDelta)
    ensures Same(OpenSum(p, v, aVole, cVole, k), MidSum(p, u, e, dVole, k) - (CodeSum(p, e, diff, k) - Power(e, p)), TWO_32)
  {
    hide Same, Power, Coef;
    if k == 1 {
      FirstTerm(p, e, diff);
      SameRefl(0);
    } else {
      var s := k - 1;
      SumsDiffer(p, u, v, e, diff, ap, aVole, cVole, dVole, bDelta, s);
      SameRefl(Coef(p, s));
      TermsDiffer(Coef(p, s), Coef(p, s), Power(e, p - s), Power(diff, s), v[s - 1], aVole[s - 1], cVole[s - 1], dVole[s - 1], bDelta, u[s]);
      SameAdd(OpenSum(p, v, aVole, cVole, s), MidSum(p, u, e, dVole, s) - (CodeSum(p, e, diff, s) - Power(e, p)),
              OpenTerm(v[s - 1], aVole[s - 1], cVole[s - 1]),
              MidTerm(Coef(p, s) * Power(e, p - s), u[s], dVole[s - 1]) - Coef(p, s) * Power(e, p - s) * Power(diff, s), TWO_32);
    }
  }

  lemma FirstTerm(p: nat, e: nat, x: nat)
    ensures CodeSum(p, e, x, 1) == Power(e, p)
  {
    assert Power(x, 0) == 1 && Coef(p, 0) == 1;
    assert CodeSum(p, e, x, 0) == 0;
  }

  lemma LastTerm(p: nat, e: int, x: int)
    ensures CodeSum(p, e, x, p + 1) == CodeSum(p, e, x, p) + Power(x, p)
  {
    assert Power(e, 0) == 1 && Coef(p, p) == 1;
  }

  /** mask - v_hat is the expansion with the computed coefficients, whether they
      are right or not. */
  lemma SharesAddUp(p: nat, u: seq<Word32>, v: seq<Word32>, e: nat, diff: nat, ap: Word32, aVole: seq<Word32>, cVole: seq<Word32>,
                    dVole: seq<Word32>, bDelta: Word32, mask: Word32, uHat: Word32, vHat: Word32)
    requires 1 <= p && Programmed(p, u, diff, ap, aVole) && Offered(p, v, e, bDelta) && Vole(aVole, cVole, dVole, bDelta)
    requires Same(uHat, u[p] + Power(e, p) + MidSum(p, u, e, dVole, p), TWO_32) && v[p - 1] == U32(mask - uHat)
    requires Same(vHat, ap + v[p - 1] + OpenSum(p, v, aVole, cVole, p), TWO_32)
    ensures Same((mask as int) - vHat, CodeSum(p, e, diff, p + 1), TWO_32)
  {
    hide CodeSum, Power, MidSum, OpenSum;
    SumsDiffer(p, u, v, e, diff, ap, aVole, cVole, dVole, bDelta, p);
    LastTerm(p, e, diff);
    U32Same(mask - uHat, 0);
    FinalSum(mask, uHat, vHat, v[p - 1], u[p], ap, Power(diff, p), Power(e, p), MidSum(p, u, e, dVole, p),
             OpenSum(p, v, aVole, cVole, p), CodeSum(p, e, diff, p));
  }

  /** That is the power of the sum if the coefficients are right, or if one of the
      two differences is zero. */
  lemma ExpansionIsPower(p: nat, e: nat, x: nat)
    requires 1 <= p && (ExactCoefs(p) || e == 0 || x == 0)
    ensures Same(CodeSum(p, e, x, p + 1), Power(e + x, p), TWO_32)
  {
    hide CodeSum, Power, Same, Coef, Choose;
    if ExactCoefs(p) {
      ExactSum(p, e, x, p + 1);
      BinomialTheorem(p, e, x);
    } else {
      OneSided(p, e, x, p);
      LastTerm(p, e, x);
      PowerOfZero(p);
      SameRefl(Power(e + x, p));
    }
  }

  lemma {:induction false} ExactSum(p: nat, e: nat, x: nat, k: nat)
    requires k <= p + 1 && ExactCoefs(p)
    ensures Same(CodeSum(p, e, x, k), Expansion(p, e, x, k), TWO_32)
  {
    hide Power, Same, Coef, Choose;
    if k == 0 {
      SameRefl(0);
    } else {
      var t := k - 1;
      ExactSum(p, e, x, t);
      var a, b := Power(e, p - t), Power(x, t);
      SameRefl(a);
      SameRefl(b);
      SameMul(Coef(p, t), Choose(p, t), a, a, TWO_32);
      SameMul(Coef(p, t) * a, Choose(p, t) * a, b, b, TWO_32);
      SameAdd(CodeSum(p, e, x, t), Expansion(p, e, x, t), Coef(p, t) * a * b, Choose(p, t) * a * b, TWO_32);
    }
  }

  lemma PowerOfZero(n: nat)
    requires n >= 1
    ensures Power(0, n) == 0
  {
  }

  /** With one difference zero the middle terms vanish. */
  lemma {:induction false} OneSided(p: nat, e: nat, x: nat, k: nat)
    requires k <= p && (e == 0 || x == 0)
    ensures CodeSum(p, e, x, k) == if k == 0 then 0 else Power(e, p)
  {
    hide Power, Coef;
    if k == 1 {
      FirstTerm(p, e, x);
    } else if k > 1 {
      OneSided(p, e, x, k - 1);
      PowerOfZero(p - (k - 1));
      PowerOfZero(k - 1);
      ZeroFactor(Coef(p, k - 1), Power(e, p - (k - 1)), Power(x, k - 1));
      if e == 0 {
        PowerOfZero(p);
      }
    }
  }

  lemma ZeroFactor(c: int, a: int, b: int)
    ensures a == 0 || b == 0 ==> c * a * b == 0
  {
  }

  /** At p = 31 and two differences of one it is not: two coefficients are too
      small. */
  lemma ExpansionFails()
    ensures !Same(CodeSum(31, 1, 1, 32), Power(2, 31), TWO_32)
  {
    hide CodeSum, Power, Coef, Choose;
    OnesApart(32);
    BinomialTheorem(31, 1, 1);
    var p := Power(2, 31);
    assert Expansion(31, 1, 1, 32) == p;
    NotSame(p);
  }

  const SHORTFALL: nat := 286331154

  lemma NotSame(p: int)
    ensures !Same(p - 2 * SHORTFALL, p, TWO_32)
  {
  }

  lemma {:induction false} OnesApart(k: nat)
    requires k <= 32
    ensures CodeSum(31, 1, 1, k) == Expansion(31, 1, 1, k) - (if k > 16 then 2 * SHORTFALL else if k > 15 then SHORTFALL else 0)
  {
    hide Power, Coef, Choose;
    if k > 0 {
      var t := k - 1;
      OnesApart(t);
      PowerOfOne(31 - t);
      PowerOfOne(t);
      CoefOf31(t);
    }
  }

  lemma {:induction false} PowerOfOne(n: nat)
    ensures Power(1, n) == 1
  {
    if n > 0 {
      PowerOfOne(n - 1);
    }
  }

  lemma CoefOf31(t: nat)
    requires t <= 31
    ensures Coef(31, t) == Choose(31, t) - if t == 15 || t == 16 then SHORTFALL else 0
  {
    hide Rounds, Choose, Fits;
    if t == 15 || t == 16 {
      CombinationWraps();
      ChooseSymmetric(31, 15);
    } else {
      var k := if t > 31 - t then 31 - t else t;
      Fits31(k);
      CombinationIsExact(31, t, TWO_32);
    }
  }

  lemma FinalSum(mask: int, uHat: int, vHat: int, v: int, up: int, ap: int, x: int, ep: int, mid: int, open: int, exp: int)
    requires Same(up, ap + x, TWO_32) && Same(uHat, up + ep + mid, TWO_32) && Same(v, mask - uHat, TWO_32)
    requires Same(vHat, ap + v + open, TWO_32) && Same(open, mid - (exp - ep), TWO_32)
    ensures Same(mask - vHat, exp + x, TWO_32)
  {
    hide Same;
    var total := ap + x + ep + mid;
    SameRefl(ep + mid);
    SameAdd(up, ap + x, ep + mid, ep + mid, TWO_32);
    SameTrans(uHat, up + ep + mid, total);
    SameRefl(mask);
    SameAdd(mask, mask, uHat, total, TWO_32);
    SameTrans(v, mask - uHat, mask - total);
    SameRefl(ap);
    SameAdd(ap, ap, v, mask - total, TWO_32);
    SameAdd(ap + v, ap + mask - total, open, mid - (exp - ep), TWO_32);
    SameTrans(vHat, ap + v + open, mask - x - exp);
    SameAdd(mask, mask, vHat, mask - x - exp, TWO_32);
  }

  /** A prefix of v lies in the interval it was decomposed from. */
  lemma PrefixInInterval(x: nat, y: nat, u: seq<nat>, v: nat, d: string)
    requires x <= y < TwoTo64() && y - x + 1 < 0x8000_0000 && v < TwoTo64() && Short(Prefixes(x, y))
    requires d in Refined(Prefixes(x, y), u) && d <= Binary(v, NUM_BITS)
    ensures x <= LowBound(d) <= v <= UpBound(d) <= y
  {
    hide TwoTo64, Prefixes, Refined, Binary, LowBound, UpBound;
    PrefixIsBinary(d, v);
    BoundsInRange(d);
    BoundsOfPrefix(d, v);
    BoundsOfPrefix(d, LowBound(d));
    BoundsOfPrefix(d, UpBound(d));
    CoveredBy(x, y, u, LowBound(d), d);
    CoveredBy(x, y, u, UpBound(d), d);
  }

  lemma PrefixIsBinary(d: string, v: nat)
    requires d <= Binary(v, NUM_BITS) && v < TwoTo64()
    ensures IsBinary(d) && |d| <= NUM_BITS
  {
    hide TwoTo64, Binary, Exp2;
    EvaluateTwoTo64();
    ValueOfBinary(v, NUM_BITS);
  }

  lemma BoundsInRange(d: string)
    requires IsBinary(d) && |d| <= NUM_BITS
    ensures LowBound(d) <= UpBound(d) < TwoTo64()
  {
    hide TwoTo64, Value, Exp2, Scale;
    var m := NUM_BITS - |d|;
    PaddedValue(d, m);
    RepeatBinary('1', m);
    BinaryOfValue(d + Repeat('1', m));
    EvaluateTwoTo64();
  }

  lemma {:induction false} RepeatBinary(c: char, n: nat)
    requires c == '0' || c == '1'
    ensures IsBinary(Repeat(c, n))
  {
    if n > 0 {
      RepeatBinary(c, n - 1);
    }
  }

  /** A value that has one of the strings as a prefix is in the interval. */
  lemma CoveredBy(x: nat, y: nat, u: seq<nat>, v: nat, d: string)
    requires x <= y < TwoTo64() && y - x + 1 < 0x8000_0000 && v < TwoTo64() && Short(Prefixes(x, y))
    requires d in Refined(Prefixes(x, y), u) && d <= Binary(v, NUM_BITS)
    ensures x <= v <= y
  {
    hide TwoTo64, Prefixes, Refined, Binary;
    RefinedHits(Prefixes(x, y), u, v);
    PrefixesTile(x, y, v);
    HitsSome(Refined(Prefixes(x, y), u), v, d);
  }

  lemma {:induction false} HitsSome(ds: seq<string>, v: nat, d: string)
    requires d in ds && d <= Binary(v, NUM_BITS)
    ensures Hits(ds, v) > 0
  {
    if d in ds[..|ds| - 1] {
      HitsSome(ds[..|ds| - 1], v, d);
    }
  }

  /** Both halves of a point's interval can be decomposed: neither end leaves the
      64-bit range, except that the upper half of the largest value starts at
      zero again. */
  predicate HalvesExist(x: nat, delta: nat) {
    delta <= x && (x + delta < TwoTo64() || x + 1 == TwoTo64())
  }

  /** The two sets of a point, below and above it, with wrapping ends. */
  method Halves(x: nat, delta: nat, u0: seq<nat>, u1: seq<nat>) returns (r: Result<(seq<string>, seq<string>)>)
    requires x < TwoTo64() && 1 <= delta < 0x7FFF_FFFF && Ascending(u0) && Ascending(u1)
    ensures r.Err? <==> !HalvesExist(x, delta) || u0 == [] || u1 == []
    ensures r.Ok? ==> U64(x + 1) <= U64(x + delta) && Short(Prefixes(x - delta, x)) && Short(Prefixes(U64(x + 1), U64(x + delta)))
    ensures r.Ok? ==> r.value == (Refined(Prefixes(x - delta, x), u0), Refined(Prefixes(U64(x + 1), U64(x + delta)), u1))
  {
    hide TwoTo64, U64, Prefixes, Refined;
    EndsWrap(x, delta);
    var lower := SetDec.SetDec(U64(x - delta), x, u0);
    if lower.Err? {
      return Err(lower.error);
    }
    var upper := SetDec.SetDec(U64(x + 1), U64(x + delta), u1);
    if upper.Err? {
      return Err(upper.error);
    }
    return Ok((lower.value, upper.value));
  }

  lemma EndsWrap(x: nat, delta: nat)
    requires x < TwoTo64() && 1 <= delta < 0x7FFF_FFFF
    ensures U64(x - delta) <= x <==> delta <= x
    ensures U64(x + 1) <= U64(x + delta) <==> x + delta < TwoTo64() || x + 1 == TwoTo64()
    ensures delta <= x ==> U64(x - delta) == x - delta
    ensures U64(x + 1) == if x + 1 < TwoTo64() then x + 1 else 0
    ensures U64(x + delta) == if x + delta < TwoTo64() then x + delta else x + delta - TwoTo64()
    ensures TwoTo64() > 2 * delta && (x < delta ==> U64(x - delta) == x - delta + TwoTo64())
  {
  }

  /** The side of the receiver's value on which a prefix was programmed. */
  ghost predicate Programs(x: nat, delta: nat, sigma: bool, u: seq<nat>, d: string)
    requires x < TwoTo64() && 1 <= delta < 0x7FFF_FFFF && HalvesExist(x, delta)
  {
    EndsWrap(x, delta);
    if sigma then Short(Prefixes(U64(x + 1), U64(x + delta))) && d in Refined(Prefixes(U64(x + 1), U64(x + delta)), u)
    else Short(Prefixes(x - delta, x)) && d in Refined(Prefixes(x - delta, x), u)
  }

  /** The receiver's distance to the near end of a prefix, and the sender's
      from there, both as u64 differences. */
  function RecvDiff(x: nat, sigma: bool, d: string): nat
    requires |d| <= NUM_BITS
  {
    if sigma then U64(LowBound(d) - x) else U64(x - UpBound(d))
  }

  function SendDiff(y: nat, sigma: bool, d: string): nat
    requires |d| <= NUM_BITS
  {
    if sigma then U64(y - LowBound(d)) else U64(UpBound(d) - y)
  }

  /** How far y is from x on one side, as a u64 difference. */
  function Reach(x: nat, y: nat, sigma: bool): nat { if sigma then U64(y - x) else U64(x - y) }

  /** For the matching prefix the two differences make up the distance, which for
      the upper half of the largest value goes on from zero. */
  lemma DifferencesAddUp(x: nat, y: nat, delta: nat, sigma: bool, u: seq<nat>, d: string)
    requires x < TwoTo64() && y < TwoTo64() && 1 <= delta < 0x7FFF_FFFF && HalvesExist(x, delta)
    requires Programs(x, delta, sigma, u, d) && d <= Binary(y, NUM_BITS)
    ensures |d| <= NUM_BITS && RecvDiff(x, sigma, d) + SendDiff(y, sigma, d) == Reach(x, y, sigma) <= delta
    ensures Distance(x, y) <= delta ==> Reach(x, y, sigma) == Distance(x, y)
    ensures !sigma || x + delta < TwoTo64() ==> Distance(x, y) <= delta
  {
    hide Prefixes, Refined, Binary, LowBound, UpBound;
    PrefixIsBinary(d, y);
    EndsWrap(x, delta);
    if sigma {
      PrefixInInterval(U64(x + 1), U64(x + delta), u, y, d);
    } else {
      PrefixInInterval(x - delta, x, u, y, d);
    }
  }

  /** Within distance delta exactly one prefix of one side matches, else none,
      except for the largest value: its upper half matches the lowest values. */
  lemma OneMatch(x: nat, y: nat, delta: nat, u0: seq<nat>, u1: seq<nat>)
    requires x < TwoTo64() && y < TwoTo64() && 1 <= delta < 0x7FFF_FFFF && HalvesExist(x, delta)
    requires AllowedLengths(u0) && 0 in u0 && AllowedLengths(u1) && 0 in u1
    ensures Matches(x - delta, x, u0, y) + Matches(U64(x + 1), U64(x + delta), u1, y)
      == Count(Distance(x, y) <= delta) + Count(x + 1 == TwoTo64() && y < delta)
  {
    hide TwoTo64, U64, Matches, AllowedLengths;
    EndsWrap(x, delta);
    MatchesExactlyOnce(x - delta, x, u0, y);
    MatchesExactlyOnce(U64(x + 1), U64(x + delta), u1, y);
  }

  /** One dimension of one bin: what both parties compute for the prefix d that
      the receiver programmed and the sender's value y has. The OPPRFs hand over
      the row and the offer. */
  method DimensionShare(p: nat, x: nat, y: nat, delta: nat, sigma: bool, ghost lengths: seq<nat>, d: string, a0: Word32, ap: Word32,
                        aVole: seq<Word32>, cVole: seq<Word32>, dVole: seq<Word32>, bDelta: Word32, mask: Word32) returns (vHat: Word32)
    requires 1 <= p < TWO_32 && p == |aVole| + 1 && Vole(aVole, cVole, dVole, bDelta)
    requires x < TwoTo64() && y < TwoTo64() && 1 <= delta < 0x7FFF_FFFF && HalvesExist(x, delta)
    requires Programs(x, delta, sigma, lengths, d) && |d| <= NUM_BITS && d <= Binary(y, NUM_BITS)
    ensures Same((mask as int) - vHat, CodeSum(p, SendDiff(y, sigma, d), RecvDiff(x, sigma, d), p + 1), TWO_32)
    ensures ExactCoefs(p) || Reach(x, y, sigma) <= 1 ==> Same((mask as int) - vHat, Power(Reach(x, y, sigma), p), TWO_32)
  {
    hide TwoTo64, Programs, Binary, Same, Power, Coef, U64, MidSum, OpenSum, LowBound, UpBound, CodeSum, Reach, Distance, ExactCoefs, HalvesExist;
    var diff := RecvDiff(x, sigma, d);
    var e := SendDiff(y, sigma, d);
    DiffBelow(x, sigma, d);
    DiffBelow(y, sigma, d);
    var row := PrefixVals(p, diff, a0, ap, aVole);
    var uHat, v := Candidate(p, row, e, dVole, bDelta, mask);
    vHat := VHat(p, v, ap, aVole, cVole);
    DifferencesAddUp(x, y, delta, sigma, lengths, d);
    RowIsProgrammed(p, row, diff, ap, aVole);
    SharesAddUp(p, row, v, e, diff, ap, aVole, cVole, dVole, bDelta, mask, uHat, vHat);
    if ExactCoefs(p) || Reach(x, y, sigma) <= 1 {
      ExpansionIsPower(p, e, diff);
      SameTrans((mask as int) - vHat, CodeSum(p, e, diff, p + 1), Power(e + diff, p));
    }
  }

  lemma DiffBelow(x: nat, sigma: bool, d: string)
    requires |d| <= NUM_BITS
    ensures RecvDiff(x, sigma, d) < TwoTo64() && SendDiff(x, sigma, d) < TwoTo64()
  {
  }

  lemma RowIsProgrammed(p: nat, row: seq<Word32>, diff: nat, ap: Word32, aVole: seq<Word32>)
    requires 1 <= p == |aVole| + 1 && |row| == p + 1 && row[p] == U32(ap + Power(diff, p))
    requires forall s :: 1 <= s < p ==> row[s] == U32(aVole[s - 1] + Power(diff, s))
    ensures Programmed(p, row, diff, ap, aVole)
  {
    hide Power;
    U32Same(ap + Power(diff, p), 0);
    forall s | 1 <= s < p
      ensures Same(row[s], aVole[s - 1] + Power(diff, s), TWO_32)
    {
      U32Same(aVole[s - 1] + Power(diff, s), 0);
    }
  }

  function SumOf(s: seq<nat>): nat {
    if s == [] then 0 else SumOf(s[..|s| - 1]) + s[|s| - 1]
  }

  /** The u64 sums both parties take over the dimensions. */
  method SumUp(s: seq<Word32>) returns (sum: nat)
    requires |s| < TWO_32
    ensures sum == SumOf(s) < TwoTo64()
  {
    sum := 0;
    for j := 0 to |s|
      invariant sum == SumOf(s[..j]) <= j * TWO_32
    {
      assert s[..j + 1][..j] == s[..j];
      sum := U64(sum + s[j]);
    }
    assert s[..|s|] == s;
  }

  /** How many masks are below the power they hide. */
  function Wraps(masks: seq<Word32>, dists: seq<nat>): nat
    requires |masks| == |dists|
  {
    if masks == [] then 0 else Wraps(masks[..|masks| - 1], dists[..|dists| - 1]) + Count(masks[|masks| - 1] < dists[|dists| - 1])
  }

  /** Each share pair adds up to its power modulo 2^32. */
  ghost predicate Shares(masks: seq<Word32>, hats: seq<Word32>, dists: seq<nat>) {
    |masks| == |hats| == |dists|
    && forall j :: 0 <= j < |masks| ==> dists[j] < TWO_32 && Same((masks[j] as int) - hats[j], dists[j], TWO_32)
  }

  /** The sums are the distance apart, less 2^32 for every wrap. */
  lemma {:induction false} SumsApart(masks: seq<Word32>, hats: seq<Word32>, dists: seq<nat>)
    requires Shares(masks, hats, dists)
    ensures SumOf(masks) - SumOf(hats) == SumOf(dists) - TWO_32 * Wraps(masks, dists)
  {
    hide Same, Count;
    if masks != [] {
      var n := |masks| - 1;
      SumsApart(masks[..n], hats[..n], dists[..n]);
      OneApart(masks[n], hats[n], dists[n]);
    }
  }

  lemma OneApart(mask: Word32, hat: Word32, dist: Word32)
    requires Same((mask as int) - hat, dist, TWO_32)
    ensures (mask as int) - hat == dist - TWO_32 * Count(mask < dist)
  {
  }

  lemma {:induction false} NoWraps(masks: seq<Word32>, dists: seq<nat>)
    requires |masks| == |dists|
    ensures Wraps(masks, dists) == 0 <==> forall j :: 0 <= j < |masks| ==> masks[j] >= dists[j]
  {
    if masks != [] {
      NoWraps(masks[..|masks| - 1], dists[..|dists| - 1]);
    }
  }

  /** The threshold match: v_sum is decomposed up to v_sum + threshold, and the
      prefixes of u_sum meet it when the sum of the powers, less the wraps, is
      between zero and the threshold. */
  lemma MeetsExactly(masks: seq<Word32>, hats: seq<Word32>, dists: seq<nat>, threshold: nat, u: seq<nat>)
    requires Shares(masks, hats, dists) && threshold < 0x7FFF_FFFF && SumOf(hats) + threshold < TwoTo64() && SumOf(masks) < TwoTo64()
    requires AllowedLengths(u) && 0 in u
    ensures Matches(SumOf(hats), SumOf(hats) + threshold, u, SumOf(masks))
      == Count(0 <= SumOf(dists) - TWO_32 * Wraps(masks, dists) <= threshold)
  {
    hide Matches, AllowedLengths, Shares, TwoTo64;
    SumsApart(masks, hats, dists);
    MatchesExactlyOnce(SumOf(hats), SumOf(hats) + threshold, u, SumOf(masks));
  }

  /** Points within the threshold meet exactly when no coordinate wraps; points
      beyond it do not meet unless one does. */
  lemma MeetsIffClose(masks: seq<Word32>, hats: seq<Word32>, dists: seq<nat>, threshold: nat, u: seq<nat>)
    requires Shares(masks, hats, dists) && threshold < 0x7FFF_FFFF && SumOf(hats) + threshold < TwoTo64() && SumOf(masks) < TwoTo64()
    requires AllowedLengths(u) && 0 in u
    ensures SumOf(dists) <= threshold ==>
      Matches(SumOf(hats), SumOf(hats) + threshold, u, SumOf(masks)) == Count(forall j :: 0 <= j < |masks| ==> masks[j] >= dists[j])
    ensures (forall j :: 0 <= j < |masks| ==> masks[j] >= dists[j]) ==>
      Matches(SumOf(hats), SumOf(hats) + threshold, u, SumOf(masks)) == Count(SumOf(dists) <= threshold)
  {
    hide Matches, AllowedLengths, Shares, TwoTo64, SumOf, Wraps;
    MeetsExactly(masks, hats, dists, threshold, u);
    assert |masks| == |dists| by {
      SameSizes(masks, hats, dists);
    }
    NoWraps(masks, dists);
  }

  lemma SameSizes(masks: seq<Word32>, hats: seq<Word32>, dists: seq<nat>)
    requires Shares(masks, hats, dists)
    ensures |masks| == |hats| == |dists|
  {
  }

  /** What one dimension of a bin draws and receives: the receiver's random
      values, the VOLE shares and the sender's mask. */
  datatype Inputs = Inputs(a0: Word32, ap: Word32, aVole: seq<Word32>, cVole: seq<Word32>, dVole: seq<Word32>, mask: Word32)

  ghost predicate Ready(p: nat, x: nat, y: nat, delta: nat, b: Inputs, bDelta: Word32) {
    && x < TwoTo64() && y < TwoTo64() && 1 <= delta < 0x7FFF_FFFF && HalvesExist(x, delta) && Distance(x, y) <= delta
    && p == |b.aVole| + 1 && Vole(b.aVole, b.cVole, b.dVole, bDelta)
  }

  /** The string of a list that the value has as a prefix. */
  method FindIn(ds: seq<string>, v: nat) returns (found: bool, d: string)
    ensures found <==> Hits(ds, v) > 0
    ensures found ==> d in ds && d <= Binary(v, NUM_BITS)
  {
    found, d := false, "";
    for k := 0 to |ds|
      invariant found <==> Hits(ds[..k], v) > 0
      invariant found ==> d in ds && d <= Binary(v, NUM_BITS)
    {
      assert ds[..k + 1][..k] == ds[..k];
      if ds[k] <= Binary(v, NUM_BITS) {
        found, d := true, ds[k];
      }
    }
    assert ds[..|ds|] == ds;
  }

  /** The programmed prefix that the other value has, if it is close. */
  method FindPrefix(x: nat, y: nat, delta: nat, u0: seq<nat>, u1: seq<nat>) returns (sigma: bool, d: string)
    requires x < TwoTo64() && y < TwoTo64() && 1 <= delta < 0x7FFF_FFFF && HalvesExist(x, delta) && Distance(x, y) <= delta
    requires Ascending(u0) && Ascending(u1) && u0 != [] && u1 != []
    ensures Programs(x, delta, sigma, if sigma then u1 else u0, d) && d <= Binary(y, NUM_BITS)
  {
    hide TwoTo64, U64, Prefixes, Refined, Binary, Hits, Ascending;
    EndsWrap(x, delta);
    var halves := Halves(x, delta, u0, u1);
    assert halves.Ok?;
    HitsInside(x - delta, x, u0, y);
    HitsInside(U64(x + 1), U64(x + delta), u1, y);
    var found;
    sigma := false;
    found, d := FindIn(halves.value.0, y);
    if !found {
      sigma := true;
      found, d := FindIn(halves.value.1, y);
      assert found;
    }
  }

  /** The refined blocks of an interval have one prefix of each value inside. */
  lemma HitsInside(x: nat, y: nat, u: seq<nat>, v: nat)
    requires x <= y < TwoTo64() && y - x + 1 < 0x8000_0000 && v < TwoTo64() && Short(Prefixes(x, y))
    ensures Hits(Refined(Prefixes(x, y), u), v) == Count(x <= v <= y)
  {
    hide TwoTo64, Prefixes, Refined, Hits;
    RefinedHits(Prefixes(x, y), u, v);
    PrefixesTile(x, y, v);
  }

  ghost function Masks(bs: seq<Inputs>): (r: seq<Word32>)
    ensures |r| == |bs| && forall j :: 0 <= j < |bs| ==> r[j] == bs[j].mask
  {
    seq(|bs|, j requires 0 <= j < |bs| => bs[j].mask)
  }

  ghost function Powers(p: nat, xs: seq<nat>, ys: seq<nat>): (r: seq<nat>)
    requires |xs| == |ys|
    ensures |r| == |xs| && forall j :: 0 <= j < |xs| ==> r[j] == Power(Distance(xs[j], ys[j]), p)
  {
    seq(|xs|, j requires 0 <= j < |xs| => Power(Distance(xs[j], ys[j]), p))
  }

  method OneDimension(p: nat, x: nat, y: nat, delta: nat, u0: seq<nat>, u1: seq<nat>, b: Inputs, bDelta: Word32) returns (vHat: Word32)
    requires Ascending(u0) && Ascending(u1) && u0 != [] && u1 != []
    requires 1 <= p < TWO_32 && Power(delta, p) < 0x7FFF_FFFF && Ready(p, x, y, delta, b, bDelta)
    ensures 0 <= Power(Distance(x, y), p) < TWO_32 && Same((b.mask as int) - vHat, Power(Distance(x, y), p), TWO_32)
  {
    hide TwoTo64, Power, Same, Distance, Programs, Vole, Binary, ExactCoefs, HalvesExist, CodeSum, Reach, RecvDiff, SendDiff;
    if p <= 30 {
      SmallMetricsAreExact(p);
    } else {
      OnlyOnes(delta, p);
    }
    PowerMono(Distance(x, y), delta, p);
    var sigma, d := FindPrefix(x, y, delta, u0, u1);
    ghost var u := if sigma then u1 else u0;
    DifferencesAddUp(x, y, delta, sigma, u, d);
    vHat := DimensionShare(p, x, y, delta, sigma, u, d, b.a0, b.ap, b.aVole, b.cVole, b.dVole, bDelta, b.mask);
  }

  /** A threshold that fits with a power above thirty leaves only distance one. */
  lemma OnlyOnes(delta: nat, p: nat)
    requires p > 30 && Power(delta, p) < 0x7FFF_FFFF
    ensures delta <= 1
  {
    hide Power;
    if delta >= 2 {
      PowerMono(2, delta, p);
      TwoPower(p);
    }
  }

  lemma {:induction false} TwoPower(p: nat)
    requires p >= 31
    ensures Power(2, p) >= 0x8000_0000
  {
    if p == 31 {
      PowersOfTwo();
    } else {
      TwoPower(p - 1);
    }
  }

  lemma PowersOfTwo()
    ensures Power(2, 31) == 0x8000_0000
  {
    assert Power(2, 8) == 0x100 && Power(2, 16) == 0x1_0000 && Power(2, 24) == 0x100_0000;
  }

  /** All dimensions of a bin. */
  method Dimensions(p: nat, delta: nat, xs: seq<nat>, ys: seq<nat>, u0: seq<nat>, u1: seq<nat>, bs: seq<Inputs>, bDelta: Word32)
    returns (masks: seq<Word32>, hats: seq<Word32>)
    requires Ascending(u0) && Ascending(u1) && u0 != [] && u1 != []
    requires 1 <= p < TWO_32 && |xs| == |ys| == |bs| && Power(delta, p) < 0x7FFF_FFFF
    requires forall j :: 0 <= j < |xs| ==> Ready(p, xs[j], ys[j], delta, bs[j], bDelta)
    ensures masks == Masks(bs) && Shares(masks, hats, Powers(p, xs, ys))
  {
    hide TwoTo64, Power, Same, Distance, Ready;
    masks, hats := [], [];
    for j := 0 to |xs|
      invariant |masks| == |hats| == j && forall k :: 0 <= k < j ==> masks[k] == bs[k].mask
      invariant forall k :: 0 <= k < j ==>
        0 <= Power(Distance(xs[k], ys[k]), p) < TWO_32 && Same((masks[k] as int) - hats[k], Power(Distance(xs[k], ys[k]), p), TWO_32)
    {
      var vHat := OneDimension(p, xs[j], ys[j], delta, u0, u1, bs[j], bDelta);
      masks, hats := masks + [bs[j].mask], hats + [vHat];
    }
  }

  /** A whole bin: both parties' sums, from one share per dimension. If no mask
      is below the power it hides, the threshold match decides whether the p-th
      power distance is at most delta^p; and a bin within it meets only then. */
  method BinMatch(p: nat, delta: nat, xs: seq<nat>, ys: seq<nat>, u0: seq<nat>, u1: seq<nat>, bs: seq<Inputs>, bDelta: Word32, ghost u: seq<nat>)
    returns (uSum: nat, vSum: nat, threshold: nat)
    requires Ascending(u0) && Ascending(u1) && u0 != [] && u1 != []
    requires 1 <= p < TWO_32 && |xs| == |ys| == |bs| < 0x7FFF_FFFF && Power(delta, p) < 0x7FFF_FFFF && delta < TwoTo64()
    requires forall j :: 0 <= j < |xs| ==> Ready(p, xs[j], ys[j], delta, bs[j], bDelta)
    requires AllowedLengths(u) && 0 in u
    ensures threshold == Power(delta, p) && vSum + threshold < TwoTo64()
    ensures (forall j :: 0 <= j < |bs| ==> bs[j].mask >= Power(Distance(xs[j], ys[j]), p)) ==>
      Matches(vSum, vSum + threshold, u, uSum) == Count(SumOf(Powers(p, xs, ys)) <= threshold)
    ensures SumOf(Powers(p, xs, ys)) <= threshold ==>
      Matches(vSum, vSum + threshold, u, uSum) == Count(forall j :: 0 <= j < |bs| ==> bs[j].mask >= Power(Distance(xs[j], ys[j]), p))
  {
    hide TwoTo64, Power, Matches, AllowedLengths, SumOf, Shares, Distance, Ready, Count;
    var masks, hats := Dimensions(p, delta, xs, ys, u0, u1, bs, bDelta);
    SameSizes(masks, hats, Powers(p, xs, ys));
    uSum := SumUp(masks);
    vSum := SumUp(hats);
    threshold := FastPow(delta, p, TWO_32);
    SumBound(hats);
    ThresholdFits(Power(delta, p), |hats|, vSum);
    MeetsIffClose(masks, hats, Powers(p, xs, ys), threshold, u);
    assert (forall j :: 0 <= j < |bs| ==> bs[j].mask >= Power(Distance(xs[j], ys[j]), p)) <==>
      forall j :: 0 <= j < |masks| ==> masks[j] >= Powers(p, xs, ys)[j];
  }

  lemma ThresholdFits(power: nat, n: nat, vSum: nat)
    requires power < 0x7FFF_FFFF && n < 0x7FFF_FFFF
    ensures power % TWO_32 == power && (vSum <= n * TWO_32 ==> vSum + power < TwoTo64())
  {
  }

  lemma {:induction false} SumBound(s: seq<Word32>)
    ensures SumOf(s) <= |s| * TWO_32
  {
    if s != [] {
      SumBound(s[..|s| - 1]);
    }
  }

  lemma {:induction false} PowerMono(a: nat, b: nat, p: nat)
    requires a <= b
    ensures 0 <= Power(a, p) <= Power(b, p)
  {
    if p > 0 {
      PowerMono(a, b, p - 1);
      TimesMono(Power(a, p - 1), a, Power(b, p - 1), b);
    }
  }
}
