/** The sizes of decompositions, and the tables that bound them. */
module PrefixTables {
  import opened BinaryNumbers
  import opened Decompose
  import opened SetDec

  /** How many strings refine a block of 2^m values. */
  function Pieces(m: nat, u: seq<nat>): nat {
    if m in u then 1 else Exp2(m - SetRound(m, u))
  }

  /** The strings for one side of length n, counting bit 0 as a block of 2^j. */
  function SideSize(n: nat, j: nat, u: seq<nat>): nat {
    if n == 0 then 0 else SideSize(n / 2, j + 1, u) + if n % 2 == 1 then Pieces(j, u) else 0
  }

  lemma {:induction false} TopBit(v: nat, m: nat, j: nat, u: seq<nat>)
    requires v < Exp2(m)
    ensures SideSize(v + Exp2(m), j, u) == SideSize(v, j, u) + Pieces(j + m, u)
  {
    if m > 0 {
      assert (v + Exp2(m)) / 2 == v / 2 + Exp2(m - 1);
      TopBit(v / 2, m - 1, j + 1, u);
    }
  }

  lemma {:induction false} RefinedAppend(a: seq<string>, b: seq<string>, u: seq<nat>)
    requires Short(a) && Short(b)
    ensures Refined(a + b, u) == Refined(a, u) + Refined(b, u)
  {
    hide Refine;
    if b == [] {
      assert a + b == a;
    } else {
      RefinedAppend(a, b[..|b| - 1], u);
      assert (a + b)[..|a + b| - 1] == a + b[..|b| - 1];
    }
  }

  lemma RefinedOne(d: string, u: seq<nat>)
    requires |d| <= NUM_BITS
    ensures |Refined([d], u)| == Pieces(NUM_BITS - |d|, u)
  {
    hide Exp2, SetRound;
    assert [d][..0] == [];
    assert Refined([d], u) == Refined([], u) + Refine(d, u);
  }

  lemma BlocksShort(xp: int, yp: int, x: nat, y: nat, i: nat)
    requires i <= NUM_BITS
    ensures Short(Blocks(xp, yp, x, y, i))
  {
    hide Blocks;
    var ds := Blocks(xp, yp, x, y, i);
    forall k | 0 <= k < |ds|
      ensures |ds[k]| <= NUM_BITS
    {
      BlockLengths(xp, yp, x, y, i, ds[k]);
    }
  }

  /** The number of strings depends on the lengths of the two sides only. */
  lemma {:induction false} BlocksSize(xp: int, yp: int, x: nat, y: nat, i: nat, u: seq<nat>)
    requires i <= NUM_BITS
    ensures Short(Blocks(xp, yp, x, y, i))
    ensures |Refined(Blocks(xp, yp, x, y, i), u)| == SideSize(Low(x, i), 0, u) + SideSize(Low(y, i), 0, u)
    decreases i
  {
    hide Bit, U64, ToBinaryString, Exp2, Blocks, Low, Refined, Pieces, SideSize;
    BlocksShort(xp, yp, x, y, i);
    BlocksAre(xp, yp, x, y, i);
    if i == 0 {
      NoBits(x, y, u);
    } else {
      var m := i - 1;
      var xq, yq := if Bit(x, m) then xp + Exp2(m) else xp, if Bit(y, m) then yp - Exp2(m) else yp;
      var right := if Bit(x, m) then [ToBinaryString(U64(xp), NUM_BITS - m)] else [];
      var left := if Bit(y, m) then [ToBinaryString(U64(yp), NUM_BITS - m)] else [];
      BlocksSize(xq, yq, x, y, m, u);
      RefinedAppend(right + left, Blocks(xq, yq, x, y, m), u);
      RefinedAppend(right, left, u);
      MaybeOne(Bit(x, m), ToBinaryString(U64(xp), NUM_BITS - m), u);
      MaybeOne(Bit(y, m), ToBinaryString(U64(yp), NUM_BITS - m), u);
      SideStep(x, m, u);
      SideStep(y, m, u);
    }
  }

  lemma NoBits(x: nat, y: nat, u: seq<nat>)
    ensures |Refined([], u)| == SideSize(Low(x, 0), 0, u) + SideSize(Low(y, 0), 0, u)
  {
  }

  lemma MaybeOne(b: bool, d: string, u: seq<nat>)
    requires |d| <= NUM_BITS
    ensures |Refined(if b then [d] else [], u)| == if b then Pieces(NUM_BITS - |d|, u) else 0
  {
    hide Pieces;
    RefinedOne(d, u);
  }

  lemma SideStep(x: nat, m: nat, u: seq<nat>)
    ensures SideSize(Low(x, m + 1), 0, u) == SideSize(Low(x, m), 0, u) + if Bit(x, m) then Pieces(m, u) else 0
  {
    hide Low, Bit, Exp2, Pieces, SideSize;
    LowNext(x, m);
    HighLow(x, m);
    TopBit(Low(x, m), m, 0, u);
  }

  type Base = n: nat | n >= 1 witness 1

  /** The bases of a mixed-radix number, lowest digit first; the last digit is
      unbounded. */
  datatype Radices = End | Radix(base: Base, rest: Radices)

  function DigitSum(n: nat, rs: Radices): nat
    decreases rs
  {
    match rs
    case End => n
    case Radix(r, rest) => n % r + DigitSum(n / r, rest)
  }

  /** The digits between the allowed lengths from the k-th one on. */
  function RadicesFrom(u: seq<nat>, k: nat): Radices
    requires Ascending(u) && k < |u|
    decreases |u| - k
  {
    if k == |u| - 1 then End else Radix(Exp2(u[k + 1] - u[k]), RadicesFrom(u, k + 1))
  }

  lemma PiecesBetween(m: nat, u: seq<nat>, k: nat)
    requires Ascending(u) && k < |u| && u[k] <= m && (k + 1 < |u| ==> m < u[k + 1])
    ensures Pieces(m, u) == Exp2(m - u[k])
  {
    if m in u {
      var i :| 0 <= i < |u| && u[i] == m;
      assert i == k;
    } else {
      SetRoundIsLargest(m, u, k);
      var i :| 0 <= i < |u| && u[i] == SetRound(m, u);
      assert i == k;
    }
  }

  lemma {:induction false} ScaleTwice(n: nat, m: nat)
    ensures Scale(2 * n, m) == Scale(n, m + 1)
  {
    ScaleAdd(n, n, m);
  }

  /** The bits from j up to the next allowed length make up one digit. */
  lemma {:induction false} DigitSize(n: nat, j: nat, h: nat, u: seq<nat>, k: nat)
    requires Ascending(u) && k < |u| && u[k] <= j && (k + 1 < |u| ==> j + h <= u[k + 1])
    ensures SideSize(n, j, u) == Scale(Low(n, h), j - u[k]) + SideSize(Drop(n, h), j + h, u)
    decreases h
  {
    hide Ascending, Pieces;
    ScaleOne(j - u[k]);
    if h > 0 {
      DigitSize(n / 2, j + 1, h - 1, u, k);
      var e, l := j - u[k], Low(n / 2, h - 1);
      ScaleTwice(l, e);
      ScaleAdd(n % 2, 2 * l, e);
      PiecesBetween(j, u, k);
    }
  }

  /** All bits from the last allowed length on make up the last digit. */
  lemma {:induction false} LastDigitSize(n: nat, j: nat, u: seq<nat>)
    requires Ascending(u) && u != [] && u[|u| - 1] <= j
    ensures SideSize(n, j, u) == Scale(n, j - u[|u| - 1])
  {
    hide Ascending, Pieces;
    var e := j - u[|u| - 1];
    ScaleOne(e);
    if n > 0 {
      LastDigitSize(n / 2, j + 1, u);
      ScaleTwice(n / 2, e);
      ScaleAdd(n % 2, 2 * (n / 2), e);
      PiecesBetween(j, u, |u| - 1);
    }
  }

  lemma {:induction false} ScaleIsTimes(b: nat, m: nat)
    ensures Scale(b, m) == b * Exp2(m)
  {
    if m > 0 {
      ScaleIsTimes(b, m - 1);
      Twice(b, Exp2(m - 1));
    }
  }

  lemma ShiftsAreDivisions(n: nat, m: nat)
    ensures Low(n, m) == n % Exp2(m) && Drop(n, m) == n / Exp2(m)
  {
    hide Low, Drop, Scale, Exp2;
    HighLow(n, m);
    ScaleIsTimes(Drop(n, m), m);
    DivModUnique(n, Drop(n, m), Exp2(m), Low(n, m));
  }

  /** The size of one side is the digit sum of its length. */
  lemma {:induction false} SideIsDigitSum(n: nat, u: seq<nat>, k: nat)
    requires Ascending(u) && k < |u|
    ensures SideSize(n, u[k], u) == DigitSum(n, RadicesFrom(u, k))
    decreases |u| - k
  {
    hide SideSize, Exp2, Low, Drop;
    if k == |u| - 1 {
      LastDigitSize(n, u[k], u);
    } else {
      var h := u[k + 1] - u[k];
      DigitSize(n, u[k], h, u, k);
      ShiftsAreDivisions(n, h);
      SideIsDigitSum(Drop(n, h), u, k + 1);
    }
  }

  /** The number of strings of the decomposition of [min, max]. */
  ghost function DecSize(min: nat, max: nat, u: seq<nat>): nat
    requires min <= max && max - min + 1 < 0x8000_0000
  {
    PrefixLengths(min, max);
    |Refined(Prefixes(min, max), u)|
  }

  /** The length of the left side: how far it is to the next multiple of 2^(w-1). */
  ghost function LeftSide(min: nat, max: nat): (y: nat)
    requires min <= max && max - min + 1 < 0x8000_0000
    ensures y < Exp2(Width(min, max) - 1) && y <= max - min
  {
    Anchor(min, Width(min, max) - 1) - min
  }

  /** The size is the digit sums of the two side lengths. */
  lemma SizeIsDigitSums(min: nat, max: nat, u: seq<nat>)
    requires min <= max && max - min + 1 < 0x8000_0000 && Ascending(u) && u != [] && u[0] == 0
    ensures DecSize(min, max, u)
      == DigitSum(max - min + 1 - LeftSide(min, max), RadicesFrom(u, 0)) + DigitSum(LeftSide(min, max), RadicesFrom(u, 0))
  {
    hide Anchor, Low, Exp2, Blocks, Refined, FloorLog2, DigitSum, RadicesFrom, SideSize;
    var w := Width(min, max);
    var a := Anchor(min, w - 1);
    var x, y := max + 1 - a, a - min;
    Exp2Mono(w - 1, w);
    BlocksSize(a, a - 1, x, y, w, u);
    LowSmall(x, w);
    LowSmall(y, w);
    SideIsDigitSum(x, u, 0);
    SideIsDigitSum(y, u, 0);
  }

  /** So intervals of one length whose starts agree modulo 2^(w-1) have
      decompositions of one size. */
  lemma SizeDependsOnResidue(min: nat, min': nat, max: nat, max': nat, u: seq<nat>)
    requires min <= max && max - min + 1 < 0x8000_0000 && max' - min' == max - min
    requires Low(min, Width(min, max) - 1) == Low(min', Width(min, max) - 1)
    requires Ascending(u) && u != [] && u[0] == 0
    ensures DecSize(min', max', u) == DecSize(min, max, u)
  {
    hide Low, Exp2, Prefixes, Anchor, DecSize, LeftSide, FloorLog2;
    SizeIsDigitSums(min, max, u);
    SizeIsDigitSums(min', max', u);
    LeftSideIs(min, max);
    LeftSideIs(min', max');
  }

  lemma LeftSideIs(min: nat, max: nat)
    requires min <= max && max - min + 1 < 0x8000_0000
    ensures var m := Width(min, max) - 1;
      LeftSide(min, max) == if Low(min, m) == 0 then 0 else Exp2(m) - Low(min, m)
  {
    hide Low, Exp2, FloorLog2, Scale;
    var m := Width(min, max) - 1;
    HighLow(min, m);
    ScaleAdd(Drop(min, m), 1, m);
    ScaleOne(m);
  }

  /** m is the largest digit sum two numbers that add up to t have. */
  ghost predicate IsMax(t: nat, rs: Radices, m: nat) {
    && (forall x :: 0 <= x <= t ==> PairSum(t, x, rs) <= m)
    && exists x :: 0 <= x <= t && PairSum(t, x, rs) == m
  }

  ghost function PairSum(t: nat, x: nat, rs: Radices): nat
    requires x <= t
  {
    DigitSum(x, rs) + DigitSum(t - x, rs)
  }

  /** The maximum for t, from those for t / r and t / r - 1: the two lowest
      digits add up to that of t, or to r more. */
  function Top(t: nat, r: Base, p: nat, q: nat): nat {
    if t / r >= 1 && t % r + 2 <= r && t % r + p < t % r + r + q then t % r + r + q else t % r + p
  }

  /** The maxima for t and for t - 1. */
  function Best(t: nat, rs: Radices): (nat, nat)
    decreases rs
  {
    match rs
    case End => (t, if t == 0 then 0 else t - 1)
    case Radix(r, rest) =>
      var b := Best(t / r, rest);
      (Top(t, r, b.0, b.1), if t == 0 then 0 else if t % r == 0 then Top(t - 1, r, b.1, 0) else Top(t - 1, r, b.0, b.1))
  }

  lemma DigitStep(x: nat, q: nat, s: nat, r: Base, rest: Radices)
    requires x == q * r + s && s < r
    ensures DigitSum(x, Radix(r, rest)) == s + DigitSum(q, rest)
  {
    DivModUnique(x, q, r, s);
  }

  lemma TopIsUpper(t: nat, r: Base, rest: Radices, p: nat, q: nat, x: nat)
    requires IsMax(t / r, rest, p) && (t / r >= 1 && t % r + 2 <= r ==> IsMax(t / r - 1, rest, q)) && x <= t
    ensures PairSum(t, x, Radix(r, rest)) <= Top(t, r, p, q)
  {
    hide DigitSum, IsMax;
    var y := t - x;
    DigitsAddUp(x, y, r);
    DivMod(x, r);
    DivMod(y, r);
    DigitStep(x, x / r, x % r, r, rest);
    DigitStep(y, y / r, y % r, r, rest);
    if x % r + y % r < r {
      AtMost(t / r, x / r, rest, p);
    } else {
      AtMost(t / r - 1, x / r, rest, q);
    }
  }

  /** Adding two numbers adds the lowest digits, with or without a carry. */
  lemma DigitsAddUp(x: nat, y: nat, r: Base)
    ensures x % r < r && y % r < r
    ensures x % r + y % r < r ==> (x + y) / r == x / r + y / r && (x + y) % r == x % r + y % r
    ensures x % r + y % r >= r ==> (x + y) / r == x / r + y / r + 1 && (x + y) % r == x % r + y % r - r
  {
    var a, b := x / r, y / r;
    DivMod(x, r);
    DivMod(y, r);
    Together(a, b, r);
    Together(a + b, 1, r);
    if x % r + y % r < r {
      DivModUnique(x + y, a + b, r, x % r + y % r);
    } else {
      DivModUnique(x + y, a + b + 1, r, x % r + y % r - r);
    }
  }

  lemma Together(a: nat, b: nat, r: nat)
    ensures a * r + b * r == (a + b) * r
  {
  }

  lemma AtMost(t: nat, x: nat, rs: Radices, m: nat)
    requires IsMax(t, rs, m) && x <= t
    ensures DigitSum(x, rs) + DigitSum(t - x, rs) <= m
  {
    assert PairSum(t, x, rs) <= m;
  }

  lemma TopIsReached(t: nat, r: Base, rest: Radices, p: nat, q: nat) returns (x: nat)
    requires IsMax(t / r, rest, p) && (t / r >= 1 && t % r + 2 <= r ==> IsMax(t / r - 1, rest, q))
    ensures x <= t && PairSum(t, x, Radix(r, rest)) == Top(t, r, p, q)
  {
    hide PairSum;
    var h, lo := t / r, t % r;
    if h >= 1 && lo + 2 <= r && lo + p < lo + r + q {
      var a :| 0 <= a <= h - 1 && PairSum(h - 1, a, rest) == q;
      x := CarryWitness(t, r, rest, a);
    } else {
      var a :| 0 <= a <= h && PairSum(h, a, rest) == p;
      x := NoCarryWitness(t, r, rest, a);
    }
  }

  lemma NoCarryWitness(t: nat, r: Base, rest: Radices, a: nat) returns (x: nat)
    requires a <= t / r
    ensures x <= t && PairSum(t, x, Radix(r, rest)) == t % r + PairSum(t / r, a, rest)
  {
    hide DigitSum;
    var h, lo := t / r, t % r;
    DivMod(t, r);
    x := a * r + lo;
    Together(a, h - a, r);
    DigitStep(x, a, lo, r, rest);
    DigitStep(t - x, h - a, 0, r, rest);
  }

  lemma CarryWitness(t: nat, r: Base, rest: Radices, a: nat) returns (x: nat)
    requires t / r >= 1 && t % r + 2 <= r && a <= t / r - 1
    ensures x <= t && PairSum(t, x, Radix(r, rest)) == t % r + r + PairSum(t / r - 1, a, rest)
  {
    hide DigitSum;
    var h, lo := t / r, t % r;
    DivMod(t, r);
    x := a * r + (r - 1);
    Together(a, h - 1 - a, r);
    Together(h - 1, 1, r);
    DigitStep(x, a, r - 1, r, rest);
    DigitStep(t - x, h - 1 - a, lo + 1, r, rest);
  }

  lemma TopIsMax(t: nat, r: Base, rest: Radices, p: nat, q: nat)
    requires IsMax(t / r, rest, p) && (t / r >= 1 && t % r + 2 <= r ==> IsMax(t / r - 1, rest, q))
    ensures IsMax(t, Radix(r, rest), Top(t, r, p, q))
  {
    hide PairSum, Top;
    forall x | 0 <= x <= t
      ensures PairSum(t, x, Radix(r, rest)) <= Top(t, r, p, q)
    {
      TopIsUpper(t, r, rest, p, q, x);
    }
    var x := TopIsReached(t, r, rest, p, q);
  }

  /** The linear recursion computes the two maxima. */
  lemma {:induction false} BestIsMax(t: nat, rs: Radices)
    ensures IsMax(t, rs, Best(t, rs).0)
    ensures t > 0 ==> IsMax(t - 1, rs, Best(t, rs).1)
    decreases rs
  {
    hide IsMax, Top;
    match rs
    case End =>
      LastIsMax(t);
      if t > 0 {
        LastIsMax(t - 1);
      }
    case Radix(r, rest) =>
      var b := Best(t / r, rest);
      BestIsMax(t / r, rest);
      TopIsMax(t, r, rest, b.0, b.1);
      if t > 0 {
        OneLess(t, r);
        if t % r == 0 {
          TopIsMax(t - 1, r, rest, b.1, 0);
        } else {
          TopIsMax(t - 1, r, rest, b.0, b.1);
        }
      }
  }

  lemma LastIsMax(t: nat)
    ensures IsMax(t, End, t)
  {
    assert PairSum(t, 0, End) == t;
  }

  /** Taking one from t takes it from the lowest digit, or borrows. */
  lemma OneLess(t: nat, r: Base)
    requires t > 0
    ensures t % r > 0 ==> (t - 1) / r == t / r && (t - 1) % r == t % r - 1
    ensures t % r == 0 ==> t / r > 0 && (t - 1) / r == t / r - 1 && (t - 1) % r == r - 1
  {
    DivMod(t, r);
    if t % r > 0 {
      DivModUnique(t - 1, t / r, r, t % r - 1);
    } else {
      Together(t / r - 1, 1, r);
      DivModUnique(t - 1, t / r - 1, r, r - 1);
    }
  }

  /** The bound holds for every interval of length t, and one reaches it. */
  ghost predicate Exact(t: nat, u: seq<nat>, bound: nat)
    requires 1 <= t < 0x8000_0000
  {
    && AllowedLengths(u) && 0 in u
    && (forall min, max :: 0 <= min <= max < TwoTo64() && max - min + 1 == t ==> DecSize(min, max, u) <= bound)
    && exists min, max :: 0 <= min <= max < TwoTo64() && max - min + 1 == t && DecSize(min, max, u) == bound
  }

  /** The largest size of a decomposition is the largest pair of digit sums. */
  lemma LargestSize(t: nat, u: seq<nat>)
    requires 1 <= t < 0x8000_0000 && AllowedLengths(u) && u != [] && u[0] == 0
    ensures Exact(t, u, Best(t, RadicesFrom(u, 0)).0)
  {
    hide DecSize, DigitSum, RadicesFrom, Best, PairSum, FloorLog2, TwoTo64;
    var rs := RadicesFrom(u, 0);
    var best := Best(t, rs).0;
    BestIsMax(t, rs);
    forall min, max | 0 <= min <= max < TwoTo64() && max - min + 1 == t
      ensures DecSize(min, max, u) <= best
    {
      SizeIsDigitSums(min, max, u);
      PairSumIs(t, LeftSide(min, max), rs);
    }
    var y :| 0 <= y <= t && PairSum(t, y, rs) == best;
    PairSumIs(t, y, rs);
    PairSumIs(t, t - y, rs);
    var min := IntervalWithSide(t, if y <= t - y then y else t - y);
    SizeIsDigitSums(min, min + t - 1, u);
    assert DecSize(min, min + t - 1, u) == best;
  }

  lemma PairSumIs(t: nat, x: nat, rs: Radices)
    requires x <= t
    ensures PairSum(t, x, rs) == DigitSum(x, rs) + DigitSum(t - x, rs)
  {
  }

  /** Every split of the length with the smaller part on the left occurs. */
  lemma IntervalWithSide(t: nat, y: nat) returns (min: nat)
    requires 1 <= t < 0x8000_0000 && y <= t - y
    ensures min + t - 1 < TwoTo64() && LeftSide(min, min + t - 1) == y
  {
    hide Low, Exp2, LeftSide, FloorLog2;
    var m := FloorLog2(t);
    LogBelow31(t);
    Exp2Mono(m, 31);
    assert Exp2(m + 1) == 2 * Exp2(m) by {
      Exp2Next(m);
    }
    TwoTo31();
    min := Exp2(m) - y;
    LowSmall(min, m);
    LowZero(min, m);
    LeftSideIs(min, min + t - 1);
    assert Width(min, min + t - 1) == m + 1;
  }

  lemma Exp2Next(m: nat)
    ensures Exp2(m + 1) == 2 * Exp2(m)
  {
  }

  lemma LowZero(v: nat, m: nat)
    requires 0 < v <= Exp2(m)
    ensures Low(v, m) == 0 <==> v == Exp2(m)
  {
    hide Low, Exp2;
    LowSmall(v, m);
    Exp2Aligned(m);
  }


  /** Allowed lengths and the size they are promised to keep to. */
  datatype PrefixParam = PrefixParam(u: seq<nat>, bound: nat)

  function IfMatchParamTable(): map<nat, PrefixParam> {
    map[
      11 := PrefixParam([0, 2], 5),
      31 := PrefixParam([0, 1, 2, 3], 6),
      61 := PrefixParam([0, 2, 3, 4], 11),
      121 := PrefixParam([0, 2, 4, 5], 14),
      251 := PrefixParam([0, 2, 4, 6], 17),
      101 := PrefixParam([0, 2, 4, 6], 14),
      901 := PrefixParam([0, 3, 6, 9], 33),
      3601 := PrefixParam([0, 4, 8, 11], 46),
      14401 := PrefixParam([0, 4, 8, 13], 91),
      62501 := PrefixParam([0, 5, 10, 15], 129)
    ]
  }

  function LpParamTable(): map<nat, PrefixParam> {
    map[
      10 := PrefixParam([0, 1], 6),
      11 := PrefixParam([0, 2], 5),
      30 := PrefixParam([0, 1, 2, 3], 8),
      31 := PrefixParam([0, 1, 2, 3], 6),
      60 := PrefixParam([0, 2, 3, 4], 10),
      61 := PrefixParam([0, 2, 3, 4], 11),
      120 := PrefixParam([0, 3, 4, 5], 14),
      121 := PrefixParam([0, 2, 4, 5], 14),
      250 := PrefixParam([0, 2, 4, 6], 19),
      251 := PrefixParam([0, 2, 4, 6], 17)
    ]
  }

  function LinfParamTable(): map<nat, PrefixParam> {
    map[
      21 := PrefixParam([0, 1, 2, 3], 6),
      61 := PrefixParam([0, 1, 2, 3, 4], 9),
      121 := PrefixParam([0, 1, 2, 3, 4, 5], 10),
      241 := PrefixParam([0, 1, 2, 3, 5, 6], 13),
      501 := PrefixParam([0, 1, 2, 4, 5, 6], 17)
    ]
  }

  /** The radices of a short list of lengths, written out. */
  lemma RadicesAre(u: seq<nat>)
    requires AllowedLengths(u)
    ensures |u| == 2 ==> RadicesFrom(u, 0) == Radix(Exp2(u[1] - u[0]), End)
    ensures |u| == 4 ==> RadicesFrom(u, 0) == Radix(Exp2(u[1] - u[0]), Radix(Exp2(u[2] - u[1]), Radix(Exp2(u[3] - u[2]), End)))
    ensures |u| == 5 ==>
      RadicesFrom(u, 0) == Radix(Exp2(u[1] - u[0]), Radix(Exp2(u[2] - u[1]), Radix(Exp2(u[3] - u[2]), Radix(Exp2(u[4] - u[3]), End))))
    ensures |u| == 6 ==>
      RadicesFrom(u, 0) == Radix(Exp2(u[1] - u[0]), Radix(Exp2(u[2] - u[1]), Radix(Exp2(u[3] - u[2]), Radix(Exp2(u[4] - u[3]), Radix(Exp2(u[5] - u[4]), End)))))
  {
    hide Exp2;
    var n := |u|;
    if n >= 2 {
      assert RadicesFrom(u, n - 1) == End;
      assert RadicesFrom(u, n - 2) == Radix(Exp2(u[n - 1] - u[n - 2]), End);
    }
    if n >= 4 {
      assert RadicesFrom(u, n - 3) == Radix(Exp2(u[n - 2] - u[n - 3]), RadicesFrom(u, n - 2));
      assert RadicesFrom(u, n - 4) == Radix(Exp2(u[n - 3] - u[n - 4]), RadicesFrom(u, n - 3));
    }
  }

  /** Every bound of the table is exact. */
  lemma IfMatchBoundsAreExact()
    ensures forall t :: t in IfMatchParamTable() ==> 1 <= t < 0x8000_0000 && Exact(t, IfMatchParamTable()[t].u, IfMatchParamTable()[t].bound)
  {
    hide Exact, Best, RadicesFrom;
    Entry11_2();
    Entry31_1_2_3();
    Entry61_2_3_4();
    Entry121_2_4_5();
    Entry251_2_4_6();
    Entry101_2_4_6();
    Entry901_3_6_9();
    Entry3601_4_8_11();
    Entry14401_4_8_13();
    Entry62501_5_10_15();
    forall t | t in IfMatchParamTable()
      ensures 1 <= t < 0x8000_0000 && Exact(t, IfMatchParamTable()[t].u, IfMatchParamTable()[t].bound)
    {
      LargestSize(t, IfMatchParamTable()[t].u);
    }
  }

  /** Every bound of the table is exact. */
  lemma LpBoundsAreExact()
    ensures forall t :: t in LpParamTable() ==> 1 <= t < 0x8000_0000 && Exact(t, LpParamTable()[t].u, LpParamTable()[t].bound)
  {
    hide Exact, Best, RadicesFrom;
    Entry10_1();
    Entry11_2();
    Entry30_1_2_3();
    Entry31_1_2_3();
    Entry60_2_3_4();
    Entry61_2_3_4();
    Entry120_3_4_5();
    Entry121_2_4_5();
    Entry250_2_4_6();
    Entry251_2_4_6();
    forall t | t in LpParamTable()
      ensures 1 <= t < 0x8000_0000 && Exact(t, LpParamTable()[t].u, LpParamTable()[t].bound)
    {
      LargestSize(t, LpParamTable()[t].u);
    }
  }

  /** Every bound of the table is exact. */
  lemma LinfBoundsAreExact()
    ensures forall t :: t in LinfParamTable() ==> 1 <= t < 0x8000_0000 && Exact(t, LinfParamTable()[t].u, LinfParamTable()[t].bound)
  {
    hide Exact, Best, RadicesFrom;
    Entry21_1_2_3();
    Entry61_1_2_3_4();
    Entry121_1_2_3_4_5();
    Entry241_1_2_3_5_6();
    Entry501_1_2_4_5_6();
    forall t | t in LinfParamTable()
      ensures 1 <= t < 0x8000_0000 && Exact(t, LinfParamTable()[t].u, LinfParamTable()[t].bound)
    {
      LargestSize(t, LinfParamTable()[t].u);
    }
  }

  lemma Entry11_2()
    ensures Best(11, RadicesFrom([0, 2], 0)).0 == 5
  {
    hide RadicesFrom;
    RadicesAre([0, 2]);
    assert RadicesFrom([0, 2], 0) == Radix(4, End);
    hide Exp2;
    assert Best(11, Radix(4, End)).0 == 5;
  }

  lemma Entry31_1_2_3()
    ensures Best(31, RadicesFrom([0, 1, 2, 3], 0)).0 == 6
  {
    hide RadicesFrom;
    RadicesAre([0, 1, 2, 3]);
    assert RadicesFrom([0, 1, 2, 3], 0) == Radix(2, Radix(2, Radix(2, End)));
    hide Exp2;
    assert Best(31, Radix(2, Radix(2, Radix(2, End)))).0 == 6;
  }

  lemma Entry61_2_3_4()
    ensures Best(61, RadicesFrom([0, 2, 3, 4], 0)).0 == 11
  {
    hide RadicesFrom;
    RadicesAre([0, 2, 3, 4]);
    assert RadicesFrom([0, 2, 3, 4], 0) == Radix(4, Radix(2, Radix(2, End)));
    hide Exp2;
    assert Best(61, Radix(4, Radix(2, Radix(2, End)))).0 == 11;
  }

  lemma Entry121_2_4_5()
    ensures Best(121, RadicesFrom([0, 2, 4, 5], 0)).0 == 14
  {
    hide RadicesFrom;
    RadicesAre([0, 2, 4, 5]);
    assert RadicesFrom([0, 2, 4, 5], 0) == Radix(4, Radix(4, Radix(2, End)));
    hide Exp2;
    assert Best(121, Radix(4, Radix(4, Radix(2, End)))).0 == 14;
  }

  lemma Entry251_2_4_6()
    ensures Best(251, RadicesFrom([0, 2, 4, 6], 0)).0 == 17
  {
    hide RadicesFrom;
    RadicesAre([0, 2, 4, 6]);
    assert RadicesFrom([0, 2, 4, 6], 0) == Radix(4, Radix(4, Radix(4, End)));
    hide Exp2;
    assert Best(251, Radix(4, Radix(4, Radix(4, End)))).0 == 17;
  }

  lemma Entry101_2_4_6()
    ensures Best(101, RadicesFrom([0, 2, 4, 6], 0)).0 == 14
  {
    hide RadicesFrom;
    RadicesAre([0, 2, 4, 6]);
    assert RadicesFrom([0, 2, 4, 6], 0) == Radix(4, Radix(4, Radix(4, End)));
    hide Exp2;
    assert Best(101, Radix(4, Radix(4, Radix(4, End)))).0 == 14;
  }

  lemma Entry901_3_6_9()
    ensures Best(901, RadicesFrom([0, 3, 6, 9], 0)).0 == 33
  {
    hide RadicesFrom;
    RadicesAre([0, 3, 6, 9]);
    assert RadicesFrom([0, 3, 6, 9], 0) == Radix(8, Radix(8, Radix(8, End)));
    hide Exp2;
    assert Best(901, Radix(8, Radix(8, Radix(8, End)))).0 == 33;
  }

  lemma Entry3601_4_8_11()
    ensures Best(3601, RadicesFrom([0, 4, 8, 11], 0)).0 == 46
  {
    hide RadicesFrom;
    RadicesAre([0, 4, 8, 11]);
    assert RadicesFrom([0, 4, 8, 11], 0) == Radix(16, Radix(16, Radix(8, End)));
    hide Exp2;
    assert Best(3601, Radix(16, Radix(16, Radix(8, End)))).0 == 46;
  }

  lemma Entry14401_4_8_13()
    ensures Best(14401, RadicesFrom([0, 4, 8, 13], 0)).0 == 91
  {
    hide RadicesFrom;
    RadicesAre([0, 4, 8, 13]);
    assert RadicesFrom([0, 4, 8, 13], 0) == Radix(16, Radix(16, Radix(32, End)));
    hide Exp2;
    assert Best(14401, Radix(16, Radix(16, Radix(32, End)))).0 == 91;
  }

  lemma Entry62501_5_10_15()
    ensures Best(62501, RadicesFrom([0, 5, 10, 15], 0)).0 == 129
  {
    hide RadicesFrom;
    RadicesAre([0, 5, 10, 15]);
    assert RadicesFrom([0, 5, 10, 15], 0) == Radix(32, Radix(32, Radix(32, End)));
    hide Exp2;
    assert Best(62501, Radix(32, Radix(32, Radix(32, End)))).0 == 129;
  }

  lemma Entry10_1()
    ensures Best(10, RadicesFrom([0, 1], 0)).0 == 6
  {
    hide RadicesFrom;
    RadicesAre([0, 1]);
    assert RadicesFrom([0, 1], 0) == Radix(2, End);
    hide Exp2;
    assert Best(10, Radix(2, End)).0 == 6;
  }

  lemma Entry30_1_2_3()
    ensures Best(30, RadicesFrom([0, 1, 2, 3], 0)).0 == 8
  {
    hide RadicesFrom;
    RadicesAre([0, 1, 2, 3]);
    assert RadicesFrom([0, 1, 2, 3], 0) == Radix(2, Radix(2, Radix(2, End)));
    hide Exp2;
    assert Best(30, Radix(2, Radix(2, Radix(2, End)))).0 == 8;
  }

  lemma Entry60_2_3_4()
    ensures Best(60, RadicesFrom([0, 2, 3, 4], 0)).0 == 10
  {
    hide RadicesFrom;
    RadicesAre([0, 2, 3, 4]);
    assert RadicesFrom([0, 2, 3, 4], 0) == Radix(4, Radix(2, Radix(2, End)));
    hide Exp2;
    assert Best(60, Radix(4, Radix(2, Radix(2, End)))).0 == 10;
  }

  lemma Entry120_3_4_5()
    ensures Best(120, RadicesFrom([0, 3, 4, 5], 0)).0 == 14
  {
    hide RadicesFrom;
    RadicesAre([0, 3, 4, 5]);
    assert RadicesFrom([0, 3, 4, 5], 0) == Radix(8, Radix(2, Radix(2, End)));
    hide Exp2;
    assert Best(120, Radix(8, Radix(2, Radix(2, End)))).0 == 14;
  }

  lemma Entry250_2_4_6()
    ensures Best(250, RadicesFrom([0, 2, 4, 6], 0)).0 == 19
  {
    hide RadicesFrom;
    RadicesAre([0, 2, 4, 6]);
    assert RadicesFrom([0, 2, 4, 6], 0) == Radix(4, Radix(4, Radix(4, End)));
    hide Exp2;
    assert Best(250, Radix(4, Radix(4, Radix(4, End)))).0 == 19;
  }

  lemma Entry21_1_2_3()
    ensures Best(21, RadicesFrom([0, 1, 2, 3], 0)).0 == 6
  {
    hide RadicesFrom;
    RadicesAre([0, 1, 2, 3]);
    assert RadicesFrom([0, 1, 2, 3], 0) == Radix(2, Radix(2, Radix(2, End)));
    hide Exp2;
    assert Best(21, Radix(2, Radix(2, Radix(2, End)))).0 == 6;
  }

  lemma Entry61_1_2_3_4()
    ensures Best(61, RadicesFrom([0, 1, 2, 3, 4], 0)).0 == 9
  {
    hide RadicesFrom;
    RadicesAre([0, 1, 2, 3, 4]);
    assert RadicesFrom([0, 1, 2, 3, 4], 0) == Radix(2, Radix(2, Radix(2, Radix(2, End))));
    hide Exp2;
    assert Best(61, Radix(2, Radix(2, Radix(2, Radix(2, End))))).0 == 9;
  }

  lemma Entry121_1_2_3_4_5()
    ensures Best(121, RadicesFrom([0, 1, 2, 3, 4, 5], 0)).0 == 10
  {
    hide RadicesFrom;
    RadicesAre([0, 1, 2, 3, 4, 5]);
    assert RadicesFrom([0, 1, 2, 3, 4, 5], 0) == Radix(2, Radix(2, Radix(2, Radix(2, Radix(2, End)))));
    hide Exp2;
    assert Best(121, Radix(2, Radix(2, Radix(2, Radix(2, Radix(2, End)))))).0 == 10;
  }

  lemma Entry241_1_2_3_5_6()
    ensures Best(241, RadicesFrom([0, 1, 2, 3, 5, 6], 0)).0 == 13
  {
    hide RadicesFrom;
    RadicesAre([0, 1, 2, 3, 5, 6]);
    assert RadicesFrom([0, 1, 2, 3, 5, 6], 0) == Radix(2, Radix(2, Radix(2, Radix(4, Radix(2, End)))));
    hide Exp2;
    assert Best(241, Radix(2, Radix(2, Radix(2, Radix(4, Radix(2, End)))))).0 == 13;
  }

  lemma Entry501_1_2_4_5_6()
    ensures Best(501, RadicesFrom([0, 1, 2, 4, 5, 6], 0)).0 == 17
  {
    hide RadicesFrom;
    RadicesAre([0, 1, 2, 4, 5, 6]);
    assert RadicesFrom([0, 1, 2, 4, 5, 6], 0) == Radix(2, Radix(2, Radix(4, Radix(2, Radix(2, End)))));
    hide Exp2;
    assert Best(501, Radix(2, Radix(2, Radix(4, Radix(2, Radix(2, End)))))).0 == 17;
  }
}
