/** Decomposition of an interval into aligned blocks, as binary prefixes. */
module Decompose {
  import opened BinaryNumbers

  datatype Error = EmptyInterval | NoAlignedStart | EmptySet | PrefixTooShort
  datatype Result<T> = Ok(value: T) | Err(error: Error)

  function FloorLog2(t: nat): (k: nat)
    requires t >= 1
    ensures Exp2(k) <= t < Exp2(k + 1)
  {
    if t == 1 then 0 else FloorLog2(t / 2) + 1
  }

  /** The first `bits` characters of the 64-bit binary string of v. */
  function ToBinaryString(v: nat, bits: nat): (s: string)
    requires bits <= NUM_BITS
    ensures |s| == bits
  {
    Binary(v, NUM_BITS)[..bits]
  }

  /** How many of the strings are prefixes of the binary string of v. */
  function Hits(ds: seq<string>, v: nat): nat {
    if ds == [] then 0
    else Hits(ds[..|ds| - 1], v) + if ds[|ds| - 1] <= Binary(v, NUM_BITS) then 1 else 0
  }

  lemma {:induction false} HitsAppend(a: seq<string>, b: seq<string>, v: nat)
    ensures Hits(a + b, v) == Hits(a, v) + Hits(b, v)
  {
    if b == [] {
      assert a + b == a;
    } else {
      HitsAppend(a, b[..|b| - 1], v);
      assert (a + b)[..|a + b| - 1] == a + b[..|b| - 1];
    }
  }

  lemma HitsOne(d: string, v: nat)
    ensures Hits([d], v) == if d <= Binary(v, NUM_BITS) then 1 else 0
  {
    assert [d][..0] == [];
  }

  /** An aligned number's cut string is a prefix of exactly the block it starts. */
  lemma CutHits(n: nat, v: nat, m: nat)
    requires n < TwoTo64() && v < TwoTo64() && m <= NUM_BITS
    ensures ToBinaryString(n, NUM_BITS - m) <= Binary(v, NUM_BITS) <==> Drop(v, m) == Drop(n, m)
  {
    EvaluateTwoTo64();
    SamePrefix(n, v, NUM_BITS, m);
    var s, t := ToBinaryString(n, NUM_BITS - m), Binary(v, NUM_BITS);
    assert s <= t <==> t[..|s|] == s;
  }

  /** The strings pushed by the loop for the bits below i of the two lengths x
      and y, to the right of xp and to the left of yp. */
  function Blocks(xp: int, yp: int, x: nat, y: nat, i: nat): seq<string>
    requires i <= NUM_BITS
    decreases i
  {
    if i == 0 then []
    else
      (if Bit(x, i - 1) then [ToBinaryString(U64(xp), NUM_BITS - (i - 1))] else [])
      + (if Bit(y, i - 1) then [ToBinaryString(U64(yp), NUM_BITS - (i - 1))] else [])
      + Blocks(if Bit(x, i - 1) then xp + Exp2(i - 1) else xp, if Bit(y, i - 1) then yp - Exp2(i - 1) else yp, x, y, i - 1)
  }

  function Count(b: bool): nat { if b then 1 else 0 }

  /** The block pushed for one bit: it starts at an aligned xp, or ends at an
      aligned yp + 1. */
  lemma RightBlockHits(xp: nat, m: nat, v: nat)
    requires xp < TwoTo64() && v < TwoTo64() && m <= NUM_BITS && Low(xp, m) == 0
    ensures Hits([ToBinaryString(xp, NUM_BITS - m)], v) == Count(xp <= v < xp + Exp2(m))
  {
    HitsOne(ToBinaryString(xp, NUM_BITS - m), v);
    CutHits(xp, v, m);
    BlockOf(xp, v, m);
  }

  lemma LeftBlockHits(yp: nat, m: nat, v: nat)
    requires yp < TwoTo64() && v < TwoTo64() && m <= NUM_BITS && Low(yp + 1, m) == 0
    ensures yp + 1 >= Exp2(m)
    ensures Hits([ToBinaryString(yp, NUM_BITS - m)], v) == Count(yp + 1 - Exp2(m) <= v < yp + 1)
  {
    HighLow(yp + 1, m);
    ScaleOne(m);
    var b := Drop(yp + 1, m);
    assert b > 0;
    ScaleAdd(b - 1, 1, m);
    var n := yp + 1 - Exp2(m);
    DropScale(b - 1, 0, m);
    HitsOne(ToBinaryString(yp, NUM_BITS - m), v);
    CutHits(yp, v, m);
    BlockOf(n, v, m);
    BlockOf(n, yp, m);
  }

  /** The blocks of one side only. */
  function RightBlocks(xp: int, x: nat, i: nat): seq<string>
    requires i <= NUM_BITS
    decreases i
  {
    if i == 0 then []
    else if Bit(x, i - 1) then [ToBinaryString(U64(xp), NUM_BITS - (i - 1))] + RightBlocks(xp + Exp2(i - 1), x, i - 1)
    else RightBlocks(xp, x, i - 1)
  }

  function LeftBlocks(yp: int, y: nat, i: nat): seq<string>
    requires i <= NUM_BITS
    decreases i
  {
    if i == 0 then []
    else if Bit(y, i - 1) then [ToBinaryString(U64(yp), NUM_BITS - (i - 1))] + LeftBlocks(yp - Exp2(i - 1), y, i - 1)
    else LeftBlocks(yp, y, i - 1)
  }

  lemma {:induction false} HitsOfSides(xp: int, yp: int, x: nat, y: nat, i: nat, v: nat)
    requires i <= NUM_BITS
    ensures Hits(Blocks(xp, yp, x, y, i), v) == Hits(RightBlocks(xp, x, i), v) + Hits(LeftBlocks(yp, y, i), v)
    decreases i
  {
    hide Bit, Exp2, U64, ToBinaryString, Hits, Blocks, RightBlocks, LeftBlocks;
    RightUnfold(xp, x, i, v);
    LeftUnfold(yp, y, i, v);
    BlocksUnfold(xp, yp, x, y, i, v);
    if i > 0 {
      var m := i - 1;
      var xq := if Bit(x, m) then xp + Exp2(m) else xp;
      var yq := if Bit(y, m) then yp - Exp2(m) else yp;
      HitsOfSides(xq, yq, x, y, m, v);
      if Bit(x, m) {
        HitsAppend([ToBinaryString(U64(xp), NUM_BITS - m)], RightBlocks(xq, x, m), v);
      }
      if Bit(y, m) {
        HitsAppend([ToBinaryString(U64(yp), NUM_BITS - m)], LeftBlocks(yq, y, m), v);
      }
    }
  }

  lemma BlocksAre(xp: int, yp: int, x: nat, y: nat, i: nat)
    requires i <= NUM_BITS
    ensures i == 0 ==> Blocks(xp, yp, x, y, i) == []
    ensures i > 0 ==> var m := i - 1;
      Blocks(xp, yp, x, y, i)
      == (if Bit(x, m) then [ToBinaryString(U64(xp), NUM_BITS - m)] else [])
       + (if Bit(y, m) then [ToBinaryString(U64(yp), NUM_BITS - m)] else [])
       + Blocks(if Bit(x, m) then xp + Exp2(m) else xp, if Bit(y, m) then yp - Exp2(m) else yp, x, y, m)
  {
    hide Bit, U64, ToBinaryString, Exp2;
  }

  lemma BlocksUnfold(xp: int, yp: int, x: nat, y: nat, i: nat, v: nat)
    requires i <= NUM_BITS
    ensures i == 0 ==> Hits(Blocks(xp, yp, x, y, i), v) == 0
    ensures i > 0 ==> var m := i - 1;
      Hits(Blocks(xp, yp, x, y, i), v)
      == (if Bit(x, m) then Hits([ToBinaryString(U64(xp), NUM_BITS - m)], v) else 0)
       + (if Bit(y, m) then Hits([ToBinaryString(U64(yp), NUM_BITS - m)], v) else 0)
       + Hits(Blocks(if Bit(x, m) then xp + Exp2(m) else xp, if Bit(y, m) then yp - Exp2(m) else yp, x, y, m), v)
  {
    hide Bit, U64, ToBinaryString, Exp2, Blocks;
    BlocksAre(xp, yp, x, y, i);
    if i > 0 {
      var m := i - 1;
      var right := if Bit(x, m) then [ToBinaryString(U64(xp), NUM_BITS - m)] else [];
      var left := if Bit(y, m) then [ToBinaryString(U64(yp), NUM_BITS - m)] else [];
      var rest := Blocks(if Bit(x, m) then xp + Exp2(m) else xp, if Bit(y, m) then yp - Exp2(m) else yp, x, y, m);
      HitsAppend(right + left, rest, v);
      HitsAppend(right, left, v);
    }
  }

  lemma RightUnfold(xp: int, x: nat, i: nat, v: nat)
    requires i <= NUM_BITS
    ensures i == 0 ==> Low(x, i) == 0 && Hits(RightBlocks(xp, x, i), v) == 0
    ensures i > 0 && Bit(x, i - 1) ==> RightBlocks(xp, x, i) == [ToBinaryString(U64(xp), NUM_BITS - (i - 1))] + RightBlocks(xp + Exp2(i - 1), x, i - 1)
    ensures i > 0 && !Bit(x, i - 1) ==> RightBlocks(xp, x, i) == RightBlocks(xp, x, i - 1)
  {
    hide Bit, U64, ToBinaryString, Exp2;
  }

  lemma LeftUnfold(yp: int, y: nat, i: nat, v: nat)
    requires i <= NUM_BITS
    ensures i == 0 ==> Low(y, i) == 0 && Hits(LeftBlocks(yp, y, i), v) == 0
    ensures i > 0 && Bit(y, i - 1) ==> LeftBlocks(yp, y, i) == [ToBinaryString(U64(yp), NUM_BITS - (i - 1))] + LeftBlocks(yp - Exp2(i - 1), y, i - 1)
    ensures i > 0 && !Bit(y, i - 1) ==> LeftBlocks(yp, y, i) == LeftBlocks(yp, y, i - 1)
  {
    hide Bit, U64, ToBinaryString, Exp2;
  }

  /** The right blocks tile [xp, xp + x), counting the bits below i of x. */
  lemma {:induction false} RightTile(xp: int, x: nat, i: nat, v: nat)
    requires i <= NUM_BITS && v < TwoTo64() && 0 <= xp && xp + Low(x, i) <= TwoTo64()
    requires i > 0 ==> Low(xp, i - 1) == 0
    ensures Hits(RightBlocks(xp, x, i), v) == Count(xp <= v < xp + Low(x, i))
    decreases i
  {
    hide TwoTo64, Low, Drop, Bit, U64, ToBinaryString, Hits, Exp2, RightBlocks;
    RightUnfold(xp, x, i, v);
    if i > 0 {
      var m := i - 1;
      LowNext(x, m);
      StepAligned(xp, m);
      if Bit(x, m) {
        RightTile(xp + Exp2(m), x, m, v);
        RightBlockHits(xp, m, v);
        HitsAppend([ToBinaryString(U64(xp), NUM_BITS - m)], RightBlocks(xp + Exp2(m), x, m), v);
      } else {
        RightTile(xp, x, m, v);
      }
    }
  }

  /** Moving an aligned position by a block keeps it aligned to smaller blocks. */
  lemma StepAligned(n: nat, m: nat)
    requires Low(n, m) == 0
    ensures m > 0 ==> Low(n, m - 1) == 0 && Low(n + Exp2(m), m - 1) == 0
    ensures m > 0 && n >= Exp2(m) ==> Low(n - Exp2(m), m - 1) == 0
  {
    hide Low, Exp2;
    Exp2Aligned(m);
    AlignedAdd(n, Exp2(m), m);
    if m > 0 {
      AlignedLess(n, m, m - 1);
      AlignedLess(n + Exp2(m), m, m - 1);
      if n >= Exp2(m) {
        AlignedLess(n - Exp2(m), m, m - 1);
      }
    }
  }

  /** The left blocks tile (yp - y, yp], counting the bits below i of y. */
  lemma {:induction false} LeftTile(yp: int, y: nat, i: nat, v: nat)
    requires i <= NUM_BITS && v < TwoTo64() && -1 <= yp < TwoTo64() && Low(y, i) <= yp + 1
    requires i > 0 ==> Low(yp + 1, i - 1) == 0
    ensures Hits(LeftBlocks(yp, y, i), v) == Count(yp + 1 - Low(y, i) <= v < yp + 1)
    decreases i
  {
    hide TwoTo64, Low, Drop, Bit, U64, ToBinaryString, Hits, Exp2, LeftBlocks;
    LeftUnfold(yp, y, i, v);
    if i > 0 {
      var m := i - 1;
      LowNext(y, m);
      StepAligned(yp + 1, m);
      if Bit(y, m) {
        LeftTile(yp - Exp2(m), y, m, v);
        LeftBlockHits(yp, m, v);
        HitsAppend([ToBinaryString(U64(yp), NUM_BITS - m)], LeftBlocks(yp - Exp2(m), y, m), v);
      } else {
        LeftTile(yp, y, m, v);
      }
    }
  }

  /** Where the two sides meet: the first multiple of 2^m at or behind min. */
  function Anchor(min: nat, m: nat): (a: nat)
    ensures a >= min && Low(a, m) == 0 && a < min + Exp2(m)
    ensures forall c :: min <= c < a ==> Low(c, m) != 0
  {
    HighLow(min, m);
    ScaleOne(m);
    if Low(min, m) == 0 then min
    else
      var b := Drop(min, m);
      ScaleAdd(b, 1, m);
      DropScale(b + 1, 0, m);
      assert forall c :: min <= c < Scale(b + 1, m) ==> Low(c, m) != 0 by {
        forall c | min <= c < Scale(b + 1, m)
          ensures Low(c, m) != 0
        {
          DropScale(b, c - Scale(b, m), m);
        }
      }
      Scale(b + 1, m)
  }

  /** The prefixes of [min, max]. */
  method DecomposeImprove(min: nat, max: nat) returns (r: Result<seq<string>>)
    requires min < TwoTo64() && max < TwoTo64() && max - min + 1 < 0x8000_0000
    ensures r.Err? <==> min > max
    ensures r.Ok? ==> r.value == Prefixes(min, max)
  {
    hide TwoTo64, Low, Exp2, Blocks, Anchor, ToBinaryString;
    if min > max {
      return Err(EmptyInterval);
    }
    if min == max {
      SinglePrefix(min);
      return Ok([ToBinaryString(min, NUM_BITS)]);
    }
    var t := max - min + 1;
    var w := FloorLog2(t) + 1;
    LogBelow31(t);
    var aPrime := FindAligned(min, max, w - 1);
    if aPrime > max {
      return Err(NoAlignedStart);
    }
    var p := PushBlocks(aPrime, max - aPrime + 1, aPrime - min, w);
    return Ok(p);
  }

  /** The step to the first multiple of 2^m, which a long enough interval has. */
  method FindAligned(min: nat, max: nat, m: nat) returns (aPrime: nat)
    requires max < TwoTo64() && Anchor(min, m) <= max
    ensures aPrime == Anchor(min, m)
  {
    aPrime := min;
    while aPrime <= max && Low(aPrime, m) != 0
      invariant min <= aPrime <= Anchor(min, m)
      decreases Anchor(min, m) - aPrime
    {
      aPrime := U64(aPrime + 1);
    }
  }

  /** The traversal of the two lengths from high bit to low bit. */
  method PushBlocks(aPrime: nat, x: nat, y: nat, w: nat) returns (p: seq<string>)
    requires aPrime < TwoTo64() && w <= 31
    ensures p == Blocks(aPrime, aPrime - 1, x, y, w)
  {
    hide TwoTo64, Exp2, Bit, ToBinaryString, U64, Blocks;
    p := [];
    var xPrime, yPrime := aPrime, U64(aPrime - 1);
    ghost var xp: int, yp: int := aPrime, aPrime - 1;
    var i := w;
    while i >= 1
      invariant 0 <= i <= w && xPrime == U64(xp) && yPrime == U64(yp)
      invariant p + Blocks(xp, yp, x, y, i) == Blocks(aPrime, aPrime - 1, x, y, w)
    {
      ghost var p0, xp0, yp0 := p, xp, yp;
      var bits := NUM_BITS - i + 1;
      if Bit(x, i - 1) {
        p := p + [ToBinaryString(xPrime, bits)];
        U64Add(xp, Exp2(i - 1));
        xPrime, xp := U64(xPrime + Exp2(i - 1)), xp + Exp2(i - 1);
      }
      if Bit(y, i - 1) {
        p := p + [ToBinaryString(yPrime, bits)];
        U64Add(yp, 0 - Exp2(i - 1));
        yPrime, yp := U64(yPrime - Exp2(i - 1)), yp - Exp2(i - 1);
      }
      PushRound(p0, xp0, yp0, x, y, i);
      i := i - 1;
    }
    NoBlocks(p, xp, yp, x, y);
  }

  lemma NoBlocks(p: seq<string>, xp: int, yp: int, x: nat, y: nat)
    ensures p + Blocks(xp, yp, x, y, 0) == p
  {
  }

  lemma PushRound(p: seq<string>, xp: int, yp: int, x: nat, y: nat, i: nat)
    requires 1 <= i <= NUM_BITS
    ensures var m := i - 1;
      var p1 := if Bit(x, m) then p + [ToBinaryString(U64(xp), NUM_BITS - m)] else p;
      var p2 := if Bit(y, m) then p1 + [ToBinaryString(U64(yp), NUM_BITS - m)] else p1;
      p2 + Blocks(if Bit(x, m) then xp + Exp2(m) else xp, if Bit(y, m) then yp - Exp2(m) else yp, x, y, m) == p + Blocks(xp, yp, x, y, i)
  {
    hide Bit, ToBinaryString, U64, Exp2;
  }

  lemma LogBelow31(t: nat)
    requires 1 <= t < 0x8000_0000
    ensures FloorLog2(t) <= 30
  {
    hide Exp2;
    TwoTo31();
    if FloorLog2(t) >= 31 {
      Exp2Mono(31, FloorLog2(t));
    }
  }

  /** The number of bits of the length: w of the source. */
  function Width(min: nat, max: nat): (w: nat)
    requires min <= max && max - min + 1 < 0x8000_0000
    ensures 1 <= w <= 31
  {
    LogBelow31(max - min + 1);
    FloorLog2(max - min + 1) + 1
  }

  ghost function Prefixes(min: nat, max: nat): seq<string>
    requires min <= max && max - min + 1 < 0x8000_0000
  {
    var w := Width(min, max);
    var a := Anchor(min, w - 1);
    Blocks(a, a - 1, max + 1 - a, a - min, w)
  }

  lemma SinglePrefix(v: nat)
    requires v < TwoTo64()
    ensures Prefixes(v, v) == [ToBinaryString(v, NUM_BITS)]
  {
    hide TwoTo64, ToBinaryString, U64, Blocks;
    BlocksAre(v, v - 1, 1, 0, 1);
    BlocksAre(v + 1, v - 1, 1, 0, 0);
  }

  /** Both sides of an aligned position together tile one range. */
  lemma SidesTile(a: nat, x: nat, y: nat, w: nat, v: nat)
    requires 1 <= w <= NUM_BITS && Low(a, w - 1) == 0 && x < Exp2(w) && y < Exp2(w) && y <= a <= TwoTo64() && a + x <= TwoTo64() && v < TwoTo64()
    ensures Hits(Blocks(a, a - 1, x, y, w), v) == Count(a - y <= v < a + x)
  {
    hide TwoTo64, Low, Blocks, Hits, Exp2, RightBlocks, LeftBlocks;
    LowSmall(x, w);
    LowSmall(y, w);
    HitsOfSides(a, a - 1, x, y, w, v);
    RightTile(a, x, w, v);
    LeftTile(a - 1, y, w, v);
  }

  /** The prefixes tile the interval: each of its values has exactly one, and
      no other value has any. */
  lemma PrefixesTile(min: nat, max: nat, v: nat)
    requires min <= max < TwoTo64() && max - min + 1 < 0x8000_0000 && v < TwoTo64()
    ensures Hits(Prefixes(min, max), v) == Count(min <= v <= max)
  {
    hide TwoTo64, Low, Blocks, Hits, Exp2, Anchor, FloorLog2;
    var w := Width(min, max);
    var a := Anchor(min, w - 1);
    Exp2Mono(w - 1, w);
    SidesTile(a, max + 1 - a, a - min, w, v);
  }

  /** No block is larger than 2^30, and the strings are no longer than 64. */
  lemma {:induction false} BlockLengths(xp: int, yp: int, x: nat, y: nat, i: nat, d: string)
    requires i <= NUM_BITS && d in Blocks(xp, yp, x, y, i)
    ensures NUM_BITS - i < |d| <= NUM_BITS
    decreases i
  {
    hide Bit, U64, ToBinaryString, Exp2, Blocks;
    BlocksAre(xp, yp, x, y, i);
    var m := i - 1;
    var rest := Blocks(if Bit(x, m) then xp + Exp2(m) else xp, if Bit(y, m) then yp - Exp2(m) else yp, x, y, m);
    if d in rest {
      BlockLengths(if Bit(x, m) then xp + Exp2(m) else xp, if Bit(y, m) then yp - Exp2(m) else yp, x, y, m, d);
    }
  }

  lemma PrefixLengths(min: nat, max: nat)
    requires min <= max && max - min + 1 < 0x8000_0000
    ensures forall i :: 0 <= i < |Prefixes(min, max)| ==> 33 < |Prefixes(min, max)[i]| <= NUM_BITS
  {
    hide Blocks, Anchor, Exp2, Low;
    forall i | 0 <= i < |Prefixes(min, max)|
      ensures 33 < |Prefixes(min, max)[i]| <= NUM_BITS
    {
      var w := Width(min, max);
      var a := Anchor(min, w - 1);
      BlockLengths(a, a - 1, max + 1 - a, a - min, w, Prefixes(min, max)[i]);
    }
  }
}
