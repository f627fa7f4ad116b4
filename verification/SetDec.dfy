/** Coarsening a decomposition to the allowed prefix lengths, and the prefixes
    of a value. */
module SetDec {
  import opened BinaryNumbers
  import opened Decompose

  /** The elements of a std::set in order. */
  ghost predicate Ascending(u: seq<nat>) {
    forall i, j :: 0 <= i < j < |u| ==> u[i] < u[j]
  }

  /** The largest element less than dec, or zero. */
  function SetRound(dec: nat, u: seq<nat>): (r: nat)
    ensures r <= dec
    ensures r in u || r == 0
  {
    if u == [] then 0 else if u[|u| - 1] < dec then u[|u| - 1] else SetRound(dec, u[..|u| - 1])
  }

  lemma {:induction false} SetRoundIsLargest(dec: nat, u: seq<nat>, k: nat)
    requires Ascending(u) && k < |u| && u[k] < dec
    ensures u[k] <= SetRound(dec, u) < dec && SetRound(dec, u) in u
  {
    if u[|u| - 1] >= dec {
      SetRoundIsLargest(dec, u[..|u| - 1], k);
    }
  }

  /** The p lowest bits of i as characters, least significant first. */
  function PadBits(i: nat, p: nat): (s: string)
    ensures |s| == p
  {
    if p == 0 then "" else PadBits(i, p - 1) + [Digit(Bit(i, p - 1))]
  }

  /** The number whose PadBits are s. */
  function Unpad(s: string): nat {
    if s == "" then 0 else Unpad(s[..|s| - 1]) + if s[|s| - 1] == '1' then Exp2(|s| - 1) else 0
  }

  /** The first n refinements of a prefix by p more bits. */
  function Padded(dec: string, p: nat, n: nat): (r: seq<string>)
    ensures |r| == n
  {
    if n == 0 then [] else Padded(dec, p, n - 1) + [dec + PadBits(n - 1, p)]
  }

  /** The refinement of one prefix to an allowed length. */
  function Refine(dec: string, u: seq<nat>): seq<string>
    requires |dec| <= NUM_BITS
  {
    var mu := NUM_BITS - |dec|;
    if mu in u then [dec] else Padded(dec, mu - SetRound(mu, u), Exp2(mu - SetRound(mu, u)))
  }

  ghost predicate Short(ds: seq<string>) {
    forall i :: 0 <= i < |ds| ==> |ds[i]| <= NUM_BITS
  }

  function Refined(ds: seq<string>, u: seq<nat>): seq<string>
    requires Short(ds)
  {
    if ds == [] then [] else Refined(ds[..|ds| - 1], u) + Refine(ds[|ds| - 1], u)
  }

  lemma {:induction false} PadUnpad(s: string)
    requires IsBinary(s)
    ensures Unpad(s) < Exp2(|s|) && PadBits(Unpad(s), |s|) == s
  {
    hide Bit, PadBits;
    PadLast(Unpad(s), |s|);
    if s != "" {
      var t, p := s[..|s| - 1], |s| - 1;
      PadUnpad(t);
      BitAbove(Unpad(t), p);
      if s[p] == '1' {
        PadAbove(Unpad(t), p, p);
      }
      assert s == t + [s[p]];
    }
  }

  lemma PadLast(i: nat, p: nat)
    ensures PadBits(i, p) == if p == 0 then "" else PadBits(i, p - 1) + [Digit(Bit(i, p - 1))]
  {
  }

  lemma {:induction false} BitAbove(v: nat, m: nat)
    requires v < Exp2(m)
    ensures !Bit(v, m) && Bit(v + Exp2(m), m)
  {
    if m > 0 {
      BitAbove(v / 2, m - 1);
      assert (v + Exp2(m)) / 2 == v / 2 + Exp2(m - 1);
    }
  }

  lemma {:induction false} BitBelow(v: nat, m: nat, j: nat)
    requires j < m
    ensures Bit(v + Exp2(m), j) == Bit(v, j)
  {
    assert (v + Exp2(m)) / 2 == v / 2 + Exp2(m - 1);
    if j > 0 {
      BitBelow(v / 2, m - 1, j - 1);
    }
  }

  lemma {:induction false} PadAbove(v: nat, m: nat, p: nat)
    requires p <= m
    ensures PadBits(v + Exp2(m), p) == PadBits(v, p)
  {
    if p > 0 {
      PadAbove(v, m, p - 1);
      BitBelow(v, m, p - 1);
    }
  }

  lemma {:induction false} UnpadPad(i: nat, p: nat)
    ensures Unpad(PadBits(i, p)) == Low(i, p)
  {
    hide Low, Bit, Exp2, Unpad, PadBits;
    if p > 0 {
      UnpadPad(i, p - 1);
      LowNext(i, p - 1);
      UnpadLast(i, p);
    } else {
      UnpadNone(i);
    }
  }

  lemma UnpadNone(i: nat)
    ensures Unpad(PadBits(i, 0)) == Low(i, 0)
  {
  }

  lemma UnpadLast(i: nat, p: nat)
    requires p > 0
    ensures Unpad(PadBits(i, p)) == Unpad(PadBits(i, p - 1)) + if Bit(i, p - 1) then Exp2(p - 1) else 0
  {
    hide Low, Bit, Exp2;
    assert PadBits(i, p)[..p - 1] == PadBits(i, p - 1);
  }

  /** Among the refinements of a prefix of v, one alone is a prefix of v. */
  lemma {:induction false} PaddedHits(dec: string, p: nat, n: nat, v: nat)
    requires |dec| + p <= NUM_BITS && n <= Exp2(p) && v < TwoTo64()
    ensures Hits(Padded(dec, p, n), v)
      == Count(dec <= Binary(v, NUM_BITS) && Unpad(Binary(v, NUM_BITS)[|dec|..|dec| + p]) < n)
  {
    hide TwoTo64, Binary, Hits, Unpad, Exp2, PadBits;
    HitsNone(v);
    if n > 0 {
      PaddedHits(dec, p, n - 1, v);
      HitsAppend(Padded(dec, p, n - 1), [dec + PadBits(n - 1, p)], v);
      OnePadded(dec, p, n - 1, v);
    }
  }

  lemma HitsNone(v: nat)
    ensures Hits([], v) == 0
  {
  }

  lemma OnePadded(dec: string, p: nat, i: nat, v: nat)
    requires |dec| + p <= NUM_BITS && i < Exp2(p) && v < TwoTo64()
    ensures Hits([dec + PadBits(i, p)], v) == Count(dec <= Binary(v, NUM_BITS) && Unpad(Binary(v, NUM_BITS)[|dec|..|dec| + p]) == i)
  {
    hide TwoTo64, Binary, Hits, Unpad, Exp2, PadBits;
    var s, tail := Binary(v, NUM_BITS), Binary(v, NUM_BITS)[|dec|..|dec| + p];
    HitsOne(dec + PadBits(i, p), v);
    EvaluateTwoTo64();
    ValueOfBinary(v, NUM_BITS);
    PadUnpad(tail);
    UnpadPad(i, p);
    LowSmall(i, p);
    PrefixOfConcat(dec, PadBits(i, p), s);
  }

  lemma PrefixOfConcat(a: string, b: string, s: string)
    ensures a + b <= s <==> a <= s && |a| + |b| <= |s| && s[|a|..|a| + |b|] == b
  {
    if a <= s && |a| + |b| <= |s| && s[|a|..|a| + |b|] == b {
      assert s[..|a| + |b|] == a + b;
    }
  }

  lemma RefineHits(dec: string, u: seq<nat>, v: nat)
    requires |dec| <= NUM_BITS && v < TwoTo64()
    ensures Hits(Refine(dec, u), v) == Hits([dec], v)
  {
    hide TwoTo64, Binary, Hits, Unpad, Exp2, PadBits, Padded, SetRound;
    var mu := NUM_BITS - |dec|;
    if mu !in u {
      var p := mu - SetRound(mu, u);
      PaddedHits(dec, p, Exp2(p), v);
      EvaluateTwoTo64();
      ValueOfBinary(v, NUM_BITS);
      PadUnpad(Binary(v, NUM_BITS)[|dec|..|dec| + p]);
      HitsOne(dec, v);
    }
  }

  /** Refining keeps what is covered and how often. */
  lemma {:induction false} RefinedHits(ds: seq<string>, u: seq<nat>, v: nat)
    requires Short(ds) && v < TwoTo64()
    ensures Hits(Refined(ds, u), v) == Hits(ds, v)
  {
    hide TwoTo64, Binary, Hits, Refine;
    if ds != [] {
      var rest, d := ds[..|ds| - 1], ds[|ds| - 1];
      RefinedHits(rest, u, v);
      RefineHits(d, u, v);
      HitsAppend(Refined(rest, u), Refine(d, u), v);
      HitsAppend(rest, [d], v);
      assert rest + [d] == ds;
    }
  }

  /** The string has an allowed length. */
  ghost predicate LengthIn(d: string, u: seq<nat>) {
    |d| <= NUM_BITS && NUM_BITS - |d| in u
  }

  lemma RefineLengths(dec: string, u: seq<nat>, d: string)
    requires Ascending(u) && 0 in u && |dec| <= NUM_BITS && d in Refine(dec, u)
    ensures LengthIn(d, u)
  {
    hide Ascending, Padded, Exp2, SetRound;
    var mu := NUM_BITS - |dec|;
    if mu !in u {
      PaddedLengths(dec, mu - SetRound(mu, u), Exp2(mu - SetRound(mu, u)), d);
      var k :| 0 <= k < |u| && u[k] == 0;
      SetRoundIsLargest(mu, u, k);
    }
  }

  /** Every string of a refinement has an allowed length, if zero is allowed. */
  lemma {:induction false} RefinedLengths(ds: seq<string>, u: seq<nat>, d: string)
    requires Ascending(u) && Short(ds) && 0 in u && d in Refined(ds, u)
    ensures LengthIn(d, u)
  {
    hide Ascending, Refine, LengthIn;
    var rest, dec := ds[..|ds| - 1], ds[|ds| - 1];
    if d in Refined(rest, u) {
      RefinedLengths(rest, u, d);
    } else {
      RefineLengths(dec, u, d);
    }
  }

  lemma {:induction false} PaddedLengths(dec: string, p: nat, n: nat, d: string)
    requires d in Padded(dec, p, n)
    ensures |d| == |dec| + p
  {
    if d in Padded(dec, p, n - 1) {
      PaddedLengths(dec, p, n - 1, d);
    }
  }

  /** Appends the refinements of dec by p more bits. */
  method PushPadded(res: seq<string>, dec: string, p: nat) returns (res': seq<string>)
    ensures res' == res + Padded(dec, p, Exp2(p))
  {
    res' := res;
    var strCount := Exp2(p);
    for i := 0 to strCount
      invariant res' == res + Padded(dec, p, i)
    {
      var binary := "";
      for j := 0 to p
        invariant binary == PadBits(i, j)
      {
        binary := binary + [if Bit(i, j) then '1' else '0'];
      }
      res' := res' + [dec + binary];
    }
  }

  /** The decomposition of [x, y] into prefixes of allowed lengths. */
  method SetDec(x: nat, y: nat, u: seq<nat>) returns (r: Result<seq<string>>)
    requires x < TwoTo64() && y < TwoTo64() && y - x + 1 < 0x8000_0000 && Ascending(u)
    ensures r.Err? <==> x > y || u == []
    ensures r.Ok? ==> x <= y && Short(Prefixes(x, y)) && r.value == Refined(Prefixes(x, y), u)
  {
    hide TwoTo64, Ascending, Prefixes, Padded, SetRound;
    var decs := DecomposeImprove(x, y);
    if decs.Err? {
      return decs;
    }
    PrefixLengths(x, y);
    var res := [];
    for k := 0 to |decs.value|
      invariant res == Refined(decs.value[..k], u) && (k > 0 ==> u != [])
    {
      var dec := decs.value[k];
      var mu := NUM_BITS - |dec|;
      if mu in u {
        res := res + [dec];
      } else if u == [] {
        return Err(EmptySet);
      } else {
        res := PushPadded(res, dec, mu - SetRound(mu, u));
      }
      assert decs.value[..k + 1][..k] == decs.value[..k];
    }
    assert decs.value[..|decs.value|] == decs.value;
    SomePrefix(x, y);
    return Ok(res);
  }

  lemma SomePrefix(x: nat, y: nat)
    requires x <= y < TwoTo64() && y - x + 1 < 0x8000_0000
    ensures Prefixes(x, y) != []
  {
    hide TwoTo64, Prefixes;
    PrefixesTile(x, y, x);
  }

  /** The prefixes of v at the allowed lengths. */
  function PrefixesOf(v: nat, u: seq<nat>): (r: seq<string>)
    requires forall k :: 0 <= k < |u| ==> u[k] <= NUM_BITS
    ensures |r| == |u| && forall k :: 0 <= k < |u| ==> r[k] == ToBinaryString(v, NUM_BITS - u[k])
  {
    seq(|u|, k requires 0 <= k < |u| => ToBinaryString(v, NUM_BITS - u[k]))
  }

  method SetPrefix(value: nat, uSet: seq<nat>) returns (r: Result<seq<string>>)
    requires value < TwoTo64() && forall k :: 0 <= k < |uSet| ==> uSet[k] < TwoTo64()
    ensures r.Err? <==> exists k :: 0 <= k < |uSet| && uSet[k] > NUM_BITS
    ensures r.Ok? ==> r.value == PrefixesOf(value, uSet)
  {
    hide ToBinaryString;
    var prefixes := [];
    for k := 0 to |uSet|
      invariant forall j :: 0 <= j < k ==> uSet[j] <= NUM_BITS
      invariant prefixes == PrefixesOf(value, uSet[..k])
    {
      if U64(NUM_BITS - uSet[k]) > NUM_BITS {
        return Err(PrefixTooShort);
      }
      prefixes := prefixes + [ToBinaryString(value, NUM_BITS - uSet[k])];
    }
    return Ok(prefixes);
  }

  /** How many of the strings ps equal d. */
  function Occurs(ps: seq<string>, d: string): nat {
    if ps == [] then 0 else Occurs(ps[..|ps| - 1], d) + Count(ps[|ps| - 1] == d)
  }

  /** How many pairs of equal strings two lists have. */
  function Shared(ds: seq<string>, ps: seq<string>): nat {
    if ds == [] then 0 else Shared(ds[..|ds| - 1], ps) + Occurs(ps, ds[|ds| - 1])
  }

  ghost predicate AllowedLengths(u: seq<nat>) {
    Ascending(u) && forall k :: 0 <= k < |u| ==> u[k] <= NUM_BITS
  }

  /** A string is among the prefixes of v as often as it has an allowed length
      and is a prefix of v. */
  lemma {:induction false} OccursOnce(u: seq<nat>, v: nat, d: string)
    requires AllowedLengths(u) && |d| <= NUM_BITS
    ensures Occurs(PrefixesOf(v, u), d) == Count(NUM_BITS - |d| in u && d <= Binary(v, NUM_BITS))
  {
    hide Binary, ToBinaryString;
    if u != [] {
      var rest, k := u[..|u| - 1], u[|u| - 1];
      OccursOnce(rest, v, d);
      assert PrefixesOf(v, u)[..|u| - 1] == PrefixesOf(v, rest);
      assert k !in rest;
      assert NUM_BITS - |d| in u <==> NUM_BITS - |d| in rest || NUM_BITS - |d| == k;
      CutIsPrefix(v, k, d);
    }
  }

  lemma CutIsPrefix(v: nat, k: nat, d: string)
    requires k <= NUM_BITS
    ensures ToBinaryString(v, NUM_BITS - k) == d <==> NUM_BITS - |d| == k && d <= Binary(v, NUM_BITS)
  {
    hide Binary;
    if NUM_BITS - |d| == k && d <= Binary(v, NUM_BITS) {
      assert Binary(v, NUM_BITS)[..|d|] == d;
    }
  }

  /** The strings shared are the hits, if all strings have an allowed length. */
  lemma {:induction false} SharedAreHits(ds: seq<string>, u: seq<nat>, v: nat)
    requires AllowedLengths(u) && forall d :: d in ds ==> LengthIn(d, u)
    ensures Shared(ds, PrefixesOf(v, u)) == Hits(ds, v)
  {
    hide AllowedLengths;
    if ds != [] {
      var rest, d := ds[..|ds| - 1], ds[|ds| - 1];
      SharedAreHits(rest, u, v);
      assert d in ds && LengthIn(d, u);
      OccursOnce(u, v, d);
    }
  }

  /** The number of strings the interval [x, y] and the value v have in common. */
  ghost function Matches(x: nat, y: nat, u: seq<nat>, v: nat): nat
    requires x <= y && y - x + 1 < 0x8000_0000 && AllowedLengths(u)
  {
    PrefixLengths(x, y);
    Shared(Refined(Prefixes(x, y), u), PrefixesOf(v, u))
  }

  /** A value in the interval shares exactly one string with it, any other value
      none. */
  lemma MatchesExactlyOnce(x: nat, y: nat, u: seq<nat>, v: nat)
    requires x <= y < TwoTo64() && y - x + 1 < 0x8000_0000 && v < TwoTo64()
    requires AllowedLengths(u) && 0 in u
    ensures Matches(x, y, u, v) == Count(x <= v <= y)
  {
    hide TwoTo64, Prefixes, Refined, LengthIn, Shared, Hits;
    PrefixLengths(x, y);
    var ds := Prefixes(x, y);
    forall d | d in Refined(ds, u)
      ensures LengthIn(d, u)
    {
      RefinedLengths(ds, u, d);
    }
    SharedAreHits(Refined(ds, u), u, v);
    RefinedHits(ds, u, v);
    PrefixesTile(x, y, v);
  }

  /** Prefix matching works for every interval and value. */
  ghost predicate Complete(u: seq<nat>)
    requires AllowedLengths(u)
  {
    forall x, y, v :: 0 <= x <= y < TwoTo64() && y - x + 1 < 0x8000_0000 && 0 <= v < TwoTo64() ==>
      Matches(x, y, u, v) == Count(x <= v <= y)
  }

  /** It does exactly for the sets that allow full-length strings: otherwise the
      interval [0, 0] is decomposed into a string no value has as a prefix. */
  lemma CompleteExactlyWithZero(u: seq<nat>)
    requires AllowedLengths(u)
    ensures Complete(u) <==> 0 in u
  {
    if 0 in u {
      forall x, y, v | 0 <= x <= y < TwoTo64() && y - x + 1 < 0x8000_0000 && 0 <= v < TwoTo64()
        ensures Matches(x, y, u, v) == Count(x <= v <= y)
      {
        MatchesExactlyOnce(x, y, u, v);
      }
    } else {
      NoMatchWithoutZero(u);
    }
  }

  lemma NoMatchWithoutZero(u: seq<nat>)
    requires AllowedLengths(u) && 0 !in u
    ensures Matches(0, 0, u, 0) == 0
  {
    hide ToBinaryString, AllowedLengths, Occurs, Refined, PrefixesOf, Prefixes;
    SinglePrefix(0);
    var d := ToBinaryString(0, NUM_BITS);
    RefineFull(d, u);
    OccursOnce(u, 0, d);
    SharedOne(d, PrefixesOf(0, u));
  }

  lemma SharedOne(d: string, ps: seq<string>)
    ensures Shared([d], ps) == Occurs(ps, d)
  {
    assert [d][..0] == [];
  }

  /** Without zero, a full-length string stays as it is. */
  lemma RefineFull(d: string, u: seq<nat>)
    requires |d| == NUM_BITS && 0 !in u
    ensures Refined([d], u) == [d]
  {
    hide Exp2;
    assert SetRound(0, u) == 0;
    PaddedNone(d);
    assert Refine(d, u) == [d];
    assert [d][..0] == [];
  }

  lemma PaddedNone(d: string)
    ensures Padded(d, 0, Exp2(0)) == [d]
  {
    assert d + PadBits(0, 0) == d;
    assert Padded(d, 0, 0) == [];
  }

  /** The prefix padded with ones, and with zeros. */
  function UpBound(prefix: string): nat
    requires |prefix| <= NUM_BITS
  {
    Value(prefix + Repeat('1', NUM_BITS - |prefix|))
  }

  function LowBound(prefix: string): nat
    requires |prefix| <= NUM_BITS
  {
    Value(prefix + Repeat('0', NUM_BITS - |prefix|))
  }

  function Repeat(c: char, n: nat): (s: string)
    ensures |s| == n
  {
    if n == 0 then "" else Repeat(c, n - 1) + [c]
  }

  lemma {:induction false} PaddedValue(s: string, m: nat)
    ensures Value(s + Repeat('0', m)) == Scale(Value(s), m)
    ensures Value(s + Repeat('1', m)) == Scale(Value(s), m) + Exp2(m) - 1
  {
    hide Value;
    if m == 0 {
      assert s + "" == s;
    } else {
      PaddedValue(s, m - 1);
      ValueOfLast(s, '0', m);
      ValueOfLast(s, '1', m);
    }
  }

  lemma ValueOfLast(s: string, c: char, m: nat)
    requires m > 0
    ensures Value(s + Repeat(c, m)) == 2 * Value(s + Repeat(c, m - 1)) + Count(c == '1')
  {
    var t := s + Repeat(c, m);
    assert t[..|t| - 1] == s + Repeat(c, m - 1);
  }

  /** The bounds of a prefix are the least and the greatest value that has it. */
  lemma BoundsOfPrefix(prefix: string, v: nat)
    requires IsBinary(prefix) && |prefix| <= NUM_BITS && v < TwoTo64()
    ensures prefix <= Binary(v, NUM_BITS) <==> LowBound(prefix) <= v <= UpBound(prefix)
  {
    hide TwoTo64, Binary, Value, Exp2, Scale, Low, Drop;
    var m, b := NUM_BITS - |prefix|, Value(prefix);
    PaddedValue(prefix, m);
    BinaryOfValue(prefix);
    EvaluateTwoTo64();
    ScaleOne(m);
    var n := Scale(b, m);
    DropScale(b, 0, m);
    BlockOf(n, v, m);
    BinaryPrefix(v, NUM_BITS, m);
    DropSmall(v, NUM_BITS, m);
    if Binary(Drop(v, m), |prefix|) == prefix {
      BinaryInjective(Drop(v, m), b, |prefix|);
    }
    assert prefix <= Binary(v, NUM_BITS) <==> Binary(v, NUM_BITS)[..|prefix|] == prefix;
  }
}
