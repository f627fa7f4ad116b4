/** Shifts, masks and binary strings of unsigned numbers, by induction on the
    number of bits. */
module BinaryNumbers {

  function Distance(x: nat, y: nat): nat { if x < y then y - x else x - y }

  function Exp2(n: nat): (r: nat)
    ensures r >= 1
    ensures n >= 1 ==> r >= 2
  {
    if n == 0 then 1 else 2 * Exp2(n - 1)
  }

  lemma {:induction false} Exp2Add(a: nat, b: nat)
    ensures Exp2(a + b) == Exp2(a) * Exp2(b)
  {
    if b > 0 {
      Exp2Add(a, b - 1);
      assert Exp2(a + b) == 2 * Exp2(a + b - 1) && Exp2(b) == 2 * Exp2(b - 1);
      hide Exp2;
      Twice(Exp2(a), Exp2(b - 1));
    }
  }

  lemma Twice(a: nat, b: nat)
    ensures a * (2 * b) == a * b + a * b
  {
  }

  lemma {:induction false} Exp2Mono(a: nat, b: nat)
    requires a <= b
    ensures Exp2(a) <= Exp2(b)
  {
    if a < b {
      Exp2Mono(a, b - 1);
    }
  }

  /** v >> m */
  function Drop(v: nat, m: nat): nat {
    if m == 0 then v else Drop(v / 2, m - 1)
  }

  /** b << m */
  function Scale(b: nat, m: nat): nat {
    if m == 0 then b else 2 * Scale(b, m - 1)
  }

  /** v & ((1 << m) - 1) */
  function Low(v: nat, m: nat): nat {
    if m == 0 then 0 else v % 2 + 2 * Low(v / 2, m - 1)
  }

  predicate Bit(v: nat, j: nat) { Drop(v, j) % 2 == 1 }

  /** The upper bits and the lower bits make up the number. */
  lemma {:induction false} HighLow(v: nat, m: nat)
    ensures v == Scale(Drop(v, m), m) + Low(v, m) && Low(v, m) < Exp2(m)
  {
    if m > 0 {
      HighLow(v / 2, m - 1);
    }
  }

  lemma {:induction false} ScaleAdd(a: nat, b: nat, m: nat)
    ensures Scale(a + b, m) == Scale(a, m) + Scale(b, m)
  {
    if m > 0 {
      ScaleAdd(a, b, m - 1);
    }
  }

  lemma {:induction false} ScaleOne(m: nat)
    ensures Scale(1, m) == Exp2(m) && Scale(0, m) == 0
  {
    if m > 0 {
      ScaleOne(m - 1);
    }
  }

  /** Low and Drop invert Scale. */
  lemma {:induction false} DropScale(b: nat, r: nat, m: nat)
    requires r < Exp2(m)
    ensures Drop(Scale(b, m) + r, m) == b && Low(Scale(b, m) + r, m) == r
  {
    if m > 0 {
      DropScale(b, r / 2, m - 1);
      var v := Scale(b, m) + r;
      assert v / 2 == Scale(b, m - 1) + r / 2 && v % 2 == r % 2;
    }
  }

  /** One more lower bit. */
  lemma {:induction false} LowNext(v: nat, m: nat)
    ensures Low(v, m + 1) == Low(v, m) + if Bit(v, m) then Exp2(m) else 0
  {
    if m > 0 {
      LowNext(v / 2, m - 1);
    }
  }

  lemma {:induction false} DropSmall(v: nat, n: nat, m: nat)
    requires v < Exp2(n) && m <= n
    ensures Drop(v, m) < Exp2(n - m)
  {
    if m > 0 {
      DropSmall(v / 2, n - 1, m - 1);
    }
  }

  lemma {:induction false} LowSmall(v: nat, m: nat)
    ensures v < Exp2(m) <==> Low(v, m) == v
    ensures v < Exp2(m) <==> Drop(v, m) == 0
  {
    HighLow(v, m);
    if Drop(v, m) > 0 {
      ScaleAdd(Drop(v, m) - 1, 1, m);
      ScaleOne(m);
    } else {
      ScaleOne(m);
    }
  }

  /** The numbers that share the upper bits of an aligned one are the block it starts. */
  lemma BlockOf(n: nat, v: nat, m: nat)
    requires Low(n, m) == 0
    ensures Drop(v, m) == Drop(n, m) <==> n <= v < n + Exp2(m)
  {
    HighLow(n, m);
    HighLow(v, m);
    var a, b := Drop(n, m), Drop(v, m);
    ScaleOne(m);
    if a < b {
      ScaleAdd(a, 1, m);
      ScaleAdd(a + 1, b - a - 1, m);
    } else if b < a {
      ScaleAdd(b, 1, m);
      ScaleAdd(b + 1, a - b - 1, m);
    }
  }

  lemma {:induction false} AlignedLess(n: nat, m: nat, k: nat)
    requires Low(n, m) == 0 && k <= m
    ensures Low(n, k) == 0
  {
    if k > 0 {
      AlignedLess(n / 2, m - 1, k - 1);
    }
  }

  /** Sums and differences of aligned numbers are aligned. */
  lemma AlignedAdd(a: nat, b: nat, m: nat)
    requires Low(a, m) == 0 && Low(b, m) == 0
    ensures Low(a + b, m) == 0
    ensures a >= b ==> Low(a - b, m) == 0
  {
    HighLow(a, m);
    HighLow(b, m);
    var x, y := Drop(a, m), Drop(b, m);
    ScaleAdd(x, y, m);
    DropScale(x + y, 0, m);
    if a >= b {
      if x < y {
        ScaleAdd(x, y - x, m);
      } else {
        ScaleAdd(x - y, y, m);
        DropScale(x - y, 0, m);
      }
    }
  }

  lemma Exp2Aligned(m: nat)
    ensures Low(Exp2(m), m) == 0
  {
    ScaleOne(m);
    DropScale(1, 0, m);
  }

  function Digit(b: bool): char { if b then '1' else '0' }

  /** The n lowest bits of v as characters, most significant first. */
  function Binary(v: nat, n: nat): (s: string)
    ensures |s| == n
  {
    if n == 0 then "" else Binary(v / 2, n - 1) + [Digit(v % 2 == 1)]
  }

  /** bitset<64>(s).to_ullong() */
  function Value(s: string): nat {
    if s == "" then 0 else 2 * Value(s[..|s| - 1]) + if s[|s| - 1] == '1' then 1 else 0
  }

  predicate IsBinary(s: string) {
    forall i :: 0 <= i < |s| ==> s[i] == '0' || s[i] == '1'
  }

  lemma {:induction false} ValueOfBinary(v: nat, n: nat)
    requires v < Exp2(n)
    ensures Value(Binary(v, n)) == v && IsBinary(Binary(v, n))
  {
    if n > 0 {
      ValueOfBinary(v / 2, n - 1);
      assert Binary(v, n)[..n - 1] == Binary(v / 2, n - 1);
    }
  }

  lemma {:induction false} BinaryOfValue(s: string)
    requires IsBinary(s)
    ensures Value(s) < Exp2(|s|) && Binary(Value(s), |s|) == s
  {
    if s != "" {
      var rest := s[..|s| - 1];
      BinaryOfValue(rest);
      assert Value(s) / 2 == Value(rest);
      assert s == rest + [s[|s| - 1]];
    }
  }

  /** Cutting off the last m characters shifts the number right by m. */
  lemma {:induction false} BinaryPrefix(v: nat, n: nat, m: nat)
    requires m <= n
    ensures Binary(v, n)[..n - m] == Binary(Drop(v, m), n - m)
  {
    if m > 0 {
      BinaryPrefix(v / 2, n - 1, m - 1);
      assert Binary(v, n)[..n - m] == Binary(v / 2, n - 1)[..n - m];
    }
  }

  lemma BinaryInjective(a: nat, b: nat, n: nat)
    requires a < Exp2(n) && b < Exp2(n) && Binary(a, n) == Binary(b, n)
    ensures a == b
  {
    ValueOfBinary(a, n);
    ValueOfBinary(b, n);
  }

  /** The cut strings agree exactly when the upper bits do. */
  lemma SamePrefix(a: nat, b: nat, n: nat, m: nat)
    requires a < Exp2(n) && b < Exp2(n) && m <= n
    ensures Binary(a, n)[..n - m] == Binary(b, n)[..n - m] <==> Drop(a, m) == Drop(b, m)
  {
    hide Binary, Drop, Exp2;
    BinaryPrefix(a, n, m);
    BinaryPrefix(b, n, m);
    DropSmall(a, n, m);
    DropSmall(b, n, m);
    if Binary(Drop(a, m), n - m) == Binary(Drop(b, m), n - m) {
      BinaryInjective(Drop(a, m), Drop(b, m), n - m);
    }
  }

  const NUM_BITS := 64

  /** 2^64 */
  function TwoTo64(): nat {
    0x1_0000_0000_0000_0000
  }

  lemma Exp2Of15()
    ensures Exp2(8) == 0x100 && Exp2(15) == 0x8000
  {
  }

  lemma Exp2Of16()
    ensures Exp2(16) == 0x1_0000
  {
    hide Exp2;
    Exp2Of15();
    Exp2Add(8, 8);
  }

  lemma TwoTo31()
    ensures Exp2(31) == 0x8000_0000
  {
    hide Exp2;
    Exp2Of15();
    Exp2Of16();
    Exp2Add(16, 15);
  }

  lemma EvaluateTwoTo64()
    ensures TwoTo64() == Exp2(NUM_BITS)
  {
    hide Exp2;
    Exp2Of16();
    Exp2Add(16, 16);
    assert Exp2(32) == 0x1_0000_0000;
    Exp2Add(32, 32);
  }

  /** The value of a u64 computation whose exact result is n. */
  function U64(n: int): (r: nat)
    ensures r < TwoTo64() && (0 <= n < TwoTo64() ==> r == n)
  {
    n % TwoTo64()
  }

  /** Unsigned arithmetic wraps once, at the end. */
  lemma U64Add(n: int, d: int)
    ensures U64(U64(n) + d) == U64(n + d)
  {
  }

  lemma TimesNext(a: int, q: int, r: nat)
    requires a < q
    ensures a * r + r <= q * r
  {
    var d: nat := q - a - 1;
    Expand(a, d, r);
    ProductIsNat(d, r);
  }

  lemma Expand(a: int, d: int, r: int)
    ensures (a + 1 + d) * r == a * r + r + d * r
  {
  }

  lemma ProductIsNat(d: nat, r: nat)
    ensures d * r >= 0
  {
  }

  lemma DivModUnique(n: int, q: int, r: nat, s: nat)
    requires s < r && n == q * r + s
    ensures n / r == q && n % r == s
  {
    var a := n / r;
    DivMod(n, r);
    if a < q {
      TimesNext(a, q, r);
    } else if q < a {
      TimesNext(q, a, r);
    }
  }

  lemma DivMod(n: int, r: nat)
    requires r > 0
    ensures n == n / r * r + n % r
  {
  }
}
