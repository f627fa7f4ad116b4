/** Hashing a key to the distinct sparse columns of its row. */
module RowHash {
  import opened BinaryNumbers
  import opened Fields
  import opened Layout

  function Min(a: nat, b: nat): nat { if a < b then a else b }

  /** The triple for reduced hash words a < n, b < n - 1, c < n - 2. */
  function Triple(a: nat, b: nat, c: nat): (nat, nat, nat) {
    var min := Min(a, b);
    var max := a + b - min;
    var b' := if max == b then b + 1 else b;
    var max' := if max == b then max + 1 else max;
    var c' := if c >= min then c + 1 else c;
    (a, b', if c' >= max' then c' + 1 else c')
  }

  /** The words a triple of distinct columns comes from. */
  function Untriple(x: nat, y: nat, z: nat): (nat, nat, nat)
    requires x != y && y != z && x != z
  {
    var min := Min(x, y);
    var max := x + y - min;
    (x, if y > x then y - 1 else y, if z > max then z - 2 else if z > min then z - 1 else z)
  }

  predicate Reduced(n: nat, a: nat, b: nat, c: nat) { a < n && b + 1 < n && c + 2 < n }

  predicate Distinct(n: nat, x: nat, y: nat, z: nat) { x < n && y < n && z < n && x != y && y != z && x != z }

  /** Reduced words and ordered triples of distinct columns correspond one to one. */
  lemma TripleBijection(n: nat, a: nat, b: nat, c: nat)
    ensures Reduced(n, a, b, c) ==> var t := Triple(a, b, c); Distinct(n, t.0, t.1, t.2) && Untriple(t.0, t.1, t.2) == (a, b, c)
    ensures Distinct(n, a, b, c) ==> var w := Untriple(a, b, c); Reduced(n, w.0, w.1, w.2) && Triple(w.0, w.1, w.2) == (a, b, c)
  {
  }

  /** A hash as its three overlapping 64-bit words, and for other weights as the
      low words of its repeated squares; given functions. */
  datatype Hashed = Hashed(words: seq<nat>, squares: seq<nat>)
  {
    predicate Valid(weight: nat) { |words| == 3 && |squares| == weight }
  }

  lemma ModFits(a: nat, m: nat)
    requires m > 0
    ensures a % m < m
  {
    DivMod(a, m);
  }

  lemma RemainderFits(n: nat, a: nat, b: nat, c: nat)
    requires n >= 3
    ensures Reduced(n, a % n, b % (n - 1), c % (n - 2))
  {
    ModFits(a, n);
    ModFits(b, n - 1);
    ModFits(c, n - 2);
  }

  /** A row of columns below n in increasing order. */
  ghost predicate Increasing(row: seq<nat>, n: nat) {
    && (forall k :: 0 <= k < |row| ==> row[k] < n)
    && forall i, k :: 0 <= i < k < |row| ==> row[i] < row[k]
  }

  /** The row after inserting the c-th column it does not hold. */
  function Insert(row: seq<nat>, c: nat): seq<nat> {
    if row == [] || row[0] > c then [c] + row else [row[0]] + Insert(row[1..], c + 1)
  }

  /** The row of the first j squares, each reduced to the columns still free. */
  function InsertAll(n: nat, squares: seq<nat>, j: nat): seq<nat>
    requires j <= |squares| && j <= n
  {
    if j == 0 then [] else Insert(InsertAll(n, squares, j - 1), squares[j - 1] % (n - (j - 1)))
  }

  lemma {:induction false} InsertIncreases(row: seq<nat>, c: nat, n: nat)
    requires Increasing(row, n) && c + |row| < n
    ensures |Insert(row, c)| == |row| + 1 && Increasing(Insert(row, c), n)
    ensures Insert(row, c)[0] == if row == [] || row[0] > c then c else row[0]
  {
    if row != [] && row[0] <= c {
      InsertIncreases(row[1..], c + 1, n);
      Prepend(row[0], Insert(row[1..], c + 1), n);
    } else {
      Prepend(c, row, n);
    }
  }

  lemma Prepend(x: nat, row: seq<nat>, n: nat)
    requires Increasing(row, n) && x < n && (row != [] ==> x < row[0])
    ensures Increasing([x] + row, n)
  {
    forall i, k | 0 <= i < k < |[x] + row|
      ensures ([x] + row)[i] < ([x] + row)[k]
    {
      if i == 0 {
        assert x < row[0] <= row[k - 1];
      }
    }
  }

  lemma {:induction false} InsertAllIncreases(n: nat, squares: seq<nat>, j: nat)
    requires j <= |squares| && j <= n
    ensures |InsertAll(n, squares, j)| == j && Increasing(InsertAll(n, squares, j), n)
  {
    if j > 0 {
      InsertAllIncreases(n, squares, j - 1);
      ModFits(squares[j - 1], n - (j - 1));
      InsertIncreases(InsertAll(n, squares, j - 1), squares[j - 1] % (n - (j - 1)), n);
    }
  }

  /** How many columns of the row are below x. */
  ghost function Below(row: seq<nat>, x: nat): nat {
    if row == [] then 0 else (if row[0] < x then 1 else 0) + Below(row[1..], x)
  }

  lemma {:induction false} NoneBelow(row: seq<nat>, x: nat)
    requires forall k :: 0 <= k < |row| ==> row[k] >= x
    ensures Below(row, x) == 0
  {
    if row != [] {
      NoneBelow(row[1..], x);
    }
  }

  /** Inserting c adds x exactly when x is a missing column with c missing columns
      below it: every missing column is picked by exactly one c. */
  lemma {:induction false} InsertAddsMissing(row: seq<nat>, c: nat, x: nat, n: nat)
    requires Increasing(row, n)
    ensures multiset(Insert(row, c)) == multiset(row) + multiset{x} <==> x !in row && x == c + Below(row, x)
  {
    hide Increasing, Below;
    if row == [] || row[0] > c {
      AddedSame(row, c, x);
      AddsInFront(row, c, x, n);
    } else {
      Tail(row, n);
      InsertAddsMissing(row[1..], c + 1, x, n);
      AddsLater(row, Insert(row[1..], c + 1), x);
      PicksLater(row, c, x, n);
    }
  }

  lemma AddsInFront(row: seq<nat>, c: nat, x: nat, n: nat)
    requires Increasing(row, n) && (row == [] || row[0] > c)
    ensures c == x <==> x !in row && x == c + Below(row, x)
  {
    if row != [] && x > row[0] {
      if x !in row {
        BelowFits(row, x, n);
      }
    } else {
      NoneBelow(row, x);
    }
  }

  lemma AddsLater(row: seq<nat>, rest: seq<nat>, x: nat)
    requires row != []
    ensures multiset([row[0]] + rest) == multiset(row) + multiset{x} <==> multiset(rest) == multiset(row[1..]) + multiset{x}
  {
    assert row == [row[0]] + row[1..];
    assert multiset(row) == multiset{row[0]} + multiset(row[1..]);
    assert multiset([row[0]] + rest) == multiset{row[0]} + multiset(rest);
    AddedTo(multiset(rest), multiset(row[1..]), row[0], x);
  }

  lemma PicksLater(row: seq<nat>, c: nat, x: nat, n: nat)
    requires Increasing(row, n) && row != [] && row[0] <= c
    ensures x !in row && x == c + Below(row, x) <==> x !in row[1..] && x == c + 1 + Below(row[1..], x)
  {
    assert row == [row[0]] + row[1..];
    if x <= row[0] {
      NoneBelow(row, x);
      NoneBelow(row[1..], x);
    }
  }

  lemma Tail(row: seq<nat>, n: nat)
    requires Increasing(row, n) && row != []
    ensures Increasing(row[1..], n)
  {
  }

  lemma AddedSame(row: seq<nat>, c: nat, x: nat)
    ensures multiset([c] + row) == multiset(row) + multiset{x} <==> c == x
  {
    var m := multiset(row);
    assert multiset([c] + row) == multiset{c} + m;
    if c != x {
      assert (multiset{c} + m)[c] == m[c] + 1;
      assert (m + multiset{x})[c] == m[c];
    }
  }

  lemma AddedTo(a: multiset<nat>, b: multiset<nat>, h: nat, x: nat)
    ensures multiset{h} + a == multiset{h} + b + multiset{x} <==> a == b + multiset{x}
  {
    if multiset{h} + a == multiset{h} + b + multiset{x} {
      assert a == multiset{h} + a - multiset{h};
    } else {
      assert a == b + multiset{x} ==> multiset{h} + a == multiset{h} + b + multiset{x};
    }
  }

  /** The columns of an increasing row below x start at its first one. */
  lemma {:induction false} BelowFits(row: seq<nat>, x: nat, n: nat)
    requires row != [] && Increasing(row, n) && row[0] < x
    ensures row[0] + Below(row, x) <= x
  {
    var rest := row[1..];
    assert row == [row[0]] + rest;
    if rest != [] && rest[0] < x {
      BelowFits(rest, x, n);
      assert row[0] < rest[0];
    } else {
      NoneBelow(rest, x);
    }
  }

  /** The place where c ends up. */
  lemma {:induction false} InsertAt(row: seq<nat>, c: nat, p: nat)
    requires p <= |row| && (forall k :: 0 <= k < p ==> row[k] <= c + k) && (p < |row| ==> row[p] > c + p)
    ensures Insert(row, c) == row[..p] + [c + p] + row[p..]
  {
    if p > 0 {
      var rest := row[1..];
      forall k | 0 <= k < p - 1
        ensures rest[k] <= c + 1 + k
      {
        assert rest[k] == row[k + 1];
      }
      InsertAt(rest, c + 1, p - 1);
      assert row[..p] == [row[0]] + rest[..p - 1] && row[p..] == rest[p - 1..];
    }
  }

  /** The row of a hash: what both ways of building rows must produce. */
  function RowOf(n: nat, weight: nat, h: Hashed): seq<nat>
    requires 1 <= weight <= n && h.Valid(weight)
  {
    if weight == 3 then
      var t := Triple(h.words[0] % n, h.words[1] % (n - 1), h.words[2] % (n - 2));
      [t.0, t.1, t.2]
    else
      InsertAll(n, h.squares, weight)
  }

  /** Every row has `weight` distinct columns below n. */
  lemma RowIsDistinct(n: nat, weight: nat, h: Hashed)
    requires 1 <= weight <= n && h.Valid(weight)
    ensures |RowOf(n, weight, h)| == weight && forall k :: 0 <= k < weight ==> RowOf(n, weight, h)[k] < n
    ensures forall i, k :: 0 <= i < k < weight ==> RowOf(n, weight, h)[i] != RowOf(n, weight, h)[k]
    ensures weight != 3 ==> Increasing(RowOf(n, weight, h), n)
  {
    if weight == 3 {
      RemainderFits(n, h.words[0], h.words[1], h.words[2]);
      TripleBijection(n, h.words[0] % n, h.words[1] % (n - 1), h.words[2] % (n - 2));
    } else {
      InsertAllIncreases(n, h.squares, weight);
    }
  }

  /** How many different columns of a row are below x. */
  ghost function Smaller(row: seq<nat>, x: nat): nat { |set y | y in row && y < x| }

  /** Column x is missing from the row, and r missing columns are below it. */
  ghost predicate Picks(row: seq<nat>, r: nat, x: nat) {
    x !in row && x == r + Smaller(row, x)
  }

  /** Every word, reduced to the columns still free, picks the next column. */
  ghost predicate Picked(n: nat, words: seq<nat>, order: seq<nat>) {
    |words| == |order| <= n && forall j :: 0 <= j < |order| ==> PickedAt(n, words, order, j)
  }

  ghost predicate PickedAt(n: nat, words: seq<nat>, order: seq<nat>, j: nat)
    requires j < |words| == |order| <= n
  {
    Picks(order[..j], words[j] % (n - j), order[j])
  }

  /** What a row holds: for weight 3 the columns that the three words pick, one
      after the other, and for other weights those that the squares pick, sorted. */
  ghost predicate RowPicked(n: nat, weight: nat, h: Hashed, row: seq<nat>) {
    if weight == 3 then Picked(n, h.words, row)
    else Increasing(row, n) && exists order: seq<nat> :: multiset(order) == multiset(row) && Picked(n, h.squares, order)
  }

  lemma {:induction false} BelowIsCount(row: seq<nat>, x: nat)
    requires forall i, k :: 0 <= i < k < |row| ==> row[i] != row[k]
    ensures Below(row, x) == Smaller(row, x)
  {
    if row == [] {
      assert (set y | y in row && y < x) == {};
    } else {
      BelowIsCount(row[1..], x);
      var rest := set y | y in row[1..] && y < x;
      assert row == [row[0]] + row[1..];
      assert (set y | y in row && y < x) == if row[0] < x then {row[0]} + rest else rest;
      assert row[0] !in rest;
    }
  }

  lemma {:induction false} InsertPicks(row: seq<nat>, c: nat, n: nat) returns (x: nat)
    requires Increasing(row, n)
    ensures multiset(Insert(row, c)) == multiset(row) + multiset{x}
  {
    hide Increasing;
    if row == [] || row[0] > c {
      x := c;
      AddedSame(row, c, x);
    } else {
      Tail(row, n);
      x := InsertPicks(row[1..], c + 1, n);
      AddsLater(row, Insert(row[1..], c + 1), x);
    }
  }

  lemma {:induction false} SquaresPick(n: nat, squares: seq<nat>, j: nat) returns (order: seq<nat>)
    requires j <= |squares| && j <= n
    ensures multiset(order) == multiset(InsertAll(n, squares, j)) && Picked(n, squares[..j], order)
  {
    if j == 0 {
      order := [];
    } else {
      var before := SquaresPick(n, squares, j - 1);
      var row, c := InsertAll(n, squares, j - 1), squares[j - 1] % (n - (j - 1));
      InsertAllIncreases(n, squares, j - 1);
      var x := InsertPicks(row, c, n);
      InsertAddsMissing(row, c, x, n);
      BelowIsCount(row, x);
      order := before + [x];
      OneMorePicked(n, squares, j, before, row, x);
    }
  }

  lemma OneMorePicked(n: nat, squares: seq<nat>, j: nat, before: seq<nat>, row: seq<nat>, x: nat)
    requires 0 < j <= |squares| && j <= n && Picked(n, squares[..j - 1], before) && multiset(before) == multiset(row)
    requires Picks(row, squares[j - 1] % (n - (j - 1)), x)
    ensures Picked(n, squares[..j], before + [x])
  {
    var order := before + [x];
    forall y
      ensures y in before <==> y in row
    {
      assert y in before <==> y in multiset(before);
    }
    assert (set y | y in before && y < x) == (set y | y in row && y < x);
    assert Smaller(before, x) == Smaller(row, x);
    forall k | 0 <= k < j
      ensures PickedAt(n, squares[..j], order, k)
    {
      if k < j - 1 {
        assert PickedAt(n, squares[..j - 1], before, k) && order[..k] == before[..k];
      } else {
        assert order[..k] == before;
      }
    }
  }

  /** The row of a hash is what its words pick. */
  lemma RowIsPicked(n: nat, weight: nat, h: Hashed)
    requires 1 <= weight <= n && h.Valid(weight)
    ensures RowPicked(n, weight, h, RowOf(n, weight, h))
  {
    if weight == 3 {
      TripleIsPicked(n, h);
    } else {
      var order := SquaresPick(n, h.squares, weight);
      assert h.squares[..weight] == h.squares;
      InsertAllIncreases(n, h.squares, weight);
    }
  }

  /** The case distinctions skip the columns already taken. */
  lemma TripleSkips(n: nat, a: nat, b: nat, c: nat)
    requires Reduced(n, a, b, c)
    ensures var t := Triple(a, b, c);
      && t.0 == a && t.0 != t.1 && t.1 != t.2 && t.0 != t.2
      && t.1 == b + (if t.0 < t.1 then 1 else 0)
      && t.2 == c + (if t.0 < t.2 then 1 else 0) + (if t.1 < t.2 then 1 else 0)
  {
  }

  lemma TripleIsPicked(n: nat, h: Hashed)
    requires 3 <= n && h.Valid(3)
    ensures Picked(n, h.words, RowOf(n, 3, h))
  {
    hide Triple;
    RemainderFits(n, h.words[0], h.words[1], h.words[2]);
    TripleSkips(n, h.words[0] % n, h.words[1] % (n - 1), h.words[2] % (n - 2));
    ThreePicked(n, h.words, RowOf(n, 3, h));
  }

  lemma ThreePicked(n: nat, words: seq<nat>, row: seq<nat>)
    requires |words| == |row| == 3 <= n && row[0] != row[1] && row[1] != row[2] && row[0] != row[2]
    requires row[0] == words[0] % n && row[1] == words[1] % (n - 1) + (if row[0] < row[1] then 1 else 0)
    requires row[2] == words[2] % (n - 2) + (if row[0] < row[2] then 1 else 0) + (if row[1] < row[2] then 1 else 0)
    ensures Picked(n, words, row)
  {
    hide Smaller;
    BelowOf3(row[0], row[1], row[2]);
    assert row[..0] == [] && row[..1] == [row[0]] && row[..2] == [row[0], row[1]];
    assert PickedAt(n, words, row, 0);
    assert PickedAt(n, words, row, 1);
    assert PickedAt(n, words, row, 2);
  }

  lemma BelowOf3(x: nat, y: nat, z: nat)
    ensures Smaller([], x) == 0 && Smaller([x], y) == if x < y then 1 else 0
    ensures x != y ==> Smaller([x, y], z) == (if x < z then 1 else 0) + if y < z then 1 else 0
  {
    var none: seq<nat> := [];
    assert (set v | v in none && v < x) == {};
    SmallerPlus(none, x, y);
    if x != y {
      SmallerPlus([x], y, z);
    }
    SmallerPlus(none, x, z);
    assert (set v | v in none && v < y) == {} == set v | v in none && v < z;
    assert none + [x] == [x] && [x] + [y] == [x, y];
  }

  lemma SmallerPlus(row: seq<nat>, x: nat, z: nat)
    requires x !in row
    ensures Smaller(row + [x], z) == Smaller(row, z) + if x < z then 1 else 0
  {
    var was := set v | v in row && v < z;
    assert (set v | v in row + [x] && v < z) == if x < z then was + {x} else was;
  }

  /** Words pick one row only. */
  lemma {:induction false} OnePick(n: nat, words: seq<nat>, a: seq<nat>, b: seq<nat>, j: nat)
    requires Picked(n, words, a) && Picked(n, words, b) && j <= |words|
    ensures a[..j] == b[..j]
  {
    if j > 0 {
      OnePick(n, words, a, b, j - 1);
      assert PickedAt(n, words, a, j - 1) && PickedAt(n, words, b, j - 1);
      PicksOne(a[..j - 1], words[j - 1] % (n - (j - 1)), a[j - 1], b[j - 1]);
      assert a[..j] == a[..j - 1] + [a[j - 1]] && b[..j] == b[..j - 1] + [b[j - 1]];
    }
  }

  lemma PicksOne(row: seq<nat>, r: nat, x: nat, y: nat)
    requires Picks(row, r, x) && Picks(row, r, y)
    ensures x == y
  {
    if x < y {
      PicksFewer(row, x, y);
    } else if y < x {
      PicksFewer(row, y, x);
    }
  }

  /** Between two missing columns there are fewer columns of the row than their
      distance. */
  lemma {:induction false} PicksFewer(row: seq<nat>, x: nat, y: nat)
    requires x !in row && x < y
    ensures Smaller(row, y) < Smaller(row, x) + (y - x)
  {
    var below, above := set v | v in row && v < x, set v | v in row && v < y;
    if y == x + 1 {
      assert above == below;
    } else {
      PicksFewer(row, x, y - 1);
      var rest := set v | v in row && v < y - 1;
      assert above == if y - 1 in row then rest + {y - 1} else rest;
    }
  }

  /** One row: three columns by the case distinctions, or `weight` columns by
      insertion. */
  method BuildRow(n: nat, weight: nat, h: Hashed, row: array<nat>, at: nat)
    requires 1 <= weight <= n && h.Valid(weight) && at + weight <= row.Length
    modifies row
    ensures row[..at] == old(row[..at]) && row[at + weight..] == old(row[at + weight..])
    ensures row[at..at + weight] == RowOf(n, weight, h) && RowPicked(n, weight, h, row[at..at + weight])
  {
    hide RowOf, RowPicked;
    RowIsPicked(n, weight, h);
    if weight == 3 {
      BuildRow3(n, h, row, at);
    } else {
      BuildSorted(n, weight, h, row, at);
    }
  }

  method BuildSorted(n: nat, weight: nat, h: Hashed, row: array<nat>, at: nat)
    requires 1 <= weight <= n && h.Valid(weight) && at + weight <= row.Length
    modifies row
    ensures row[..at] == old(row[..at]) && row[at + weight..] == old(row[at + weight..])
    ensures weight != 3 ==> row[at..at + weight] == RowOf(n, weight, h)
  {
    hide Increasing, Insert, InsertAll;
    InsertNone(n, h.squares);
    for j := 0 to weight
      invariant row[..at] == old(row[..at]) && row[at + weight..] == old(row[at + weight..])
      invariant row[at..at + j] == InsertAll(n, h.squares, j)
    {
      InsertAllIncreases(n, h.squares, j);
      var c := ReduceSquare(n, h, weight, j);
      ghost var was := row[..];
      InsertColumn(n, row, at, j, c);
      SameEnd(was, row[..], at + j + 1, at + weight);
    }
  }

  method ReduceSquare(n: nat, h: Hashed, weight: nat, j: nat) returns (c: nat)
    requires j < weight <= n && h.Valid(weight)
    ensures c + j < n && InsertAll(n, h.squares, j + 1) == Insert(InsertAll(n, h.squares, j), c)
  {
    c := h.squares[j] % (n - j);
    ModFits(h.squares[j], n - j);
  }

  lemma InsertNone(n: nat, squares: seq<nat>)
    ensures InsertAll(n, squares, 0) == []
  {
  }

  lemma SameEnd(was: seq<nat>, now: seq<nat>, a: nat, b: nat)
    requires a <= b <= |was| == |now| && was[a..] == now[a..]
    ensures was[b..] == now[b..]
  {
    assert now[b..] == now[a..][b - a..];
    assert was[b..] == was[a..][b - a..];
  }

  method BuildRow3(n: nat, h: Hashed, row: array<nat>, at: nat)
    requires n >= 3 && h.Valid(3) && at + 3 <= row.Length
    modifies row
    ensures row[..at] == old(row[..at]) && row[at + 3..] == old(row[at + 3..])
    ensures row[at..at + 3] == RowOf(n, 3, h)
  {
    hide Triple;
    BuildTriple(n, h, row, at);
    assert row[at..at + 3] == [row[at], row[at + 1], row[at + 2]];
  }

  method BuildTriple(n: nat, h: Hashed, row: array<nat>, at: nat)
    requires n >= 3 && h.Valid(3) && at + 3 <= row.Length
    modifies row
    ensures forall k :: 0 <= k < row.Length && !(at <= k < at + 3) ==> row[k] == old(row[k])
    ensures (row[at], row[at + 1], row[at + 2]) == Triple(h.words[0] % n, h.words[1] % (n - 1), h.words[2] % (n - 2))
  {
    row[at] := h.words[0] % n;
    row[at + 1] := h.words[1] % (n - 1);
    row[at + 2] := h.words[2] % (n - 2);
    var min := Min(row[at], row[at + 1]);
    var max := row[at] + row[at + 1] - min;
    if max == row[at + 1] {
      row[at + 1] := row[at + 1] + 1;
      max := max + 1;
    }
    if row[at + 2] >= min {
      row[at + 2] := row[at + 2] + 1;
    }
    if row[at + 2] >= max {
      row[at + 2] := row[at + 2] + 1;
    }
  }

  /** Inserts the c-th column that the first j do not hold. */
  method InsertColumn(n: nat, row: array<nat>, at: nat, j: nat, c: nat)
    requires at + j < row.Length && c + j < n && Increasing(row[at..at + j], n)
    modifies row
    ensures row[..at] == old(row[..at]) && row[at + j + 1..] == old(row[at + j + 1..])
    ensures row[at..at + j + 1] == Insert(old(row[at..at + j]), c)
  {
    hide Increasing, Insert;
    var colIdx := c;
    var iter := at;
    while iter != at + j && row[iter] <= colIdx
      invariant at <= iter <= at + j && colIdx == c + (iter - at)
      invariant forall k :: at <= k < iter ==> row[k] <= c + (k - at)
    {
      colIdx := colIdx + 1;
      iter := iter + 1;
    }
    ghost var was := row[..];
    ShiftUp(row, iter, at + j);
    row[iter] := colIdx;
    Inserted(was, row[..], at, j, c, iter - at);
  }

  lemma Inserted(was: seq<nat>, now: seq<nat>, at: nat, j: nat, c: nat, p: nat)
    requires |was| == |now| && at + j < |was| && p <= j
    requires (forall k :: at <= k < at + p ==> was[k] <= c + (k - at)) && (p < j ==> was[at + p] > c + p)
    requires now[..at + p] == was[..at + p] && now[at + p] == c + p && now[at + j + 1..] == was[at + j + 1..]
    requires now[at + p + 1..at + j + 1] == was[at + p..at + j]
    ensures now[..at] == was[..at] && now[at..at + j + 1] == Insert(was[at..at + j], c)
  {
    hide Insert;
    var row := was[at..at + j];
    forall k | 0 <= k < p
      ensures row[k] <= c + k
    {
      assert row[k] == was[at + k];
    }
    InsertAt(row, c, p);
    assert now[..at] == now[..at + p][..at] && was[..at] == was[..at + p][..at];
    assert now[at..at + p] == now[..at + p][at..] && row[..p] == was[..at + p][at..];
    assert now[at..at + j + 1] == now[at..at + p] + [c + p] + now[at + p + 1..at + j + 1];
  }

  /** Moves the elements from iter on up by one, from the end down. */
  method ShiftUp(row: array<nat>, iter: nat, last: nat)
    requires iter <= last < row.Length
    modifies row
    ensures row[..iter] == old(row[..iter]) && row[last + 1..] == old(row[last + 1..])
    ensures row[iter + 1..last + 1] == old(row[iter..last])
  {
    var end := last;
    while end != iter
      invariant iter <= end <= last
      invariant forall k :: 0 <= k < row.Length ==> row[k] == if end < k <= last then old(row[k - 1]) else old(row[k])
    {
      row[end] := row[end - 1];
      end := end - 1;
    }
  }

  /** The words under XOR; an AND with an all-ones or all-zeros mask keeps or
      drops a word. */
  ghost predicate XorWords(f: Field<nat>) {
    f.XorGroup() && f.zero == 0
  }

  function Masked(f: Field<nat>, x: nat, mask: bool): nat { if mask then x else f.zero }

  /** x - mask, as a subtraction of minus one. */
  function Minus(x: nat, mask: bool): nat { if mask then x + 1 else x }

  /** One lane of the branch-free version. */
  method BranchFree(f: Field<nat>, a: nat, b0: nat, c0: nat) returns (r: (nat, nat, nat))
    requires XorWords(f)
    ensures r == Triple(a, b0, c0)
  {
    var b, c := b0, c0;
    var mask := a > b;
    var min := f.Add(a, b);
    var max := Masked(f, min, mask);
    max := f.Add(max, b);
    min := f.Add(min, max);
    MinMax(f, a, b);
    mask := max == b;
    b := Minus(b, mask);
    max := Minus(max, mask);
    mask := !(min > c);
    c := Minus(c, mask);
    mask := !(max > c);
    c := Minus(c, mask);
    r := (a, b, c);
  }

  lemma MinMax(f: Field<nat>, a: nat, b: nat)
    requires XorWords(f)
    ensures f.Add(Masked(f, f.Add(a, b), a > b), b) == if a > b then a else b
    ensures f.Add(f.Add(a, b), if a > b then a else b) == if a > b then b else a
  {
    f.XorMove(a, b);
    f.Comm(a, b);
    f.Zero(b);
    f.XorMove(b, a);
  }

  /** 32 rows at once: lane by lane without branches for weight 3, and one call
      per row for the other weights. */
  method BuildRow32(f: Field<nat>, n: nat, weight: nat, hash: seq<Hashed>, row: array<nat>)
    requires XorWords(f) && 1 <= weight <= n && |hash| == 32 && row.Length == Row(32, weight)
    requires forall k :: 0 <= k < 32 ==> hash[k].Valid(weight)
    modifies row
    ensures RowsBuilt(n, weight, hash, row[..], 32)
    ensures RowsPicked(n, weight, hash, row[..])
  {
    hide RowOf, RowPicked, RowsPicked, XorWords, Row;
    for k := 0 to 32
      invariant RowsBuilt(n, weight, hash, row[..], k)
    {
      ghost var was := row[..];
      RowFits(k, 32, weight);
      BuildNext(f, n, weight, hash, row, k);
      StillBuilt(n, weight, hash, was, row[..], k);
    }
    AllPicked(n, weight, hash, row[..]);
  }

  /** Every row is what the words of its hash pick. */
  ghost predicate RowsPicked(n: nat, weight: nat, hash: seq<Hashed>, row: seq<nat>) {
    forall k :: 0 <= k < |hash| ==> RowPickedAt(n, weight, hash, row, k)
  }

  ghost predicate RowPickedAt(n: nat, weight: nat, hash: seq<Hashed>, row: seq<nat>, k: nat)
    requires k < |hash|
  {
    Row(k, weight) + weight <= |row| && RowPicked(n, weight, hash[k], row[Row(k, weight)..Row(k, weight) + weight])
  }

  lemma AllPicked(n: nat, weight: nat, hash: seq<Hashed>, row: seq<nat>)
    requires 1 <= weight <= n && forall i :: 0 <= i < |hash| ==> hash[i].Valid(weight)
    requires RowsBuilt(n, weight, hash, row, |hash|)
    ensures RowsPicked(n, weight, hash, row)
  {
    hide RowOf, RowPicked, Row;
    forall k | 0 <= k < |hash|
      ensures RowPickedAt(n, weight, hash, row, k)
    {
      assert RowBuilt(n, weight, hash[k], row, k);
      RowIsPicked(n, weight, hash[k]);
    }
  }

  /** The first k rows are what buildRow makes of their hashes. */
  ghost predicate RowsBuilt(n: nat, weight: nat, hash: seq<Hashed>, row: seq<nat>, k: nat)
    requires 1 <= weight <= n && forall i :: 0 <= i < |hash| ==> hash[i].Valid(weight)
  {
    && |row| == Row(|hash|, weight) && k <= |hash|
    && forall i :: 0 <= i < k ==> RowBuilt(n, weight, hash[i], row, i)
  }

  ghost predicate RowBuilt(n: nat, weight: nat, h: Hashed, row: seq<nat>, i: nat)
    requires 1 <= weight <= n && h.Valid(weight)
  {
    Row(i, weight) + weight <= |row| && row[Row(i, weight)..Row(i, weight) + weight] == RowOf(n, weight, h)
  }

  lemma StillBuilt(n: nat, weight: nat, hash: seq<Hashed>, was: seq<nat>, now: seq<nat>, k: nat)
    requires 1 <= weight <= n && forall i :: 0 <= i < |hash| ==> hash[i].Valid(weight)
    requires RowsBuilt(n, weight, hash, was, k) && |now| == |was| && k < |hash| && Row(k, weight) <= |was|
    requires was[..Row(k, weight)] == now[..Row(k, weight)] && RowBuilt(n, weight, hash[k], now, k)
    ensures RowsBuilt(n, weight, hash, now, k + 1)
  {
    hide RowOf, Row;
    forall i | 0 <= i < k
      ensures RowBuilt(n, weight, hash[i], now, i)
    {
      assert RowBuilt(n, weight, hash[i], was, i);
      RowFits(i, k, weight);
      var a, b := Row(i, weight), Row(k, weight);
      SameSlice(was, now, b, a, a + weight);
    }
  }

  lemma SameSlice(was: seq<nat>, now: seq<nat>, b: nat, lo: nat, hi: nat)
    requires lo <= hi <= b <= |was| == |now| && was[..b] == now[..b]
    ensures was[lo..hi] == now[lo..hi]
  {
    assert now[lo..hi] == now[..b][lo..hi];
    assert was[lo..hi] == was[..b][lo..hi];
  }

  method BuildNext(f: Field<nat>, n: nat, weight: nat, hash: seq<Hashed>, row: array<nat>, k: nat)
    requires XorWords(f) && 1 <= weight <= n && k < |hash| && row.Length == Row(|hash|, weight) && hash[k].Valid(weight)
    requires Row(k, weight) <= row.Length
    modifies row
    ensures row[..Row(k, weight)] == old(row[..Row(k, weight)]) && RowBuilt(n, weight, hash[k], row[..], k)
  {
    hide XorWords, Row;
    RowFits(k, |hash|, weight);
    var at := k * weight;
    RowIsProduct(k, weight);
    if weight == 3 {
      var h := hash[k];
      RemainderFits(n, h.words[0], h.words[1], h.words[2]);
      var r := BranchFree(f, h.words[0] % n, h.words[1] % (n - 1), h.words[2] % (n - 2));
      row[at], row[at + 1], row[at + 2] := r.0, r.1, r.2;
      assert row[at..at + 3] == [r.0, r.1, r.2];
    } else {
      BuildRow(n, weight, hash[k], row, at);
    }
    assert row[..][at..at + weight] == row[at..at + weight];
  }
}
