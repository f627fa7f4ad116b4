/** Why the inversion refuses a matrix: it is singular, or a column that could be
    cleared has a zero on the diagonal and no one below it. */
module Refusal {
  import opened BinaryNumbers
  import opened Fields
  import opened Inversion
  import opened Matrices

  /** m * p == 0 */
  ghost predicate Kills<T(!new)>(f: Field<T>, m: Matrix<T>, p: seq<T>)
    requires Square(m, |p|)
  {
    forall r :: 0 <= r < |p| ==> KilledAt(f, m, p, r)
  }

  ghost predicate KilledAt<T(!new)>(f: Field<T>, m: Matrix<T>, p: seq<T>, r: nat)
    requires Square(m, |p|) && r < |p|
  {
    Dot(f, m[r], p) == f.zero
  }

  ghost predicate NonZero<T(!new)>(f: Field<T>, p: seq<T>) {
    exists k :: 0 <= k < |p| && p[k] != f.zero
  }

  /** Some non-zero vector is mapped to zero. */
  ghost predicate Singular<T(!new)>(f: Field<T>, m: Matrix<T>, n: nat)
    requires Square(m, n)
  {
    exists p: seq<T> :: |p| == n && Kills(f, m, p) && NonZero(f, p)
  }

  /** The matrix when the elimination reaches column i. */
  ghost function Reached<T(!new)>(f: Field<T>, rounds: nat, m: Matrix<T>, n: nat, i: nat): (r: Matrix<T>)
    requires Square(m, n) && i <= n
    ensures Square(r, n)
  {
    if i == 0 then m
    else Reduced(f, rounds, Pivoted(f, Reached(f, rounds, m, n, i - 1), n, i - 1), n, i - 1, n)
  }

  ghost predicate HasPivot<T(!new)>(f: Field<T>, m: Matrix<T>, n: nat, i: nat)
    requires Square(m, n) && i < n
  {
    Pivoted(f, m, n, i)[i][i] != f.zero
  }

  ghost predicate PivotsIn<T(!new)>(f: Field<T>, rounds: nat, m: Matrix<T>, n: nat, lo: nat, hi: nat)
    requires Square(m, n) && hi <= n
  {
    forall k :: lo <= k < hi ==> HasPivot(f, Reached(f, rounds, m, n, k), n, k)
  }

  /** The search misses a pivot in column i: there is a non-zero entry below the
      diagonal, but none that is one. */
  ghost predicate Misses<T(!new)>(f: Field<T>, rounds: nat, m: Matrix<T>, n: nat, i: nat)
    requires Square(m, n) && i < n
  {
    var r := Reached(f, rounds, m, n, i);
    && PivotsIn(f, rounds, m, n, 0, i)
    && r[i][i] == f.zero && (forall j :: i < j < n ==> r[j][i] != f.one)
    && exists j :: i < j < n && r[j][i] != f.zero
  }

  ghost predicate Refused<T(!new)>(f: Field<T>, rounds: nat, m: Matrix<T>, n: nat)
    requires Square(m, n)
  {
    Singular(f, m, n) || exists i :: 0 <= i < n && Misses(f, rounds, m, n, i)
  }

  lemma {:induction false} AcceptedFrom<T(!new)>(f: Field<T>, rounds: nat, m: Matrix<T>, n: nat, i: nat)
    requires Square(m, n) && i <= n
    ensures Accepted(f, rounds, Reached(f, rounds, m, n, i), n, i) <==> PivotsIn(f, rounds, m, n, i, n)
    decreases n - i
  {
    hide Pivoted, Reduced;
    if i < n {
      AcceptedFrom(f, rounds, m, n, i + 1);
      assert PivotsIn(f, rounds, m, n, i, n) <==> HasPivot(f, Reached(f, rounds, m, n, i), n, i) && PivotsIn(f, rounds, m, n, i + 1, n);
    }
  }

  /** There is no pivot exactly for a zero diagonal without a one below it. */
  lemma NoPivotIs<T(!new)>(f: Field<T>, m: Matrix<T>, n: nat, i: nat)
    requires f.Domain() && Square(m, n) && i < n
    ensures !HasPivot(f, m, n, i) <==> m[i][i] == f.zero && forall j :: i < j < n ==> m[j][i] != f.one
  {
    hide FirstOne;
  }

  lemma KillsPivoted<T(!new)>(f: Field<T>, m: Matrix<T>, n: nat, i: nat, p: seq<T>)
    requires Square(m, n) && i < n && |p| == n
    ensures Kills(f, Pivoted(f, m, n, i), p) <==> Kills(f, m, p)
  {
    hide Dot, FirstOne;
    var q := Pivoted(f, m, n, i);
    var j := FirstOne(f, m, n, i, i + 1);
    if q != m {
      assert q == m[i := m[j]][j := m[i]];
      assert KilledAt(f, q, p, i) == KilledAt(f, m, p, j) && KilledAt(f, q, p, j) == KilledAt(f, m, p, i);
      assert forall r :: 0 <= r < n && r != i && r != j ==> KilledAt(f, q, p, r) == KilledAt(f, m, p, r);
    }
  }

  /** The factor of a pivot is not zero. */
  lemma FactorInverts<T(!new)>(f: Field<T>, rounds: nat, x: T)
    requires Galois(f, rounds) && rounds >= 1 && x != f.zero
    ensures f.Domain() && f.XorGroup()
    ensures var c := Pow(f, x, Exp2(Exp2(rounds)) - 2); c != f.zero && f.Mul(c, x) == f.one
  {
    GaloisDomain(f, rounds);
    PowerInverts(f, rounds, x);
    f.MulZero(x);
  }

  lemma KillsReduced<T(!new)>(f: Field<T>, rounds: nat, m: Matrix<T>, n: nat, i: nat, p: seq<T>)
    requires Galois(f, rounds) && rounds >= 1 && Square(m, n) && i < n && |p| == n && m[i][i] != f.zero
    ensures Kills(f, Reduced(f, rounds, m, n, i, n), p) <==> Kills(f, m, p)
  {
    hide Dot, Pow, Exp2, Galois, Field.Domain, Field.XorGroup, KilledAt;
    FactorInverts(f, rounds, m[i][i]);
    var c := Pow(f, m[i][i], Exp2(Exp2(rounds)) - 2);
    var q, pivot := Reduced(f, rounds, m, n, i, n), Scaled(f, m[i], c);
    ScaledKill(f, m[i], c, p);
    UnfoldKill(f, q, p, i);
    UnfoldKill(f, m, p, i);
    forall r | 0 <= r < n && r != i && Dot(f, pivot, p) == f.zero
      ensures KilledAt(f, q, p, r) <==> KilledAt(f, m, p, r)
    {
      CombinedKill(f, m[r], pivot, m[r][i], p);
      UnfoldKill(f, q, p, r);
      UnfoldKill(f, m, p, r);
    }
  }

  lemma UnfoldKill<T(!new)>(f: Field<T>, m: Matrix<T>, p: seq<T>, r: nat)
    requires Square(m, |p|) && r < |p|
    ensures KilledAt(f, m, p, r) <==> Dot(f, m[r], p) == f.zero
  {
  }

  lemma ScaledKill<T(!new)>(f: Field<T>, row: seq<T>, c: T, p: seq<T>)
    requires f.Domain() && c != f.zero && |row| == |p|
    ensures Dot(f, Scaled(f, row, c), p) == f.zero <==> Dot(f, row, p) == f.zero
  {
    DotScaled(f, row, c, p);
    f.MulZero(c);
    assert f.NoZeroDivisorAt(c, Dot(f, row, p));
  }

  lemma CombinedKill<T(!new)>(f: Field<T>, row: seq<T>, other: seq<T>, c: T, p: seq<T>)
    requires f.Domain() && |row| == |other| == |p| && Dot(f, other, p) == f.zero
    ensures Dot(f, Combined(f, row, other, c), p) == Dot(f, row, p)
  {
    DotCombined(f, row, other, c, p);
    f.MulZero(c);
    f.Zero(Dot(f, row, p));
  }

  lemma ClearedPivoted<T(!new)>(f: Field<T>, m: Matrix<T>, n: nat, i: nat)
    requires Square(m, n) && i < n && Cleared(f, n, m, i)
    ensures Cleared(f, n, Pivoted(f, m, n, i), i)
  {
    hide FirstOne;
  }

  lemma ClearedReduced<T(!new)>(f: Field<T>, rounds: nat, m: Matrix<T>, n: nat, i: nat)
    requires Galois(f, rounds) && rounds >= 1 && Square(m, n) && i < n && m[i][i] != f.zero && Cleared(f, n, m, i)
    ensures Cleared(f, n, Reduced(f, rounds, m, n, i, n), i + 1)
  {
    hide Pow, Exp2, Galois, Field.Domain, Field.XorGroup;
    FactorInverts(f, rounds, m[i][i]);
    var c := Pow(f, m[i][i], Exp2(Exp2(rounds)) - 2);
    var q, pivot := Reduced(f, rounds, m, n, i, n), Scaled(f, m[i], c);
    f.MComm(c, m[i][i]);
    f.MulZero(c);
    forall r, k | 0 <= r < n && 0 <= k <= i
      ensures q[r][k] == if r == k then f.one else f.zero
    {
      if r != i {
        EntryCleared(f, m[r][k], m[r][i]);
      }
    }
  }

  lemma EntryCleared<T(!new)>(f: Field<T>, a: T, c: T)
    requires f.Domain() && f.XorGroup()
    ensures f.Add(a, f.Mul(f.zero, c)) == a && f.Add(c, f.Mul(f.one, c)) == f.zero
  {
    f.MulZero(c);
    f.Zero(a);
    f.One(c);
    f.XorMove(c, c);
  }

  /** Up to a column reached with pivots, the vectors mapped to zero stay the same,
      and the columns before it are cleared. */
  lemma {:induction false} ReachedKeeps<T(!new)>(f: Field<T>, rounds: nat, m: Matrix<T>, n: nat, i: nat)
    requires Galois(f, rounds) && rounds >= 1 && Square(m, n) && i <= n && PivotsIn(f, rounds, m, n, 0, i)
    ensures Cleared(f, n, Reached(f, rounds, m, n, i), i)
    ensures forall p: seq<T> :: |p| == n ==> (Kills(f, Reached(f, rounds, m, n, i), p) <==> Kills(f, m, p))
  {
    hide Galois, Pivoted, Reduced, Kills, Cleared;
    if i == 0 {
      NothingCleared(f, n, m);
    } else {
      ReachedKeeps(f, rounds, m, n, i - 1);
      var r := Reached(f, rounds, m, n, i - 1);
      var q := Pivoted(f, r, n, i - 1);
      assert HasPivot(f, r, n, i - 1);
      ClearedPivoted(f, r, n, i - 1);
      ClearedReduced(f, rounds, q, n, i - 1);
      forall p: seq<T> | |p| == n
        ensures Kills(f, Reached(f, rounds, m, n, i), p) <==> Kills(f, m, p)
      {
        KillsPivoted(f, r, n, i - 1, p);
        KillsReduced(f, rounds, q, n, i - 1, p);
      }
    }
  }

  lemma SingularReached<T(!new)>(f: Field<T>, rounds: nat, m: Matrix<T>, n: nat, i: nat)
    requires Galois(f, rounds) && rounds >= 1 && Square(m, n) && i <= n && PivotsIn(f, rounds, m, n, 0, i)
    ensures Singular(f, Reached(f, rounds, m, n, i), n) <==> Singular(f, m, n)
  {
    hide Galois, Reached, Kills, NonZero;
    ReachedKeeps(f, rounds, m, n, i);
  }

  /** A column that is zero from the diagonal on, behind cleared ones, depends on them. */
  lemma ZeroColumnSingular<T(!new)>(f: Field<T>, m: Matrix<T>, n: nat, i: nat)
    requires f.Domain() && Square(m, n) && i < n && Cleared(f, n, m, i) && forall r :: i <= r < n ==> m[r][i] == f.zero
    ensures Singular(f, m, n)
  {
    hide Field.Group, Dot;
    var p := seq(n, k requires 0 <= k < n => if k < i then f.Neg(m[k][i]) else if k == i then f.one else f.zero);
    forall r | 0 <= r < n
      ensures KilledAt(f, m, p, r)
    {
      if r < i {
        var rest := m[r][r := f.zero];
        DotSplit(f, m[r], p, r);
        DotSplit(f, rest, p, i);
        DotOfZeros(f, rest[i := f.zero], p);
        f.One(p[r]);
        f.One(m[r][i]);
        f.Zero(m[r][i]);
        f.Inverse(m[r][i]);
      } else {
        DotOfZeros(f, m[r], p);
      }
    }
    assert p[i] != f.zero;
  }

  /** The cleared matrix maps only zero to zero. */
  lemma ClearedRegular<T(!new)>(f: Field<T>, m: Matrix<T>, n: nat)
    requires f.Domain() && Square(m, n) && Cleared(f, n, m, n)
    ensures !Singular(f, m, n)
  {
    hide Dot;
    forall p: seq<T> | |p| == n && Kills(f, m, p)
      ensures !NonZero(f, p)
    {
      forall k | 0 <= k < n
        ensures p[k] == f.zero
      {
        assert m[k] == UnitRow(f, n, k) && KilledAt(f, m, p, k);
        DotUnit(f, n, k, p);
      }
    }
  }

  /** A matrix is refused exactly if it is singular or the search misses a pivot in
      some column; so a refused matrix with an inverse has such a column. */
  lemma RefusalCauses<T(!new)>(f: Field<T>, rounds: nat, m: Matrix<T>, n: nat)
    requires Galois(f, rounds) && rounds >= 1 && Square(m, n)
    ensures !Accepted(f, rounds, m, n, 0) <==> Refused(f, rounds, m, n)
  {
    hide Galois, Reached, HasPivot, Cleared, Singular, Misses;
    AcceptedFrom(f, rounds, m, n, 0);
    StartReached(f, rounds, m, n);
    if PivotsIn(f, rounds, m, n, 0, n) {
      AllPivots(f, rounds, m, n);
    } else {
      var i := FirstMissing(f, rounds, m, n, n);
      MissedOrSingular(f, rounds, m, n, i);
    }
  }

  lemma AllPivots<T(!new)>(f: Field<T>, rounds: nat, m: Matrix<T>, n: nat)
    requires Galois(f, rounds) && rounds >= 1 && Square(m, n) && PivotsIn(f, rounds, m, n, 0, n)
    ensures !Singular(f, m, n) && forall i :: 0 <= i < n ==> !Misses(f, rounds, m, n, i)
  {
    hide Galois, Field.Domain, Field.XorGroup, Reached, HasPivot, Cleared, Singular, Misses;
    GaloisDomain(f, rounds);
    ReachedKeeps(f, rounds, m, n, n);
    ClearedRegular(f, Reached(f, rounds, m, n, n), n);
    SingularReached(f, rounds, m, n, n);
    forall i | 0 <= i < n
      ensures !Misses(f, rounds, m, n, i)
    {
      assert HasPivot(f, Reached(f, rounds, m, n, i), n, i);
      NotMissed(f, rounds, m, n, i);
    }
  }

  lemma NotMissed<T(!new)>(f: Field<T>, rounds: nat, m: Matrix<T>, n: nat, i: nat)
    requires f.Domain() && Square(m, n) && i < n && HasPivot(f, Reached(f, rounds, m, n, i), n, i)
    ensures !Misses(f, rounds, m, n, i)
  {
    hide HasPivot, Reached;
    NoPivotIs(f, Reached(f, rounds, m, n, i), n, i);
  }

  lemma MissedOrSingular<T(!new)>(f: Field<T>, rounds: nat, m: Matrix<T>, n: nat, i: nat)
    requires Galois(f, rounds) && rounds >= 1 && Square(m, n) && i < n
    requires PivotsIn(f, rounds, m, n, 0, i) && !HasPivot(f, Reached(f, rounds, m, n, i), n, i)
    ensures Misses(f, rounds, m, n, i) || Singular(f, m, n)
  {
    hide Galois, Field.Domain, Field.XorGroup, Reached, HasPivot, Cleared, Singular, PivotsIn, Misses;
    GaloisDomain(f, rounds);
    NoPivotIs(f, Reached(f, rounds, m, n, i), n, i);
    if !Misses(f, rounds, m, n, i) {
      ReachedKeeps(f, rounds, m, n, i);
      NothingBelow(f, rounds, m, n, i);
      ZeroColumnSingular(f, Reached(f, rounds, m, n, i), n, i);
      SingularReached(f, rounds, m, n, i);
    }
  }

  lemma NothingBelow<T(!new)>(f: Field<T>, rounds: nat, m: Matrix<T>, n: nat, i: nat)
    requires Square(m, n) && i < n && PivotsIn(f, rounds, m, n, 0, i) && !Misses(f, rounds, m, n, i)
    requires var r := Reached(f, rounds, m, n, i); r[i][i] == f.zero && forall j :: i < j < n ==> r[j][i] != f.one
    ensures forall j :: i <= j < n ==> Reached(f, rounds, m, n, i)[j][i] == f.zero
  {
    hide Reached, PivotsIn;
  }

  lemma StartReached<T(!new)>(f: Field<T>, rounds: nat, m: Matrix<T>, n: nat)
    requires Square(m, n)
    ensures Reached(f, rounds, m, n, 0) == m
  {
  }

  lemma {:induction false} FirstMissing<T(!new)>(f: Field<T>, rounds: nat, m: Matrix<T>, n: nat, hi: nat) returns (i: nat)
    requires Square(m, n) && hi <= n && !PivotsIn(f, rounds, m, n, 0, hi)
    ensures i < hi && PivotsIn(f, rounds, m, n, 0, i) && !HasPivot(f, Reached(f, rounds, m, n, i), n, i)
  {
    hide Reached, HasPivot;
    if PivotsIn(f, rounds, m, n, 0, hi - 1) {
      i := hi - 1;
    } else {
      i := FirstMissing(f, rounds, m, n, hi - 1);
    }
  }
}
