/** Gauss-Jordan inversion of a matrix over GF(2^(2^k)), in place. */
module Matrices {
  import opened Fields
  import opened BinaryNumbers
  import opened Inversion

  type Matrix<T> = seq<seq<T>>

  ghost predicate Square<T>(m: Matrix<T>, n: nat) {
    |m| == n && forall i :: 0 <= i < n ==> |m[i]| == n
  }

  /** The inner product of a row and a vector. */
  function Dot<T(!new)>(f: Field<T>, row: seq<T>, p: seq<T>): T
    requires |row| == |p|
  {
    if |row| == 0 then f.zero
    else f.Add(Dot(f, row[..|row| - 1], p[..|p| - 1]), f.Mul(row[|row| - 1], p[|p| - 1]))
  }

  function Scaled<T(!new)>(f: Field<T>, row: seq<T>, c: T): (r: seq<T>)
    ensures |r| == |row| && forall j :: 0 <= j < |row| ==> r[j] == f.Mul(row[j], c)
  {
    seq(|row|, j requires 0 <= j < |row| => f.Mul(row[j], c))
  }

  /** row + other * c */
  function Combined<T(!new)>(f: Field<T>, row: seq<T>, other: seq<T>, c: T): (r: seq<T>)
    requires |row| == |other|
    ensures |r| == |row| && forall j :: 0 <= j < |row| ==> r[j] == f.Add(row[j], f.Mul(other[j], c))
  {
    seq(|row|, j requires 0 <= j < |row| => f.Add(row[j], f.Mul(other[j], c)))
  }

  lemma {:induction false} DotScaled<T(!new)>(f: Field<T>, row: seq<T>, c: T, p: seq<T>)
    requires f.Domain() && |row| == |p|
    ensures Dot(f, Scaled(f, row, c), p) == f.Mul(c, Dot(f, row, p))
  {
    f.MulZero(c);
    if |row| > 0 {
      var n := |row| - 1;
      DotScaled(f, row[..n], c, p[..n]);
      assert Scaled(f, row, c)[..n] == Scaled(f, row[..n], c);
      f.MComm(row[n], c);
      f.MAssoc(c, row[n], p[n]);
      f.Distrib(c, Dot(f, row[..n], p[..n]), f.Mul(row[n], p[n]));
    }
  }

  lemma {:induction false} DotCombined<T(!new)>(f: Field<T>, row: seq<T>, other: seq<T>, c: T, p: seq<T>)
    requires f.Domain() && |row| == |other| == |p|
    ensures Dot(f, Combined(f, row, other, c), p) == f.Add(Dot(f, row, p), f.Mul(c, Dot(f, other, p)))
  {
    f.MulZero(c);
    f.Zero(f.zero);
    if |row| > 0 {
      var n := |row| - 1;
      DotCombined(f, row[..n], other[..n], c, p[..n]);
      assert Combined(f, row, other, c)[..n] == Combined(f, row[..n], other[..n], c);
      var a, b := Dot(f, row[..n], p[..n]), Dot(f, other[..n], p[..n]);
      var x, y := f.Mul(row[n], p[n]), f.Mul(other[n], p[n]);
      f.Distrib(p[n], row[n], f.Mul(other[n], c));
      f.MComm(other[n], c);
      f.MAssoc(c, other[n], p[n]);
      f.Distrib(c, b, y);
      f.Shuffle(a, f.Mul(c, b), x, f.Mul(c, y));
    }
  }

  /** The i-th row of the identity matrix. */
  function UnitRow<T(!new)>(f: Field<T>, n: nat, i: nat): (r: seq<T>)
    ensures |r| == n && forall j :: 0 <= j < n ==> r[j] == if i == j then f.one else f.zero
  {
    seq(n, j => if i == j then f.one else f.zero)
  }

  lemma {:induction false} DotUnit<T(!new)>(f: Field<T>, n: nat, i: nat, p: seq<T>)
    requires f.Domain() && |p| == n
    ensures Dot(f, UnitRow(f, n, i), p) == if i < n then p[i] else f.zero
  {
    if n > 0 {
      assert UnitRow(f, n, i)[..n - 1] == UnitRow(f, n - 1, i);
      DotUnit(f, n - 1, i, p[..n - 1]);
      f.One(p[n - 1]);
      f.MulZero(p[n - 1]);
      f.Zero(p[n - 1]);
      f.Zero(Dot(f, UnitRow(f, n - 1, i), p[..n - 1]));
    }
  }

  lemma {:induction false} DotSplit<T(!new)>(f: Field<T>, row: seq<T>, p: seq<T>, k: nat)
    requires f.Domain() && k < |row| == |p|
    ensures Dot(f, row, p) == f.Add(Dot(f, row[k := f.zero], p), f.Mul(row[k], p[k]))
  {
    var m := |row| - 1;
    var rest := row[k := f.zero];
    f.MulZero(p[k]);
    f.Zero(Dot(f, row[..m], p[..m]));
    if k < m {
      assert rest[..m] == row[..m][k := f.zero];
      DotSplit(f, row[..m], p[..m], k);
      f.SwapRight(Dot(f, rest[..m], p[..m]), f.Mul(row[k], p[k]), f.Mul(row[m], p[m]));
    } else {
      assert rest[..m] == row[..m];
    }
  }

  lemma {:induction false} DotIgnores<T(!new)>(f: Field<T>, row: seq<T>, p: seq<T>, k: nat, v: T)
    requires f.Domain() && k < |row| == |p| && row[k] == f.zero
    ensures Dot(f, row, p[k := v]) == Dot(f, row, p)
  {
    var m := |row| - 1;
    var q := p[k := v];
    f.MulZero(p[k]);
    f.MulZero(v);
    if k < m {
      assert q[..m] == p[..m][k := v];
      DotIgnores(f, row[..m], p[..m], k, v);
    } else {
      assert q[..m] == p[..m];
    }
  }

  lemma {:induction false} DotOfZeros<T(!new)>(f: Field<T>, row: seq<T>, p: seq<T>)
    requires f.Domain() && |row| == |p| && forall k :: 0 <= k < |row| ==> row[k] == f.zero || p[k] == f.zero
    ensures Dot(f, row, p) == f.zero
  {
    if |row| > 0 {
      var m := |row| - 1;
      DotOfZeros(f, row[..m], p[..m]);
      f.MulZero(p[m]);
      f.MulZero(row[m]);
      f.Zero(f.zero);
    }
  }

  /** m * p == inv * x, row by row. */
  ghost predicate Agree<T(!new)>(f: Field<T>, m: Matrix<T>, inv: Matrix<T>, p: seq<T>, x: seq<T>)
    requires |p| == |x| && Square(m, |p|) && Square(inv, |p|)
  {
    forall i :: 0 <= i < |p| ==> AgreeAt(f, m, inv, p, x, i)
  }

  ghost predicate AgreeAt<T(!new)>(f: Field<T>, m: Matrix<T>, inv: Matrix<T>, p: seq<T>, x: seq<T>, i: nat)
    requires |p| == |x| && Square(m, |p|) && Square(inv, |p|) && i < |p|
  {
    Dot(f, m[i], p) == Dot(f, inv[i], x)
  }

  /** m * p == x */
  ghost predicate Maps<T(!new)>(f: Field<T>, m: Matrix<T>, p: seq<T>, x: seq<T>)
    requires |p| == |x| && Square(m, |p|)
  {
    forall i :: 0 <= i < |p| ==> Dot(f, m[i], p) == x[i]
  }

  /** The state (m, inv) of the elimination still means m0 * p == x. */
  ghost predicate Tracks<T(!new)>(f: Field<T>, n: nat, m0: Matrix<T>, m: Matrix<T>, inv: Matrix<T>) {
    && Square(m0, n) && Square(m, n) && Square(inv, n)
    && forall p: seq<T>, x: seq<T> :: |p| == |x| == n ==> (Agree(f, m, inv, p, x) <==> Maps(f, m0, p, x))
  }

  /** inv is the two-sided inverse of m: m * p == x iff p == inv * x. */
  ghost predicate IsInverse<T(!new)>(f: Field<T>, n: nat, m: Matrix<T>, inv: Matrix<T>) {
    && Square(m, n) && Square(inv, n)
    && forall p: seq<T>, x: seq<T> :: |p| == |x| == n ==> (Maps(f, m, p, x) <==> Maps(f, inv, x, p))
  }

  ghost predicate Invertible<T(!new)>(f: Field<T>, n: nat, m: Matrix<T>) {
    exists inv :: IsInverse(f, n, m, inv)
  }

  /** The first row from j on with a one in column i, or n if there is none. */
  ghost function FirstOne<T(!new)>(f: Field<T>, m: Matrix<T>, n: nat, i: nat, j: nat): (r: nat)
    requires Square(m, n) && i < n && j <= n
    ensures j <= r <= n && (r < n ==> m[r][i] == f.one) && forall q :: j <= q < r ==> m[q][i] != f.one
    decreases n - j
  {
    if j == n || m[j][i] == f.one then j else FirstOne(f, m, n, i, j + 1)
  }

  /** A zero on the diagonal is replaced from below, but only by a row with a one. */
  ghost function Pivoted<T(!new)>(f: Field<T>, m: Matrix<T>, n: nat, i: nat): (r: Matrix<T>)
    requires Square(m, n) && i < n
    ensures Square(r, n)
  {
    var j := FirstOne(f, m, n, i, i + 1);
    if m[i][i] != f.zero || j == n then m else m[i := m[j]][j := m[i]]
  }

  /** Only a zero on the diagonal is replaced, by the first row below it with a one. */
  lemma PivotedIs<T(!new)>(f: Field<T>, m: Matrix<T>, n: nat, i: nat, j: nat)
    requires Square(m, n) && i < n
    ensures m[i][i] != f.zero || (forall q :: i < q < n ==> m[q][i] != f.one) ==> Pivoted(f, m, n, i) == m
    ensures i < j < n && m[i][i] == f.zero && m[j][i] == f.one && (forall q :: i < q < j ==> m[q][i] != f.one) ==>
      Pivoted(f, m, n, i) == m[i := m[j]][j := m[i]]
  {
    hide FirstOne;
  }

  /** Row i divided by its pivot, and its multiples taken off the rows before j. */
  ghost function Reduced<T(!new)>(f: Field<T>, rounds: nat, m: Matrix<T>, n: nat, i: nat, j: nat): (r: Matrix<T>)
    requires Square(m, n) && i < n
    ensures Square(r, n)
  {
    var pivot := Scaled(f, m[i], Pow(f, m[i][i], Exp2(Exp2(rounds)) - 2));
    seq(n, r requires 0 <= r < n => if r == i then pivot else if r < j then Combined(f, m[r], pivot, m[r][i]) else m[r])
  }

  /** From column i on, every column has a non-zero diagonal entry or a one below it
      once the columns before it are cleared. */
  ghost predicate Accepted<T(!new)>(f: Field<T>, rounds: nat, m: Matrix<T>, n: nat, i: nat)
    requires Square(m, n) && i <= n
    decreases n - i
  {
    i == n || (
      var p := Pivoted(f, m, n, i);
      p[i][i] != f.zero && Accepted(f, rounds, Reduced(f, rounds, p, n, i, n), n, i + 1)
    )
  }

  /** Columns before k are those of the identity. */
  ghost predicate Cleared<T(!new)>(f: Field<T>, n: nat, m: Matrix<T>, k: nat)
    requires Square(m, n) && k <= n
  {
    forall r, c :: 0 <= r < n && 0 <= c < k ==> m[r][c] == if r == c then f.one else f.zero
  }

  lemma TrackSwap<T(!new)>(f: Field<T>, n: nat, m0: Matrix<T>, m: Matrix<T>, inv: Matrix<T>, i: nat, j: nat)
    requires Tracks(f, n, m0, m, inv) && i < n && j < n
    ensures Tracks(f, n, m0, m[i := m[j]][j := m[i]], inv[i := inv[j]][j := inv[i]])
  {
    var m', inv' := m[i := m[j]][j := m[i]], inv[i := inv[j]][j := inv[i]];
    forall p: seq<T>, x: seq<T> | |p| == |x| == n
      ensures Agree(f, m', inv', p, x) <==> Agree(f, m, inv, p, x)
    {
      assert AgreeAt(f, m', inv', p, x, i) == AgreeAt(f, m, inv, p, x, j);
      assert AgreeAt(f, m', inv', p, x, j) == AgreeAt(f, m, inv, p, x, i);
      assert forall r :: 0 <= r < n && r != i && r != j ==> AgreeAt(f, m', inv', p, x, r) == AgreeAt(f, m, inv, p, x, r);
    }
  }

  lemma TrackScale<T(!new)>(f: Field<T>, n: nat, m0: Matrix<T>, m: Matrix<T>, inv: Matrix<T>, i: nat, c: T)
    requires f.Domain() && Tracks(f, n, m0, m, inv) && i < n && c != f.zero
    ensures Tracks(f, n, m0, m[i := Scaled(f, m[i], c)], inv[i := Scaled(f, inv[i], c)])
  {
    var m', inv' := m[i := Scaled(f, m[i], c)], inv[i := Scaled(f, inv[i], c)];
    forall p: seq<T>, x: seq<T> | |p| == |x| == n
      ensures Agree(f, m', inv', p, x) <==> Agree(f, m, inv, p, x)
    {
      DotScaled(f, m[i], c, p);
      DotScaled(f, inv[i], c, x);
      if AgreeAt(f, m', inv', p, x, i) {
        f.MulCancel(c, Dot(f, m[i], p), Dot(f, inv[i], x));
      }
      assert AgreeAt(f, m', inv', p, x, i) == AgreeAt(f, m, inv, p, x, i);
      assert forall r :: 0 <= r < n && r != i ==> AgreeAt(f, m', inv', p, x, r) == AgreeAt(f, m, inv, p, x, r);
    }
  }

  lemma TrackCombine<T(!new)>(f: Field<T>, n: nat, m0: Matrix<T>, m: Matrix<T>, inv: Matrix<T>, j: nat, i: nat, c: T)
    requires f.Domain() && Tracks(f, n, m0, m, inv) && i < n && j < n && i != j
    ensures Tracks(f, n, m0, m[j := Combined(f, m[j], m[i], c)], inv[j := Combined(f, inv[j], inv[i], c)])
  {
    var m', inv' := m[j := Combined(f, m[j], m[i], c)], inv[j := Combined(f, inv[j], inv[i], c)];
    forall p: seq<T>, x: seq<T> | |p| == |x| == n
      ensures Agree(f, m', inv', p, x) <==> Agree(f, m, inv, p, x)
    {
      DotCombined(f, m[j], m[i], c, p);
      DotCombined(f, inv[j], inv[i], c, x);
      assert AgreeAt(f, m', inv', p, x, i) == AgreeAt(f, m, inv, p, x, i);
      if AgreeAt(f, m, inv, p, x, i) {
        var z := f.Mul(c, Dot(f, m[i], p));
        if AgreeAt(f, m', inv', p, x, j) {
          f.Comm(Dot(f, m[j], p), z);
          f.Comm(Dot(f, inv[j], x), z);
          f.CancelLeft(z, Dot(f, m[j], p), Dot(f, inv[j], x));
        }
        assert AgreeAt(f, m', inv', p, x, j) == AgreeAt(f, m, inv, p, x, j);
      }
      assert forall r :: 0 <= r < n && r != j ==> AgreeAt(f, m', inv', p, x, r) == AgreeAt(f, m, inv, p, x, r);
    }
  }

  /** The start: inv is the identity. */
  lemma TrackStart<T(!new)>(f: Field<T>, n: nat, m: Matrix<T>, inv: Matrix<T>)
    requires f.Domain() && Square(m, n) && |inv| == n && forall i :: 0 <= i < n ==> inv[i] == UnitRow(f, n, i)
    ensures Tracks(f, n, m, m, inv)
  {
    forall p: seq<T>, x: seq<T> | |p| == |x| == n
      ensures Agree(f, m, inv, p, x) <==> Maps(f, m, p, x)
    {
      forall i | 0 <= i < n
        ensures AgreeAt(f, m, inv, p, x, i) <==> Dot(f, m[i], p) == x[i]
      {
        DotUnit(f, n, i, x);
      }
    }
  }

  /** The end: m is the identity, so inv is the inverse. */
  lemma TrackEnd<T(!new)>(f: Field<T>, n: nat, m0: Matrix<T>, m: Matrix<T>, inv: Matrix<T>)
    requires f.Domain() && Tracks(f, n, m0, m, inv) && Cleared(f, n, m, n)
    ensures IsInverse(f, n, m0, inv)
  {
    forall p: seq<T>, x: seq<T> | |p| == |x| == n
      ensures Maps(f, m0, p, x) <==> Maps(f, inv, x, p)
    {
      forall i | 0 <= i < n
        ensures AgreeAt(f, m, inv, p, x, i) <==> Dot(f, inv[i], x) == p[i]
      {
        assert m[i] == UnitRow(f, n, i);
        DotUnit(f, n, i, p);
      }
      assert Agree(f, m, inv, p, x) <==> Maps(f, m0, p, x);
    }
  }

  /** The contents of a two-dimensional array. */
  function Rows<T>(a: array2<T>): (m: Matrix<T>)
    reads a
    ensures |m| == a.Length0 && forall i :: 0 <= i < |m| ==> m[i] == RowOf(a, i)
  {
    seq(a.Length0, i requires 0 <= i < a.Length0 reads a => RowOf(a, i))
  }

  function RowOf<T>(a: array2<T>, i: nat): (r: seq<T>)
    requires i < a.Length0
    reads a
    ensures |r| == a.Length1 && forall j :: 0 <= j < |r| ==> r[j] == a[i, j]
  {
    seq(a.Length1, j requires 0 <= j < a.Length1 reads a => a[i, j])
  }

  lemma RowsAre<T>(a: array2<T>, m: Matrix<T>)
    requires |m| == a.Length0
    requires forall i :: 0 <= i < |m| ==> |m[i]| == a.Length1 && forall j :: 0 <= j < a.Length1 ==> a[i, j] == m[i][j]
    ensures Rows(a) == m
  {
    forall i | 0 <= i < |m|
      ensures RowOf(a, i) == m[i]
    {
    }
  }

  method SwapRows<T>(a: array2<T>, i: nat, j: nat)
    requires i < a.Length0 && j < a.Length0
    modifies a
    ensures Rows(a) == old(Rows(a))[i := old(RowOf(a, j))][j := old(RowOf(a, i))]
  {
    for k := 0 to a.Length1
      invariant forall r, c :: 0 <= r < a.Length0 && k <= c < a.Length1 ==> a[r, c] == old(a[r, c])
      invariant forall r, c :: 0 <= r < a.Length0 && 0 <= c < k ==>
        a[r, c] == old(if r == i then a[j, c] else if r == j then a[i, c] else a[r, c])
    {
      a[i, k], a[j, k] := a[j, k], a[i, k];
    }
    RowsAre(a, old(Rows(a))[i := old(RowOf(a, j))][j := old(RowOf(a, i))]);
  }

  method ScaleRow<T(!new)>(f: Field<T>, a: array2<T>, i: nat, c: T)
    requires i < a.Length0
    modifies a
    ensures Rows(a) == old(Rows(a))[i := Scaled(f, old(RowOf(a, i)), c)]
  {
    for j := 0 to a.Length1
      invariant forall r, k :: 0 <= r < a.Length0 && 0 <= k < a.Length1 ==>
        a[r, k] == if r == i && k < j then f.Mul(old(a[r, k]), c) else old(a[r, k])
    {
      a[i, j] := f.Mul(a[i, j], c);
    }
    RowsAre(a, old(Rows(a))[i := Scaled(f, old(RowOf(a, i)), c)]);
  }

  method CombineRow<T(!new)>(f: Field<T>, a: array2<T>, j: nat, i: nat, c: T)
    requires i < a.Length0 && j < a.Length0 && i != j
    modifies a
    ensures Rows(a) == old(Rows(a))[j := Combined(f, old(RowOf(a, j)), old(RowOf(a, i)), c)]
  {
    for k := 0 to a.Length1
      invariant forall r, q :: 0 <= r < a.Length0 && 0 <= q < a.Length1 ==>
        a[r, q] == if r == j && q < k then f.Add(old(a[r, q]), f.Mul(old(a[i, q]), c)) else old(a[r, q])
    {
      a[j, k] := f.Add(a[j, k], f.Mul(a[i, k], c));
    }
    RowsAre(a, old(Rows(a))[j := Combined(f, old(RowOf(a, j)), old(RowOf(a, i)), c)]);
  }

  /** Swaps a lower row with a one in column i up, if the diagonal entry is zero. */
  method FindPivot<T(==,!new)>(f: Field<T>, mtx: array2<T>, inv: array2<T>, i: nat, ghost n: nat, ghost m0: Matrix<T>)
    requires mtx != inv && i < n && mtx.Length0 == mtx.Length1 == inv.Length0 == inv.Length1 == n
    requires Tracks(f, n, m0, Rows(mtx), Rows(inv)) && Cleared(f, n, Rows(mtx), i)
    modifies mtx, inv
    ensures Tracks(f, n, m0, Rows(mtx), Rows(inv))
    ensures Rows(mtx) == Pivoted(f, old(Rows(mtx)), n, i)
    ensures Cleared(f, n, Rows(mtx), i)
  {
    if mtx[i, i] == f.zero {
      var j := FindOne(f, mtx, i);
      if j < mtx.Length0 {
        TrackSwap(f, n, m0, Rows(mtx), Rows(inv), i, j);
        SwapRows(mtx, i, j);
        SwapRows(inv, i, j);
      }
    }
  }

  method FindOne<T(==,!new)>(f: Field<T>, mtx: array2<T>, i: nat) returns (j: nat)
    requires i < mtx.Length0 == mtx.Length1
    ensures j == FirstOne(f, Rows(mtx), mtx.Length0, i, i + 1)
  {
    hide FirstOne;
    j := i + 1;
    while j < mtx.Length0 && mtx[j, i] != f.one
      invariant i + 1 <= j <= mtx.Length0
      invariant FirstOne(f, Rows(mtx), mtx.Length0, i, i + 1) == FirstOne(f, Rows(mtx), mtx.Length0, i, j)
    {
      FirstOneAt(f, Rows(mtx), mtx.Length0, i, j);
      j := j + 1;
    }
    FirstOneAt(f, Rows(mtx), mtx.Length0, i, j);
  }

  lemma FirstOneAt<T(!new)>(f: Field<T>, m: Matrix<T>, n: nat, i: nat, j: nat)
    requires Square(m, n) && i < n && j <= n
    ensures FirstOne(f, m, n, i, j) == if j == n || m[j][i] == f.one then j else FirstOne(f, m, n, i, j + 1)
  {
  }

  /** Makes column i the unit column, given a non-zero pivot. */
  method ClearColumn<T(==,!new)>(f: Field<T>, rounds: nat, mtx: array2<T>, inv: array2<T>, i: nat, ghost n: nat, ghost m0: Matrix<T>)
    requires Galois(f, rounds) && rounds >= 1
    requires mtx != inv && i < n && mtx.Length0 == mtx.Length1 == inv.Length0 == inv.Length1 == n
    requires Tracks(f, n, m0, Rows(mtx), Rows(inv)) && Cleared(f, n, Rows(mtx), i) && mtx[i, i] != f.zero
    modifies mtx, inv
    ensures Tracks(f, n, m0, Rows(mtx), Rows(inv)) && Cleared(f, n, Rows(mtx), i + 1)
    ensures Rows(mtx) == Reduced(f, rounds, old(Rows(mtx)), n, i, n)
  {
    GaloisDomain(f, rounds);
    hide Tracks, Cleared, Zeroed, Combined, Galois, Reduced;
    hide Field.XorGroup, Field.Domain;
    ghost var was := Rows(mtx);
    NormalizeRow(f, rounds, mtx, inv, i, n, m0);
    NothingZeroed(f, n, Rows(mtx), i);
    for j := 0 to mtx.Length0
      invariant Tracks(f, n, m0, Rows(mtx), Rows(inv)) && Cleared(f, n, Rows(mtx), i) && Zeroed(f, n, Rows(mtx), i, j)
      invariant Rows(mtx) == Reduced(f, rounds, was, n, i, j)
    {
      ReducedNext(f, rounds, was, n, i, j);
      if j != i {
        var c := mtx[j, i];
        ghost var m, v := Rows(mtx), Rows(inv);
        TrackCombine(f, n, m0, m, v, j, i, c);
        CombineClears(f, n, m, i, j, c);
        CombineRow(f, mtx, j, i, c);
        CombineRow(f, inv, j, i, c);
      } else {
        ZeroedSkip(f, n, Rows(mtx), i);
      }
    }
    AllZeroed(f, n, Rows(mtx), i);
  }

  lemma ReducedNext<T(!new)>(f: Field<T>, rounds: nat, m: Matrix<T>, n: nat, i: nat, j: nat)
    requires Square(m, n) && i < n && j < n
    ensures var r := Reduced(f, rounds, m, n, i, j);
      Reduced(f, rounds, m, n, i, j + 1) == if j == i then r else r[j := Combined(f, r[j], r[i], r[j][i])]
  {
  }

  lemma ReducedStart<T(!new)>(f: Field<T>, rounds: nat, m: Matrix<T>, n: nat, i: nat)
    requires Square(m, n) && i < n
    ensures Reduced(f, rounds, m, n, i, 0) == m[i := Scaled(f, m[i], Pow(f, m[i][i], Exp2(Exp2(rounds)) - 2))]
  {
  }

  /** The rows before j have a zero, and row i a one, in column i. */
  ghost predicate Zeroed<T(!new)>(f: Field<T>, n: nat, m: Matrix<T>, i: nat, j: nat)
    requires Square(m, n) && i < n && j <= n
  {
    m[i][i] == f.one && forall r :: 0 <= r < j && r != i ==> m[r][i] == f.zero
  }

  lemma NothingZeroed<T(!new)>(f: Field<T>, n: nat, m: Matrix<T>, i: nat)
    requires Square(m, n) && i < n && m[i][i] == f.one
    ensures Zeroed(f, n, m, i, 0)
  {
  }

  lemma ZeroedSkip<T(!new)>(f: Field<T>, n: nat, m: Matrix<T>, i: nat)
    requires Square(m, n) && i < n && Zeroed(f, n, m, i, i)
    ensures Zeroed(f, n, m, i, i + 1)
  {
  }

  lemma AllZeroed<T(!new)>(f: Field<T>, n: nat, m: Matrix<T>, i: nat)
    requires Square(m, n) && i < n && Cleared(f, n, m, i) && Zeroed(f, n, m, i, n)
    ensures Cleared(f, n, m, i + 1)
  {
  }

  /** Adding a multiple of the pivot row to row j zeroes its entry in column i. */
  lemma CombineClears<T(!new)>(f: Field<T>, n: nat, m: Matrix<T>, i: nat, j: nat, c: T)
    requires f.XorGroup() && f.Domain() && Square(m, n) && i < n && j < n && i != j
    requires Cleared(f, n, m, i) && Zeroed(f, n, m, i, j) && m[j][i] == c
    ensures var m' := m[j := Combined(f, m[j], m[i], c)];
      Square(m', n) && Cleared(f, n, m', i) && Zeroed(f, n, m', i, j + 1)
  {
    f.MulZero(c);
    f.One(c);
    f.XorMove(c, c);
    forall k | 0 <= k < i
      ensures Combined(f, m[j], m[i], c)[k] == m[j][k]
    {
      f.Zero(m[j][k]);
    }
  }

  method NormalizeRow<T(==,!new)>(f: Field<T>, rounds: nat, mtx: array2<T>, inv: array2<T>, i: nat, ghost n: nat, ghost m0: Matrix<T>)
    requires Galois(f, rounds) && rounds >= 1
    requires mtx != inv && i < n && mtx.Length0 == mtx.Length1 == inv.Length0 == inv.Length1 == n
    requires Tracks(f, n, m0, Rows(mtx), Rows(inv)) && Cleared(f, n, Rows(mtx), i) && mtx[i, i] != f.zero
    modifies mtx, inv
    ensures Tracks(f, n, m0, Rows(mtx), Rows(inv)) && Cleared(f, n, Rows(mtx), i) && mtx[i, i] == f.one
    ensures Rows(mtx) == Reduced(f, rounds, old(Rows(mtx)), n, i, 0)
  {
    ghost var m, v := Rows(mtx), Rows(inv);
    ReducedStart(f, rounds, m, n, i);
    var c := ScalarInverse(f, mtx[i, i], rounds);
    PowerInverts(f, rounds, mtx[i, i]);
    f.MComm(c, mtx[i, i]);
    f.MulZero(mtx[i, i]);
    TrackScale(f, n, m0, m, v, i, c);
    ScaleRow(f, mtx, i, c);
    ScaleRow(f, inv, i, c);
    ScaleKeepsCleared(f, n, m, i, c);
    assert mtx[i, i] == Rows(mtx)[i][i];
  }

  lemma ScaleKeepsCleared<T(!new)>(f: Field<T>, n: nat, m: Matrix<T>, i: nat, c: T)
    requires f.Domain() && Square(m, n) && i < n && Cleared(f, n, m, i)
    ensures var m' := m[i := Scaled(f, m[i], c)];
      Square(m', n) && Cleared(f, n, m', i) && m'[i][i] == f.Mul(m[i][i], c)
  {
    f.MulZero(c);
  }

  /** Gauss-Jordan elimination of a copy of the matrix. What it returns is the
      two-sided inverse; it refuses exactly the matrices that are not Accepted. */
  method MatrixInverse<T(==,!new)>(f: Field<T>, rounds: nat, m0: array2<T>) returns (ok: bool, inv: array2<T>)
    requires Galois(f, rounds) && rounds >= 1 && m0.Length0 == m0.Length1
    ensures ok ==> fresh(inv) && inv.Length0 == inv.Length1 == m0.Length0
    ensures ok ==> IsInverse(f, m0.Length0, Rows(m0), Rows(inv))
    ensures ok <==> Accepted(f, rounds, Rows(m0), m0.Length0, 0)
  {
    GaloisDomain(f, rounds);
    hide Tracks, Cleared, Galois, Pivoted, Reduced;
    hide Field.XorGroup, Field.Domain;
    var n := m0.Length0;
    var mtx := new T[n, n]((i, j) requires 0 <= i < n && 0 <= j < n reads m0 => m0[i, j]);
    inv := new T[n, n]((i, j) => if i == j then f.one else f.zero);
    ghost var start := Rows(m0);
    RowsAre(mtx, start);
    TrackStart(f, n, start, Rows(inv));
    NothingCleared(f, n, start);
    ok := true;
    for i := 0 to n
      invariant fresh(mtx) && fresh(inv) && mtx != inv
      invariant Tracks(f, n, start, Rows(mtx), Rows(inv)) && Cleared(f, n, Rows(mtx), i)
      invariant Accepted(f, rounds, start, n, 0) == Accepted(f, rounds, Rows(mtx), n, i)
    {
      FindPivot(f, mtx, inv, i, n, start);
      assert mtx[i, i] == Rows(mtx)[i][i];
      if mtx[i, i] == f.zero {
        ok := false;
        return;
      }
      ClearColumn(f, rounds, mtx, inv, i, n, start);
    }
    TrackEnd(f, n, start, Rows(mtx), Rows(inv));
  }

  lemma GaloisDomain<T(!new)>(f: Field<T>, k: nat)
    requires Galois(f, k)
    ensures f.XorGroup() && f.Domain()
  {
  }

  lemma NothingCleared<T(!new)>(f: Field<T>, n: nat, m: Matrix<T>)
    requires Square(m, n)
    ensures Cleared(f, n, m, 0)
  {
  }

  /** An invertible matrix that is refused: its first column has no one. */
  lemma RefusesInvertible<T(!new)>(f: Field<T>, rounds: nat, a: T, b: T)
    requires f.Domain() && f.Mul(a, b) == f.one && a != f.one
    ensures var m, inv := [[f.zero, f.one], [a, f.zero]], [[f.zero, b], [f.one, f.zero]];
      IsInverse(f, 2, m, inv) && !Accepted(f, rounds, m, 2, 0)
  {
    hide Field.Domain, Field.Group;
    var m, inv := [[f.zero, f.one], [a, f.zero]], [[f.zero, b], [f.one, f.zero]];
    forall p: seq<T>, x: seq<T> | |p| == |x| == 2
      ensures Maps(f, m, p, x) <==> Maps(f, inv, x, p)
    {
      TwoDot(f, f.zero, f.one, p);
      TwoDot(f, a, f.zero, p);
      TwoDot(f, f.zero, b, x);
      TwoDot(f, f.one, f.zero, x);
      Antidiagonal(f, a, p);
      Antidiagonal(f, b, x);
      Divides(f, a, b, p[0], x[1]);
    }
  }

  lemma TwoDot<T(!new)>(f: Field<T>, a: T, b: T, p: seq<T>)
    requires f.Domain() && |p| == 2
    ensures Dot(f, [a, b], p) == f.Add(f.Mul(a, p[0]), f.Mul(b, p[1]))
  {
    assert [a, b][..1] == [a];
    assert p[..1] == [p[0]];
    assert Dot(f, [a], [p[0]]) == f.Add(Dot(f, [], []), f.Mul(a, p[0]));
    f.Zero(f.Mul(a, p[0]));
  }

  lemma Antidiagonal<T(!new)>(f: Field<T>, a: T, p: seq<T>)
    requires f.Domain() && |p| == 2
    ensures f.Add(f.Mul(f.zero, p[0]), f.Mul(f.one, p[1])) == p[1]
    ensures f.Add(f.Mul(a, p[0]), f.Mul(f.zero, p[1])) == f.Mul(a, p[0])
    ensures f.Add(f.Mul(f.zero, p[0]), f.Mul(a, p[1])) == f.Mul(a, p[1])
    ensures f.Add(f.Mul(f.one, p[0]), f.Mul(f.zero, p[1])) == p[0]
  {
    f.MulZero(p[0]);
    f.MulZero(p[1]);
    f.One(p[0]);
    f.One(p[1]);
    f.Zero(p[0]);
    f.Zero(p[1]);
    f.Zero(f.Mul(a, p[0]));
    f.Zero(f.Mul(a, p[1]));
  }

  /** a * p == x iff p == b * x, for inverses a and b. */
  lemma Divides<T(!new)>(f: Field<T>, a: T, b: T, p: T, x: T)
    requires f.Domain() && f.Mul(a, b) == f.one
    ensures f.Mul(a, p) == x <==> p == f.Mul(b, x)
  {
    f.MComm(a, b);
    f.MAssoc(a, b, x);
    f.MAssoc(b, a, p);
    f.One(x);
    f.One(p);
  }
}
