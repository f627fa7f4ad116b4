/** Decoding a row, and filling in the pivot columns from the last one back. */
module Backfill {
  import opened Fields
  import opened Inversion
  import opened Matrices
  import opened WeightBuckets
  import opened Triangulation
  import opened SparseRows

  /** The dense part of a row: d, d^2, d^3, ... */
  function Powers<T(!new)>(f: Field<T>, d: T, n: nat): (r: seq<T>)
    ensures |r| == n
  {
    if n == 0 then [] else Powers(f, d, n - 1) + [Pow(f, d, n)]
  }

  function DenseSum<T(!new)>(f: Field<T>, d: T, p2: seq<T>): T {
    Dot(f, Powers(f, d, |p2|), p2)
  }

  /** What a row with sparse columns `row` and dense part d decodes to. */
  function Decoded<T(!new)>(f: Field<T>, row: seq<nat>, d: T, p: seq<T>, s: nat): T
    requires s <= |p| && forall j :: 0 <= j < |row| ==> row[j] < s
  {
    f.Add(RowSum(f, row, p), DenseSum(f, d, p[s..]))
  }

  lemma DenseSumStep<T(!new)>(f: Field<T>, d: T, p2: seq<T>, i: nat)
    requires f.Domain() && i < |p2|
    ensures DenseSum(f, d, p2[..i + 1]) == f.Add(DenseSum(f, d, p2[..i]), f.Mul(p2[i], Pow(f, d, i + 1)))
  {
    assert p2[..i + 1][..i] == p2[..i];
    assert Powers(f, d, i + 1)[..i] == Powers(f, d, i);
    f.MComm(p2[i], Pow(f, d, i + 1));
  }

  /** Adds the dense part of a row: one multiplication per power. */
  method AddDense<T(!new)>(f: Field<T>, y0: T, d: T, p: array<T>, s: nat) returns (y: T)
    requires f.Domain() && s < p.Length
    ensures y == f.Add(y0, DenseSum(f, d, p[s..]))
  {
    ghost var p2 := p[s..];
    var x := d;
    y := f.Add(y0, f.Mul(p[s], x));
    f.One(d);
    assert Pow(f, d, 1) == f.Mul(Pow(f, d, 0), d);
    DenseSumStep(f, d, p2, 0);
    f.Zero(f.Mul(p2[0], x));
    for i := 1 to p.Length - s
      invariant x == Pow(f, d, i)
      invariant y == f.Add(y0, DenseSum(f, d, p2[..i]))
    {
      x := f.Mul(x, d);
      DenseSumStep(f, d, p2, i);
      f.Assoc(y0, DenseSum(f, d, p2[..i]), f.Mul(p2[i], x));
      y := f.Add(y, f.Mul(p[s + i], x));
    }
    assert p2[..|p2|] == p2;
  }

  /** Adds the sparse part of a row. */
  method AddSparse<T(!new)>(f: Field<T>, y0: T, row: seq<nat>, p: array<T>) returns (y: T)
    requires f.Group() && forall j :: 0 <= j < |row| ==> row[j] < p.Length
    ensures y == f.Add(y0, RowSum(f, row, p[..]))
  {
    y := y0;
    f.Zero(y0);
    for j := 0 to |row|
      invariant y == f.Add(y0, RowSum(f, row[..j], p[..]))
    {
      assert row[..j + 1][..j] == row[..j];
      f.Assoc(y0, RowSum(f, row[..j], p[..]), p[row[j]]);
      y := f.Add(y, p[row[j]]);
    }
    assert row[..|row|] == row;
  }

  /** Decodes one row. */
  method Decode1<T(!new)>(f: Field<T>, row: seq<nat>, d: T, p: array<T>, s: nat) returns (value: T)
    requires f.Domain() && |row| > 0 && s < p.Length && forall j :: 0 <= j < |row| ==> row[j] < s
    ensures value == Decoded(f, row, d, p[..], s)
  {
    value := p[row[0]];
    assert row[..1][..0] == [];
    f.Zero(value);
    for j := 1 to |row|
      invariant value == RowSum(f, row[..j], p[..])
    {
      assert row[..j + 1][..j] == row[..j];
      value := f.Add(value, p[row[j]]);
    }
    assert row[..|row|] == row;
    assert p[s..] == p[..][s..];
    value := AddDense(f, value, d, p, s);
  }

  lemma {:induction false} UnitRowSum<T(!new)>(f: Field<T>, row: seq<nat>, n: nat, c: nat)
    requires f.Domain() && NoDuplicates(row) && forall j :: 0 <= j < |row| ==> row[j] < n
    ensures RowSum(f, row, UnitRow(f, n, c)) == if c in row then f.one else f.zero
  {
    if row != [] {
      var rest, x := row[..|row| - 1], row[|row| - 1];
      UnitRowSum(f, rest, n, c);
      assert c in row <==> c in rest || c == x;
      f.Zero(f.one);
      f.Zero(f.zero);
    }
  }

  lemma {:induction false} DotUnitRight<T(!new)>(f: Field<T>, row: seq<T>, k: nat)
    requires f.Domain()
    ensures Dot(f, row, UnitRow(f, |row|, k)) == if k < |row| then row[k] else f.zero
  {
    if row != [] {
      var m := |row| - 1;
      var p := UnitRow(f, |row|, k);
      assert p[..m] == UnitRow(f, m, k);
      DotUnitRight(f, row[..m], k);
      f.One(row[m]);
      f.MulZero(row[m]);
      f.Zero(row[m]);
      f.Zero(Dot(f, row[..m], p[..m]));
    }
  }

  lemma {:induction false} PowersAt<T(!new)>(f: Field<T>, d: T, n: nat, j: nat)
    requires j < n
    ensures Powers(f, d, n)[j] == Pow(f, d, j + 1)
  {
    if j < n - 1 {
      PowersAt(f, d, n - 1, j);
    }
  }

  /** The matrix of decoding: a sparse column counts once for the rows that name
      it, and the j-th dense column counts d to the power j + 1. */
  lemma UnitDecodes<T(!new)>(f: Field<T>, row: seq<nat>, d: T, s: nat, n: nat, c: nat)
    requires f.Domain() && NoDuplicates(row) && s <= n && c < n && forall j :: 0 <= j < |row| ==> row[j] < s
    ensures Decoded(f, row, d, UnitRow(f, n, c), s) == if c in row then f.one else if c < s then f.zero else Pow(f, d, c - s + 1)
  {
    UnitRowSum(f, row, n, c);
    if c < s {
      DotOfZeros(f, Powers(f, d, n - s), UnitRow(f, n, c)[s..]);
    } else {
      assert UnitRow(f, n, c)[s..] == UnitRow(f, n - s, c - s);
      assert |Powers(f, d, n - s)| == n - s;
      DotUnitRight(f, Powers(f, d, n - s), c - s);
      PowersAt(f, d, n - s, c - s);
      f.Zero(Pow(f, d, c - s + 1));
    }
    f.Zero(f.one);
    f.Zero(f.zero);
  }

  function PointAdd<T(!new)>(f: Field<T>, a: seq<T>, b: seq<T>): (r: seq<T>)
    requires |a| == |b|
    ensures |r| == |a| && forall j :: 0 <= j < |a| ==> r[j] == f.Add(a[j], b[j])
  {
    seq(|a|, j requires 0 <= j < |a| => f.Add(a[j], b[j]))
  }

  lemma {:induction false} DotAdds<T(!new)>(f: Field<T>, row: seq<T>, p: seq<T>, q: seq<T>)
    requires f.Domain() && |row| == |p| == |q|
    ensures Dot(f, row, PointAdd(f, p, q)) == f.Add(Dot(f, row, p), Dot(f, row, q))
  {
    f.Zero(f.zero);
    if |row| > 0 {
      var n := |row| - 1;
      DotAdds(f, row[..n], p[..n], q[..n]);
      assert PointAdd(f, p, q)[..n] == PointAdd(f, p[..n], q[..n]);
      f.Distrib(row[n], p[n], q[n]);
      f.Shuffle(Dot(f, row[..n], p[..n]), Dot(f, row[..n], q[..n]), f.Mul(row[n], p[n]), f.Mul(row[n], q[n]));
    }
  }

  lemma {:induction false} RowSumAdds<T(!new)>(f: Field<T>, row: seq<nat>, p: seq<T>, q: seq<T>)
    requires f.Group() && |p| == |q| && forall j :: 0 <= j < |row| ==> row[j] < |p|
    ensures RowSum(f, row, PointAdd(f, p, q)) == f.Add(RowSum(f, row, p), RowSum(f, row, q))
  {
    f.Zero(f.zero);
    if row != [] {
      var rest, c := row[..|row| - 1], row[|row| - 1];
      RowSumAdds(f, rest, p, q);
      f.Shuffle(RowSum(f, rest, p), RowSum(f, rest, q), p[c], q[c]);
    }
  }

  /** Decoding is additive: it is the matrix of UnitDecodes times the codeword. */
  lemma DecodingAdds<T(!new)>(f: Field<T>, row: seq<nat>, d: T, p: seq<T>, q: seq<T>, s: nat)
    requires f.Domain() && s <= |p| == |q| && forall j :: 0 <= j < |row| ==> row[j] < s
    ensures Decoded(f, row, d, PointAdd(f, p, q), s) == f.Add(Decoded(f, row, d, p, s), Decoded(f, row, d, q, s))
  {
    RowSumAdds(f, row, p, q);
    assert PointAdd(f, p, q)[s..] == PointAdd(f, p[s..], q[s..]);
    DotAdds(f, Powers(f, d, |p| - s), p[s..], q[s..]);
    f.Shuffle(RowSum(f, row, p), RowSum(f, row, q), DenseSum(f, d, p[s..]), DenseSum(f, d, q[s..]));
  }

  lemma {:induction false} RowSumSame<T(!new)>(f: Field<T>, row: seq<nat>, p: seq<T>, q: seq<T>)
    requires |p| == |q| && forall j :: 0 <= j < |row| ==> row[j] < |p| && p[row[j]] == q[row[j]]
    ensures RowSum(f, row, p) == RowSum(f, row, q)
  {
    if row != [] {
      RowSumSame(f, row[..|row| - 1], p, q);
    }
  }

  /** Writing a column that was zero adds its new value to the sum of a row. */
  lemma {:induction false} RowSumUpdate<T(!new)>(f: Field<T>, row: seq<nat>, p: seq<T>, c: nat, y: T)
    requires f.Group() && NoDuplicates(row) && (forall j :: 0 <= j < |row| ==> row[j] < |p|)
    requires c in row && c < |p| && p[c] == f.zero
    ensures RowSum(f, row, p[c := y]) == f.Add(RowSum(f, row, p), y)
  {
    var n := |row| - 1;
    var rest := RowSum(f, row[..n], p);
    f.Zero(rest);
    if row[n] == c {
      RowSumSame(f, row[..n], p[c := y], p);
    } else {
      assert c in row[..n];
      RowSumUpdate(f, row[..n], p, c, y);
      f.SwapRight(rest, y, p[row[n]]);
    }
  }

  /** The pivot column of a row, set to the sum of everything else, solves it. */
  lemma PivotSolves<T(!new)>(f: Field<T>, row: seq<nat>, d: T, p: seq<T>, s: nat, c: nat, x: T, y: T)
    requires f.XorGroup() && NoDuplicates(row) && s <= |p| && (forall j :: 0 <= j < |row| ==> row[j] < s)
    requires c in row && p[c] == f.zero
    requires y == f.Add(f.Add(x, RowSum(f, row, p)), DenseSum(f, d, p[s..]))
    ensures Decoded(f, row, d, p[c := y], s) == x
  {
    var r, e := RowSum(f, row, p), DenseSum(f, d, p[s..]);
    RowSumUpdate(f, row, p, c, y);
    assert p[c := y][s..] == p[s..];
    f.Assoc(x, r, e);
    f.Comm(r, y);
    f.Assoc(y, r, e);
    f.XorMove(x, f.Add(r, e));
    assert f.Add(f.Add(r, y), e) == x by {
      assert f.Add(y, f.Add(r, e)) == x;
    }
  }

  /** Main row k decodes to its value. */
  ghost predicate MainSolved<T(!new)>(f: Field<T>, rows: seq<seq<nat>>, dense: seq<T>, vals: seq<T>, mainRows: seq<nat>, p: seq<T>, s: nat, k: nat)
    requires |rows| == |dense| == |vals| && s <= |p| && RowsOk(rows, s) && k < |mainRows| && mainRows[k] < |rows|
  {
    var r := mainRows[k];
    assert RowOk(rows[r], s);
    Decoded(f, rows[r], dense[r], p, s) == vals[r]
  }

  /** A pivot column that a row does not have may be written without harm. */
  lemma KeepsSolved<T(!new)>(f: Field<T>, rows: seq<seq<nat>>, dense: seq<T>, vals: seq<T>, mainRows: seq<nat>, p: seq<T>, s: nat, k: nat, c: nat, y: T)
    requires |rows| == |dense| == |vals| && s <= |p| && RowsOk(rows, s) && k < |mainRows| && mainRows[k] < |rows|
    requires MainSolved(f, rows, dense, vals, mainRows, p, s, k) && c < s && c !in rows[mainRows[k]]
    ensures MainSolved(f, rows, dense, vals, mainRows, p[c := y], s, k)
  {
    var row := rows[mainRows[k]];
    assert RowOk(row, s);
    RowSumSame(f, row, p[c := y], p);
    assert p[c := y][s..] == p[s..];
  }

  /** Fills in the pivot columns from the last main row back. `doDense` says
      whether the dense columns can be non-zero. */
  method BackfillMain<T(!new)>(f: Field<T>, rows: seq<seq<nat>>, dense: seq<T>, vals: seq<T>, mainRows: seq<nat>, mainCols: seq<nat>,
                               ghost gapRows: seq<(nat, nat)>, p: array<T>, s: nat, doDense: bool)
    requires f.XorGroup() && f.Domain() && |rows| == |dense| == |vals| && s < p.Length && RowsOk(rows, s)
    requires Triangulated(rows, s, mainRows, mainCols, gapRows)
    requires forall c :: c in mainCols ==> p[c] == f.zero
    requires !doDense ==> forall j :: s <= j < p.Length ==> p[j] == f.zero
    modifies p
    ensures forall c :: 0 <= c < p.Length && c !in mainCols ==> p[c] == old(p[c])
    ensures forall k :: 0 <= k < |mainRows| ==> mainRows[k] < |rows| && MainSolved(f, rows, dense, vals, mainRows, p[..], s, k)
  {
    ghost var q := p[..];
    assert forall k :: 0 <= k < |mainRows| ==> mainRows[k] in mainRows;
    for k := |mainRows| downto 0
      invariant forall c :: 0 <= c < p.Length && c !in mainCols[k..] ==> p[c] == q[c]
      invariant forall j :: k <= j < |mainRows| ==> MainSolved(f, rows, dense, vals, mainRows, p[..], s, j)
    {
      ghost var before := p[..];
      PivotStep(rows, s, mainRows, mainCols, gapRows, k);
      assert p[mainCols[k]] == f.zero;
      assert !doDense ==> forall j :: s <= j < p.Length ==> p[j] == q[j];
      FillPivot(f, rows[mainRows[k]], dense[mainRows[k]], vals[mainRows[k]], mainCols[k], p, s, doDense);
      forall j | k < j < |mainRows|
        ensures MainSolved(f, rows, dense, vals, mainRows, p[..], s, j)
      {
        assert PivotAt(rows, mainCols, mainRows[j], j);
        KeepsSolved(f, rows, dense, vals, mainRows, before, s, j, mainCols[k], p[mainCols[k]]);
      }
    }
    assert mainCols[0..] == mainCols;
  }

  lemma PivotStep(rows: seq<seq<nat>>, s: nat, mainRows: seq<nat>, mainCols: seq<nat>, gapRows: seq<(nat, nat)>, k: nat)
    requires RowsOk(rows, s) && Triangulated(rows, s, mainRows, mainCols, gapRows) && k < |mainRows|
    ensures |mainCols| == |mainRows| && mainRows[k] < |rows| && RowOk(rows[mainRows[k]], s)
    ensures mainCols[k] in rows[mainRows[k]] && mainCols[k] < s && mainCols[k] in mainCols
    ensures mainCols[k..] == [mainCols[k]] + mainCols[k + 1..] && mainCols[k] !in mainCols[k + 1..]
    ensures forall i :: k < i < |mainCols| ==> mainCols[i] < s
  {
    assert PivotAt(rows, mainCols, mainRows[k], k);
    assert mainCols[k] in mainCols && mainRows[k] in mainRows;
    assert forall i :: k < i < |mainCols| ==> mainCols[i] in mainCols;
  }

  /** One round of the loop: y = x + sparse part + dense part, into column c. */
  method FillPivot<T(!new)>(f: Field<T>, row: seq<nat>, d: T, x: T, c: nat, p: array<T>, s: nat, doDense: bool)
    requires f.XorGroup() && f.Domain() && s < p.Length && RowOk(row, s) && c in row && p[c] == f.zero
    requires !doDense ==> forall j :: s <= j < p.Length ==> p[j] == f.zero
    modifies p
    ensures p[..] == old(p[..])[c := p[c]] && Decoded(f, row, d, p[..], s) == x
  {
    ghost var q := p[..];
    assert p[s..] == q[s..];
    var y := AddSparse(f, x, row, p);
    ghost var y1 := y;
    if doDense {
      y := AddDense(f, y, d, p, s);
    } else {
      NoDense(f, d, q[s..]);
      f.Zero(y);
    }
    PivotSolves(f, row, d, q, s, c, x, y);
    p[c] := y;
  }

  lemma {:induction false} NoDense<T(!new)>(f: Field<T>, d: T, p2: seq<T>)
    requires f.Domain() && forall j :: 0 <= j < |p2| ==> p2[j] == f.zero
    ensures DenseSum(f, d, p2) == f.zero
  {
    if |p2| > 0 {
      var n := |p2| - 1;
      NoDense(f, d, p2[..n]);
      DenseSumStep(f, d, p2, n);
      assert p2[..n + 1] == p2;
      f.MulZero(Pow(f, d, n + 1));
      f.Zero(f.zero);
    }
  }

  /** Dense columns that are zero behind the first `used` do not matter. */
  lemma {:induction false} DensePrefix<T(!new)>(f: Field<T>, d: T, p2: seq<T>, used: nat)
    requires f.Domain() && used <= |p2| && forall j :: used <= j < |p2| ==> p2[j] == f.zero
    ensures DenseSum(f, d, p2) == DenseSum(f, d, p2[..used])
  {
    if used == |p2| {
      assert p2[..used] == p2;
    } else {
      var n := |p2| - 1;
      DensePrefix(f, d, p2[..n], used);
      assert p2[..n][..used] == p2[..used];
      DenseSumStep(f, d, p2, n);
      assert p2[..n + 1] == p2;
      f.MulZero(Pow(f, d, n + 1));
      f.Zero(DenseSum(f, d, p2[..n]));
    }
  }
}
