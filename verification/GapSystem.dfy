/** The dense columns, from the system E' * p2 = x2' of the gap rows. */
module GapSystem {
  import opened Fields
  import opened Inversion
  import opened Matrices
  import opened Backfill
  import opened Layout
  import opened Random
  import opened Refusal

  ghost predicate Below(list: seq<nat>, n: nat) {
    forall k :: 0 <= k < |list| ==> list[k] < n
  }

  /** The first n entries of a row of E': the dense part of the gap row plus
      those of the main rows that cancel it. */
  function GapDense<T(!new)>(f: Field<T>, dense: seq<T>, gap: nat, list: seq<nat>, n: nat): (r: seq<T>)
    requires gap < |dense| && Below(list, |dense|)
    ensures |r| == n
  {
    if list == [] then Powers(f, dense[gap], n)
    else PointAdd(f, GapDense(f, dense, gap, list[..|list| - 1], n), Powers(f, dense[list[|list| - 1]], n))
  }

  /** The dense sums of the listed rows. */
  function DenseList<T(!new)>(f: Field<T>, dense: seq<T>, list: seq<nat>, p2: seq<T>): T
    requires Below(list, |dense|)
  {
    if list == [] then f.zero
    else f.Add(DenseList(f, dense, list[..|list| - 1], p2), DenseSum(f, dense[list[|list| - 1]], p2))
  }

  /** The values of the listed rows. */
  function ValueList<T(!new)>(f: Field<T>, vals: seq<T>, list: seq<nat>): T
    requires Below(list, |vals|)
  {
    if list == [] then f.zero else f.Add(ValueList(f, vals, list[..|list| - 1]), vals[list[|list| - 1]])
  }

  lemma {:induction false} DotPointAdd<T(!new)>(f: Field<T>, a: seq<T>, b: seq<T>, p: seq<T>)
    requires f.Domain() && |a| == |b| == |p|
    ensures Dot(f, PointAdd(f, a, b), p) == f.Add(Dot(f, a, p), Dot(f, b, p))
  {
    f.Zero(f.zero);
    if |a| > 0 {
      var n := |a| - 1;
      DotPointAdd(f, a[..n], b[..n], p[..n]);
      assert PointAdd(f, a, b)[..n] == PointAdd(f, a[..n], b[..n]);
      f.Distrib(p[n], a[n], b[n]);
      f.Shuffle(Dot(f, a[..n], p[..n]), Dot(f, b[..n], p[..n]), f.Mul(a[n], p[n]), f.Mul(b[n], p[n]));
    }
  }

  lemma {:induction false} GapDenseSum<T(!new)>(f: Field<T>, dense: seq<T>, gap: nat, list: seq<nat>, p2: seq<T>)
    requires f.Domain() && gap < |dense| && Below(list, |dense|)
    ensures Dot(f, GapDense(f, dense, gap, list, |p2|), p2) == f.Add(DenseSum(f, dense[gap], p2), DenseList(f, dense, list, p2))
  {
    var d := DenseSum(f, dense[gap], p2);
    if list == [] {
      f.Zero(d);
    } else {
      var rest, r := list[..|list| - 1], list[|list| - 1];
      GapDenseSum(f, dense, gap, rest, p2);
      DotPointAdd(f, GapDense(f, dense, gap, rest, |p2|), Powers(f, dense[r], |p2|), p2);
      f.Assoc(d, DenseList(f, dense, rest, p2), DenseSum(f, dense[r], p2));
    }
  }

  /** The equation of a gap row for the dense columns. */
  ghost predicate GapSolved<T(!new)>(f: Field<T>, dense: seq<T>, vals: seq<T>, gap: nat, list: seq<nat>, p2: seq<T>)
    requires |dense| == |vals| && gap < |dense| && Below(list, |dense|)
  {
    f.Add(DenseSum(f, dense[gap], p2), DenseList(f, dense, list, p2)) == f.Add(vals[gap], ValueList(f, vals, list))
  }

  lemma {:induction false} DenseListPrefix<T(!new)>(f: Field<T>, dense: seq<T>, list: seq<nat>, p2: seq<T>, used: nat)
    requires f.Domain() && Below(list, |dense|) && used <= |p2| && forall j :: used <= j < |p2| ==> p2[j] == f.zero
    ensures DenseList(f, dense, list, p2) == DenseList(f, dense, list, p2[..used])
  {
    if list != [] {
      DenseListPrefix(f, dense, list[..|list| - 1], p2, used);
      DensePrefix(f, dense[list[|list| - 1]], p2, used);
    }
  }

  /** Solving E' * p2 = x2' on the used dense columns solves the gap equation. */
  lemma PrefixSolves<T(!new)>(f: Field<T>, dense: seq<T>, vals: seq<T>, gap: nat, list: seq<nat>, p2: seq<T>, used: nat)
    requires f.Domain() && |dense| == |vals| && gap < |dense| && Below(list, |dense|)
    requires used <= |p2| && forall j :: used <= j < |p2| ==> p2[j] == f.zero
    requires Dot(f, GapDense(f, dense, gap, list, used), p2[..used]) == f.Add(vals[gap], ValueList(f, vals, list))
    ensures GapSolved(f, dense, vals, gap, list, p2)
  {
    GapDenseSum(f, dense, gap, list, p2[..used]);
    DensePrefix(f, dense[gap], p2, used);
    DenseListPrefix(f, dense, list, p2, used);
  }

  /** Row i of E becomes the powers of d. */
  method WritePowers<T(!new)>(f: Field<T>, ee: array2<T>, i: nat, d: T)
    requires f.Domain() && i < ee.Length0 && ee.Length1 > 0
    modifies ee
    ensures RowOf(ee, i) == Powers(f, d, ee.Length1)
    ensures forall r :: 0 <= r < ee.Length0 && r != i ==> RowOf(ee, r) == old(RowOf(ee, r))
  {
    var ej := d;
    f.One(d);
    assert Pow(f, d, 1) == f.Mul(Pow(f, d, 0), d);
    ee[i, 0] := d;
    for j := 1 to ee.Length1
      invariant ej == Pow(f, d, j)
      invariant forall k :: 0 <= k < j ==> ee[i, k] == Pow(f, d, k + 1)
      invariant forall r, k :: 0 <= r < ee.Length0 && r != i && 0 <= k < ee.Length1 ==> ee[r, k] == old(ee[r, k])
    {
      ej := f.Mul(ej, d);
      ee[i, j] := ej;
    }
    forall k | 0 <= k < ee.Length1
      ensures RowOf(ee, i)[k] == Powers(f, d, ee.Length1)[k]
    {
      PowersAt(f, d, ee.Length1, k);
    }
  }

  /** Adds the powers of d to row i. */
  method AddPowers<T(!new)>(f: Field<T>, ee: array2<T>, i: nat, d: T)
    requires f.Domain() && i < ee.Length0 && ee.Length1 > 0
    modifies ee
    ensures RowOf(ee, i) == PointAdd(f, old(RowOf(ee, i)), Powers(f, d, ee.Length1))
    ensures forall r :: 0 <= r < ee.Length0 && r != i ==> RowOf(ee, r) == old(RowOf(ee, r))
  {
    var fcbk := d;
    f.One(d);
    assert Pow(f, d, 1) == f.Mul(Pow(f, d, 0), d);
    ee[i, 0] := f.Add(ee[i, 0], d);
    for j := 1 to ee.Length1
      invariant fcbk == Pow(f, d, j)
      invariant forall k :: 0 <= k < j ==> ee[i, k] == f.Add(old(ee[i, k]), Pow(f, d, k + 1))
      invariant forall k :: j <= k < ee.Length1 ==> ee[i, k] == old(ee[i, k])
      invariant forall r, k :: 0 <= r < ee.Length0 && r != i && 0 <= k < ee.Length1 ==> ee[r, k] == old(ee[r, k])
    {
      fcbk := f.Mul(fcbk, d);
      ee[i, j] := f.Add(ee[i, j], fcbk);
    }
    forall k | 0 <= k < ee.Length1
      ensures RowOf(ee, i)[k] == PointAdd(f, old(RowOf(ee, i)), Powers(f, d, ee.Length1))[k]
    {
      PowersAt(f, d, ee.Length1, k);
    }
  }

  /** One row of E' and of x2'. */
  method FillGapRow<T(!new)>(f: Field<T>, dense: seq<T>, vals: seq<T>, gap: nat, list: seq<nat>, ee: array2<T>, xx: array<T>, i: nat)
    requires f.Domain() && |dense| == |vals| && gap < |dense| && Below(list, |dense|)
    requires i < ee.Length0 == xx.Length && ee.Length1 > 0
    modifies ee, xx
    ensures RowOf(ee, i) == GapDense(f, dense, gap, list, ee.Length1)
    ensures xx[i] == f.Add(vals[gap], ValueList(f, vals, list))
    ensures forall r :: 0 <= r < ee.Length0 && r != i ==> RowOf(ee, r) == old(RowOf(ee, r)) && xx[r] == old(xx[r])
  {
    WritePowers(f, ee, i, dense[gap]);
    xx[i] := vals[gap];
    f.Zero(vals[gap]);
    for k := 0 to |list|
      invariant RowOf(ee, i) == GapDense(f, dense, gap, list[..k], ee.Length1)
      invariant xx[i] == f.Add(vals[gap], ValueList(f, vals, list[..k]))
      invariant forall r :: 0 <= r < ee.Length0 && r != i ==> RowOf(ee, r) == old(RowOf(ee, r)) && xx[r] == old(xx[r])
    {
      assert list[..k + 1][..k] == list[..k];
      f.Assoc(vals[gap], ValueList(f, vals, list[..k]), vals[list[k]]);
      xx[i] := f.Add(xx[i], vals[list[k]]);
      AddPowers(f, ee, i, dense[list[k]]);
    }
    assert list[..|list|] == list;
  }

  /** The rows of E' and x2' before g are those of the gap rows. */
  ghost predicate Filled<T(!new)>(f: Field<T>, dense: seq<T>, vals: seq<T>, gaps: seq<nat>, mtx: seq<seq<nat>>, m: Matrix<T>, xx: seq<T>, n: nat, g: nat)
    requires |dense| == |vals| && GapsOk(gaps, mtx, |dense|) && |m| == |xx| >= g && |gaps| >= g
  {
    forall i :: 0 <= i < g ==>
      m[i] == GapDense(f, dense, gaps[i], mtx[i], n) && xx[i] == f.Add(vals[gaps[i]], ValueList(f, vals, mtx[i]))
  }

  ghost predicate GapsOk(gaps: seq<nat>, mtx: seq<seq<nat>>, n: nat) {
    |mtx| == |gaps| && Below(gaps, n) && forall i :: 0 <= i < |gaps| ==> Below(mtx[i], n)
  }

  /** Builds E' and x2', one row per gap row. */
  method FillGapRows<T(!new)>(f: Field<T>, dense: seq<T>, vals: seq<T>, gaps: seq<nat>, mtx: seq<seq<nat>>, ee: array2<T>, xx: array<T>)
    requires f.Domain() && |dense| == |vals| && GapsOk(gaps, mtx, |dense|)
    requires |gaps| <= ee.Length0 == xx.Length && ee.Length1 > 0
    modifies ee, xx
    ensures Filled(f, dense, vals, gaps, mtx, Rows(ee), xx[..], ee.Length1, |gaps|)
  {
    for i := 0 to |gaps|
      invariant Filled(f, dense, vals, gaps, mtx, Rows(ee), xx[..], ee.Length1, i)
    {
      ghost var m, x := Rows(ee), xx[..];
      FillGapRow(f, dense, vals, gaps[i], mtx[i], ee, xx, i);
      assert forall r :: 0 <= r < i ==> Rows(ee)[r] == m[r] && xx[..][r] == x[r];
    }
  }

  /** Row r and its right side hold consecutive PRNG outputs, rows from `from` on
      having used up theirs. */
  ghost predicate DrawnAt<T>(m: Matrix<T>, x: seq<T>, r: nat, prng: Prng<T>, start: nat, from: nat, width: nat)
    requires from <= r < |m| == |x|
  {
    RowDrawn(m, x, r, prng, start + Row(r - from, width + 1))
  }

  ghost predicate RowDrawn<T>(m: Matrix<T>, x: seq<T>, r: nat, prng: Prng<T>, start: nat)
    requires r < |m| == |x|
  {
    |prng.stream| > 0 && x[r] == prng.Output(start + |m[r]|) && forall j :: 0 <= j < |m[r]| ==> m[r][j] == prng.Output(start + j)
  }

  ghost predicate RowsDrawn<T>(m: Matrix<T>, x: seq<T>, from: nat, to: nat, width: nat, prng: Prng<T>, start: nat)
    requires to <= |m| == |x|
  {
    forall r :: from <= r < to ==> DrawnAt(m, x, r, prng, start, from, width)
  }

  /** Rows behind the gap rows are random when the codeword is randomized. */
  method FillRandomRows<T(!new)>(ee: array2<T>, xx: array<T>, from: nat, prng: Prng<T>)
    requires from <= ee.Length0 == xx.Length && |prng.stream| > 0 && prng as object != ee && prng as object != xx
    modifies ee, xx, prng
    ensures forall r :: 0 <= r < from ==> RowOf(ee, r) == old(RowOf(ee, r)) && xx[r] == old(xx[r])
    ensures RowsDrawn(Rows(ee), xx[..], from, ee.Length0, ee.Length1, prng, old(prng.next))
  {
    hide Row, RowDrawn;
    RowStart(ee.Length1 + 1);
    for i := from to ee.Length0
      invariant forall r :: 0 <= r < from ==> RowOf(ee, r) == old(RowOf(ee, r)) && xx[r] == old(xx[r])
      invariant prng.next == old(prng.next) + Row(i - from, ee.Length1 + 1)
      invariant RowsDrawn(Rows(ee), xx[..], from, i, ee.Length1, prng, old(prng.next))
    {
      ghost var m, x := Rows(ee), xx[..];
      FillRandomRow(ee, xx, i, prng);
      StaysDrawn(m, x, Rows(ee), xx[..], from, i, ee.Length1, prng, old(prng.next));
      RowFits(i - from, i - from + 1, ee.Length1 + 1);
    }
  }

  lemma StaysDrawn<T>(m: Matrix<T>, x: seq<T>, m': Matrix<T>, x': seq<T>, from: nat, i: nat, width: nat, prng: Prng<T>, start: nat)
    requires from <= i < |m| == |x| == |m'| == |x'| && RowsDrawn(m, x, from, i, width, prng, start)
    requires forall r :: 0 <= r < |m| && r != i ==> m'[r] == m[r] && x'[r] == x[r]
    requires RowDrawn(m', x', i, prng, start + Row(i - from, width + 1))
    ensures RowsDrawn(m', x', from, i + 1, width, prng, start)
  {
    hide Row;
    forall r | from <= r < i
      ensures DrawnAt(m', x', r, prng, start, from, width)
    {
      assert DrawnAt(m, x, r, prng, start, from, width);
    }
  }

  method FillRandomRow<T(!new)>(ee: array2<T>, xx: array<T>, i: nat, prng: Prng<T>)
    requires i < ee.Length0 == xx.Length && |prng.stream| > 0 && prng as object != ee && prng as object != xx
    modifies ee, xx, prng
    ensures forall r :: 0 <= r < ee.Length0 && r != i ==> RowOf(ee, r) == old(RowOf(ee, r)) && xx[r] == old(xx[r])
    ensures RowDrawn(Rows(ee), xx[..], i, prng, old(prng.next)) && prng.next == old(prng.next) + ee.Length1 + 1
  {
    for j := 0 to ee.Length1
      invariant prng.next == old(prng.next) + j
      invariant forall r, k :: 0 <= r < ee.Length0 && 0 <= k < ee.Length1 ==>
        ee[r, k] == if r == i && k < j then prng.Output(old(prng.next) + k) else old(ee[r, k])
      invariant forall r :: 0 <= r < ee.Length0 ==> xx[r] == old(xx[r])
    {
      var x := prng.Get();
      ee[i, j] := x;
    }
    var y := prng.Get();
    xx[i] := y;
    forall r | 0 <= r < ee.Length0 && r != i
      ensures RowOf(ee, r) == old(RowOf(ee, r))
    {
    }
  }

  /** p2 = E'^-1 * x2', into the dense columns behind s. */
  method MultiplyInverse<T(!new)>(f: Field<T>, inv: array2<T>, xx: array<T>, p: array<T>, s: nat)
    requires f.Domain() && inv.Length0 == inv.Length1 == xx.Length && s + xx.Length <= p.Length && p != xx
    requires forall j :: s <= j < s + xx.Length ==> p[j] == f.zero
    modifies p
    ensures forall c :: 0 <= c < p.Length && !(s <= c < s + xx.Length) ==> p[c] == old(p[c])
    ensures Maps(f, Rows(inv), xx[..], p[s..s + xx.Length])
  {
    for i := 0 to xx.Length
      invariant forall c :: 0 <= c < p.Length && !(s <= c < s + i) ==> p[c] == old(p[c])
      invariant forall r :: 0 <= r < i ==> p[s + r] == Dot(f, RowOf(inv, r), xx[..])
    {
      ghost var q := p[..];
      MultiplyRow(f, inv, xx, p, s + i, i);
      assert forall c :: 0 <= c < p.Length && c != s + i ==> p[c] == q[c];
    }
  }

  method MultiplyRow<T(!new)>(f: Field<T>, inv: array2<T>, xx: array<T>, p: array<T>, at: nat, i: nat)
    requires f.Domain() && i < inv.Length0 && inv.Length1 == xx.Length && at < p.Length && p != xx && p[at] == f.zero
    modifies p
    ensures p[..] == old(p[..])[at := Dot(f, RowOf(inv, i), xx[..])]
  {
    ghost var row, x := RowOf(inv, i), xx[..];
    for j := 0 to xx.Length
      invariant p[..] == old(p[..])[at := Dot(f, row[..j], x[..j])]
    {
      assert row[..j + 1][..j] == row[..j] && x[..j + 1][..j] == x[..j];
      f.MComm(xx[j], inv[i, j]);
      p[at] := f.Add(p[at], f.Mul(xx[j], inv[i, j]));
    }
    assert row[..xx.Length] == row && x[..xx.Length] == x;
  }

  /** E' and x2' of the gap rows: their rows, then PRNG outputs if there is a PRNG. */
  ghost predicate SystemOf<T(!new)>(f: Field<T>, dense: seq<T>, vals: seq<T>, gaps: seq<nat>, mtx: seq<seq<nat>>,
                                    m: Matrix<T>, x: seq<T>, size: nat, prng: Prng?<T>, start: nat)
    requires |dense| == |vals|
  {
    && |gaps| <= size && Square(m, size) && |x| == size && GapsOk(gaps, mtx, |dense|)
    && Filled(f, dense, vals, gaps, mtx, m, x, size, |gaps|)
    && if prng == null then size == |gaps| else RowsDrawn(m, x, |gaps|, size, size, prng, start)
  }

  /** Fills in the dense columns: they solve E' * p2 = x2', so every gap row's
      equation holds. Refuses exactly if E' is singular or a pivot is missed. */
  method SolveGap<T(==,!new)>(f: Field<T>, rounds: nat, dense: seq<T>, vals: seq<T>, gaps: seq<nat>, mtx: seq<seq<nat>>,
                              p: array<T>, s: nat, prng: Prng?<T>)
    returns (ok: bool, ghost m: Matrix<T>, ghost x: seq<T>)
    requires Galois(f, rounds) && rounds >= 1 && |dense| == |vals| && GapsOk(gaps, mtx, |dense|)
    requires 0 < |gaps| <= p.Length - s && prng as object? != p
    requires prng != null ==> |prng.stream| > 0
    requires forall j :: s <= j < p.Length ==> p[j] == f.zero
    modifies p, prng
    ensures forall c :: 0 <= c < s ==> p[c] == old(p[c])
    ensures var size := if prng != null then p.Length - s else |gaps|;
      && SystemOf(f, dense, vals, gaps, mtx, m, x, size, prng, if prng != null then old(prng.next) else 0)
      && (ok <==> !Refused(f, rounds, m, size)) && (ok ==> Invertible(f, size, m) && Maps(f, m, p[s..s + size], x))
    ensures ok ==> forall i :: 0 <= i < |gaps| ==> GapSolved(f, dense, vals, gaps[i], mtx[i], p[s..])
  {
    hide Galois, IsInverse, Filled, GapsOk, Maps, Accepted, Refused, RowsDrawn, GapSolved, Field.Domain, Field.XorGroup;
    GaloisDomain(f, rounds);
    var size := if prng != null then p.Length - s else |gaps|;
    var ee, xx := BuildSystem(f, dense, vals, gaps, mtx, size, prng);
    m, x := Rows(ee), xx[..];
    var inv;
    ok, inv := MatrixInverse(f, rounds, ee);
    RefusalCauses(f, rounds, m, size);
    if !ok {
      return;
    }
    MultiplyInverse(f, inv, xx, p, s);
    Inverted(f, m, Rows(inv), p[s..s + size], x);
    assert p[s..s + size] == p[s..][..size];
    GapEquations(f, dense, vals, gaps, mtx, m, x, Rows(inv), p[s..], size);
  }

  lemma Inverted<T(!new)>(f: Field<T>, m: Matrix<T>, inv: Matrix<T>, p: seq<T>, x: seq<T>)
    requires |p| == |x| && IsInverse(f, |p|, m, inv) && Maps(f, inv, x, p)
    ensures Maps(f, m, p, x)
  {
  }

  lemma StaysFilled<T(!new)>(f: Field<T>, dense: seq<T>, vals: seq<T>, gaps: seq<nat>, mtx: seq<seq<nat>>,
                             m: Matrix<T>, x: seq<T>, m': Matrix<T>, x': seq<T>, n: nat)
    requires |dense| == |vals| && GapsOk(gaps, mtx, |dense|) && |m| == |m'| == |x| == |x'| >= |gaps|
    requires Filled(f, dense, vals, gaps, mtx, m, x, n, |gaps|)
    requires forall r :: 0 <= r < |gaps| ==> m'[r] == m[r] && x'[r] == x[r]
    ensures Filled(f, dense, vals, gaps, mtx, m', x', n, |gaps|)
  {
  }

  /** E' and x2', filled up with random rows if there is a PRNG. */
  method BuildSystem<T(==,!new)>(f: Field<T>, dense: seq<T>, vals: seq<T>, gaps: seq<nat>, mtx: seq<seq<nat>>, size: nat, prng: Prng?<T>)
    returns (ee: array2<T>, xx: array<T>)
    requires f.Domain() && |dense| == |vals| && GapsOk(gaps, mtx, |dense|) && 0 < |gaps| <= size && (prng == null ==> size == |gaps|)
    requires prng != null ==> |prng.stream| > 0
    modifies prng
    ensures fresh(ee) && fresh(xx) && ee.Length0 == ee.Length1 == xx.Length == size
    ensures SystemOf(f, dense, vals, gaps, mtx, Rows(ee), xx[..], size, prng, if prng != null then old(prng.next) else 0)
  {
    hide Filled, RowsDrawn;
    ee := new T[size, size]((i, j) => f.zero);
    xx := new T[size](i => f.zero);
    FillGapRows(f, dense, vals, gaps, mtx, ee, xx);
    if prng != null {
      ghost var m, x := Rows(ee), xx[..];
      FillRandomRows(ee, xx, |gaps|, prng);
      StaysFilled(f, dense, vals, gaps, mtx, m, x, Rows(ee), xx[..], size);
    }
  }

  lemma GapEquations<T(!new)>(f: Field<T>, dense: seq<T>, vals: seq<T>, gaps: seq<nat>, mtx: seq<seq<nat>>,
                              m: Matrix<T>, xx: seq<T>, inv: Matrix<T>, p2: seq<T>, size: nat)
    requires f.Domain() && |dense| == |vals| && GapsOk(gaps, mtx, |dense|) && |gaps| <= size == |xx| <= |p2|
    requires IsInverse(f, size, m, inv) && Filled(f, dense, vals, gaps, mtx, m, xx, size, |gaps|)
    requires Maps(f, inv, xx, p2[..size]) && forall j :: size <= j < |p2| ==> p2[j] == f.zero
    ensures forall i :: 0 <= i < |gaps| ==> GapSolved(f, dense, vals, gaps[i], mtx[i], p2)
  {
    assert Maps(f, m, p2[..size], xx);
    forall i | 0 <= i < |gaps|
      ensures GapSolved(f, dense, vals, gaps[i], mtx[i], p2)
    {
      PrefixSolves(f, dense, vals, gaps[i], mtx[i], p2, size);
    }
  }
}
