/** Equal keys: two rows with the same columns and the same dense value. No
    system that can be inverted has them. */
module EqualKeys {
  import opened Fields
  import opened Equations
  import opened Matrices
  import opened WeightBuckets
  import opened Triangulation
  import opened SparseRows
  import opened Backfill
  import opened GapSystem

  ghost predicate SameKey<T(!new)>(rows: seq<seq<nat>>, dense: seq<T>, r: nat, q: nat) {
    && r < |rows| == |dense| && q < |rows| && r != q && dense[r] == dense[q]
    && forall c :: c in rows[r] <==> c in rows[q]
  }

  ghost predicate HasEqualKeys<T(!new)>(rows: seq<seq<nat>>, dense: seq<T>) {
    exists r: nat, q: nat :: SameKey(rows, dense, r, q)
  }

  /** Row k of these names column k alone. */
  function Singles(n: nat): (r: seq<seq<nat>>)
    ensures |r| == n && (forall k :: 0 <= k < n ==> r[k] == [k]) && RowsOk(r, n)
  {
    seq(n, k requires 0 <= k < n => [k])
  }

  /** Which rows are listed an odd number of times. */
  function Parity(list: seq<nat>, n: nat): (r: seq<bool>)
    requires Below(list, n)
    ensures |r| == n
  {
    OddColumns(Singles(n), list, n)
  }

  lemma {:induction false} NotListed(list: seq<nat>, n: nat, r: nat)
    requires Below(list, n) && r < n && r !in list
    ensures !Odd(Singles(n), list, r)
  {
    if list != [] {
      NotListed(list[..|list| - 1], n, r);
    }
  }

  lemma SingleSum<T(!new)>(f: Field<T>, r: nat, p: seq<T>)
    requires f.Group() && r < |p|
    ensures RowSum(f, [r], p) == p[r]
  {
    f.Zero(p[r]);
    assert [r][..0] == [];
  }

  function DenseSums<T(!new)>(f: Field<T>, dense: seq<T>, p2: seq<T>): (r: seq<T>)
    ensures |r| == |dense| && forall k :: 0 <= k < |dense| ==> r[k] == DenseSum(f, dense[k], p2)
  {
    seq(|dense|, k requires 0 <= k < |dense| => DenseSum(f, dense[k], p2))
  }

  lemma {:induction false} DenseListIsListSum<T(!new)>(f: Field<T>, dense: seq<T>, list: seq<nat>, p2: seq<T>)
    requires f.XorGroup() && Below(list, |dense|)
    ensures DenseList(f, dense, list, p2) == ListSum(f, Singles(|dense|), list, DenseSums(f, dense, p2))
  {
    if list != [] {
      DenseListIsListSum(f, dense, list[..|list| - 1], p2);
      SingleSum(f, list[|list| - 1], DenseSums(f, dense, p2));
    }
  }

  /** Lists of the same parities have the same dense sums. */
  lemma ParityDecides<T(!new)>(f: Field<T>, dense: seq<T>, a: seq<nat>, b: seq<nat>, p2: seq<T>)
    requires f.XorGroup() && Below(a, |dense|) && Below(b, |dense|) && Parity(a, |dense|) == Parity(b, |dense|)
    ensures DenseList(f, dense, a, p2) == DenseList(f, dense, b, p2)
  {
    DenseListIsListSum(f, dense, a, p2);
    DenseListIsListSum(f, dense, b, p2);
    ListSumIsSum(f, Singles(|dense|), a, DenseSums(f, dense, p2));
    ListSumIsSum(f, Singles(|dense|), b, DenseSums(f, dense, p2));
  }

  /** Which rows have column c. */
  function Having(rows: seq<seq<nat>>, c: nat): (r: seq<bool>)
    ensures |r| == |rows| && forall k :: 0 <= k < |rows| ==> r[k] == (c in rows[k])
  {
    seq(|rows|, k requires 0 <= k < |rows| => c in rows[k])
  }

  lemma {:induction false} OddIsListSum(rows: seq<seq<nat>>, list: seq<nat>, c: nat)
    requires Below(list, |rows|)
    ensures Odd(rows, list, c) == ListSum(Bits(), Singles(|rows|), list, Having(rows, c))
  {
    if list != [] {
      OddIsListSum(rows, list[..|list| - 1], c);
      SingleSum(Bits(), list[|list| - 1], Having(rows, c));
    }
  }

  lemma OddIsParitySum(rows: seq<seq<nat>>, list: seq<nat>, c: nat)
    requires Below(list, |rows|)
    ensures Odd(rows, list, c) == Sum(Bits(), Parity(list, |rows|), Having(rows, c), 0, |rows|)
  {
    BitsAreAField();
    OddIsListSum(rows, list, c);
    ListSumIsSum(Bits(), Singles(|rows|), list, Having(rows, c));
  }

  /** A bit counts only where it meets a one. */
  lemma {:induction false} SumMasked(a: seq<bool>, b: seq<bool>, p: seq<bool>, hi: nat)
    requires |a| == |b| == |p| && hi <= |p| && forall k :: 0 <= k < hi ==> b[k] == (a[k] && p[k])
    ensures Sum(Bits(), a, p, 0, hi) == Sum(Bits(), b, p, 0, hi)
  {
    if hi > 0 {
      SumMasked(a, b, p, hi - 1);
    }
  }

  /** The rows of the list are main rows with pivot columns in echelon form. */
  ghost predicate ListOf(rows: seq<seq<nat>>, mainRows: seq<nat>, mainCols: seq<nat>, list: seq<nat>) {
    && |mainRows| == |mainCols| && (forall k :: 0 <= k < |mainRows| ==> PivotAt(rows, mainCols, mainRows[k], k))
    && Below(list, |rows|) && forall r :: r in list ==> r in mainRows
  }

  /** Two lists that cancel the same pivot columns list the same main rows: by
      the pivot columns in turn. */
  lemma {:induction false} SameParity(rows: seq<seq<nat>>, mainRows: seq<nat>, mainCols: seq<nat>, a: seq<nat>, b: seq<nat>, k: nat)
    requires ListOf(rows, mainRows, mainCols, a) && ListOf(rows, mainRows, mainCols, b) && k < |mainRows|
    requires forall c :: c in mainCols ==> Odd(rows, a, c) == Odd(rows, b, c)
    ensures PivotAt(rows, mainCols, mainRows[k], k) && Odd(Singles(|rows|), a, mainRows[k]) == Odd(Singles(|rows|), b, mainRows[k])
    decreases k
  {
    var n, c, at := |rows|, mainCols[k], mainRows[k];
    var pa, pb, having := Parity(a, n), Parity(b, n), Having(rows, c);
    var diff := XorBits(pa, pb);
    OddIsParitySum(rows, a, c);
    OddIsParitySum(rows, b, c);
    SumXor(Bits(), pa, pb, having, 0, n);
    assert PivotAt(rows, mainCols, at, k);
    assert c in mainCols;
    var met := seq(n, r => r == at && diff[at]);
    forall r | 0 <= r < n
      ensures met[r] == (diff[r] && having[r])
    {
      if r != at {
        EarlierOrLater(rows, mainRows, mainCols, a, b, k, r);
      }
    }
    SumMasked(diff, met, having, n);
    if diff[at] {
      SumUnit(Bits(), met, having, at);
    }
  }

  lemma {:induction false} EarlierOrLater(rows: seq<seq<nat>>, mainRows: seq<nat>, mainCols: seq<nat>, a: seq<nat>, b: seq<nat>, k: nat, r: nat)
    requires ListOf(rows, mainRows, mainCols, a) && ListOf(rows, mainRows, mainCols, b) && k < |mainRows| && r < |rows| && r != mainRows[k]
    requires forall c :: c in mainCols ==> Odd(rows, a, c) == Odd(rows, b, c)
    ensures mainCols[k] !in rows[r] || Odd(Singles(|rows|), a, r) == Odd(Singles(|rows|), b, r)
    decreases k, 0
  {
    if r !in mainRows {
      NotListed(a, |rows|, r);
      NotListed(b, |rows|, r);
    } else {
      var j :| 0 <= j < |mainRows| && mainRows[j] == r;
      if j < k {
        SameParity(rows, mainRows, mainCols, a, b, j);
      } else {
        assert PivotAt(rows, mainCols, mainRows[j], j);
      }
    }
  }

  /** Lists that cancel rows with the same columns have the same dense sums. */
  lemma SameLists<T(!new)>(f: Field<T>, rows: seq<seq<nat>>, dense: seq<T>, mainRows: seq<nat>, mainCols: seq<nat>, a: seq<nat>, b: seq<nat>, p2: seq<T>)
    requires f.XorGroup() && |rows| == |dense| && ListOf(rows, mainRows, mainCols, a) && ListOf(rows, mainRows, mainCols, b)
    requires forall c :: c in mainCols ==> Odd(rows, a, c) == Odd(rows, b, c)
    ensures DenseList(f, dense, a, p2) == DenseList(f, dense, b, p2)
  {
    hide Odd, Singles;
    forall r: nat | r < |rows|
      ensures Odd(Singles(|rows|), a, r) == Odd(Singles(|rows|), b, r)
    {
      if r in mainRows {
        var k :| 0 <= k < |mainRows| && mainRows[k] == r;
        SameParity(rows, mainRows, mainCols, a, b, k);
      } else {
        NotListed(a, |rows|, r);
        NotListed(b, |rows|, r);
      }
    }
    ParityDecides(f, dense, a, b, p2);
  }

  /** No two rows of an invertible matrix have the same products. */
  lemma RowsSeparated<T(!new)>(f: Field<T>, n: nat, m: Matrix<T>, inv: Matrix<T>, i: nat, j: nat)
    requires f.Domain() && IsInverse(f, n, m, inv) && i < n && j < n && i != j
    ensures exists p: seq<T> :: |p| == n && Dot(f, m[i], p) != Dot(f, m[j], p)
  {
    var x := UnitRow(f, n, i);
    var p := seq(n, r requires 0 <= r < n => Dot(f, inv[r], x));
    assert Maps(f, inv, x, p);
    assert Maps(f, m, p, x);
  }

  /** Every gap row has a list of main rows that cancel it. */
  ghost predicate AllCancel(rows: seq<seq<nat>>, mainRows: seq<nat>, mainCols: seq<nat>, gapRows: seq<(nat, nat)>, mtx: seq<seq<nat>>) {
    |mtx| == |gapRows| && forall i :: 0 <= i < |gapRows| ==> gapRows[i].0 < |rows| && Cancels(rows, mainRows, mainCols, gapRows[i].0, mtx[i])
  }

  /** Rows with the same columns have the same first pivot column. */
  lemma SamePivot(rows: seq<seq<nat>>, mainCols: seq<nat>, r: nat, q: nat, k: nat, j: nat)
    requires PivotAt(rows, mainCols, r, k) && PivotAt(rows, mainCols, q, j) && forall c :: c in rows[r] <==> c in rows[q]
    ensures k == j
  {
    assert mainCols[k] in rows[q] && mainCols[j] in rows[r];
  }

  lemma PartnerPivot(rows: seq<seq<nat>>, s: nat, mainRows: seq<nat>, mainCols: seq<nat>, gapRows: seq<(nat, nat)>, g: nat) returns (k: nat)
    requires Triangulated(rows, s, mainRows, mainCols, gapRows) && g < |gapRows|
    ensures k < |mainRows| && mainRows[k] == gapRows[g].1 && PivotAt(rows, mainCols, gapRows[g].0, k)
  {
    assert HasPartner(rows, mainRows, mainCols, gapRows[g]);
    k :| GapAt(rows, mainRows, mainCols, gapRows[g], k);
  }

  /** Of two equal keys none is a main row: the other would be a main row with
      the same pivot column or a gap row next to it. */
  lemma BothAreGapRows<T(!new)>(rows: seq<seq<nat>>, s: nat, dense: seq<T>, mainRows: seq<nat>, mainCols: seq<nat>, gapRows: seq<(nat, nat)>, r: nat, q: nat)
    requires Triangulated(rows, s, mainRows, mainCols, gapRows) && PartnersDiffer(dense, gapRows) && SameKey(rows, dense, r, q)
    ensures r !in mainRows && r in Firsts(gapRows)
  {
    hide PivotAt, HasPartner;
    if r in mainRows {
      var k: nat :| k < |mainRows| && mainRows[k] == r;
      if q in mainRows {
        var j: nat :| j < |mainRows| && mainRows[j] == q;
        SamePivot(rows, mainCols, r, q, k, j);
        assert false;
      } else {
        var g: nat :| g < |gapRows| && Firsts(gapRows)[g] == q;
        var j := PartnerPivot(rows, s, mainRows, mainCols, gapRows, g);
        SamePivot(rows, mainCols, r, q, k, j);
        assert false;
      }
    }
  }

  lemma ListOfGap(rows: seq<seq<nat>>, s: nat, mainRows: seq<nat>, mainCols: seq<nat>, gapRows: seq<(nat, nat)>, mtx: seq<seq<nat>>, i: nat)
    requires Triangulated(rows, s, mainRows, mainCols, gapRows) && AllCancel(rows, mainRows, mainCols, gapRows, mtx) && i < |gapRows|
    ensures i < |mtx| && gapRows[i].0 < |rows| && ListOf(rows, mainRows, mainCols, mtx[i]) && Below(mtx[i], |rows|)
    ensures forall c :: c in mainCols ==> Odd(rows, mtx[i], c) == (c in rows[gapRows[i].0])
  {
    assert Cancels(rows, mainRows, mainCols, gapRows[i].0, mtx[i]);
  }

  /** The gap rows of equal keys have the same row of the gap system. */
  lemma EqualGapRows<T(!new)>(f: Field<T>, rows: seq<seq<nat>>, s: nat, dense: seq<T>, mainRows: seq<nat>, mainCols: seq<nat>,
                              gapRows: seq<(nat, nat)>, mtx: seq<seq<nat>>, i: nat, j: nat, p: seq<T>)
    requires f.XorGroup() && f.Domain() && |rows| == |dense| && Triangulated(rows, s, mainRows, mainCols, gapRows)
    requires AllCancel(rows, mainRows, mainCols, gapRows, mtx) && i < |gapRows| && j < |gapRows|
    requires SameKey(rows, dense, gapRows[i].0, gapRows[j].0)
    ensures Below(mtx[i], |dense|) && Below(mtx[j], |dense|)
    ensures Dot(f, GapDense(f, dense, gapRows[i].0, mtx[i], |p|), p) == Dot(f, GapDense(f, dense, gapRows[j].0, mtx[j], |p|), p)
  {
    hide Triangulated, AllCancel, ListOf, Odd, Field.XorGroup, Field.Domain, Dot, GapDense;
    ListOfGap(rows, s, mainRows, mainCols, gapRows, mtx, i);
    ListOfGap(rows, s, mainRows, mainCols, gapRows, mtx, j);
    SameLists(f, rows, dense, mainRows, mainCols, mtx[i], mtx[j], p);
    GapDenseSum(f, dense, gapRows[i].0, mtx[i], p);
    GapDenseSum(f, dense, gapRows[j].0, mtx[j], p);
  }

  /** If the peeling tells every gap row from its partner and the gap system can
      be inverted, no two keys are equal. */
  lemma NoEqualKeys<T(!new)>(f: Field<T>, rows: seq<seq<nat>>, s: nat, dense: seq<T>, vals: seq<T>, mainRows: seq<nat>, mainCols: seq<nat>,
                             gapRows: seq<(nat, nat)>, mtx: seq<seq<nat>>, m: Matrix<T>, xx: seq<T>, size: nat)
    requires f.XorGroup() && f.Domain() && |rows| == |dense| == |vals| && Triangulated(rows, s, mainRows, mainCols, gapRows)
    requires PartnersDiffer(dense, gapRows) && AllCancel(rows, mainRows, mainCols, gapRows, mtx) && GapsOk(Firsts(gapRows), mtx, |dense|)
    requires gapRows != [] ==> |gapRows| <= size == |m| == |xx| && Invertible(f, size, m) && Filled(f, dense, vals, Firsts(gapRows), mtx, m, xx, size, |gapRows|)
    ensures !HasEqualKeys(rows, dense)
  {
    forall r: nat, q: nat
      ensures !SameKey(rows, dense, r, q)
    {
      if SameKey(rows, dense, r, q) {
        BothAreGapRows(rows, s, dense, mainRows, mainCols, gapRows, r, q);
        BothAreGapRows(rows, s, dense, mainRows, mainCols, gapRows, q, r);
        var i :| 0 <= i < |gapRows| && Firsts(gapRows)[i] == r;
        var j :| 0 <= j < |gapRows| && Firsts(gapRows)[j] == q;
        var inv :| IsInverse(f, size, m, inv);
        RowsSeparated(f, size, m, inv, i, j);
        var p: seq<T> :| |p| == size && Dot(f, m[i], p) != Dot(f, m[j], p);
        EqualGapRows(f, rows, s, dense, mainRows, mainCols, gapRows, mtx, i, j, p);
        assert false;
      }
    }
  }
}
