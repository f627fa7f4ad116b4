/** Four rows that no peeling can finish, so that with random free columns a gap
    row decodes wrongly. */
module GapExample {
  import opened Fields
  import opened Equations
  import opened WeightBuckets
  import opened Triangulation
  import opened SparseRows
  import opened Matrices
  import opened Backfill
  import opened Paxos

  const COLUMNS: nat := 6

  /** Row r names the first four columns but 3 - r. */
  function FourRows(): (rows: seq<seq<nat>>)
    ensures |rows| == 4 && forall r, c: nat :: 0 <= r < 4 ==> (c in rows[r] <==> c < 4 && c != 3 - r)
  {
    [[0, 1, 2], [0, 1, 3], [0, 2, 3], [1, 2, 3]]
  }

  /** Whether r is an odd number of times in the list. */
  predicate Times(list: seq<nat>, r: nat) {
    list != [] && Times(list[..|list| - 1], r) != (list[|list| - 1] == r)
  }

  /** A column has the parity of all rows but the one that lacks it. */
  lemma {:induction false} OddIs(list: seq<nat>, c: nat)
    requires (forall k :: 0 <= k < |list| ==> list[k] < 4) && c < 4
    ensures Odd(FourRows(), list, c) == ((|list| % 2 == 1) != Times(list, 3 - c))
    ensures (|list| % 2 == 1) == ((Times(list, 0) != Times(list, 1)) != (Times(list, 2) != Times(list, 3)))
  {
    hide FourRows;
    if list != [] {
      OddIs(list[..|list| - 1], c);
    }
  }

  lemma {:induction false} NotListed(list: seq<nat>, r: nat)
    requires r !in list
    ensures !Times(list, r)
  {
    if list != [] {
      NotListed(list[..|list| - 1], r);
    }
  }

  /** No row is the sum of others. */
  lemma NoneIsSum(gap: nat, list: seq<nat>) returns (c: nat)
    requires gap < 4 && gap !in list && forall k :: 0 <= k < |list| ==> list[k] < 4
    ensures c < 4 && Odd(FourRows(), list, c) != (c in FourRows()[gap])
  {
    hide FourRows, Times;
    NotListed(list, gap);
    OddIs(list, 0);
    OddIs(list, 1);
    OddIs(list, 2);
    OddIs(list, 3);
    c := if Odd(FourRows(), list, 0) != (0 in FourRows()[gap]) then 0
         else if Odd(FourRows(), list, 1) != (1 in FourRows()[gap]) then 1
         else if Odd(FourRows(), list, 2) != (2 in FourRows()[gap]) then 2 else 3;
  }

  /** Some row is a gap row: the first pivot column is in three rows. */
  lemma SomeGap<T(!new)>(e: Peeling<T>)
    requires e.Valid() && e.rows == FourRows() && e.s == COLUMNS
    ensures |e.mtx| == |e.gapRows| > 0 && |e.dense| == 4
  {
    if e.mainRows == [] {
      assert 0 in Firsts(e.gapRows);
    } else {
      var c, first := e.mainCols[0], e.mainRows[0];
      assert PivotAt(e.rows, e.mainCols, first, 0);
      var r := if 3 - c != 0 && first != 0 then 0 else if 3 - c != 1 && first != 1 then 1 else if 3 - c != 2 && first != 2 then 2 else 3;
      assert r < 4 && r != first && c in e.rows[r];
      forall k | 0 <= k < |e.mainRows|
        ensures e.mainRows[k] != r
      {
        assert PivotAt(e.rows, e.mainCols, e.mainRows[k], k);
      }
      assert r in Firsts(e.gapRows);
    }
  }

  /** The values that a codeword decodes to, and for each gap row the leftover less. */
  ghost function ValuesOf<T(!new)>(f: Field<T>, e: Peeling<T>, p: seq<T>): (vals: seq<T>)
    requires e.Valid() && e.s <= |p|
    ensures |vals| == |e.rows|
    ensures forall r :: 0 <= r < |vals| ==> RowOk(e.rows[r], e.s) && vals[r] == f.Add(Decoded(f, e.rows[r], e.dense[r], p, e.s), Left(f, e, p, r))
  {
    seq(|e.rows|, r requires 0 <= r < |e.rows| =>
      assert RowOk(e.rows[r], e.s);
      f.Add(Decoded(f, e.rows[r], e.dense[r], p, e.s), Left(f, e, p, r)))
  }

  /** What row r leaves over, if it is a gap row. */
  ghost function Left<T(!new)>(f: Field<T>, e: Peeling<T>, p: seq<T>, r: nat): T
    requires e.Valid()
  {
    if i: nat :| i < |e.gapRows| && e.gapRows[i].0 == r then Sum(f, e.LeftoverOf(i, |p|), p, 0, |p|) else f.zero
  }

  lemma OtherValues<T(!new)>(e: Peeling<T>, vals: seq<T>, i: nat, n: nat)
    requires e.Valid() && |vals| == |e.rows| && i < |e.gapRows|
    ensures e.(vals := vals).Valid() && e.(vals := vals).LeftoverOf(i, n) == e.LeftoverOf(i, n)
  {
  }

  /** Any codeword is an outcome of the encoding for these values. */
  lemma SolvedByAny<T(!new)>(f: Field<T>, e: Peeling<T>, p: seq<T>)
    requires f.XorGroup() && e.Valid() && e.s <= |p|
    ensures Solved(f, e.(vals := ValuesOf(f, e, p)), p)
  {
    hide Field.Group, Decoded, Sum;
    var vals := ValuesOf(f, e, p);
    var e' := e.(vals := vals);
    assert e'.Valid();
    forall r | r in e.mainRows
      ensures Decodes(f, e.rows, e.dense, vals, p, e.s, r)
    {
      assert r !in Firsts(e.gapRows);
      forall i: nat | i < |e.gapRows|
        ensures e.gapRows[i].0 != r
      {
        assert Firsts(e.gapRows)[i] == e.gapRows[i].0;
      }
      f.Zero(Decoded(f, e.rows[r], e.dense[r], p, e.s));
    }
    forall i: nat | i < |e.gapRows|
      ensures GapDecodes(f, e', p, i)
    {
      var gap := e.gapRows[i].0;
      OnlyIndex(e, i);
      assert e'.LeftoverOf(i, |p|) == e.LeftoverOf(i, |p|);
      f.XorMove(Decoded(f, e.rows[gap], e.dense[gap], p, e.s), Sum(f, e.LeftoverOf(i, |p|), p, 0, |p|));
    }
  }

  lemma OnlyIndex<T(!new)>(e: Peeling<T>, i: nat)
    requires e.Peeled() && i < |e.gapRows|
    ensures forall j: nat :: j < |e.gapRows| && e.gapRows[j].0 == e.gapRows[i].0 ==> j == i
  {
    assert forall j: nat :: j < |e.gapRows| ==> Firsts(e.gapRows)[j] == e.gapRows[j].0;
  }

  /** However these four rows are peeled, there are values and a codeword that the
      encoding with random free columns may return for them, which decodes some
      gap row wrongly. */
  lemma RandomizedRowFails<T(!new)>(f: Field<T>, e: Peeling<T>, n: nat) returns (i: nat, p: seq<T>, vals: seq<T>)
    requires f.XorGroup() && f.Domain() && e.Valid() && e.rows == FourRows() && e.s == COLUMNS <= n
    ensures i < |e.gapRows| && |p| == n && |vals| == 4
    ensures e.(vals := vals).Valid() && Solved(f, e.(vals := vals), p)
    ensures !Decodes(f, e.rows, e.dense, vals, p, e.s, e.gapRows[i].0)
  {
    hide FourRows, Field.Group, Solved, Decodes, Sum, Peeling.Peeled, Peeling.Valid, Leftover;
    SomeGap(e);
    i := 0;
    var gap, list := e.gapRows[0].0, e.mtx[0];
    GapList(e);
    var c := NoneIsSum(gap, list);
    var leftover := e.LeftoverOf(0, n);
    p := UnitRow(f, n, c);
    vals := ValuesOf(f, e, p);
    OtherValues(e, vals, 0, n);
    SolvedByAny(f, e, p);
    LeftAt(e, 0, n, c);
    UnitLeft(f, leftover, n, c);
    GapRowExactly(f, e.(vals := vals), p, 0);
  }

  lemma LeftAt<T(!new)>(e: Peeling<T>, i: nat, n: nat, c: nat)
    requires e.Valid() && i < |e.gapRows| && c < n
    ensures (forall k :: 0 <= k < |e.mtx[i]| ==> e.mtx[i][k] < |e.rows|) && e.gapRows[i].0 < |e.rows|
    ensures e.LeftoverOf(i, n)[c] == (Odd(e.rows, e.mtx[i], c) != (c in e.rows[e.gapRows[i].0]))
  {
    assert Cancels(e.rows, e.mainRows, e.mainCols, e.gapRows[i].0, e.mtx[i]);
  }

  lemma GapList<T(!new)>(e: Peeling<T>)
    requires e.Valid() && e.gapRows != [] && e.rows == FourRows()
    ensures e.gapRows[0].0 < 4 && e.gapRows[0].0 !in e.mtx[0] && forall k :: 0 <= k < |e.mtx[0]| ==> e.mtx[0][k] < 4
  {
    assert Cancels(e.rows, e.mainRows, e.mainCols, e.gapRows[0].0, e.mtx[0]);
    assert Firsts(e.gapRows)[0] in Firsts(e.gapRows);
  }

  lemma UnitLeft<T(!new)>(f: Field<T>, leftover: seq<bool>, n: nat, c: nat)
    requires f.Domain() && |leftover| == n && c < n && leftover[c]
    ensures Sum(f, leftover, UnitRow(f, n, c), 0, n) == f.one != f.zero
  {
    var p := UnitRow(f, n, c);
    var unit := seq(n, x => x == c);
    SumUnit(f, unit, p, c);
    SumUnits(f, leftover, unit, p, c, n);
  }

  lemma OddPair(rows: seq<seq<nat>>, c: nat)
    requires |rows| == 4
    ensures Odd(rows, [0, 1], c) == ((c in rows[0]) != (c in rows[1]))
  {
    assert [0, 1][..1] == [0] && [0][..0] == [];
    assert !Odd(rows, [], c);
    assert Odd(rows, [0], c) == (c in rows[0]);
  }

  lemma FourTriangulated()
    ensures Triangulated(FourRows(), COLUMNS, [1, 0], [3, 2], [(2, 1), (3, 1)])
  {
    hide Triangular;
    FourTriangular();
    assert Firsts([(2, 1), (3, 1)]) == [2, 3];
    assert [1, 0][0] == 1 && [1, 0][1] == 0 && [2, 3][0] == 2 && [2, 3][1] == 3;
  }

  lemma FourTriangular()
    ensures Triangular(FourRows(), [1, 0], [3, 2], [(2, 1), (3, 1)])
  {
    var rows, mainRows, mainCols := FourRows(), [1, 0], [3, 2];
    assert PivotAt(rows, mainCols, 1, 0) && PivotAt(rows, mainCols, 0, 1) && PivotAt(rows, mainCols, 2, 0) && PivotAt(rows, mainCols, 3, 0);
    assert GapAt(rows, mainRows, mainCols, (2, 1), 0) && GapAt(rows, mainRows, mainCols, (3, 1), 0);
  }

  lemma FourRowsOk()
    ensures RowsOk(FourRows(), COLUMNS)
  {
  }

  lemma FourCancel(gap: nat)
    requires gap == 2 || gap == 3
    ensures Cancels(FourRows(), [1, 0], [3, 2], gap, [0, 1])
  {
    hide Odd;
    OddPair(FourRows(), 2);
    OddPair(FourRows(), 3);
    assert [1, 0][0] == 1 && [1, 0][1] == 0;
  }

  /** What the weight order makes of them: columns 3 and 2 are the pivots of rows 1
      and 0, and rows 2 and 3 are gap rows of row 1. */
  lemma FourRowsPeel<T(!new)>(dense: seq<T>, vals: seq<T>)
    requires |dense| == |vals| == 4
    ensures Peeling(FourRows(), dense, vals, COLUMNS, [1, 0], [3, 2], [(2, 1), (3, 1)], [[0, 1], [0, 1]], [], []).Valid()
  {
    hide Triangulated, Cancels, RowsOk;
    FourRowsOk();
    FourTriangulated();
    FourCancel(2);
    FourCancel(3);
    assert FourRows()[2] != FourRows()[1] && FourRows()[3] != FourRows()[1] by {
      assert 2 in FourRows()[2] && 2 !in FourRows()[1] && 2 in FourRows()[3];
    }
  }
}
