/** Sums over sparse rows, and the sparse form of F * C^-1. */
module SparseRows {
  import opened Fields
  import opened Equations
  import opened WeightBuckets
  import opened Triangulation

  /** The sum of p over the columns a sparse row names. */
  function RowSum<T(!new)>(f: Field<T>, row: seq<nat>, p: seq<T>): T
    requires forall j :: 0 <= j < |row| ==> row[j] < |p|
  {
    if row == [] then f.zero else f.Add(RowSum(f, row[..|row| - 1], p), p[row[|row| - 1]])
  }

  /** Which of n columns the row names. */
  function Indicator(row: seq<nat>, n: nat): (r: seq<bool>)
    ensures |r| == n && forall c :: 0 <= c < n ==> r[c] == (c in row)
  {
    seq(n, c => c in row)
  }

  /** Whether an odd number of the listed rows name column c. */
  predicate Odd(rows: seq<seq<nat>>, list: seq<nat>, c: nat)
    requires forall k :: 0 <= k < |list| ==> list[k] < |rows|
  {
    list != [] && Odd(rows, list[..|list| - 1], c) != (c in rows[list[|list| - 1]])
  }

  function OddColumns(rows: seq<seq<nat>>, list: seq<nat>, n: nat): (r: seq<bool>)
    requires forall k :: 0 <= k < |list| ==> list[k] < |rows|
    ensures |r| == n && forall c :: 0 <= c < n ==> r[c] == Odd(rows, list, c)
  {
    seq(n, c requires 0 <= c < n => Odd(rows, list, c))
  }

  lemma {:induction false} RowSumIsSum<T(!new)>(f: Field<T>, row: seq<nat>, p: seq<T>)
    requires f.XorGroup() && RowsBelow(row, |p|) && NoDuplicates(row)
    ensures RowSum(f, row, p) == Sum(f, Indicator(row, |p|), p, 0, |p|)
  {
    if row == [] {
      SumNone(f, Indicator(row, |p|), p, 0, |p|);
    } else {
      var rest, c := row[..|row| - 1], row[|row| - 1];
      RowSumIsSum(f, rest, p);
      var unit := Indicator([c], |p|);
      assert Indicator(row, |p|) == XorBits(Indicator(rest, |p|), unit) by {
        assert forall x :: x in row <==> x in rest || x == c;
        assert c !in rest;
      }
      SumXor(f, Indicator(rest, |p|), unit, p, 0, |p|);
      SumUnit(f, unit, p, c);
    }
  }

  ghost predicate RowsBelow(row: seq<nat>, n: nat) {
    forall j :: 0 <= j < |row| ==> row[j] < n
  }

  lemma SumUnit<T(!new)>(f: Field<T>, unit: seq<bool>, p: seq<T>, c: nat)
    requires f.Group() && |unit| == |p| && c < |p| && forall x :: 0 <= x < |p| ==> unit[x] == (x == c)
    ensures Sum(f, unit, p, 0, |p|) == p[c]
  {
    SumSplit(f, unit, p, 0, c, |p|);
    SumSplit(f, unit, p, c, c + 1, |p|);
    SumNone(f, unit, p, 0, c);
    SumOne(f, unit, p, c);
    SumNone(f, unit, p, c + 1, |p|);
    f.Zero(p[c]);
  }

  /** The sum of the row sums of the listed rows. */
  function ListSum<T(!new)>(f: Field<T>, rows: seq<seq<nat>>, list: seq<nat>, p: seq<T>): T
    requires RowsOk(rows, |p|) && forall k :: 0 <= k < |list| ==> list[k] < |rows|
  {
    if list == [] then f.zero
    else
      var r := list[|list| - 1];
      assert RowOk(rows[r], |p|);
      f.Add(ListSum(f, rows, list[..|list| - 1], p), RowSum(f, rows[r], p))
  }

  lemma {:induction false} ListSumIsSum<T(!new)>(f: Field<T>, rows: seq<seq<nat>>, list: seq<nat>, p: seq<T>)
    requires f.XorGroup() && RowsOk(rows, |p|) && forall k :: 0 <= k < |list| ==> list[k] < |rows|
    ensures ListSum(f, rows, list, p) == Sum(f, OddColumns(rows, list, |p|), p, 0, |p|)
  {
    if list == [] {
      SumNone(f, OddColumns(rows, list, |p|), p, 0, |p|);
    } else {
      var rest, r := list[..|list| - 1], list[|list| - 1];
      assert RowOk(rows[r], |p|);
      ListSumIsSum(f, rows, rest, p);
      RowSumIsSum(f, rows[r], p);
      assert OddColumns(rows, list, |p|) == XorBits(OddColumns(rows, rest, |p|), Indicator(rows[r], |p|));
      SumXor(f, OddColumns(rows, rest, |p|), Indicator(rows[r], |p|), p, 0, |p|);
    }
  }

  /** The columns in which the gap row and the listed main rows do not cancel. */
  function Leftover(rows: seq<seq<nat>>, gap: nat, list: seq<nat>, n: nat): (r: seq<bool>)
    requires gap < |rows| && forall k :: 0 <= k < |list| ==> list[k] < |rows|
    ensures |r| == n && forall c :: 0 <= c < n ==> r[c] == (Odd(rows, list, c) != (c in rows[gap]))
  {
    seq(n, c requires 0 <= c < n => Odd(rows, list, c) != (c in rows[gap]))
  }

  lemma LeftoverSum<T(!new)>(f: Field<T>, rows: seq<seq<nat>>, gap: nat, list: seq<nat>, p: seq<T>)
    requires f.XorGroup() && RowsOk(rows, |p|) && gap < |rows| && forall k :: 0 <= k < |list| ==> list[k] < |rows|
    ensures RowOk(rows[gap], |p|)
    ensures f.Add(ListSum(f, rows, list, p), RowSum(f, rows[gap], p)) == Sum(f, Leftover(rows, gap, list, |p|), p, 0, |p|)
  {
    assert RowOk(rows[gap], |p|);
    ListSumIsSum(f, rows, list, p);
    RowSumIsSum(f, rows[gap], p);
    assert Leftover(rows, gap, list, |p|) == XorBits(OddColumns(rows, list, |p|), Indicator(rows[gap], |p|));
    SumXor(f, OddColumns(rows, list, |p|), Indicator(rows[gap], |p|), p, 0, |p|);
  }

  /** A row of F * C^-1: main rows that cancel the gap row on every pivot column. */
  ghost predicate Cancels(rows: seq<seq<nat>>, mainRows: seq<nat>, mainCols: seq<nat>, gap: nat, list: seq<nat>)
    requires gap < |rows|
  {
    && (forall k :: 0 <= k < |list| ==> list[k] < |rows| && list[k] in mainRows)
    && forall c :: c in mainCols ==> Odd(rows, list, c) == (c in rows[gap])
  }
}
