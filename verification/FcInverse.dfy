/** The sparse rows of F * C^-1, by elimination from the earliest pivot on. */
module FcInverse {
  import opened WeightBuckets
  import opened Triangulation
  import opened SparseRows

  /** The pivot column behind C index q; C counts the pivots from the last one. */
  function PivotOf(mainCols: seq<nat>, q: nat): nat
    requires q < |mainCols|
  {
    mainCols[|mainCols| - 1 - q]
  }

  /** The remaining row of F, as C indices: where gap row and listed rows differ. */
  ghost predicate Remaining(rows: seq<seq<nat>>, mainCols: seq<nat>, gap: nat, list: seq<nat>, row: set<nat>)
    requires gap < |rows| && forall k :: 0 <= k < |list| ==> list[k] < |rows|
  {
    && (forall q :: q in row ==> q < |mainCols|)
    && forall q :: 0 <= q < |mainCols| ==> (q in row <==> RemainsAt(rows, mainCols, gap, list, q))
  }

  ghost predicate RemainsAt(rows: seq<seq<nat>>, mainCols: seq<nat>, gap: nat, list: seq<nat>, q: nat)
    requires gap < |rows| && q < |mainCols| && forall k :: 0 <= k < |list| ==> list[k] < |rows|
  {
    Odd(rows, list, PivotOf(mainCols, q)) != (PivotOf(mainCols, q) in rows[gap])
  }

  const NO_COLUMN := -1

  /** mapping sends every pivot column to its C index and all others to -1. */
  ghost predicate IsMapping(mapping: seq<int>, mainCols: seq<nat>) {
    && (forall c :: 0 <= c < |mapping| ==> mapping[c] == NO_COLUMN || (0 <= mapping[c] < |mainCols| && PivotOf(mainCols, mapping[c]) == c))
    && forall q :: 0 <= q < |mainCols| ==> PivotOf(mainCols, q) < |mapping| && mapping[PivotOf(mainCols, q)] == q
  }

  method BuildColMapping(mainCols: seq<nat>, size: nat) returns (mapping: array<int>)
    requires NoDuplicates(mainCols) && forall c :: c in mainCols ==> c < size
    ensures fresh(mapping) && mapping.Length == size && IsMapping(mapping[..], mainCols)
  {
    mapping := new int[size](_ => NO_COLUMN);
    for i := 0 to |mainCols|
      invariant forall c :: 0 <= c < size ==> mapping[c] == NO_COLUMN || (0 <= mapping[c] < i && PivotOf(mainCols, mapping[c]) == c)
      invariant forall q :: 0 <= q < i ==> PivotOf(mainCols, q) < size && mapping[PivotOf(mainCols, q)] == q
    {
      assert PivotOf(mainCols, i) in mainCols;
      mapping[mainCols[|mainCols| - 1 - i]] := i;
    }
  }

  /** Adds a row of C to the remaining row, column by column. */
  method AddRowOfC(row0: set<nat>, hRow: seq<nat>, mapping: array<int>, ghost mainCols: seq<nat>) returns (row: set<nat>)
    requires IsMapping(mapping[..], mainCols) && RowOk(hRow, mapping.Length) && forall q :: q in row0 ==> q < |mainCols|
    ensures forall q :: q in row ==> q < |mainCols|
    ensures forall q :: 0 <= q < |mainCols| ==> (q in row <==> (q in row0) != (PivotOf(mainCols, q) in hRow))
  {
    row := row0;
    for j := 0 to |hRow|
      invariant forall q :: q in row ==> q < |mainCols|
      invariant forall q :: 0 <= q < |mainCols| ==> (q in row <==> (q in row0) != (PivotOf(mainCols, q) in hRow[..j]))
    {
      var cCol2 := mapping[hRow[j]];
      NextColumn(mapping[..], mainCols, hRow, j);
      if cCol2 != NO_COLUMN {
        if cCol2 in row {
          row := row - {cCol2};
        } else {
          row := row + {cCol2};
        }
      }
    }
    assert hRow[..|hRow|] == hRow;
  }

  lemma NextColumn(mapping: seq<int>, mainCols: seq<nat>, hRow: seq<nat>, j: nat)
    requires IsMapping(mapping, mainCols) && RowOk(hRow, |mapping|) && j < |hRow|
    ensures hRow[j] !in hRow[..j]
    ensures forall q :: 0 <= q < |mainCols| ==>
      (PivotOf(mainCols, q) in hRow[..j + 1] <==> PivotOf(mainCols, q) in hRow[..j] || q == mapping[hRow[j]])
  {
    assert hRow[..j + 1] == hRow[..j] + [hRow[j]];
  }

  /** The main rows that cancel one gap row on the pivot columns. */
  method EliminateGapRow(rows: seq<seq<nat>>, size: nat, mainRows: seq<nat>, mainCols: seq<nat>, ghost gapRows: seq<(nat, nat)>, gap: nat, mapping: array<int>)
    returns (list: seq<nat>)
    requires RowsOk(rows, size) && size == mapping.Length && gap < |rows|
    requires Triangular(rows, mainRows, mainCols, gapRows)
    requires IsMapping(mapping[..], mainCols)
    ensures Cancels(rows, mainRows, mainCols, gap, list)
  {
    list := [];
    assert RowOk(rows[gap], size);
    var row: set<nat> := AddRowOfC({}, rows[gap], mapping, mainCols);
    ghost var bound := |mainCols|;
    while row != {}
      invariant forall k :: 0 <= k < |list| ==> list[k] < |rows| && list[k] in mainRows
      invariant Remaining(rows, mainCols, gap, list, row) && forall q :: q in row ==> q < bound
      decreases bound
    {
      ghost var top := MaxExists(row);
      var cCol :| cCol in row && forall q :: q in row ==> q <= cCol;
      var k := |mainRows| - 1 - cCol;
      var hRow := mainRows[k];
      assert PivotAt(rows, mainCols, hRow, k) && RowOk(rows[hRow], size);
      var next: set<nat> := AddRowOfC(row, rows[hRow], mapping, mainCols);
      RowEliminated(rows, mainRows, mainCols, gap, list, row, next, k);
      list := list + [hRow];
      row := next;
      bound := cCol;
    }
    AllCancelled(rows, mainCols, gap, list);
  }

  /** Adding main row k removes the largest C index and adds only smaller ones. */
  lemma RowEliminated(rows: seq<seq<nat>>, mainRows: seq<nat>, mainCols: seq<nat>, gap: nat, list: seq<nat>, row: set<nat>, next: set<nat>, k: nat)
    requires gap < |rows| && |mainRows| == |mainCols| && k < |mainRows| && PivotAt(rows, mainCols, mainRows[k], k)
    requires forall j :: 0 <= j < |list| ==> list[j] < |rows|
    requires var cCol := |mainCols| - 1 - k; cCol in row && forall q :: q in row ==> q <= cCol
    requires Remaining(rows, mainCols, gap, list, row)
    requires forall q :: q in next ==> q < |mainCols|
    requires forall q :: 0 <= q < |mainCols| ==> (q in next <==> (q in row) != (PivotOf(mainCols, q) in rows[mainRows[k]]))
    ensures Remaining(rows, mainCols, gap, list + [mainRows[k]], next)
    ensures forall q :: q in next ==> q < |mainCols| - 1 - k
  {
    var list' := list + [mainRows[k]];
    assert list'[..|list|] == list;
    forall q | 0 <= q < |mainCols|
      ensures q in next <==> RemainsAt(rows, mainCols, gap, list', q)
    {
      assert RemainsAt(rows, mainCols, gap, list, q) <==> q in row;
    }
    assert PivotOf(mainCols, |mainCols| - 1 - k) == mainCols[k];
  }

  lemma AllCancelled(rows: seq<seq<nat>>, mainCols: seq<nat>, gap: nat, list: seq<nat>)
    requires gap < |rows| && forall j :: 0 <= j < |list| ==> list[j] < |rows|
    requires Remaining(rows, mainCols, gap, list, {})
    ensures forall c :: c in mainCols ==> Odd(rows, list, c) == (c in rows[gap])
  {
    forall c | c in mainCols
      ensures Odd(rows, list, c) == (c in rows[gap])
    {
      var k :| 0 <= k < |mainCols| && mainCols[k] == c;
      assert !RemainsAt(rows, mainCols, gap, list, |mainCols| - 1 - k);
    }
  }

  lemma MaxExists(s: set<nat>) returns (m: nat)
    requires s != {}
    ensures m in s && forall x :: x in s ==> x <= m
  {
    m :| m in s;
    if s != {m} {
      var rest := s - {m};
      var m' := MaxExists(rest);
      assert forall x :: x in s ==> x == m || x in rest;
      if m' > m {
        m := m';
      }
    }
  }

  /** All sparse rows of F * C^-1. A gap row equal to its partner is cancelled by
      the partner alone. */
  method GetFCInv(rows: seq<seq<nat>>, size: nat, mainRows: seq<nat>, mainCols: seq<nat>, gapRows: seq<(nat, nat)>)
    returns (mtx: seq<seq<nat>>)
    requires RowsOk(rows, size) && Triangulated(rows, size, mainRows, mainCols, gapRows)
    ensures |mtx| == |gapRows|
    ensures forall i :: 0 <= i < |gapRows| ==> gapRows[i].0 < |rows| && gapRows[i].1 in mainRows
    ensures forall i :: 0 <= i < |gapRows| ==> Cancels(rows, mainRows, mainCols, gapRows[i].0, mtx[i])
    ensures forall i :: 0 <= i < |gapRows| && rows[gapRows[i].0] == rows[gapRows[i].1] ==> mtx[i] == [gapRows[i].1]
  {
    mtx := [];
    hide Cancels, IsMapping, Triangular, RowsOk;
    var mapping := BuildColMapping(mainCols, size);
    for i := 0 to |gapRows|
      invariant |mtx| == i && IsMapping(mapping[..], mainCols)
      invariant forall j :: 0 <= j < i ==> gapRows[j].0 < |rows| && gapRows[j].1 in mainRows
      invariant forall j :: 0 <= j < i ==> Cancels(rows, mainRows, mainCols, gapRows[j].0, mtx[j])
      invariant forall j :: 0 <= j < i && rows[gapRows[j].0] == rows[gapRows[j].1] ==> mtx[j] == [gapRows[j].1]
    {
      var (gap, partner) := gapRows[i];
      PartnerIsMain(rows, mainRows, mainCols, gapRows, i);
      if rows[gap] == rows[partner] {
        mtx := mtx + [[partner]];
        PartnerCancels(rows, mainRows, mainCols, gap, partner);
      } else {
        var list := EliminateGapRow(rows, size, mainRows, mainCols, gapRows, gap, mapping);
        mtx := mtx + [list];
      }
    }
  }

  lemma PartnerIsMain(rows: seq<seq<nat>>, mainRows: seq<nat>, mainCols: seq<nat>, gapRows: seq<(nat, nat)>, i: nat)
    requires Triangular(rows, mainRows, mainCols, gapRows) && i < |gapRows|
    ensures gapRows[i].0 < |rows| && gapRows[i].1 in mainRows && gapRows[i].1 < |rows|
  {
    assert HasPartner(rows, mainRows, mainCols, gapRows[i]);
    var k: nat :| GapAt(rows, mainRows, mainCols, gapRows[i], k);
    assert PivotAt(rows, mainCols, mainRows[k], k);
  }

  lemma PartnerCancels(rows: seq<seq<nat>>, mainRows: seq<nat>, mainCols: seq<nat>, gap: nat, partner: nat)
    requires gap < |rows| && partner < |rows| && partner in mainRows && rows[gap] == rows[partner]
    ensures Cancels(rows, mainRows, mainCols, gap, [partner])
  {
    assert forall c :: Odd(rows, [partner], c) == (c in rows[partner]) by {
      assert [partner][..0] == [];
    }
  }
}
