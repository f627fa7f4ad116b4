/** Peeling: brings the sparse columns into triangular form, row by row. */
module Triangulation {
  import opened Cores
  import opened FiniteSets
  import opened WeightBuckets

  /** Every row names distinct columns below s, and at least one. */
  ghost predicate RowsOk(rows: seq<seq<nat>>, s: nat) {
    forall r :: 0 <= r < |rows| ==> RowOk(rows[r], s)
  }

  ghost predicate RowOk(row: seq<nat>, s: nat) {
    |row| > 0 && NoDuplicates(row) && forall j :: 0 <= j < |row| ==> row[j] < s
  }

  /** The rows before n that contain column c, in order. */
  function ColumnUpTo(rows: seq<seq<nat>>, c: nat, n: nat): (col: seq<nat>)
    requires n <= |rows|
    ensures forall r: nat :: r in col <==> r < n && c in rows[r]
  {
    if n == 0 then [] else ColumnUpTo(rows, c, n - 1) + if c in rows[n - 1] then [n - 1] else []
  }

  function Column(rows: seq<seq<nat>>, c: nat): seq<nat> {
    ColumnUpTo(rows, c, |rows|)
  }

  /** How many rows of the column are not set yet. */
  function CountUnset(col: seq<nat>, rowSet: seq<bool>): nat {
    if col == [] then 0
    else CountUnset(col[..|col| - 1], rowSet) + if IsSet(rowSet, col[|col| - 1]) then 0 else 1
  }

  predicate IsSet(rowSet: seq<bool>, r: nat) {
    r < |rowSet| && rowSet[r]
  }

  lemma {:induction false} CountSame(col: seq<nat>, a: seq<bool>, r: nat)
    requires r < |a| && r !in col
    ensures CountUnset(col, a[r := true]) == CountUnset(col, a)
  {
    if col != [] {
      CountSame(col[..|col| - 1], a, r);
      assert col[|col| - 1] in col;
    }
  }

  lemma CountSnoc(col: seq<nat>, r: nat, a: seq<bool>)
    ensures CountUnset(col + [r], a) == CountUnset(col, a) + if IsSet(a, r) then 0 else 1
  {
    assert (col + [r])[..|col|] == col;
  }

  lemma ColumnNext(rows: seq<seq<nat>>, c: nat, n: nat)
    requires n < |rows|
    ensures ColumnUpTo(rows, c, n + 1) == if c in rows[n] then ColumnUpTo(rows, c, n) + [n] else ColumnUpTo(rows, c, n)
  {
  }

  lemma {:induction false} CountOneLess(rows: seq<seq<nat>>, c: nat, n: nat, a: seq<bool>, r: nat)
    requires n <= |rows| == |a| && r < n && c in rows[r] && !a[r]
    ensures CountUnset(ColumnUpTo(rows, c, n), a[r := true]) + 1 == CountUnset(ColumnUpTo(rows, c, n), a)
  {
    hide CountUnset, ColumnUpTo;
    var prev := ColumnUpTo(rows, c, n - 1);
    var b := a[r := true];
    ColumnNext(rows, c, n - 1);
    if c in rows[n - 1] {
      CountSnoc(prev, n - 1, a);
      CountSnoc(prev, n - 1, b);
    }
    if r == n - 1 {
      CountSame(prev, a, r);
    } else {
      CountOneLess(rows, c, n - 1, a, r);
    }
  }

  lemma {:induction false} CountZero(col: seq<nat>, a: seq<bool>)
    ensures CountUnset(col, a) == 0 <==> forall r :: r in col ==> IsSet(a, r)
  {
    if col != [] {
      CountZero(col[..|col| - 1], a);
      assert forall r :: r in col <==> r in col[..|col| - 1] || r == col[|col| - 1];
    }
  }

  /** Every listed column weighs as many rows as it still has to be set. */
  ghost predicate Weighed(ws: WeightData, rows: seq<seq<nat>>, rowSet: seq<bool>)
    requires |rowSet| == |rows|
    reads ws, ws.mWeight, ws.mPrev, ws.mNext
  {
    && ws.Valid()
    && (forall c :: 0 <= c < ws.Size() && c in ws.listed ==> ws.mWeight[c] == CountUnset(Column(rows, c), rowSet))
    && (forall c :: 0 <= c < ws.Size() && c !in ws.listed ==> ws.mWeight[c] == 0)
  }

  lemma OtherListed(all: set<nat>, x: nat)
    requires |all| >= 2
    ensures exists y :: y != x && y in all
  {
    var y :| y in all;
    if y == x {
      var rest := all - {x};
      assert |rest| >= 1;
      var z :| z in rest;
    }
  }

  /** Sets a row and takes it out of the weight of every column not yet fixed. */
  method SetRow(ws: WeightData, rows: seq<seq<nat>>, rowSet: array<bool>, rowIdx: nat)
    requires rowSet.Length == |rows| && rowIdx < |rows| && !rowSet[rowIdx] && RowsOk(rows, ws.Size())
    requires Weighed(ws, rows, rowSet[..]) && |ws.listed| >= 2
    modifies rowSet, ws, ws.mWeight, ws.mPrev, ws.mNext
    ensures rowSet[..] == old(rowSet[..])[rowIdx := true]
    ensures Weighed(ws, rows, rowSet[..]) && ws.listed == old(ws.listed)
  {
    var row := rows[rowIdx];
    ghost var before := rowSet[..];
    rowSet[rowIdx] := true;
    ghost var after := rowSet[..];
    forall c | 0 <= c < ws.Size()
      ensures CountUnset(Column(rows, c), before) == CountUnset(Column(rows, c), after) + if c in row then 1 else 0
    {
      if c in row {
        CountOneLess(rows, c, |rows|, before, rowIdx);
      } else {
        CountSame(Column(rows, c), before, rowIdx);
      }
    }
    DecrementRow(ws, row, seq(ws.Size(), c requires 0 <= c < ws.Size() => CountUnset(Column(rows, c), after)));
  }

  /** Takes one off the weight of every listed column of the row. */
  method DecrementRow(ws: WeightData, row: seq<nat>, ghost target: seq<nat>)
    requires ws.Valid() && RowOk(row, ws.Size()) && |target| == ws.Size() && |ws.listed| >= 2
    requires forall c :: 0 <= c < ws.Size() && c in ws.listed ==> ws.mWeight[c] == target[c] + if c in row then 1 else 0
    requires forall c :: 0 <= c < ws.Size() && c !in ws.listed ==> ws.mWeight[c] == 0
    modifies ws, ws.mWeight, ws.mPrev, ws.mNext
    ensures ws.Valid() && ws.listed == old(ws.listed)
    ensures forall c :: 0 <= c < ws.Size() && c in ws.listed ==> ws.mWeight[c] == target[c]
    ensures forall c :: 0 <= c < ws.Size() && c !in ws.listed ==> ws.mWeight[c] == 0
  {
    hide WeightData.Valid, NoDuplicates, Ahead;
    AheadAll(row);
    for j := 0 to |row|
      invariant ws.Valid() && ws.listed == old(ws.listed)
      invariant forall c :: 0 <= c < ws.Size() && c in ws.listed ==> ws.mWeight[c] == target[c] + Ahead(row, j, c)
      invariant forall c :: 0 <= c < ws.Size() && c !in ws.listed ==> ws.mWeight[c] == 0
    {
      AheadStep(row, j);
      DecrementColumn(ws, row[j], seq(ws.Size(), c requires 0 <= c < ws.Size() => target[c] + Ahead(row, j + 1, c)));
    }
  }

  /** If the column has not been fixed, takes one off its weight. */
  method DecrementColumn(ws: WeightData, x: nat, ghost target: seq<nat>)
    requires ws.Valid() && x < ws.Size() == |target| && |ws.listed| >= 2
    requires forall c :: 0 <= c < ws.Size() && c in ws.listed ==> ws.mWeight[c] == target[c] + if c == x then 1 else 0
    requires forall c :: 0 <= c < ws.Size() && c !in ws.listed ==> ws.mWeight[c] == 0
    modifies ws, ws.mWeight, ws.mPrev, ws.mNext
    ensures ws.Valid() && ws.listed == old(ws.listed)
    ensures forall c :: 0 <= c < ws.Size() && c in ws.listed ==> ws.mWeight[c] == target[c]
    ensures forall c :: 0 <= c < ws.Size() && c !in ws.listed ==> ws.mWeight[c] == 0
  {
    if ws.mWeight[x] != 0 {
      OtherListed(ws.listed, x);
      ws.DecrementWeight(x);
    }
  }

  /** 1 if the row names column c at or behind position j. */
  ghost function Ahead(row: seq<nat>, j: nat, c: nat): nat {
    if exists i :: j <= i < |row| && row[i] == c then 1 else 0
  }

  lemma AheadAll(row: seq<nat>)
    ensures forall c :: Ahead(row, 0, c) == if c in row then 1 else 0
    ensures forall c :: Ahead(row, |row|, c) == 0
  {
  }

  lemma AheadStep(row: seq<nat>, j: nat)
    requires NoDuplicates(row) && j < |row|
    ensures Ahead(row, j, row[j]) == 1 && Ahead(row, j + 1, row[j]) == 0
    ensures forall c :: c != row[j] ==> Ahead(row, j, c) == Ahead(row, j + 1, c)
  {
  }

  /** What peeling has found so far: pivot column k is in main row k and in no
      later main row, and every gap row has the pivot column of its partner and
      none before it. */
  ghost predicate Triangular(rows: seq<seq<nat>>, mainRows: seq<nat>, mainCols: seq<nat>, gapRows: seq<(nat, nat)>) {
    && |mainRows| == |mainCols|
    && (forall k :: 0 <= k < |mainRows| ==> PivotAt(rows, mainCols, mainRows[k], k))
    && (forall g :: 0 <= g < |gapRows| ==> HasPartner(rows, mainRows, mainCols, gapRows[g]))
  }

  /** Row r has pivot column k and no earlier pivot column. */
  ghost predicate PivotAt(rows: seq<seq<nat>>, mainCols: seq<nat>, r: nat, k: nat) {
    r < |rows| && k < |mainCols| && mainCols[k] in rows[r] && forall j :: 0 <= j < k ==> mainCols[j] !in rows[r]
  }

  ghost predicate GapAt(rows: seq<seq<nat>>, mainRows: seq<nat>, mainCols: seq<nat>, gap: (nat, nat), k: nat) {
    k < |mainRows| && mainRows[k] == gap.1 && PivotAt(rows, mainCols, gap.0, k)
  }

  ghost predicate HasPartner(rows: seq<seq<nat>>, mainRows: seq<nat>, mainCols: seq<nat>, gap: (nat, nat)) {
    exists k: nat :: GapAt(rows, mainRows, mainCols, gap, k)
  }

  function Firsts(gapRows: seq<(nat, nat)>): (r: seq<nat>)
    ensures |r| == |gapRows| && forall g :: 0 <= g < |gapRows| ==> r[g] == gapRows[g].0
  {
    seq(|gapRows|, g requires 0 <= g < |gapRows| => gapRows[g].0)
  }

  /** Main rows and gap rows are exactly the rows that are set, each once. */
  ghost predicate Partition(rowSet: seq<bool>, mainRows: seq<nat>, gapRows: seq<(nat, nat)>) {
    && NoDuplicates(mainRows) && NoDuplicates(Firsts(gapRows))
    && (forall r :: r in mainRows ==> r !in Firsts(gapRows))
    && (forall r: nat :: IsSet(rowSet, r) <==> r in mainRows || r in Firsts(gapRows))
  }

  /** No row that is not set yet has one of the pivot columns. */
  ghost predicate Avoids(rows: seq<seq<nat>>, rowSet: seq<bool>, mainCols: seq<nat>) {
    forall r, k :: 0 <= r < |rows| && !IsSet(rowSet, r) && 0 <= k < |mainCols| ==> mainCols[k] !in rows[r]
  }

  ghost predicate Peeled(rows: seq<seq<nat>>, rowSet: seq<bool>, mainRows: seq<nat>, mainCols: seq<nat>, gapRows: seq<(nat, nat)>) {
    |rowSet| == |rows| && Partition(rowSet, mainRows, gapRows) && Triangular(rows, mainRows, mainCols, gapRows)
  }

  /** A further main row, with a pivot column that no later row will have. */
  lemma PlaceMain(rows: seq<seq<nat>>, rowSet: seq<bool>, mainRows: seq<nat>, mainCols: seq<nat>, gapRows: seq<(nat, nat)>, r: nat, c: nat)
    requires Peeled(rows, rowSet, mainRows, mainCols, gapRows) && Avoids(rows, rowSet, mainCols)
    requires r < |rows| && !rowSet[r] && c in rows[r]
    ensures Peeled(rows, rowSet[r := true], mainRows + [r], mainCols + [c], gapRows)
    ensures Avoids(rows, rowSet[r := true], mainCols)
  {
    var rs, cs := mainRows + [r], mainCols + [c];
    assert !IsSet(rowSet, r);
    forall k | 0 <= k < |rs|
      ensures PivotAt(rows, cs, rs[k], k)
    {
      if k < |mainRows| {
        assert PivotAt(rows, mainCols, mainRows[k], k);
      }
    }
    forall g | 0 <= g < |gapRows|
      ensures HasPartner(rows, rs, cs, gapRows[g])
    {
      var k: nat :| GapAt(rows, mainRows, mainCols, gapRows[g], k);
      assert PivotAt(rows, cs, gapRows[g].0, k);
      assert GapAt(rows, rs, cs, gapRows[g], k);
    }
    assert forall x: nat :: IsSet(rowSet[r := true], x) <==> IsSet(rowSet, x) || x == r;
  }

  /** A further gap row, next to the last main row. */
  lemma PlaceGap(rows: seq<seq<nat>>, rowSet: seq<bool>, mainRows: seq<nat>, mainCols: seq<nat>, gapRows: seq<(nat, nat)>, r: nat)
    requires Peeled(rows, rowSet, mainRows, mainCols, gapRows) && mainCols != []
    requires Avoids(rows, rowSet, mainCols[..|mainCols| - 1])
    requires r < |rows| && !rowSet[r] && mainCols[|mainCols| - 1] in rows[r]
    ensures Peeled(rows, rowSet[r := true], mainRows, mainCols, gapRows + [(r, mainRows[|mainRows| - 1])])
    ensures Avoids(rows, rowSet[r := true], mainCols[..|mainCols| - 1])
  {
    var last := |mainRows| - 1;
    var gs := gapRows + [(r, mainRows[last])];
    assert forall j :: 0 <= j < last ==> mainCols[j] == mainCols[..last][j];
    assert !IsSet(rowSet, r);
    assert PivotAt(rows, mainCols, r, last);
    forall g | 0 <= g < |gs|
      ensures HasPartner(rows, mainRows, mainCols, gs[g])
    {
      if g < |gapRows| {
        var k: nat :| GapAt(rows, mainRows, mainCols, gapRows[g], k);
        assert GapAt(rows, mainRows, mainCols, gs[g], k);
      } else {
        assert GapAt(rows, mainRows, mainCols, gs[g], last);
      }
    }
    assert Firsts(gs) == Firsts(gapRows) + [r];
    assert forall x: nat :: IsSet(rowSet[r := true], x) <==> IsSet(rowSet, x) || x == r;
  }

  ghost predicate HasDuplicate<T(!new)>(rows: seq<seq<nat>>, dense: seq<T>)
    requires |rows| == |dense|
  {
    exists i, j, c: nat :: 0 <= i < |dense| && 0 <= j < |dense| && i != j && dense[i] == dense[j] && c in rows[i] && c in rows[j]
  }

  /** A gap row comes behind its partner and has another dense value. */
  ghost predicate PartnersDiffer<T>(dense: seq<T>, gapRows: seq<(nat, nat)>) {
    forall g :: 0 <= g < |gapRows| ==> gapRows[g].1 < gapRows[g].0 < |dense| && dense[gapRows[g].0] != dense[gapRows[g].1]
  }

  /** No column without a pivot has fewer rows that are not set, but some. */
  ghost predicate Lightest(rows: seq<seq<nat>>, s: nat, rowSet: seq<bool>, mainCols: seq<nat>, x: nat) {
    forall c: nat :: c < s && c !in mainCols && CountUnset(Column(rows, c), rowSet) > 0 ==>
      CountUnset(Column(rows, x), rowSet) <= CountUnset(Column(rows, c), rowSet)
  }

  lemma TwoUnset(rows: seq<seq<nat>>, c: nat, rowSet: seq<bool>, r: nat, q: nat)
    requires |rowSet| == |rows| && r < |rows| && q < |rows| && r != q && c in rows[r] && c in rows[q]
    requires !rowSet[r] && !rowSet[q]
    ensures CountUnset(Column(rows, c), rowSet) >= 2
  {
    CountOneLess(rows, c, |rows|, rowSet, r);
    CountZero(Column(rows, c), rowSet[r := true]);
    assert q in Column(rows, c);
  }

  lemma AnotherUnset(rows: seq<seq<nat>>, c: nat, rowSet: seq<bool>, r: nat) returns (q: nat)
    requires |rowSet| == |rows| && r < |rows| && c in rows[r] && !rowSet[r] && CountUnset(Column(rows, c), rowSet) >= 2
    ensures q < |rows| && q != r && c in rows[q] && !rowSet[q]
  {
    CountOneLess(rows, c, |rows|, rowSet, r);
    q := CountZeroWitness(rows, c, rowSet[r := true]);
  }

  /** If even a lightest column has two rows that are not set, the rows that are
      not set are a core. */
  lemma UnsetIsCore(rows: seq<seq<nat>>, s: nat, rowSet: seq<bool>, mainCols: seq<nat>, x: nat)
    requires |rowSet| == |rows| && RowsOk(rows, s) && Avoids(rows, rowSet, mainCols)
    requires Lightest(rows, s, rowSet, mainCols, x) && CountUnset(Column(rows, x), rowSet) >= 2
    ensures HasCore(rows)
  {
    hide CountUnset, Column;
    var core := UnsetRows(rowSet);
    var first := CountZeroWitness(rows, x, rowSet);
    assert first in core;
    forall r, c | r in core && c in rows[r]
      ensures Elsewhere(rows, core, r, c)
    {
      assert RowOk(rows[r], s) && !IsSet(rowSet, r);
      CountZero(Column(rows, c), rowSet);
      InColumn(rows, c, r);
      var q := AnotherUnset(rows, c, rowSet, r);
    }
    assert IsCore(rows, core);
  }

  lemma InColumn(rows: seq<seq<nat>>, c: nat, r: nat)
    requires r < |rows| && c in rows[r]
    ensures r in Column(rows, c)
  {
  }

  /** Without gap rows the main rows are a peeling order. */
  lemma NoGapNoCore(rows: seq<seq<nat>>, s: nat, mainRows: seq<nat>, mainCols: seq<nat>)
    requires Triangulated(rows, s, mainRows, mainCols, [])
    ensures PeelingOrder(rows, mainRows) && !HasCore(rows)
  {
    forall k: nat | k < |mainRows|
      ensures Peels(rows, mainRows, k)
    {
      assert PivotAt(rows, mainCols, mainRows[k], k);
      assert forall j :: k < j < |mainRows| ==> PivotAt(rows, mainCols, mainRows[j], j);
      assert LastWith(rows, mainRows, k, mainCols[k]);
    }
    OrderHasNoCore(rows, mainRows);
  }

  /** Fixes one column: its first row that is not set becomes a main row, the
      others gap rows next to it. Fails on two rows with the same dense part. */
  method FixColumn<T(==,!new)>(ws: WeightData, rows: seq<seq<nat>>, dense: seq<T>, rowSet: array<bool>, colIdx: nat,
                               mainRows0: seq<nat>, mainCols0: seq<nat>, gapRows0: seq<(nat, nat)>)
    returns (ok: bool, mainRows: seq<nat>, mainCols: seq<nat>, gapRows: seq<(nat, nat)>)
    requires rowSet.Length == |rows| == |dense| && RowsOk(rows, ws.Size())
    requires Weighed(ws, rows, rowSet[..]) && |ws.listed| >= 2
    requires Peeled(rows, rowSet[..], mainRows0, mainCols0, gapRows0) && Avoids(rows, rowSet[..], mainCols0) && PartnersDiffer(dense, gapRows0)
    requires CountUnset(Column(rows, colIdx), rowSet[..]) > 0
    modifies rowSet, ws, ws.mWeight, ws.mPrev, ws.mNext
    ensures !ok ==> HasDuplicate(rows, dense)
    ensures Weighed(ws, rows, rowSet[..]) && ws.listed == old(ws.listed)
    ensures ok ==> Peeled(rows, rowSet[..], mainRows, mainCols, gapRows) && Avoids(rows, rowSet[..], mainCols) && PartnersDiffer(dense, gapRows)
    ensures ok ==> mainCols == mainCols0 + [colIdx]
    ensures ok ==> Grown(old(rowSet[..]), rowSet[..])
    ensures !ok || gapRows != gapRows0 ==> CountUnset(Column(rows, colIdx), old(rowSet[..])) >= 2
  {
    hide WeightData.Valid, Weighed, Peeled, Avoids, RowsOk, ColumnUpTo, Grown, PartnersDiffer, CountUnset;
    mainRows, mainCols, gapRows := mainRows0, mainCols0, gapRows0;
    ok := true;
    var first := true;
    var col := Column(rows, colIdx);
    Ascending(rows, colIdx, |rows|);
    for i := 0 to |col|
      invariant Weighed(ws, rows, rowSet[..]) && ws.listed == old(ws.listed)
      invariant Peeled(rows, rowSet[..], mainRows, mainCols, gapRows) && Avoids(rows, rowSet[..], mainCols0) && PartnersDiffer(dense, gapRows)
      invariant first ==> rowSet[..] == old(rowSet[..]) && mainCols == mainCols0
      invariant !first ==> mainCols == mainCols0 + [colIdx]
      invariant first || Grown(old(rowSet[..]), rowSet[..])
      invariant !first ==> mainRows != [] && Last(mainRows) in col[..i] && IsSet(rowSet[..], Last(mainRows)) && !IsSet(old(rowSet[..]), Last(mainRows))
      invariant first ==> gapRows == gapRows0
      invariant gapRows != gapRows0 ==> CountUnset(col, old(rowSet[..])) >= 2
      invariant AllSet(col[..i], rowSet[..])
    {
      var rowIdx := col[i];
      PrefixStep(col, i);
      if !rowSet[rowIdx] {
        ghost var before := rowSet[..];
        if !first {
          WasUnset(old(rowSet[..]), before, rowIdx);
          InPrefix(col, i, Last(mainRows));
          TwoUnset(rows, colIdx, old(rowSet[..]), Last(mainRows), rowIdx);
        } else {
          assert !IsSet(old(rowSet[..]), rowIdx);
        }
        ok, first, mainRows, mainCols, gapRows := FixRow(ws, rows, dense, rowSet, rowIdx, colIdx, first, mainCols0, mainRows, mainCols, gapRows);
        if !ok {
          return;
        }
        AllSetGrows(col[..i], before, rowSet[..]);
        GrownAgain(old(rowSet[..]), before, rowSet[..]);
      }
    }
    PrefixAll(col);
    CountZero(col, rowSet[..]);
    AvoidsFixed(rows, rowSet[..], mainCols0, colIdx);
  }

  /** A column all of whose rows are set is avoided from then on. */
  lemma AvoidsFixed(rows: seq<seq<nat>>, rowSet: seq<bool>, mainCols: seq<nat>, c: nat)
    requires Avoids(rows, rowSet, mainCols) && AllSet(Column(rows, c), rowSet)
    ensures Avoids(rows, rowSet, mainCols + [c])
  {
    forall r | 0 <= r < |rows| && !IsSet(rowSet, r)
      ensures c !in rows[r]
    {
      assert r !in Column(rows, c);
    }
  }

  ghost predicate AllSet(col: seq<nat>, rowSet: seq<bool>) {
    forall r :: r in col ==> IsSet(rowSet, r)
  }

  lemma PrefixStep(col: seq<nat>, i: nat)
    requires i < |col|
    ensures col[i] in col && col[..i + 1] == col[..i] + [col[i]]
  {
  }

  lemma PrefixAll(col: seq<nat>)
    ensures col[..|col|] == col
  {
  }

  lemma AllSetGrows(col: seq<nat>, a: seq<bool>, b: seq<bool>)
    requires AllSet(col, a) && Grown(a, b)
    ensures AllSet(col, b)
  {
  }

  function Last(s: seq<nat>): nat
    requires s != []
  {
    s[|s| - 1]
  }

  lemma {:induction false} Ascending(rows: seq<seq<nat>>, c: nat, n: nat)
    requires n <= |rows|
    ensures forall i, j :: 0 <= i < j < |ColumnUpTo(rows, c, n)| ==> ColumnUpTo(rows, c, n)[i] < ColumnUpTo(rows, c, n)[j]
  {
    if n > 0 {
      Ascending(rows, c, n - 1);
      var prev := ColumnUpTo(rows, c, n - 1);
      assert forall i :: 0 <= i < |prev| ==> prev[i] in prev;
    }
  }

  lemma InPrefix(col: seq<nat>, i: nat, x: nat)
    requires i < |col| && x in col[..i] && forall a, b :: 0 <= a < b < |col| ==> col[a] < col[b]
    ensures x in col && x < col[i]
  {
    var a :| 0 <= a < i && col[..i][a] == x;
    assert col[a] == x;
  }

  /** At least one more row is set, and none less. */
  ghost predicate Grown(a: seq<bool>, b: seq<bool>) {
    && (forall r: nat :: IsSet(a, r) ==> IsSet(b, r))
    && exists r: nat :: IsSet(b, r) && !IsSet(a, r)
  }

  lemma GrownAgain(a: seq<bool>, b: seq<bool>, c: seq<bool>)
    requires (a == b || Grown(a, b)) && Grown(b, c)
    ensures Grown(a, c)
  {
    var r: nat :| IsSet(c, r) && !IsSet(b, r);
    assert !IsSet(a, r);
  }

  lemma WasUnset(a: seq<bool>, b: seq<bool>, r: nat)
    requires (a == b || Grown(a, b)) && !IsSet(b, r)
    ensures !IsSet(a, r)
  {
  }

  /** Places one row of the column being fixed. */
  method FixRow<T(==,!new)>(ws: WeightData, rows: seq<seq<nat>>, dense: seq<T>, rowSet: array<bool>, rowIdx: nat, colIdx: nat, first: bool,
                            ghost mainCols0: seq<nat>, mainRows0: seq<nat>, mainCols1: seq<nat>, gapRows0: seq<(nat, nat)>)
    returns (ok: bool, first': bool, mainRows: seq<nat>, mainCols: seq<nat>, gapRows: seq<(nat, nat)>)
    requires rowSet.Length == |rows| == |dense| && RowsOk(rows, ws.Size()) && rowIdx < |rows| && !rowSet[rowIdx]
    requires Weighed(ws, rows, rowSet[..]) && |ws.listed| >= 2
    requires Peeled(rows, rowSet[..], mainRows0, mainCols1, gapRows0) && Avoids(rows, rowSet[..], mainCols0) && PartnersDiffer(dense, gapRows0)
    requires colIdx in rows[rowIdx] && mainCols1 == if first then mainCols0 else mainCols0 + [colIdx]
    requires !first ==> mainRows0 != [] && Last(mainRows0) < rowIdx
    modifies rowSet, ws, ws.mWeight, ws.mPrev, ws.mNext
    ensures Weighed(ws, rows, rowSet[..]) && ws.listed == old(ws.listed)
    ensures rowSet[..] == old(rowSet[..])[rowIdx := true] && !first'
    ensures Grown(old(rowSet[..]), rowSet[..])
    ensures !ok ==> HasDuplicate(rows, dense)
    ensures ok ==> Peeled(rows, rowSet[..], mainRows, mainCols, gapRows) && Avoids(rows, rowSet[..], mainCols0) && PartnersDiffer(dense, gapRows)
    ensures ok ==> mainCols == mainCols0 + [colIdx]
    ensures first ==> ok && mainRows == mainRows0 + [rowIdx] && gapRows == gapRows0
    ensures !first && ok ==> mainRows == mainRows0 && gapRows == gapRows0 + [(rowIdx, Last(mainRows0))]
    ensures !ok ==> !first && dense[rowIdx] == dense[Last(mainRows0)]
  {
    hide RowsOk, Weighed, Peeled, Avoids, Grown, IsSet;
    ghost var before := rowSet[..];
    mainRows, mainCols, gapRows := mainRows0, mainCols1, gapRows0;
    ok, first' := true, false;
    SetRow(ws, rows, rowSet, rowIdx);
    OneMoreSet(before, rowIdx);
    if first {
      PlaceMain(rows, before, mainRows, mainCols, gapRows, rowIdx, colIdx);
      mainCols := mainCols + [colIdx];
      mainRows := mainRows + [rowIdx];
    } else {
      LastMain(rows, before, mainRows, mainCols, gapRows);
      var partner := Last(mainRows);
      if dense[partner] == dense[rowIdx] {
        ok := false;
      } else {
        assert mainCols[..|mainCols| - 1] == mainCols0;
        PlaceGap(rows, before, mainRows, mainCols, gapRows, rowIdx);
        gapRows := gapRows + [(rowIdx, partner)];
      }
    }
  }

  lemma OneMoreSet(rowSet: seq<bool>, r: nat)
    requires r < |rowSet| && !rowSet[r]
    ensures Grown(rowSet, rowSet[r := true])
  {
    assert IsSet(rowSet[r := true], r) && !IsSet(rowSet, r);
  }

  /** The last main row is set. */
  lemma LastMain(rows: seq<seq<nat>>, rowSet: seq<bool>, mainRows: seq<nat>, mainCols: seq<nat>, gapRows: seq<(nat, nat)>)
    requires Peeled(rows, rowSet, mainRows, mainCols, gapRows) && mainCols != []
    ensures |mainRows| == |mainCols| && mainRows[|mainRows| - 1] < |rows| == |rowSet| && rowSet[mainRows[|mainRows| - 1]]
    ensures mainCols[|mainCols| - 1] in rows[mainRows[|mainRows| - 1]]
  {
    assert IsSet(rowSet, mainRows[|mainRows| - 1]) && PivotAt(rows, mainCols, mainRows[|mainRows| - 1], |mainRows| - 1);
  }

  /** All rows are placed: the outcome of `triangulate`. */
  ghost predicate Triangulated(rows: seq<seq<nat>>, s: nat, mainRows: seq<nat>, mainCols: seq<nat>, gapRows: seq<(nat, nat)>) {
    && Triangular(rows, mainRows, mainCols, gapRows)
    && NoDuplicates(mainRows) && NoDuplicates(Firsts(gapRows)) && NoDuplicates(mainCols)
    && (forall r :: r in mainRows ==> r < |rows| && r !in Firsts(gapRows))
    && (forall r :: r in Firsts(gapRows) ==> r < |rows|)
    && (forall r: nat :: r < |rows| ==> r in mainRows || r in Firsts(gapRows))
    && (forall c :: c in mainCols ==> c < s)
  }

  /** The pivot columns are those that are in no list any more. */
  ghost predicate Fixed(ws: WeightData, mainCols: seq<nat>)
    reads ws, ws.mWeight, ws.mPrev, ws.mNext
  {
    && NoDuplicates(mainCols) && (forall c :: c in mainCols ==> c < ws.Size())
    && forall c: nat :: c in ws.listed <==> c < ws.Size() && c !in mainCols
  }

  ghost function UnsetRows(rowSet: seq<bool>): set<nat> {
    set r | 0 <= r < |rowSet| && !rowSet[r]
  }

  lemma FirstIsIn(s: seq<nat>)
    requires |s| > 0
    ensures s[0] in s
  {
  }

  /** A list of distinct numbers below n is no longer than n. */
  lemma {:induction false} Pigeonhole(s: seq<nat>, n: nat)
    requires NoDuplicates(s) && forall x :: x in s ==> x < n
    ensures |s| <= n
  {
    if n == 0 {
      if |s| > 0 {
        FirstIsIn(s);
        assert false;
      }
    } else if n - 1 in s {
      var i :| 0 <= i < |s| && s[i] == n - 1;
      var t := Without(s, i);
      forall x | x in t
        ensures x < n - 1
      {
        var j :| 0 <= j < |t| && t[j] == x;
        var k := if j < i then j else j + 1;
        assert x == s[k] && k != i;
        assert s[k] in s;
      }
      Pigeonhole(t, n - 1);
    } else {
      Pigeonhole(s, n - 1);
    }
  }

  lemma {:induction false} RangeMinus(n: nat, s: seq<nat>, rest: set<nat>)
    requires NoDuplicates(s) && (forall x :: x in s ==> x < n)
    requires forall x: nat :: x in rest <==> x < n && x !in s
    ensures |rest| == n - |s|
  {
    if s == [] {
      RangeSize(n, rest);
    } else {
      var x, t := s[|s| - 1], s[..|s| - 1];
      assert forall y :: y in s <==> y in t || y == x;
      assert x !in t;
      RangeMinus(n, t, rest + {x});
    }
  }

  lemma {:induction false} RangeSize(n: nat, all: set<nat>)
    requires forall x: nat :: x in all <==> x < n
    ensures |all| == n
  {
    if n == 0 {
      assert all == {};
    } else {
      RangeSize(n - 1, all - {n - 1});
    }
  }

  /** While a row is not set, more than two columns are in lists: enough for
      every pop to leave one behind. */
  lemma EnoughListed(rows: seq<seq<nat>>, s: nat, rowSet: seq<bool>, mainRows: seq<nat>, mainCols: seq<nat>, gapRows: seq<(nat, nat)>, listed: set<nat>, r: nat)
    requires Peeled(rows, rowSet, mainRows, mainCols, gapRows) && r < |rows| && !rowSet[r] && s >= |rows| + 2
    requires NoDuplicates(mainCols) && (forall c :: c in mainCols ==> c < s)
    requires forall c: nat :: c in listed <==> c < s && c !in mainCols
    ensures |listed| >= 3
  {
    RangeMinus(s, mainCols, listed);
    assert !IsSet(rowSet, r);
    assert forall x :: x in mainRows ==> IsSet(rowSet, x);
    Pigeonhole(mainRows + [r], |rows|);
  }

  /** The weights `setInput` gives the columns: how many rows each has. */
  function ColumnWeights(rows: seq<seq<nat>>, s: nat): (w: seq<nat>)
    ensures |w| == s && forall c :: 0 <= c < s ==> w[c] == |Column(rows, c)|
  {
    seq(s, c requires 0 <= c < s => |Column(rows, c)|)
  }

  lemma {:induction false} CountAll(col: seq<nat>, a: seq<bool>)
    requires forall r: nat :: !IsSet(a, r)
    ensures CountUnset(col, a) == |col|
  {
    if col != [] {
      CountAll(col[..|col| - 1], a);
    }
  }

  /** Peels all columns. The weights are those of the whole matrix, or drained
      by an earlier run. */
  method Triangulate<T(==,!new)>(ws: WeightData, rows: seq<seq<nat>>, dense: seq<T>)
    returns (ok: bool, mainRows: seq<nat>, mainCols: seq<nat>, gapRows: seq<(nat, nat)>)
    requires |rows| == |dense| && RowsOk(rows, ws.Size()) && ws.Size() >= |rows| + 2
    requires forall c :: 0 <= c < ws.Size() ==> |Column(rows, c)| < INITIAL_SETS
    requires ws.Separate()
    requires |ws.mWeightSets| > 1 ==> ws.Valid() && ws.mWeight[..] == ColumnWeights(rows, ws.Size())
    requires |ws.mWeightSets| > 1 ==> forall c :: 0 <= c < ws.Size() ==> c in ws.listed
    modifies ws, ws.mWeight, ws.mPrev, ws.mNext
    ensures !ok ==> HasDuplicate(rows, dense)
    ensures ok ==> Triangulated(rows, ws.Size(), mainRows, mainCols, gapRows) && PartnersDiffer(dense, gapRows)
    ensures ok ==> ws.Valid() && |ws.mWeightSets| == 1 && Fixed(ws, mainCols)
    ensures ok && gapRows == [] <==> !HasCore(rows)
    ensures ok && gapRows == [] ==> PeelingOrder(rows, mainRows)
  {
    if |ws.mWeightSets| <= 1 {
      ws.Init(ColumnWeights(rows, ws.Size()));
    }
    var rowSet := new bool[|rows|](_ => false);
    InitialWeights(ws, rows, rowSet[..]);
    ok, mainRows, mainCols, gapRows := true, [], [], [];
    while |ws.mWeightSets| > 1
      invariant Weighed(ws, rows, rowSet[..]) && Fixed(ws, mainCols)
      invariant Peeled(rows, rowSet[..], mainRows, mainCols, gapRows) && Avoids(rows, rowSet[..], mainCols) && PartnersDiffer(dense, gapRows)
      invariant gapRows != [] ==> HasCore(rows)
      decreases |UnsetRows(rowSet[..])|
    {
      ghost var before := rowSet[..];
      ok, mainRows, mainCols, gapRows := FixLightest(ws, rows, dense, rowSet, mainRows, mainCols, gapRows);
      if !ok {
        return;
      }
      FewerUnset(before, rowSet[..]);
    }
    AllRowsSet(ws, rows, rowSet[..], mainCols);
    forall r: nat | r < |rows|
      ensures r in mainRows || r in Firsts(gapRows)
    {
      assert IsSet(rowSet[..], r);
    }
    forall r | r in mainRows || r in Firsts(gapRows)
      ensures r < |rows|
    {
      assert IsSet(rowSet[..], r);
    }
    if gapRows == [] {
      NoGapNoCore(rows, ws.Size(), mainRows, mainCols);
    }
  }

  lemma InitialWeights(ws: WeightData, rows: seq<seq<nat>>, rowSet: seq<bool>)
    requires ws.Valid() && ws.mWeight[..] == ColumnWeights(rows, ws.Size()) && forall c :: 0 <= c < ws.Size() ==> c in ws.listed
    requires |rowSet| == |rows| && forall r :: 0 <= r < |rows| ==> !rowSet[r]
    ensures Weighed(ws, rows, rowSet)
  {
    forall c | 0 <= c < ws.Size()
      ensures ws.mWeight[c] == CountUnset(Column(rows, c), rowSet)
    {
      assert ws.mWeight[c] == ws.mWeight[..][c];
      CountAll(Column(rows, c), rowSet);
    }
  }

  lemma FewerUnset(a: seq<bool>, b: seq<bool>)
    requires |a| == |b| && Grown(a, b)
    ensures |UnsetRows(b)| < |UnsetRows(a)|
  {
    var r: nat :| IsSet(b, r) && !IsSet(a, r);
    assert UnsetRows(b) <= UnsetRows(a) - {r} by {
      forall x: nat | x in UnsetRows(b)
        ensures x in UnsetRows(a) - {r}
      {
        assert !IsSet(b, x);
      }
    }
    SubsetSize(UnsetRows(b), UnsetRows(a) - {r});
  }

  /** Takes a lightest column out of the lists and fixes it. */
  method FixLightest<T(==,!new)>(ws: WeightData, rows: seq<seq<nat>>, dense: seq<T>, rowSet: array<bool>,
                                 mainRows0: seq<nat>, mainCols0: seq<nat>, gapRows0: seq<(nat, nat)>)
    returns (ok: bool, mainRows: seq<nat>, mainCols: seq<nat>, gapRows: seq<(nat, nat)>)
    requires rowSet.Length == |rows| == |dense| && RowsOk(rows, ws.Size()) && ws.Size() >= |rows| + 2
    requires Weighed(ws, rows, rowSet[..]) && Fixed(ws, mainCols0) && |ws.mWeightSets| > 1
    requires Peeled(rows, rowSet[..], mainRows0, mainCols0, gapRows0) && Avoids(rows, rowSet[..], mainCols0) && PartnersDiffer(dense, gapRows0)
    modifies rowSet, ws, ws.mWeight, ws.mPrev, ws.mNext
    ensures !ok ==> HasDuplicate(rows, dense)
    ensures ok ==> Weighed(ws, rows, rowSet[..]) && Fixed(ws, mainCols) && Grown(old(rowSet[..]), rowSet[..])
    ensures ok ==> Peeled(rows, rowSet[..], mainRows, mainCols, gapRows) && Avoids(rows, rowSet[..], mainCols) && PartnersDiffer(dense, gapRows)
    ensures !ok || gapRows != gapRows0 ==> HasCore(rows)
  {
    ghost var before := rowSet[..];
    var colIdx := TakeLightest(ws, rows, rowSet[..], mainRows0, mainCols0, gapRows0);
    ok, mainRows, mainCols, gapRows := FixColumn(ws, rows, dense, rowSet, colIdx, mainRows0, mainCols0, gapRows0);
    if !ok || gapRows != gapRows0 {
      UnsetIsCore(rows, ws.Size(), before, mainCols0, colIdx);
    }
  }

  method TakeLightest(ws: WeightData, rows: seq<seq<nat>>, ghost rowSet: seq<bool>,
                      ghost mainRows: seq<nat>, ghost mainCols: seq<nat>, ghost gapRows: seq<(nat, nat)>)
    returns (colIdx: nat)
    requires RowsOk(rows, ws.Size()) && ws.Size() >= |rows| + 2 && |rowSet| == |rows|
    requires Weighed(ws, rows, rowSet) && Fixed(ws, mainCols) && |ws.mWeightSets| > 1
    requires Peeled(rows, rowSet, mainRows, mainCols, gapRows)
    modifies ws, ws.mWeight, ws.mPrev, ws.mNext
    ensures colIdx in old(ws.listed) && ws.listed == old(ws.listed) - {colIdx} && |ws.listed| >= 2
    ensures Weighed(ws, rows, rowSet) && Fixed(ws, mainCols + [colIdx])
    ensures CountUnset(Column(rows, colIdx), rowSet) > 0
    ensures forall c :: 0 <= c < ws.Size() && c in old(ws.listed) && CountUnset(Column(rows, c), rowSet) > 0 ==>
      CountUnset(Column(rows, colIdx), rowSet) <= CountUnset(Column(rows, c), rowSet)
    ensures CountUnset(Column(rows, colIdx), rowSet) < |old(ws.mWeightSets)|
    ensures colIdx == old(ws.mWeightSets)[CountUnset(Column(rows, colIdx), rowSet)]
  {
    hide WeightData.Valid, Peeled, RowsOk, Column, CountUnset;
    colIdx := ws.GetMinWeightNode();
    ghost var all := ws.listed;
    ghost var unset := CountZeroWitness(rows, colIdx, rowSet);
    EnoughListed(rows, ws.Size(), rowSet, mainRows, mainCols, gapRows, all, unset);
    OtherListed(all, colIdx);
    ghost var y: nat :| y != colIdx && y in all;
    assert y in ws.listed;
    ws.PopNode(colIdx);
    ws.SetWeight(colIdx, 0);
    assert |all - {colIdx}| >= 2;
  }

  lemma CountZeroWitness(rows: seq<seq<nat>>, c: nat, rowSet: seq<bool>) returns (r: nat)
    requires CountUnset(Column(rows, c), rowSet) > 0
    ensures r < |rows| && c in rows[r] && !IsSet(rowSet, r)
  {
    CountZero(Column(rows, c), rowSet);
    r :| r in Column(rows, c) && !IsSet(rowSet, r);
  }

  /** Once only weight zero is left, no row can be missing. */
  lemma AllRowsSet(ws: WeightData, rows: seq<seq<nat>>, rowSet: seq<bool>, mainCols: seq<nat>)
    requires |rowSet| == |rows| && RowsOk(rows, ws.Size()) && Weighed(ws, rows, rowSet) && Fixed(ws, mainCols)
    requires |ws.mWeightSets| <= 1 && Avoids(rows, rowSet, mainCols)
    ensures forall r: nat :: r < |rows| ==> IsSet(rowSet, r)
  {
    forall r: nat | r < |rows|
      ensures IsSet(rowSet, r)
    {
      if !IsSet(rowSet, r) {
        var c := rows[r][0];
        assert RowOk(rows[r], ws.Size()) && c in rows[r];
        assert c !in mainCols && c in ws.listed;
        assert r in Column(rows, c);
        CountZero(Column(rows, c), rowSet);
        assert false;
      }
    }
  }
}
