/** The columns of the sparse matrix, listed by their rows in one backing array. */
module ColumnIndex {
  import opened Layout
  import opened Triangulation
  import opened WeightBuckets

  /** Where column c's slots start when every column gets as many as it weighs. */
  ghost function StartOf(w: seq<nat>, c: nat): nat
    requires c <= |w|
  {
    if c == 0 then 0 else StartOf(w, c - 1) + w[c - 1]
  }

  lemma {:induction false} StartsApart(w: seq<nat>, a: nat, b: nat)
    requires a < b <= |w|
    ensures StartOf(w, a) + w[a] <= StartOf(w, b)
  {
    if a + 1 < b {
      StartsApart(w, a, b - 1);
    }
  }

  lemma {:induction false} StartAfter(w: seq<nat>, c: nat, i: nat)
    requires c < |w| && i <= |w|
    ensures StartOf(w[c := w[c] + 1], i) == StartOf(w, i) + if c < i then 1 else 0
  {
    if i > 0 {
      StartAfter(w, c, i - 1);
    }
  }

  lemma {:induction false} StartOfZeros(w: seq<nat>, i: nat)
    requires i <= |w| && forall c :: 0 <= c < |w| ==> w[c] == 0
    ensures StartOf(w, i) == 0
  {
    if i > 0 {
      StartOfZeros(w, i - 1);
    }
  }

  /** Each column's list sits in its own slots. */
  ghost predicate Holds(backing: seq<nat>, w: seq<nat>, cols: seq<seq<nat>>) {
    && |cols| == |w| && StartOf(w, |w|) == |backing|
    && forall c :: 0 <= c < |w| ==> HoldsAt(backing, w, cols, c)
  }

  ghost predicate HoldsAt(backing: seq<nat>, w: seq<nat>, cols: seq<seq<nat>>, c: nat)
    requires c < |w| == |cols|
  {
    && |cols[c]| <= w[c] && StartOf(w, c) + |cols[c]| <= |backing|
    && backing[StartOf(w, c)..StartOf(w, c) + |cols[c]|] == cols[c]
  }

  /** The index where column c's next row goes. */
  ghost function Slot(w: seq<nat>, cols: seq<seq<nat>>, c: nat): nat
    requires c < |w| == |cols|
  {
    StartOf(w, c) + |cols[c]|
  }

  lemma SlotFits(backing: seq<nat>, w: seq<nat>, cols: seq<seq<nat>>, c: nat)
    requires Holds(backing, w, cols) && c < |w| && |cols[c]| < w[c]
    ensures Slot(w, cols, c) < |backing|
  {
    StartsApart(w, c, |w|);
  }

  lemma HoldsPush(backing: seq<nat>, w: seq<nat>, cols: seq<seq<nat>>, c: nat, r: nat)
    requires Holds(backing, w, cols) && c < |w| && |cols[c]| < w[c]
    ensures Slot(w, cols, c) < |backing| && Holds(backing[Slot(w, cols, c) := r], w, cols[c := cols[c] + [r]])
  {
    hide HoldsAt, StartOf;
    SlotFits(backing, w, cols, c);
    var b, cs := backing[Slot(w, cols, c) := r], cols[c := cols[c] + [r]];
    forall d | 0 <= d < |w|
      ensures HoldsAt(b, w, cs, d)
    {
      HoldsPushAt(backing, w, cols, c, r, d);
    }
  }

  lemma HoldsPushAt(backing: seq<nat>, w: seq<nat>, cols: seq<seq<nat>>, c: nat, r: nat, d: nat)
    requires |cols| == |w| && c < |w| && |cols[c]| < w[c] && HoldsAt(backing, w, cols, c) && d < |w| && HoldsAt(backing, w, cols, d)
    requires Slot(w, cols, c) < |backing|
    ensures HoldsAt(backing[Slot(w, cols, c) := r], w, cols[c := cols[c] + [r]], d)
  {
    var a := Slot(w, cols, c);
    if d < c {
      StartsApart(w, d, c);
    } else if c < d {
      StartsApart(w, c, d);
    } else {
      assert backing[a := r][StartOf(w, c)..a + 1] == backing[StartOf(w, c)..a] + [r];
    }
  }

  /** The lists after i rows and the first j columns of row i. */
  ghost function ColsAt(rows: seq<seq<nat>>, s: nat, i: nat, j: nat): (r: seq<seq<nat>>)
    requires i < |rows| && j <= |rows[i]|
    ensures |r| == s
  {
    seq(s, c requires 0 <= c < s => ColumnUpTo(rows, c, i) + if c in rows[i][..j] then [i] else [])
  }

  ghost function ColsUpTo(rows: seq<seq<nat>>, s: nat, i: nat): (r: seq<seq<nat>>)
    requires i <= |rows|
    ensures |r| == s
  {
    seq(s, c requires 0 <= c < s => ColumnUpTo(rows, c, i))
  }

  ghost function Lengths(cols: seq<seq<nat>>): (r: seq<nat>)
    ensures |r| == |cols| && forall c :: 0 <= c < |cols| ==> r[c] == |cols[c]|
  {
    seq(|cols|, c requires 0 <= c < |cols| => |cols[c]|)
  }

  lemma ColsAtEnds(rows: seq<seq<nat>>, s: nat, i: nat)
    requires i < |rows|
    ensures ColsAt(rows, s, i, 0) == ColsUpTo(rows, s, i)
    ensures ColsAt(rows, s, i, |rows[i]|) == ColsUpTo(rows, s, i + 1)
  {
    assert rows[i][..|rows[i]|] == rows[i];
    forall c | 0 <= c < s
      ensures ColsAt(rows, s, i, 0)[c] == ColsUpTo(rows, s, i)[c]
      ensures ColsAt(rows, s, i, |rows[i]|)[c] == ColsUpTo(rows, s, i + 1)[c]
    {
    }
  }

  lemma ColsAtNext(rows: seq<seq<nat>>, s: nat, i: nat, j: nat)
    requires i < |rows| && j < |rows[i]| && RowOk(rows[i], s)
    ensures var c := rows[i][j]; c < s && ColsAt(rows, s, i, j + 1) == ColsAt(rows, s, i, j)[c := ColsAt(rows, s, i, j)[c] + [i]]
  {
    var row := rows[i];
    assert row[..j + 1] == row[..j] + [row[j]];
    assert row[j] !in row[..j];
    var was, now := ColsAt(rows, s, i, j), ColsAt(rows, s, i, j + 1);
    forall d | 0 <= d < s
      ensures now[d] == if d == row[j] then was[d] + [i] else was[d]
    {
    }
  }

  /** While a column still gets a row, its list is shorter than it will be. */
  lemma RoomLeft(rows: seq<seq<nat>>, s: nat, i: nat, j: nat)
    requires i < |rows| && j < |rows[i]| && RowOk(rows[i], s)
    ensures |ColsAt(rows, s, i, j)[rows[i][j]]| < |Column(rows, rows[i][j])|
  {
    var c := rows[i][j];
    assert c !in rows[i][..j];
    ColumnGrows(rows, c, i + 1, |rows|);
  }

  lemma {:induction false} ColumnGrows(rows: seq<seq<nat>>, c: nat, i: nat, n: nat)
    requires i <= n <= |rows|
    ensures |ColumnUpTo(rows, c, i)| <= |ColumnUpTo(rows, c, n)|
  {
    if i < n {
      ColumnGrows(rows, c, i, n - 1);
    }
  }

  /** Counts the rows of every column. */
  method CountWeights(rows: seq<seq<nat>>, s: nat, weight: nat) returns (colWeights: array<nat>)
    requires RowsOk(rows, s) && forall r :: 0 <= r < |rows| ==> |rows[r]| == weight
    ensures fresh(colWeights) && colWeights[..] == ColumnWeights(rows, s)
    ensures StartOf(colWeights[..], s) == Row(|rows|, weight)
  {
    hide StartOf, ColumnUpTo, Row, RowsOk;
    colWeights := new nat[s](_ => 0);
    StartOfZeros(colWeights[..], s);
    RowStart(weight);
    NoRows(rows, s);
    for i := 0 to |rows|
      invariant colWeights[..] == Lengths(ColsUpTo(rows, s, i)) && StartOf(colWeights[..], s) == Row(i, weight)
    {
      RowAt(rows, s, i);
      CountRow(rows, s, i, colWeights);
      RowFits(i, |rows|, weight);
    }
  }

  lemma NoRows(rows: seq<seq<nat>>, s: nat)
    ensures forall c :: 0 <= c < s ==> ColsUpTo(rows, s, 0)[c] == []
  {
  }

  lemma RowAt(rows: seq<seq<nat>>, s: nat, i: nat)
    requires RowsOk(rows, s) && i < |rows|
    ensures RowOk(rows[i], s)
  {
  }

  method CountRow(rows: seq<seq<nat>>, s: nat, i: nat, colWeights: array<nat>)
    requires i < |rows| && RowOk(rows[i], s) && colWeights.Length == s && colWeights[..] == Lengths(ColsUpTo(rows, s, i))
    modifies colWeights
    ensures colWeights[..] == Lengths(ColsUpTo(rows, s, i + 1))
    ensures StartOf(colWeights[..], s) == StartOf(old(colWeights[..]), s) + |rows[i]|
  {
    hide StartOf, ColumnUpTo, ColsAt, ColsUpTo;
    ColsAtEnds(rows, s, i);
    ghost var start := StartOf(colWeights[..], s);
    for j := 0 to |rows[i]|
      invariant colWeights[..] == Lengths(ColsAt(rows, s, i, j)) && StartOf(colWeights[..], s) == start + j
    {
      var c := rows[i][j];
      ColsAtNext(rows, s, i, j);
      StartAfter(colWeights[..], c, s);
      colWeights[c] := colWeights[c] + 1;
    }
  }

  /** A span per column over the backing array. */
  class Columns {
    const mColBacking: array<nat>
    const starts: array<nat>
    const sizes: array<nat>

    constructor (sparseSize: nat, totalWeight: nat)
      ensures fresh(mColBacking) && fresh(starts) && fresh(sizes)
      ensures mColBacking.Length == totalWeight && starts.Length == sizes.Length == sparseSize
      ensures starts != sizes && starts != mColBacking && sizes != mColBacking
    {
      mColBacking, starts, sizes := new nat[totalWeight], new nat[sparseSize], new nat[sparseSize];
    }

    ghost predicate Separate() {
      starts.Length == sizes.Length && starts != sizes && starts != mColBacking && sizes != mColBacking
    }

    /** The rows a span lists. */
    ghost function Col(c: nat): seq<nat>
      requires c < starts.Length == sizes.Length && starts[c] + sizes[c] <= mColBacking.Length
      reads mColBacking, starts, sizes
    {
      mColBacking[starts[c]..starts[c] + sizes[c]]
    }

    ghost predicate Lists(w: seq<nat>, cols: seq<seq<nat>>)
      reads mColBacking, starts, sizes
    {
      && |w| == starts.Length && |cols| == |w|
      && (forall c :: 0 <= c < |w| ==> starts[c] == StartOf(w, c))
      && sizes[..] == Lengths(cols) && Holds(mColBacking[..], w, cols)
    }

    /** Counts the column weights and lists each column's rows. */
    method SetInput(rows: seq<seq<nat>>, weight: nat) returns (colWeights: array<nat>, ok: bool)
      requires Separate() && RowsOk(rows, starts.Length) && forall r :: 0 <= r < |rows| ==> |rows[r]| == weight
      modifies mColBacking, starts, sizes
      ensures fresh(colWeights) && colWeights[..] == ColumnWeights(rows, starts.Length)
      ensures ok <==> mColBacking.Length == weight * |rows|
      ensures ok ==> forall c :: 0 <= c < starts.Length ==> starts[c] + sizes[c] <= mColBacking.Length && Col(c) == Column(rows, c)
    {
      hide StartOf, ColumnUpTo, RowsOk, Holds;
      colWeights := CountWeights(rows, starts.Length, weight);
      RowIsProduct(|rows|, weight);
      ok := RebuildColumns(rows, colWeights[..], weight * |rows|);
    }

    /** Lays out the spans, then appends every row to its columns. It refuses
        when the weights do not add up to the backing array. */
    method RebuildColumns(rows: seq<seq<nat>>, colWeights: seq<nat>, totalWeight: nat) returns (ok: bool)
      requires Separate() && RowsOk(rows, starts.Length) && colWeights == ColumnWeights(rows, starts.Length)
      modifies mColBacking, starts, sizes
      ensures ok <==> mColBacking.Length == totalWeight == StartOf(colWeights, |colWeights|)
      ensures ok ==> forall c :: 0 <= c < starts.Length ==> starts[c] + sizes[c] <= mColBacking.Length && Col(c) == Column(rows, c)
    {
      hide ColumnUpTo, RowsOk, Holds, Lists, StartOf;
      ok := false;
      if mColBacking.Length != totalWeight {
        return;
      }
      var colIter := LaySpans(rows, colWeights);
      if colIter != mColBacking.Length {
        return;
      }
      ok := true;
      FillColumns(rows, colWeights);
      ColsOf(colWeights, rows);
    }

    /** Empty spans, one after the other. */
    method LaySpans(ghost rows: seq<seq<nat>>, colWeights: seq<nat>) returns (colIter: nat)
      requires Separate() && |colWeights| == starts.Length
      modifies starts, sizes
      ensures colIter == StartOf(colWeights, |colWeights|)
      ensures colIter == mColBacking.Length ==> Lists(colWeights, ColsUpTo(rows, |colWeights|, 0))
    {
      hide ColsUpTo, Holds;
      colIter := 0;
      for i := 0 to starts.Length
        invariant colIter == StartOf(colWeights, i)
        invariant forall c :: 0 <= c < i ==> starts[c] == StartOf(colWeights, c) && sizes[c] == 0
      {
        starts[i], sizes[i] := colIter, 0;
        colIter := colIter + colWeights[i];
      }
      if colIter == mColBacking.Length {
        EmptyLists(mColBacking[..], rows, colWeights);
        assert sizes[..] == Lengths(ColsUpTo(rows, |colWeights|, 0));
      }
    }

    lemma EmptyLists(backing: seq<nat>, rows: seq<seq<nat>>, w: seq<nat>)
      requires StartOf(w, |w|) == |backing|
      ensures Holds(backing, w, ColsUpTo(rows, |w|, 0)) && forall c :: 0 <= c < |w| ==> ColsUpTo(rows, |w|, 0)[c] == []
    {
      forall c | 0 <= c < |w|
        ensures StartOf(w, c) <= |backing|
      {
        StartsApart(w, c, |w|);
      }
    }

    lemma ColsOf(w: seq<nat>, rows: seq<seq<nat>>)
      requires Lists(w, ColsUpTo(rows, |w|, |rows|))
      ensures forall c :: 0 <= c < starts.Length ==> starts[c] + sizes[c] <= mColBacking.Length && Col(c) == Column(rows, c)
    {
      forall c | 0 <= c < starts.Length
        ensures starts[c] + sizes[c] <= mColBacking.Length && Col(c) == Column(rows, c)
      {
        assert HoldsAt(mColBacking[..], w, ColsUpTo(rows, |w|, |rows|), c);
      }
    }

    method FillColumns(rows: seq<seq<nat>>, ghost w: seq<nat>)
      requires Separate() && RowsOk(rows, starts.Length) && w == ColumnWeights(rows, starts.Length)
      requires Lists(w, ColsUpTo(rows, |w|, 0))
      modifies mColBacking, sizes
      ensures Lists(w, ColsUpTo(rows, |w|, |rows|))
    {
      hide Lists, RowsOk, ColsUpTo, ColsAt;
      for i := 0 to |rows|
        invariant Lists(w, ColsUpTo(rows, |w|, i))
      {
        RowAt(rows, |w|, i);
        ColsAtEnds(rows, |w|, i);
        if |rows[i]| == 3 {
          ThreeFit(rows, w, i);
          PushThree(rows[i][0], rows[i][1], rows[i][2], i, w, ColsAt(rows, |w|, i, 0));
        } else {
          PushRow(rows, i, w);
        }
      }
    }

    method PushRow(rows: seq<seq<nat>>, i: nat, ghost w: seq<nat>)
      requires Separate() && i < |rows| && RowOk(rows[i], |w|) && w == ColumnWeights(rows, starts.Length)
      requires Lists(w, ColsAt(rows, |w|, i, 0))
      modifies mColBacking, sizes
      ensures Lists(w, ColsAt(rows, |w|, i, |rows[i]|))
    {
      hide Lists, ColsAt, Column;
      for j := 0 to |rows[i]|
        invariant Lists(w, ColsAt(rows, |w|, i, j))
      {
        ColsAtNext(rows, |w|, i, j);
        RoomLeft(rows, |w|, i, j);
        Push(rows[i][j], i, w, ColsAt(rows, |w|, i, j));
      }
    }

    method Push(c: nat, r: nat, ghost w: seq<nat>, ghost cols: seq<seq<nat>>)
      requires Separate() && Lists(w, cols) && c < |w| && |cols[c]| < w[c]
      modifies mColBacking, sizes
      ensures Lists(w, cols[c := cols[c] + [r]])
    {
      hide Holds, StartOf;
      HoldsPush(mColBacking[..], w, cols, c, r);
      var s := sizes[c];
      sizes[c] := s + 1;
      mColBacking[starts[c] + s] := r;
      assert sizes[..] == Lengths(cols[c := cols[c] + [r]]);
    }

    lemma ThreeFit(rows: seq<seq<nat>>, w: seq<nat>, i: nat)
      requires i < |rows| && RowOk(rows[i], |w|) && |rows[i]| == 3 && w == ColumnWeights(rows, |w|)
      ensures var c0, c1, c2, cols := rows[i][0], rows[i][1], rows[i][2], ColsAt(rows, |w|, i, 0);
        && c0 != c1 && c0 != c2 && c1 != c2
        && |cols[c0]| < w[c0] && |cols[c1]| < w[c1] && |cols[c2]| < w[c2]
        && ColsAt(rows, |w|, i, 3) == cols[c0 := cols[c0] + [i]][c1 := cols[c1] + [i]][c2 := cols[c2] + [i]]
    {
      hide ColsAt, Column;
      ColsAtNext(rows, |w|, i, 0);
      ColsAtNext(rows, |w|, i, 1);
      ColsAtNext(rows, |w|, i, 2);
      RoomLeft(rows, |w|, i, 0);
      RoomLeft(rows, |w|, i, 1);
      RoomLeft(rows, |w|, i, 2);
    }

    /** Appends the row to its three columns, all sizes read and stored first. */
    method PushThree(c0: nat, c1: nat, c2: nat, r: nat, ghost w: seq<nat>, ghost cols: seq<seq<nat>>)
      requires Separate() && Lists(w, cols) && c0 < |w| && c1 < |w| && c2 < |w| && c0 != c1 && c0 != c2 && c1 != c2
      requires |cols[c0]| < w[c0] && |cols[c1]| < w[c1] && |cols[c2]| < w[c2]
      modifies mColBacking, sizes
      ensures Lists(w, cols[c0 := cols[c0] + [r]][c1 := cols[c1] + [r]][c2 := cols[c2] + [r]])
    {
      hide Holds, StartOf;
      ghost var b := mColBacking[..];
      HoldsPush(b, w, cols, c0, r);
      ghost var one := cols[c0 := cols[c0] + [r]];
      HoldsPush(b[Slot(w, cols, c0) := r], w, one, c1, r);
      ghost var two := one[c1 := cols[c1] + [r]];
      HoldsPush(b[Slot(w, cols, c0) := r][Slot(w, cols, c1) := r], w, two, c2, r);
      var s0, s1, s2 := sizes[c0], sizes[c1], sizes[c2];
      sizes[c0] := s0 + 1;
      sizes[c1] := s1 + 1;
      sizes[c2] := s2 + 1;
      mColBacking[starts[c0] + s0] := r;
      mColBacking[starts[c1] + s1] := r;
      mColBacking[starts[c2] + s2] := r;
      assert sizes[..] == Lengths(two[c2 := cols[c2] + [r]]);
    }
  }
}
