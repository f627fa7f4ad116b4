/** A row of the banded system, as a value: what `insert` keeps true of the rows. */
module BandRows {
  import opened Fields
  import opened Equations
  import opened Words

  datatype Row<T> = Row(startPos: nat, words: seq<Word>, val: T)

  /** The coefficients of a band over n columns. */
  function Coef(n: nat, startPos: nat, words: seq<Word>): (r: seq<bool>)
    ensures |r| == n
    ensures forall c :: 0 <= c < n ==> r[c] == (startPos <= c && BitAt(words, c - startPos))
  {
    seq(n, c => startPos <= c && BitAt(words, c - startPos))
  }

  lemma CoefOfWord(n: nat, startPos: nat, words: seq<Word>, q: nat)
    requires q < |words| && startPos + 64 * q + 64 <= n
    ensures forall b :: 0 <= b < 64 ==> Coef(n, startPos, words)[startPos + 64 * q + b] == words[q][b]
  {
    forall b | 0 <= b < 64
      ensures Coef(n, startPos, words)[startPos + 64 * q + b] == words[q][b]
    {
      BitOfWord(words, q, b);
      assert startPos + 64 * q + b - startPos == 64 * q + b;
    }
  }

  function RowEquation<T>(n: nat, r: Row<T>): (e: Equation<T>)
    ensures |e.coef| == n
  {
    Equation(Coef(n, r.startPos, r.words), r.val)
  }

  /** No set bit of the band lies behind the band width w or the last column. */
  ghost predicate Fits<T>(n: nat, w: nat, r: Row<T>) {
    forall i: nat :: BitAt(r.words, i) ==> i < w && r.startPos + i < n
  }

  ghost predicate IsEmpty<T>(r: Row<T>) {
    forall i: nat :: !BitAt(r.words, i)
  }

  function XorWords(a: seq<Word>, b: seq<Word>): (r: seq<Word>)
    requires |a| == |b|
    ensures |r| == |a|
    ensures forall q :: 0 <= q < |a| ==> r[q] == Xor(a[q], b[q])
  {
    seq(|a|, q requires 0 <= q < |a| => Xor(a[q], b[q]))
  }

  function AddRows<T(!new)>(f: Field<T>, a: Row<T>, b: Row<T>): Row<T>
    requires |a.words| == |b.words|
  {
    Row(a.startPos, XorWords(a.words, b.words), f.Add(a.val, b.val))
  }

  /** Moving the band to the front and its start position by as much leaves the
      equation as it was. */
  lemma ShiftKeepsEquation<T>(n: nat, w: nat, r: Row<T>, r': Row<T>, z: nat)
    requires Fits(n, w, r) && Shifted(r.words, r'.words, z)
    requires r'.startPos == r.startPos + z && r'.val == r.val
    requires forall k: nat :: k < z ==> !BitAt(r.words, k)
    ensures RowEquation(n, r') == RowEquation(n, r) && Fits(n, w, r')
  {
    forall c | 0 <= c < n
      ensures Coef(n, r.startPos, r.words)[c] == Coef(n, r'.startPos, r'.words)[c]
    {
      if r'.startPos <= c {
        assert BitAt(r'.words, c - r'.startPos) == BitAt(r.words, c - r'.startPos + z);
      }
    }
    assert Coef(n, r.startPos, r.words) == Coef(n, r'.startPos, r'.words);
    forall i: nat | BitAt(r'.words, i)
      ensures i < w && r'.startPos + i < n
    {
      assert BitAt(r.words, i + z);
    }
  }

  lemma AddRowsAddsEquations<T(!new)>(n: nat, w: nat, f: Field<T>, a: Row<T>, b: Row<T>)
    requires |a.words| == |b.words| && a.startPos == b.startPos
    requires Fits(n, w, a) && Fits(n, w, b)
    ensures RowEquation(n, AddRows(f, a, b)) == AddEquations(f, RowEquation(n, a), RowEquation(n, b))
    ensures Fits(n, w, AddRows(f, a, b))
    ensures BitAt(a.words, 0) && BitAt(b.words, 0) ==> !BitAt(AddRows(f, a, b).words, 0)
  {
    var s := AddRows(f, a, b);
    forall i: nat
      ensures BitAt(s.words, i) == (BitAt(a.words, i) != BitAt(b.words, i))
    {
    }
    assert RowEquation(n, s).coef == XorBits(RowEquation(n, a).coef, RowEquation(n, b).coef);
  }

  /** Echelon form of the first k rows: every row is empty or the one row stored
      for its leading column. */
  ghost predicate Echelon<T(!new)>(f: Field<T>, n: nat, none: nat, map_: seq<nat>, rows: seq<Row<T>>, k: nat)
    requires k <= |rows|
  {
    && |map_| == n
    && (forall c :: 0 <= c < n ==> map_[c] == none || (map_[c] < k && rows[map_[c]].startPos == c && BitAt(rows[map_[c]].words, 0)))
    && (forall r :: 0 <= r < k ==> Stored(f, n, map_, rows, r))
  }

  ghost predicate Stored<T(!new)>(f: Field<T>, n: nat, map_: seq<nat>, rows: seq<Row<T>>, r: nat)
    requires r < |rows| && |map_| == n
  {
    if IsEmpty(rows[r]) then rows[r].val == f.zero else rows[r].startPos < n && map_[rows[r].startPos] == r
  }

  /** A further row keeps echelon form if it is empty, or if it is stored for a
      column no other row has. */
  lemma ExtendEchelon<T(!new)>(f: Field<T>, n: nat, none: nat, map_: seq<nat>, rows: seq<Row<T>>, k: nat, row: Row<T>, map': seq<nat>)
    requires k < |rows| && k < none && Echelon(f, n, none, map_, rows, k)
    requires if IsEmpty(row) then row.val == f.zero && map' == map_
             else row.startPos < n && BitAt(row.words, 0) && map_[row.startPos] == none && map' == map_[row.startPos := k]
    ensures Echelon(f, n, none, map', rows[k := row], k + 1)
  {
    var rows' := rows[k := row];
    forall r | 0 <= r < k + 1
      ensures Stored(f, n, map', rows', r)
    {
      if r < k {
        assert Stored(f, n, map_, rows, r);
      }
    }
  }

  /** p satisfies the first k rows. */
  ghost predicate SolvesFirst<T(!new)>(f: Field<T>, rows: seq<Row<T>>, k: nat, p: seq<T>)
    requires k <= |rows|
  {
    forall r :: 0 <= r < k ==> Holds(f, RowEquation(|p|, rows[r]), p)
  }

  /** What `insert` may do to a row: become any row that, next to the earlier
      rows, says the same about every codeword. */
  ghost predicate SameNextTo<T(!new)>(f: Field<T>, n: nat, rows: seq<Row<T>>, k: nat, a: Row<T>, b: Row<T>)
    requires k <= |rows|
  {
    forall p: seq<T> :: |p| == n && SolvesFirst(f, rows, k, p) ==>
      (Holds(f, RowEquation(n, a), p) <==> Holds(f, RowEquation(n, b), p))
  }

  lemma AddStoredRow<T(!new)>(f: Field<T>, n: nat, w: nat, rows: seq<Row<T>>, k: nat, a: Row<T>, r: nat)
    requires f.XorGroup() && r < k <= |rows| && |a.words| == |rows[r].words| && a.startPos == rows[r].startPos
    requires Fits(n, w, a) && Fits(n, w, rows[r])
    ensures SameNextTo(f, n, rows, k, a, AddRows(f, a, rows[r]))
  {
    AddRowsAddsEquations(n, w, f, a, rows[r]);
    forall p: seq<T> | |p| == n && SolvesFirst(f, rows, k, p)
      ensures Holds(f, RowEquation(n, a), p) <==> Holds(f, RowEquation(n, AddRows(f, a, rows[r])), p)
    {
      RowOperation(f, RowEquation(n, a), RowEquation(n, rows[r]), p);
    }
  }

  lemma EmptyRow<T(!new)>(f: Field<T>, n: nat, r: Row<T>, p: seq<T>)
    requires f.Group() && IsEmpty(r) && |p| == n
    ensures Holds(f, RowEquation(n, r), p) <==> r.val == f.zero
  {
    EmptyEquation(f, RowEquation(n, r), p);
  }
}
