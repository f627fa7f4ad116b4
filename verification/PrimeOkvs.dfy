/** The banded store over a prime field: rows sorted by start position, eliminated
    downward and substituted back in place. */
module PrimeOkvs {
  import opened Fields
  import opened Matrices

  /** A row as a value: start position, band and value. */
  datatype Band<T> = Band(start: nat, coef: seq<T>, val: T)
  {
    ghost predicate Fits(n: nat, w: nat) { |coef| == w && start + w <= n }
  }

  class MatrixRow<T> {
    var startPosition: nat
    var piv: nat
    const data: array<T>
    var val: T

    constructor (start: nat, band: seq<T>, val: T)
      ensures fresh(data) && Value() == Band(start, band, val) && piv == 0
    {
      startPosition, piv, this.val := start, 0, val;
      data := new T[|band|](i requires 0 <= i < |band| => band[i]);
      new;
      assert data[..] == band;
    }

    function Value(): Band<T>
      reads this, data
    {
      Band(startPosition, data[..], val)
    }
  }

  /** The row over all n columns. */
  function Wide<T(!new)>(f: Field<T>, n: nat, r: Band<T>): (s: seq<T>)
    ensures |s| == n
    ensures forall c :: 0 <= c < n ==> s[c] == if r.start <= c < r.start + |r.coef| then r.coef[c - r.start] else f.zero
  {
    seq(n, c requires 0 <= c < n => if r.start <= c < r.start + |r.coef| then r.coef[c - r.start] else f.zero)
  }

  ghost predicate Holds<T(!new)>(f: Field<T>, r: Band<T>, x: seq<T>) {
    Dot(f, Wide(f, |x|, r), x) == r.val
  }

  /** The row multiplied by a scalar. */
  ghost predicate ScaledBy<T(!new)>(f: Field<T>, n: nat, r: Band<T>, r': Band<T>, c: T) {
    r'.start == r.start && |r'.coef| == |r.coef| && Wide(f, n, r') == Scaled(f, Wide(f, n, r), c) && r'.val == f.Mul(r.val, c)
  }

  /** The row with a multiple of another added. */
  ghost predicate CombinedWith<T(!new)>(f: Field<T>, n: nat, r: Band<T>, s: Band<T>, c: T, r': Band<T>) {
    r'.start == r.start && |r'.coef| == |r.coef| && Wide(f, n, r') == Combined(f, Wide(f, n, r), Wide(f, n, s), c) && r'.val == f.Add(r.val, f.Mul(s.val, c))
  }

  /** Scaling by a non-zero scalar and adding a row that holds change no solution. */
  lemma ScaledHolds<T(!new)>(f: Field<T>, r: Band<T>, r': Band<T>, c: T, x: seq<T>)
    requires f.Domain() && c != f.zero && ScaledBy(f, |x|, r, r', c)
    ensures Holds(f, r', x) <==> Holds(f, r, x)
  {
    var d := Dot(f, Wide(f, |x|, r), x);
    DotScaled(f, Wide(f, |x|, r), c, x);
    f.MComm(r.val, c);
    if f.Mul(c, d) == f.Mul(c, r.val) {
      f.MulCancel(c, d, r.val);
    }
  }

  lemma CombinedHolds<T(!new)>(f: Field<T>, r: Band<T>, s: Band<T>, c: T, r': Band<T>, x: seq<T>)
    requires f.Domain() && CombinedWith(f, |x|, r, s, c, r') && Holds(f, s, x)
    ensures Holds(f, r', x) <==> Holds(f, r, x)
  {
    var d, e := Dot(f, Wide(f, |x|, r), x), f.Mul(c, s.val);
    DotCombined(f, Wide(f, |x|, r), Wide(f, |x|, s), c, x);
    f.MComm(s.val, c);
    f.Comm(d, e);
    f.Comm(r.val, e);
    if f.Add(e, d) == f.Add(e, r.val) {
      f.CancelLeft(e, d, r.val);
    }
  }

  /** Column c is the first of the row, and its coefficient is one. */
  ghost predicate LedBy<T(!new)>(f: Field<T>, r: Band<T>, c: nat) {
    && r.start <= c < r.start + |r.coef| && r.coef[c - r.start] == f.one
    && forall k :: 0 <= k < c - r.start ==> r.coef[k] == f.zero
  }

  ghost predicate ZeroAt<T(!new)>(f: Field<T>, r: Band<T>, c: nat) {
    r.start <= c < r.start + |r.coef| ==> r.coef[c - r.start] == f.zero
  }

  /** A row combined with one that is zero in a column keeps its zero there. */
  lemma CombinedZero<T(!new)>(f: Field<T>, n: nat, r: Band<T>, s: Band<T>, m: T, r': Band<T>, c: nat)
    requires f.Domain() && c < n && CombinedWith(f, n, r, s, m, r') && ZeroAt(f, r, c) && ZeroAt(f, s, c)
    ensures ZeroAt(f, r', c)
  {
    f.MulZero(m);
    f.Zero(f.zero);
    assert Wide(f, n, r')[c] == f.Add(Wide(f, n, r)[c], f.Mul(Wide(f, n, s)[c], m));
  }

  /** a - b * m == a + b * (-m) */
  lemma SubIsCombine<T(!new)>(f: Field<T>, a: T, b: T, m: T)
    requires f.Domain()
    ensures f.Sub(a, f.Mul(b, m)) == f.Add(a, f.Mul(b, f.Neg(m)))
    ensures m == f.one ==> f.Sub(a, b) == f.Add(a, f.Mul(b, f.Neg(m)))
    ensures m == f.zero ==> a == f.Add(a, f.Mul(b, f.Neg(m)))
  {
    f.Distrib(b, m, f.Neg(m));
    f.Inverse(m);
    f.MulZero(b);
    f.Inverse(f.Mul(b, m));
    f.CancelLeft(f.Mul(b, m), f.Neg(f.Mul(b, m)), f.Mul(b, f.Neg(m)));
    f.One(b);
    if m == f.zero {
      f.Zero(f.Neg(f.zero));
      f.Zero(a);
    }
  }

  /** The first non-zero coefficient of the band, or its width. */
  method FindPivot<T(==,!new)>(f: Field<T>, row: MatrixRow<T>) returns (i: nat)
    ensures i <= row.data.Length && forall k :: 0 <= k < i ==> row.data[k] == f.zero
    ensures i < row.data.Length ==> row.data[i] != f.zero
  {
    i := 0;
    while i < row.data.Length && row.data[i] == f.zero
      invariant i <= row.data.Length && forall k :: 0 <= k < i ==> row.data[k] == f.zero
    {
      i := i + 1;
    }
  }

  ghost predicate Inverts<T(!new)>(f: Field<T>, inverse: T -> T) {
    forall x :: x != f.zero ==> InvertsAt(f, inverse, x)
  }

  ghost predicate InvertsAt<T(!new)>(f: Field<T>, inverse: T -> T, x: T) {
    f.Mul(inverse(x), x) == f.one
  }

  /** Divides the row by its leading coefficient. */
  method Normalize<T(==,!new)>(f: Field<T>, inverse: T -> T, row: MatrixRow<T>, i: nat, ghost n: nat) returns (ghost c: T)
    requires f.Domain() && Inverts(f, inverse) && i < row.data.Length && row.data[i] != f.zero
    requires forall k :: 0 <= k < i ==> row.data[k] == f.zero
    modifies row`val, row.data
    ensures c != f.zero && ScaledBy(f, n, old(row.Value()), row.Value(), c)
    ensures LedBy(f, row.Value(), row.startPosition + i)
  {
    hide Field.Domain, Inverts;
    ghost var before := row.Value();
    c := f.one;
    OneIsNotZero(f);
    if row.data[i] != f.one {
      var inv := inverse(row.data[i]);
      InverseOf(f, inverse, row.data[i]);
      c := inv;
      row.data[i] := f.one;
      for j := i + 1 to row.data.Length
        invariant row.data[i] == f.one
        invariant forall k :: 0 <= k < i ==> row.data[k] == f.zero
        invariant forall k :: i < k < j ==> row.data[k] == f.Mul(before.coef[k], inv)
        invariant forall k :: j <= k < row.data.Length ==> row.data[k] == before.coef[k]
        modifies row.data
      {
        row.data[j] := f.Mul(row.data[j], inv);
      }
      row.val := f.Mul(row.val, inv);
    }
    ScaledRow(f, n, before, row.Value(), c, i);
  }

  lemma OneIsNotZero<T(!new)>(f: Field<T>)
    requires f.Domain()
    ensures f.one != f.zero
  {
  }

  lemma InverseOf<T(!new)>(f: Field<T>, inverse: T -> T, x: T)
    requires f.Domain() && Inverts(f, inverse) && x != f.zero
    ensures f.Mul(x, inverse(x)) == f.one && inverse(x) != f.zero
  {
    assert InvertsAt(f, inverse, x);
    f.MComm(inverse(x), x);
    f.MulZero(x);
  }

  lemma ScaledRow<T(!new)>(f: Field<T>, n: nat, r: Band<T>, r': Band<T>, c: T, i: nat)
    requires f.Domain() && r'.start == r.start && |r'.coef| == |r.coef| && i < |r.coef|
    requires forall k :: 0 <= k < i ==> r.coef[k] == r'.coef[k] == f.zero
    requires (c == f.one && r' == r)
      || (r'.val == f.Mul(r.val, c) && f.Mul(r.coef[i], c) == f.one && forall k :: i < k < |r.coef| ==> r'.coef[k] == f.Mul(r.coef[k], c))
    requires r'.coef[i] == f.one
    ensures ScaledBy(f, n, r, r', c)
  {
    f.MulZero(c);
    if c == f.one && r' == r {
      f.One(r.val);
      forall k | 0 <= k < n
        ensures Wide(f, n, r')[k] == Scaled(f, Wide(f, n, r), c)[k]
      {
        f.One(Wide(f, n, r)[k]);
      }
    } else {
      forall k | 0 <= k < n
        ensures Wide(f, n, r')[k] == Scaled(f, Wide(f, n, r), c)[k]
      {
      }
    }
  }

  /** Subtracts a multiple of a row led by column piv from a row that starts at or
      behind it, so that the latter is zero there. */
  method SubtractRow<T(==,!new)>(f: Field<T>, some: MatrixRow<T>, other: MatrixRow<T>, i: nat, ghost n: nat) returns (ghost c: T)
    requires f.Domain() && some != other && some.data != other.data && some.data.Length == other.data.Length && i < some.data.Length
    requires some.startPosition <= other.startPosition <= some.startPosition + i && LedBy(f, some.Value(), some.startPosition + i)
    requires other.startPosition + other.data.Length <= n
    modifies other`val, other`piv, other.data
    ensures CombinedWith(f, n, old(other.Value()), some.Value(), c, other.Value())
    ensures ZeroAt(f, other.Value(), some.startPosition + i) && other.piv <= i && other.piv < n
  {
    hide Field.Domain, CombinedWith;
    ghost var before := other.Value();
    var at := some.startPosition + i - other.startPosition;
    other.piv := at;
    var multiplier := other.data[at];
    c := f.Neg(multiplier);
    if multiplier != f.zero {
      for k := i + 1 to some.data.Length
        invariant forall x :: 0 <= x <= at ==> other.data[x] == before.coef[x]
        invariant forall x :: at < x < at + k - i ==> other.data[x] == SubtractAt(f, before.coef[x], some.data[x - at + i], multiplier)
        invariant forall x :: at + k - i <= x < other.data.Length ==> other.data[x] == before.coef[x]
        modifies other.data
      {
        if multiplier != f.one {
          other.data[at + k - i] := f.Sub(other.data[at + k - i], f.Mul(some.data[k], multiplier));
        } else {
          other.data[at + k - i] := f.Sub(other.data[at + k - i], some.data[k]);
        }
      }
      if multiplier != f.one {
        other.val := f.Sub(other.val, f.Mul(some.val, multiplier));
      } else {
        other.val := f.Sub(other.val, some.val);
      }
    }
    other.data[at] := f.zero;
    SubtractedRow(f, n, before, some.Value(), other.Value(), multiplier, i, at);
  }

  function SubtractAt<T(==,!new)>(f: Field<T>, a: T, b: T, m: T): T {
    if m == f.zero then a else if m != f.one then f.Sub(a, f.Mul(b, m)) else f.Sub(a, b)
  }

  lemma SubtractedRow<T(!new)>(f: Field<T>, n: nat, r: Band<T>, s: Band<T>, r': Band<T>, m: T, i: nat, at: nat)
    requires f.Domain() && |r.coef| == |s.coef| == |r'.coef| && i < |s.coef| && r'.start == r.start && at < |r.coef|
    requires s.start <= r.start && r.start + at == s.start + i && r.start + |r.coef| <= n && LedBy(f, s, s.start + i) && m == r.coef[at]
    requires r'.coef[at] == f.zero && forall x :: 0 <= x < at ==> r'.coef[x] == r.coef[x]
    requires forall x :: at < x < |r.coef| - (i - at) ==> r'.coef[x] == SubtractAt(f, r.coef[x], s.coef[x - at + i], m)
    requires forall x :: |r.coef| - (i - at) <= x < |r.coef| ==> r'.coef[x] == r.coef[x]
    requires r'.val == SubtractAt(f, r.val, s.val, m)
    ensures CombinedWith(f, n, r, s, f.Neg(m), r')
  {
    hide Field.Domain;
    SubIsCombine(f, r.val, s.val, m);
    forall k | 0 <= k < n
      ensures Wide(f, n, r')[k] == Combined(f, Wide(f, n, r), Wide(f, n, s), f.Neg(m))[k]
    {
      var a, b := Wide(f, n, r)[k], Wide(f, n, s)[k];
      SubIsCombine(f, a, b, m);
      Cancelled(f, a, m);
    }
  }

  lemma Cancelled<T(!new)>(f: Field<T>, a: T, m: T)
    requires f.Domain()
    ensures f.Add(a, f.Mul(f.zero, f.Neg(m))) == a && f.Add(m, f.Mul(f.one, f.Neg(m))) == f.zero
  {
    f.MulZero(f.Neg(m));
    f.Zero(a);
    f.One(f.Neg(m));
    f.Inverse(m);
  }

  /** What one elimination step may do to a row: nothing, or add a multiple of s. */
  ghost predicate Stepped<T(!new)>(f: Field<T>, n: nat, r: Band<T>, s: Band<T>, r': Band<T>) {
    r' == r || exists c :: CombinedWith(f, n, r, s, c, r')
  }

  lemma SteppedShape<T(!new)>(f: Field<T>, n: nat, r: Band<T>, s: Band<T>, r': Band<T>)
    requires Stepped(f, n, r, s, r')
    ensures r'.start == r.start && |r'.coef| == |r.coef|
  {
  }

  lemma SteppedZero<T(!new)>(f: Field<T>, n: nat, r: Band<T>, s: Band<T>, r': Band<T>, c: nat)
    requires f.Domain() && c < n && Stepped(f, n, r, s, r') && ZeroAt(f, r, c) && ZeroAt(f, s, c)
    ensures ZeroAt(f, r', c)
  {
    hide Field.Domain, CombinedWith, ZeroAt;
    if r' != r {
      var m :| CombinedWith(f, n, r, s, m, r');
      CombinedZero(f, n, r, s, m, r', c);
    }
  }

  lemma SteppedHolds<T(!new)>(f: Field<T>, r: Band<T>, s: Band<T>, r': Band<T>, x: seq<T>)
    requires f.Domain() && Stepped(f, |x|, r, s, r') && Holds(f, s, x)
    ensures Holds(f, r', x) <==> Holds(f, r, x)
  {
    hide Field.Domain, CombinedWith, Holds;
    if r' != r {
      var m :| CombinedWith(f, |x|, r, s, m, r');
      CombinedHolds(f, r, s, m, r', x);
    }
  }

  /** The rows are separate objects and hold the values vs, in order of their start. */
  ghost predicate Separate<T>(rows: seq<MatrixRow<T>>) {
    forall i, j :: 0 <= i < j < |rows| ==> rows[i] != rows[j] && rows[i].data != rows[j].data
  }

  ghost predicate Hold<T>(rows: seq<MatrixRow<T>>, vs: seq<Band<T>>)
    reads rows, set r | r in rows :: r.data
  {
    |vs| == |rows| && forall i :: 0 <= i < |rows| ==> rows[i].Value() == vs[i]
  }

  ghost predicate Sorted<T>(vs: seq<Band<T>>, n: nat, w: nat) {
    && (forall i :: 0 <= i < |vs| ==> vs[i].Fits(n, w))
    && forall i, j :: 0 <= i < j < |vs| ==> vs[i].start <= vs[j].start
  }

  ghost predicate Empty<T(!new)>(f: Field<T>, r: Band<T>) {
    forall k :: 0 <= k < |r.coef| ==> r.coef[k] == f.zero
  }

  /** The rows that were looked at: their pivot fields, and which found a pivot. */
  datatype Pivots = Pivots(fields: seq<nat>, led: seq<bool>)
  {
    ghost predicate Sized(m: nat) { |fields| == |led| <= m }

    /** All of them found a pivot. */
    ghost predicate Full() { forall r :: 0 <= r < |led| ==> led[r] }

    /** The fields of rows without a pivot are offsets into a band. */
    ghost predicate Offsets(w: nat) {
      |fields| == |led| && forall r :: 0 <= r < |led| && !led[r] ==> fields[r] < w
    }

    /** Columns that are in no field are what they were. */
    ghost predicate Keeps<T>(before: seq<T>, now: seq<T>) {
      |now| <= |before| && forall c :: 0 <= c < |now| && c !in fields ==> now[c] == before[c]
    }

    function Plus(c: nat, found: bool): Pivots { Pivots(fields + [c], led + [found]) }
  }

  /** Every row that was looked at is led by its pivot, where all later rows are
      zero, or has no coefficient left. */
  ghost predicate Echelon<T(!new)>(f: Field<T>, vs: seq<Band<T>>, pv: Pivots) {
    pv.Sized(|vs|) && forall r :: 0 <= r < |pv.led| ==> PivotAt(f, vs, pv, r)
  }

  ghost predicate PivotAt<T(!new)>(f: Field<T>, vs: seq<Band<T>>, pv: Pivots, r: nat)
    requires pv.Sized(|vs|) && r < |pv.led|
  {
    if pv.led[r] then LedBy(f, vs[r], pv.fields[r]) && Unseen(f, vs, r, pv.fields[r])
    else Empty(f, vs[r])
  }

  /** The rows behind r are zero in column c. */
  ghost predicate Unseen<T(!new)>(f: Field<T>, vs: seq<Band<T>>, r: nat, c: nat) {
    forall q :: r < q < |vs| ==> ZeroAt(f, vs[q], c)
  }

  ghost predicate AllHold<T(!new)>(f: Field<T>, vs: seq<Band<T>>, x: seq<T>) {
    forall i :: 0 <= i < |vs| ==> Holds(f, vs[i], x)
  }

  /** What the whole elimination below a row does. */
  ghost predicate Eliminated<T(!new)>(f: Field<T>, n: nat, vs: seq<Band<T>>, vs': seq<Band<T>>, row: nat, piv: nat)
    requires row < |vs| == |vs'|
  {
    && (forall k :: 0 <= k <= row ==> vs'[k] == vs[k])
    && forall j :: row < j < |vs| ==> Stepped(f, n, vs[j], vs[row], vs'[j]) && ZeroAt(f, vs'[j], piv)
  }

  /** Every pivot field is a column, whatever it was set for. */
  ghost predicate PivsBelow<T>(rows: seq<MatrixRow<T>>, n: nat)
    reads rows
  {
    forall r :: r in rows ==> r.piv < n
  }

  /** The pivot fields of the rows looked at; those of rows without a pivot and of
      later rows are offsets into the band. */
  ghost predicate Pivs<T>(rows: seq<MatrixRow<T>>, pv: Pivots, w: nat)
    reads rows
  {
    && pv.Sized(|rows|)
    && (forall r :: 0 <= r < |pv.led| ==> rows[r].piv == pv.fields[r] && (pv.led[r] || pv.fields[r] < w))
    && forall r :: |pv.led| <= r < |rows| ==> rows[r].piv < w
  }

  /** Subtracts the row from one later row. */
  method EliminateOne<T(==,!new)>(f: Field<T>, rows: seq<MatrixRow<T>>, row: nat, j: nat, i: nat, n: nat, w: nat, ghost vs: seq<Band<T>>, ghost pv: Pivots)
    returns (ghost r: Band<T>)
    requires f.Domain() && Separate(rows) && Hold(rows, vs) && Sorted(vs, n, w) && row < j < |rows| && i < w
    requires LedBy(f, vs[row], vs[row].start + i) && vs[j].start <= vs[row].start + i && Pivs(rows, pv, w) && |pv.led| <= row + 1
    requires PivsBelow(rows, n)
    modifies rows[j], rows[j].data
    ensures Hold(rows, vs[j := r]) && Stepped(f, n, vs[j], vs[row], r) && ZeroAt(f, r, vs[row].start + i)
    ensures Pivs(rows, pv, w) && PivsBelow(rows, n)
  {
    hide Field.Domain, LedBy, ZeroAt, CombinedWith;
    ghost var c := SubtractRow(f, rows[row], rows[j], i, n);
    r := rows[j].Value();
  }

  /** Subtracts the row from all later ones that reach its pivot column. */
  method EliminateBelow<T(==,!new)>(f: Field<T>, rows: seq<MatrixRow<T>>, row: nat, i: nat, n: nat, w: nat, ghost vs: seq<Band<T>>, ghost pv: Pivots)
    returns (ghost vs': seq<Band<T>>)
    requires f.Domain() && Separate(rows) && Hold(rows, vs) && Sorted(vs, n, w) && row < |rows| && i < w
    requires LedBy(f, vs[row], vs[row].start + i) && Pivs(rows, pv, w) && |pv.led| <= row + 1 && PivsBelow(rows, n)
    modifies rows, set r | r in rows :: r.data
    ensures |vs'| == |vs| && Hold(rows, vs') && Eliminated(f, n, vs, vs', row, vs[row].start + i) && Sorted(vs', n, w)
    ensures Pivs(rows, pv, w) && PivsBelow(rows, n)
  {
    hide Field.Domain, LedBy, ZeroAt, Stepped, Hold, Sorted, Separate, Pivs, PivsBelow;
    var first := StartOf(rows, row, vs);
    var piv := first + i;
    vs' := vs;
    var j := row + 1;
    while j < |rows|
      invariant row < j <= |rows| && |vs'| == |vs| && Hold(rows, vs') && Sorted(vs', n, w) && Pivs(rows, pv, w) && PivsBelow(rows, n)
      invariant forall k :: 0 <= k <= row || j <= k < |vs| ==> vs'[k] == vs[k]
      invariant forall k :: row < k < j ==> Stepped(f, n, vs[k], vs[row], vs'[k]) && ZeroAt(f, vs'[k], piv)
    {
      var start := StartOf(rows, j, vs');
      if start > piv {
        break;
      }
      ghost var r := EliminateOne(f, rows, row, j, i, n, w, vs', pv);
      SortedStays(f, vs', j, vs'[row], r, n, w);
      vs' := vs'[j := r];
      j := j + 1;
    }
    if j < |vs| {
      BehindAreZero(f, vs, j, piv, n, w, vs[row]);
    }
  }

  method StartOf<T>(rows: seq<MatrixRow<T>>, j: nat, ghost vs: seq<Band<T>>) returns (start: nat)
    requires Hold(rows, vs) && j < |rows|
    ensures |vs| == |rows| && start == vs[j].start
  {
    assert rows[j].Value() == vs[j];
    start := rows[j].startPosition;
  }

  lemma SortedStays<T(!new)>(f: Field<T>, vs: seq<Band<T>>, j: nat, s: Band<T>, r: Band<T>, n: nat, w: nat)
    requires Sorted(vs, n, w) && j < |vs| && Stepped(f, n, vs[j], s, r)
    ensures Sorted(vs[j := r], n, w)
  {
    SteppedShape(f, n, vs[j], s, r);
  }

  /** Rows from the j-th on start behind the column, so they are zero there. */
  lemma BehindAreZero<T(!new)>(f: Field<T>, vs: seq<Band<T>>, j: nat, piv: nat, n: nat, w: nat, s: Band<T>)
    requires Sorted(vs, n, w) && j < |vs| && vs[j].start > piv
    ensures forall k :: j <= k < |vs| ==> Stepped(f, n, vs[k], s, vs[k]) && ZeroAt(f, vs[k], piv)
  {
    forall k | j <= k < |vs|
      ensures Stepped(f, n, vs[k], s, vs[k]) && ZeroAt(f, vs[k], piv)
    {
      assert vs[j].start <= vs[k].start;
    }
  }

  /** The rows have the same solutions. */
  ghost predicate SameSolutions<T(!new)>(f: Field<T>, n: nat, after: seq<Band<T>>, before: seq<Band<T>>) {
    forall x: seq<T> :: |x| == n ==> (AllHold(f, after, x) <==> AllHold(f, before, x))
  }

  lemma ScaledZero<T(!new)>(f: Field<T>, n: nat, r: Band<T>, r': Band<T>, m: T, c: nat)
    requires f.Domain() && c < n && ScaledBy(f, n, r, r', m) && ZeroAt(f, r, c)
    ensures ZeroAt(f, r', c)
  {
    f.MulZero(m);
    assert Wide(f, n, r')[c] == f.Mul(Wide(f, n, r)[c], m);
  }

  /** One more pivot: normalizing a row and eliminating below it. */
  lemma OneMorePivot<T(!new)>(f: Field<T>, n: nat, w: nat, vs: seq<Band<T>>, pv: Pivots, r: Band<T>, m: T, vs': seq<Band<T>>, piv: nat)
    requires f.Domain() && |pv.led| < |vs| == |vs'| && Sorted(vs, n, w) && Echelon(f, vs, pv)
    requires ScaledBy(f, n, vs[|pv.led|], r, m) && LedBy(f, r, piv) && Eliminated(f, n, vs[|pv.led| := r], vs', |pv.led|, piv)
    ensures Echelon(f, vs', pv.Plus(piv, true))
  {
    hide Field.Domain, ScaledBy, Stepped, ZeroAt, LedBy, Empty;
    var row := |pv.led|;
    forall k | 0 <= k < row + 1
      ensures PivotAt(f, vs', pv.Plus(piv, true), k)
    {
      if k < row {
        assert PivotAt(f, vs, pv, k);
        if pv.led[k] {
          var c := pv.fields[k];
          PivotInRange(f, vs[k], c, n, w);
          ScaledZero(f, n, vs[row], r, m, c);
          forall q | k < q < |vs|
            ensures ZeroAt(f, vs'[q], c)
          {
            if q > row {
              SteppedZero(f, n, vs[q], r, vs'[q], c);
            }
          }
        }
      }
    }
  }

  /** A row without a coefficient is passed over. */
  lemma OneLess<T(!new)>(f: Field<T>, vs: seq<Band<T>>, pv: Pivots, c: nat)
    requires |pv.led| < |vs| && Echelon(f, vs, pv) && Empty(f, vs[|pv.led|])
    ensures Echelon(f, vs, pv.Plus(c, false))
  {
    hide Empty, LedBy, Unseen;
    forall k | 0 <= k < |pv.led| + 1
      ensures PivotAt(f, vs, pv.Plus(c, false), k)
    {
      assert k < |pv.led| ==> PivotAt(f, vs, pv, k);
    }
  }

  lemma PivotInRange<T(!new)>(f: Field<T>, r: Band<T>, c: nat, n: nat, w: nat)
    requires LedBy(f, r, c) && r.Fits(n, w)
    ensures c < n
  {
  }

  lemma StepSolutions<T(!new)>(f: Field<T>, n: nat, vs: seq<Band<T>>, row: nat, r: Band<T>, m: T, vs': seq<Band<T>>, piv: nat)
    requires f.Domain() && row < |vs| == |vs'| && m != f.zero && ScaledBy(f, n, vs[row], r, m) && Eliminated(f, n, vs[row := r], vs', row, piv)
    ensures SameSolutions(f, n, vs', vs)
  {
    hide Field.Domain, ScaledBy, Stepped, ZeroAt, Holds;
    forall x: seq<T> | |x| == n
      ensures AllHold(f, vs', x) <==> AllHold(f, vs, x)
    {
      ScaledHolds(f, vs[row], r, m, x);
      forall k | 0 <= k < |vs| && Holds(f, r, x)
        ensures Holds(f, vs'[k], x) <==> Holds(f, vs[k], x)
      {
        if k > row {
          SteppedHolds(f, vs[k], r, vs'[k], x);
        }
      }
      assert vs'[row] == r;
    }
  }

  /** The left side of the row vanishes at x. */
  ghost predicate Null<T(!new)>(f: Field<T>, r: Band<T>, x: seq<T>) {
    Dot(f, Wide(f, |x|, r), x) == f.zero
  }

  ghost predicate NullBefore<T(!new)>(f: Field<T>, vs: seq<Band<T>>, k: nat, x: seq<T>)
    requires k <= |vs|
  {
    forall q :: 0 <= q < k ==> Null(f, vs[q], x)
  }

  /** The row's left side vanishes wherever those of the rows before it do. */
  ghost predicate Determined<T(!new)>(f: Field<T>, n: nat, vs: seq<Band<T>>, r: nat)
    requires r < |vs|
  {
    forall x: seq<T> :: |x| == n && NullBefore(f, vs, r, x) ==> Null(f, vs[r], x)
  }

  /** The left sides of the rows are linearly independent. */
  ghost predicate Independent<T(!new)>(f: Field<T>, n: nat, vs: seq<Band<T>>) {
    forall r :: 0 <= r < |vs| ==> !Determined(f, n, vs, r)
  }

  ghost predicate SameNulls<T(!new)>(f: Field<T>, n: nat, a: seq<Band<T>>, b: seq<Band<T>>) {
    && |a| == |b|
    && forall x: seq<T>, k :: |x| == n && 0 <= k <= |a| ==> (NullBefore(f, a, k, x) <==> NullBefore(f, b, k, x))
  }

  lemma NullNext<T(!new)>(f: Field<T>, vs: seq<Band<T>>, k: nat, x: seq<T>)
    requires k < |vs|
    ensures NullBefore(f, vs, k + 1, x) <==> NullBefore(f, vs, k, x) && Null(f, vs[k], x)
  {
    hide Null;
    assert NullBefore(f, vs, k + 1, x) ==> Null(f, vs[k], x);
  }

  lemma SameDetermined<T(!new)>(f: Field<T>, n: nat, a: seq<Band<T>>, b: seq<Band<T>>, r: nat)
    requires SameNulls(f, n, a, b) && r < |a|
    ensures Determined(f, n, a, r) <==> Determined(f, n, b, r)
  {
    hide Null, NullBefore;
    forall x: seq<T> | |x| == n
      ensures NullBefore(f, a, r, x) && !Null(f, a[r], x) <==> NullBefore(f, b, r, x) && !Null(f, b[r], x)
    {
      NullNext(f, a, r, x);
      NullNext(f, b, r, x);
      assert NullBefore(f, a, r, x) <==> NullBefore(f, b, r, x);
      assert NullBefore(f, a, r + 1, x) <==> NullBefore(f, b, r + 1, x);
    }
  }

  lemma SameIndependent<T(!new)>(f: Field<T>, n: nat, a: seq<Band<T>>, b: seq<Band<T>>)
    requires SameNulls(f, n, a, b)
    ensures Independent(f, n, a) <==> Independent(f, n, b)
  {
    hide SameNulls, Determined;
    SameNullsSize(f, n, a, b);
    forall r | 0 <= r < |a|
      ensures Determined(f, n, a, r) <==> Determined(f, n, b, r)
    {
      SameDetermined(f, n, a, b, r);
    }
  }

  lemma SameNullsSize<T(!new)>(f: Field<T>, n: nat, a: seq<Band<T>>, b: seq<Band<T>>)
    requires SameNulls(f, n, a, b)
    ensures |a| == |b|
  {
  }

  lemma SameNullsTrans<T(!new)>(f: Field<T>, n: nat, a: seq<Band<T>>, b: seq<Band<T>>, c: seq<Band<T>>)
    requires SameNulls(f, n, a, b) && SameNulls(f, n, b, c)
    ensures SameNulls(f, n, a, c)
  {
    hide NullBefore;
  }

  lemma SameNullsRefl<T(!new)>(f: Field<T>, n: nat, a: seq<Band<T>>)
    ensures SameNulls(f, n, a, a)
  {
  }

  /** Scaling by a non-zero scalar and adding a multiple of a vanishing row. */
  lemma ScaledNull<T(!new)>(f: Field<T>, r: Band<T>, r': Band<T>, c: T, x: seq<T>)
    requires f.Domain() && c != f.zero && ScaledBy(f, |x|, r, r', c)
    ensures Null(f, r', x) <==> Null(f, r, x)
  {
    DotScaled(f, Wide(f, |x|, r), c, x);
    f.MulZero(c);
    assert f.NoZeroDivisorAt(c, Dot(f, Wide(f, |x|, r), x));
  }

  lemma SteppedNull<T(!new)>(f: Field<T>, r: Band<T>, s: Band<T>, r': Band<T>, x: seq<T>)
    requires f.Domain() && Stepped(f, |x|, r, s, r') && Null(f, s, x)
    ensures Null(f, r', x) <==> Null(f, r, x)
  {
    if r' != r {
      var c :| CombinedWith(f, |x|, r, s, c, r');
      DotCombined(f, Wide(f, |x|, r), Wide(f, |x|, s), c, x);
      f.MulZero(c);
      f.Zero(Dot(f, Wide(f, |x|, r), x));
    }
  }

  lemma StepNulls<T(!new)>(f: Field<T>, n: nat, vs: seq<Band<T>>, row: nat, r: Band<T>, m: T, vs': seq<Band<T>>, piv: nat)
    requires f.Domain() && row < |vs| == |vs'| && m != f.zero && ScaledBy(f, n, vs[row], r, m) && Eliminated(f, n, vs[row := r], vs', row, piv)
    ensures SameNulls(f, n, vs', vs)
  {
    hide Field.Domain, ScaledBy, Stepped, ZeroAt, Null;
    forall x: seq<T>, k | |x| == n && 0 <= k <= |vs|
      ensures NullBefore(f, vs', k, x) <==> NullBefore(f, vs, k, x)
    {
      ScaledNull(f, vs[row], r, m, x);
      forall q | 0 <= q < k && (q > row ==> Null(f, r, x))
        ensures Null(f, vs'[q], x) <==> Null(f, vs[q], x)
      {
        if q > row {
          SteppedNull(f, vs[q], r, vs'[q], x);
        }
      }
      assert k > row ==> (NullBefore(f, vs', k, x) ==> Null(f, vs'[row], x)) && (NullBefore(f, vs, k, x) ==> Null(f, vs[row], x));
    }
  }

  /** A row without coefficients is determined. */
  lemma EmptyRow<T(!new)>(f: Field<T>, n: nat, vs: seq<Band<T>>, r: nat)
    requires f.Domain() && r < |vs| && Empty(f, vs[r])
    ensures Determined(f, n, vs, r)
  {
    forall x: seq<T> | |x| == n
      ensures Null(f, vs[r], x)
    {
      DotOfZeros(f, Wide(f, n, vs[r]), x);
    }
  }

  /** Sets the pivot columns of the rows before q so that their left sides vanish. */
  lemma {:induction false} ClearRows<T(!new)>(f: Field<T>, n: nat, w: nat, vs: seq<Band<T>>, pv: Pivots, r: nat, q: nat, x0: seq<T>) returns (x: seq<T>)
    requires f.Domain() && Sorted(vs, n, w) && Echelon(f, vs, pv) && |pv.led| == |vs| && pv.Full() && q <= r < |vs| && |x0| == n
    requires forall k :: q <= k < r ==> Null(f, vs[k], x0)
    ensures |x| == n && NullBefore(f, vs, r, x) && (Null(f, vs[r], x) <==> Null(f, vs[r], x0))
    decreases q
  {
    hide Field.Domain, Sorted, Echelon, Null;
    if q == 0 {
      x := x0;
    } else {
      var x1 := ClearRow(f, n, w, vs, pv, q - 1, x0);
      x := ClearRows(f, n, w, vs, pv, r, q - 1, x1);
    }
  }

  lemma ClearRow<T(!new)>(f: Field<T>, n: nat, w: nat, vs: seq<Band<T>>, pv: Pivots, q: nat, x: seq<T>) returns (y: seq<T>)
    requires f.Domain() && Sorted(vs, n, w) && Echelon(f, vs, pv) && |pv.led| == |vs| && pv.Full() && q < |vs| && |x| == n
    ensures |y| == n && Null(f, vs[q], y)
    ensures forall k :: q < k < |vs| ==> (Null(f, vs[k], y) <==> Null(f, vs[k], x))
  {
    hide Field.Group, Dot;
    assert PivotAt(f, vs, pv, q);
    var c := pv.fields[q];
    PivotInRange(f, vs[q], c, n, w);
    var row := Wide(f, n, vs[q]);
    var rest := Dot(f, row[c := f.zero], x);
    y := x[c := f.Neg(rest)];
    DotIgnores(f, row[c := f.zero], x, c, f.Neg(rest));
    DotSplit(f, row, y, c);
    f.One(f.Neg(rest));
    f.Inverse(rest);
    forall k | q < k < |vs|
      ensures Null(f, vs[k], y) <==> Null(f, vs[k], x)
    {
      assert Wide(f, n, vs[k])[c] == f.zero;
      DotIgnores(f, Wide(f, n, vs[k]), x, c, f.Neg(rest));
    }
  }

  lemma UnitIsSeen<T(!new)>(f: Field<T>, r: Band<T>, n: nat, w: nat, c: nat)
    requires f.Domain() && LedBy(f, r, c) && r.Fits(n, w)
    ensures c < n && !Null(f, r, UnitRow(f, n, c))
  {
    hide Dot;
    var row, unit := Wide(f, n, r), UnitRow(f, n, c);
    DotSplit(f, row, unit, c);
    DotOfZeros(f, row[c := f.zero], unit);
    f.One(f.one);
    f.Zero(f.one);
  }

  /** Rows that all have a pivot are independent. */
  lemma EchelonIndependent<T(!new)>(f: Field<T>, n: nat, w: nat, vs: seq<Band<T>>, pv: Pivots)
    requires f.Domain() && Sorted(vs, n, w) && Echelon(f, vs, pv) && |pv.led| == |vs| && pv.Full()
    ensures Independent(f, n, vs)
  {
    hide Field.Domain, Null, NullBefore, LedBy;
    forall r | 0 <= r < |vs|
      ensures !Determined(f, n, vs, r)
    {
      assert PivotAt(f, vs, pv, r);
      UnitIsSeen(f, vs[r], n, w, pv.fields[r]);
      var x := ClearRows(f, n, w, vs, pv, r, r, UnitRow(f, n, pv.fields[r]));
    }
  }

  /** The rows with other values. */
  ghost function WithVals<T>(vs: seq<Band<T>>, vals: seq<T>): (r: seq<Band<T>>)
    requires |vals| == |vs|
    ensures |r| == |vs| && forall i :: 0 <= i < |vs| ==> r[i] == vs[i].(val := vals[i])
  {
    seq(|vs|, i requires 0 <= i < |vs| => vs[i].(val := vals[i]))
  }

  ghost predicate Solvable<T(!new)>(f: Field<T>, n: nat, vs: seq<Band<T>>) {
    exists x: seq<T> :: |x| == n && AllHold(f, vs, x)
  }

  /** The rows are independent exactly if they can be solved for all values. */
  lemma IndependentIsSolvable<T(!new)>(f: Field<T>, inverse: T -> T, n: nat, vs: seq<Band<T>>)
    requires f.Domain() && Inverts(f, inverse)
    ensures Independent(f, n, vs) <==> forall vals: seq<T> :: |vals| == |vs| ==> Solvable(f, n, WithVals(vs, vals))
  {
    hide Field.Domain, Inverts, Determined, AllHold;
    if Independent(f, n, vs) {
      forall vals: seq<T> | |vals| == |vs|
        ensures Solvable(f, n, WithVals(vs, vals))
      {
        var x := SolveRows(f, inverse, n, vs, vals, |vs|);
        AllRowsHold(f, vs, vals, x);
      }
    } else {
      var r :| 0 <= r < |vs| && Determined(f, n, vs, r);
      DeterminedUnsolvable(f, n, vs, r);
    }
  }

  lemma AllRowsHold<T(!new)>(f: Field<T>, vs: seq<Band<T>>, vals: seq<T>, x: seq<T>)
    requires |vals| == |vs|
    requires forall q :: 0 <= q < |vs| ==> Dot(f, Wide(f, |x|, vs[q]), x) == vals[q]
    ensures AllHold(f, WithVals(vs, vals), x)
  {
    hide Dot;
    forall q | 0 <= q < |vs|
      ensures Holds(f, WithVals(vs, vals)[q], x)
    {
      assert Wide(f, |x|, WithVals(vs, vals)[q]) == Wide(f, |x|, vs[q]);
    }
  }

  /** One at a determined row and zero elsewhere cannot be solved. */
  lemma DeterminedUnsolvable<T(!new)>(f: Field<T>, n: nat, vs: seq<Band<T>>, r: nat)
    requires f.Domain() && r < |vs| && Determined(f, n, vs, r)
    ensures !Solvable(f, n, WithVals(vs, UnitRow(f, |vs|, r)))
  {
    hide AllHold, Dot, NullBefore, Field.Group;
    var us := WithVals(vs, UnitRow(f, |vs|, r));
    forall x: seq<T> | |x| == n
      ensures !AllHold(f, us, x)
    {
      if AllHold(f, us, x) {
        OneAtRow(f, vs, r, x);
      }
    }
  }

  lemma OneAtRow<T(!new)>(f: Field<T>, vs: seq<Band<T>>, r: nat, x: seq<T>)
    requires r < |vs| && AllHold(f, WithVals(vs, UnitRow(f, |vs|, r)), x)
    ensures NullBefore(f, vs, r, x) && Dot(f, Wide(f, |x|, vs[r]), x) == f.one
  {
    hide Dot;
    var us := WithVals(vs, UnitRow(f, |vs|, r));
    forall q | 0 <= q <= r
      ensures Dot(f, Wide(f, |x|, vs[q]), x) == us[q].val
    {
      assert Holds(f, us[q], x) && Wide(f, |x|, us[q]) == Wide(f, |x|, vs[q]);
    }
  }

  /** Solves independent rows one after the other: each has a vector that only it
      and later rows see. */
  lemma {:induction false} SolveRows<T(!new)>(f: Field<T>, inverse: T -> T, n: nat, vs: seq<Band<T>>, vals: seq<T>, r: nat) returns (x: seq<T>)
    requires f.Domain() && Inverts(f, inverse) && Independent(f, n, vs) && |vals| == |vs| && r <= |vs|
    ensures |x| == n && forall q :: 0 <= q < r ==> Dot(f, Wide(f, n, vs[q]), x) == vals[q]
  {
    hide Field.Domain, Inverts, Dot;
    if r == 0 {
      x := seq(n, _ => f.zero);
    } else {
      var y := SolveRows(f, inverse, n, vs, vals, r - 1);
      assert !Determined(f, n, vs, r - 1);
      var z: seq<T> :| |z| == n && NullBefore(f, vs, r - 1, z) && !Null(f, vs[r - 1], z);
      var row := Wide(f, n, vs[r - 1]);
      var d := Dot(f, row, z);
      var c := f.Mul(f.Sub(vals[r - 1], Dot(f, row, y)), inverse(d));
      x := Combined(f, y, z, c);
      Reaches(f, inverse, Dot(f, row, y), d, vals[r - 1]);
      DotOfCombined(f, row, y, z, c);
      forall q | 0 <= q < r - 1
        ensures Dot(f, Wide(f, n, vs[q]), x) == vals[q]
      {
        assert Null(f, vs[q], z);
        DotOfCombined(f, Wide(f, n, vs[q]), y, z, c);
        NothingAdded(f, vals[q], c);
      }
    }
  }

  lemma NothingAdded<T(!new)>(f: Field<T>, a: T, c: T)
    requires f.Domain()
    ensures f.Add(a, f.Mul(c, f.zero)) == a
  {
    f.MulZero(c);
    f.Zero(a);
  }

  /** a + (v - a) / d * d == v */
  lemma Reaches<T(!new)>(f: Field<T>, inverse: T -> T, a: T, d: T, v: T)
    requires f.Domain() && Inverts(f, inverse) && d != f.zero
    ensures f.Add(a, f.Mul(f.Mul(f.Sub(v, a), inverse(d)), d)) == v
  {
    hide Field.Group;
    f.MAssoc(f.Sub(v, a), inverse(d), d);
    assert InvertsAt(f, inverse, d);
    f.One(f.Sub(v, a));
    f.Comm(v, f.Neg(a));
    f.Assoc(a, f.Neg(a), v);
    f.Inverse(a);
    f.Zero(v);
  }

  lemma {:induction false} DotSymmetric<T(!new)>(f: Field<T>, a: seq<T>, b: seq<T>)
    requires f.Domain() && |a| == |b|
    ensures Dot(f, a, b) == Dot(f, b, a)
  {
    if |a| > 0 {
      DotSymmetric(f, a[..|a| - 1], b[..|b| - 1]);
      f.MComm(a[|a| - 1], b[|b| - 1]);
    }
  }

  lemma DotOfCombined<T(!new)>(f: Field<T>, row: seq<T>, y: seq<T>, z: seq<T>, c: T)
    requires f.Domain() && |row| == |y| == |z|
    ensures Dot(f, row, Combined(f, y, z, c)) == f.Add(Dot(f, row, y), f.Mul(c, Dot(f, row, z)))
  {
    hide Dot, Field.Domain;
    DotSymmetric(f, row, Combined(f, y, z, c));
    DotSymmetric(f, row, y);
    DotSymmetric(f, row, z);
    DotCombined(f, y, z, c, row);
  }

  /** Makes the row's first coefficient its pivot and divides by it. */
  method LeadRow<T(==,!new)>(f: Field<T>, inverse: T -> T, rows: seq<MatrixRow<T>>, row: nat, i: nat, n: nat, w: nat, ghost vs: seq<Band<T>>, ghost pv: Pivots)
    returns (ghost r: Band<T>, ghost c: T)
    requires f.Domain() && Inverts(f, inverse) && Separate(rows) && Hold(rows, vs) && Sorted(vs, n, w) && row < |rows|
    requires i < rows[row].data.Length && rows[row].data[i] != f.zero && forall k :: 0 <= k < i ==> rows[row].data[k] == f.zero
    requires Pivs(rows, pv, w) && |pv.led| == row && PivsBelow(rows, n)
    modifies rows[row], rows[row].data
    ensures Hold(rows, vs[row := r]) && Sorted(vs[row := r], n, w) && i < w && r.start == vs[row].start
    ensures c != f.zero && ScaledBy(f, n, vs[row], r, c) && LedBy(f, r, r.start + i)
    ensures Pivs(rows, pv.Plus(r.start + i, true), w) && PivsBelow(rows, n)
  {
    hide Field.Domain, Inverts, LedBy;
    var some := rows[row];
    some.piv := some.startPosition + i;
    c := Normalize(f, inverse, some, i, n);
    r := some.Value();
  }

  /** One round of the elimination; a row without any coefficient left is skipped,
      and keeps what its pivot field holds. */
  method PivotRow<T(==,!new)>(f: Field<T>, inverse: T -> T, rows: seq<MatrixRow<T>>, row: nat, n: nat, w: nat, ghost vs: seq<Band<T>>, ghost pv: Pivots)
    returns (found: bool, ghost vs': seq<Band<T>>, ghost pv': Pivots)
    requires f.Domain() && Inverts(f, inverse) && Separate(rows) && Hold(rows, vs) && Sorted(vs, n, w) && row < |rows|
    requires Echelon(f, vs, pv) && Pivs(rows, pv, w) && |pv.led| == row && PivsBelow(rows, n)
    modifies rows, set r | r in rows :: r.data
    ensures |vs'| == |vs| && Hold(rows, vs') && Sorted(vs', n, w) && SameSolutions(f, n, vs', vs)
    ensures Echelon(f, vs', pv') && Pivs(rows, pv', w) && PivsBelow(rows, n)
    ensures pv'.led == pv.led + [found] && |pv'.fields| == row + 1
    ensures SameNulls(f, n, vs', vs) && (!found ==> row < |vs| && Determined(f, n, vs, row))
  {
    hide Field.Domain, Inverts, ScaledBy, Eliminated, Stepped, Hold, Sorted, Separate, Pivs, PivsBelow, LedBy, AllHold, SameNulls, Determined;
    SameSize(rows, vs);
    var i := FindPivot(f, rows[row]);
    found := i < rows[row].data.Length;
    if !found {
      vs' := vs;
      pv' := pv.Plus(rows[row].piv, false);
      PivsPlus(rows, pv, w);
      SameNullsRefl(f, n, vs);
      CoefsOf(rows, row, vs);
      EmptyRow(f, n, vs, row);
      OneLess(f, vs, pv, rows[row].piv);
      return;
    }
    ghost var r, c := LeadRow(f, inverse, rows, row, i, n, w, vs, pv);
    pv' := pv.Plus(r.start + i, true);
    vs' := EliminateBelow(f, rows, row, i, n, w, vs[row := r], pv');
    StepSolutions(f, n, vs, row, r, c, vs', r.start + i);
    StepNulls(f, n, vs, row, r, c, vs', r.start + i);
    OneMorePivot(f, n, w, vs, pv, r, c, vs', r.start + i);
  }

  lemma PivsPlus<T>(rows: seq<MatrixRow<T>>, pv: Pivots, w: nat)
    requires Pivs(rows, pv, w) && |pv.led| < |rows|
    ensures Pivs(rows, pv.Plus(rows[|pv.led|].piv, false), w)
  {
  }

  lemma CoefsOf<T(!new)>(rows: seq<MatrixRow<T>>, row: nat, vs: seq<Band<T>>)
    requires Hold(rows, vs) && row < |rows|
    ensures |vs| == |rows| && vs[row].coef == rows[row].data[..]
  {
    assert rows[row].Value() == vs[row];
  }

  lemma SameSize<T(!new)>(rows: seq<MatrixRow<T>>, vs: seq<Band<T>>)
    requires Hold(rows, vs)
    ensures |vs| == |rows|
  {
  }

  /** The whole elimination. All rows found a pivot exactly if pivots says so. */
  method EliminateAll<T(==,!new)>(f: Field<T>, inverse: T -> T, rows: seq<MatrixRow<T>>, n: nat, w: nat, ghost init: seq<Band<T>>)
    returns (pivots: nat, ghost vs: seq<Band<T>>, ghost pv: Pivots)
    requires f.Domain() && Inverts(f, inverse) && Separate(rows) && Hold(rows, init) && Sorted(init, n, w)
    requires PivsBelow(rows, n) && forall r :: r in rows ==> r.piv < w
    modifies rows, set r | r in rows :: r.data
    ensures pivots <= |rows| && |vs| == |rows| && Hold(rows, vs) && Sorted(vs, n, w) && SameSolutions(f, n, vs, init) && PivsBelow(rows, n)
    ensures Echelon(f, vs, pv) && Pivs(rows, pv, w) && |pv.led| == |rows| && (pivots == |rows| <==> pv.Full())
    ensures pivots == |rows| <==> Independent(f, n, init)
  {
    hide Field.Domain, Inverts, Sorted, Hold, Separate, AllHold, Pivs, PivsBelow, Echelon, SameNulls, Determined;
    pivots, vs, pv := 0, init, Pivots([], []);
    NothingYet(f, rows, init, w);
    SameNullsRefl(f, n, init);
    for row := 0 to |rows|
      invariant |vs| == |rows| && Hold(rows, vs) && Sorted(vs, n, w) && SameSolutions(f, n, vs, init) && PivsBelow(rows, n)
      invariant Echelon(f, vs, pv) && Pivs(rows, pv, w) && pivots <= row
      invariant |pv.led| == row && (pivots == row <==> pv.Full())
      invariant SameNulls(f, n, vs, init) && (pivots < row ==> !Independent(f, n, init))
    {
      ghost var before, were := vs, pv;
      var found;
      found, vs, pv := PivotRow(f, inverse, rows, row, n, w, vs, pv);
      FullPlus(were, found, pv);
      SameNullsTrans(f, n, vs, before, init);
      if found {
        pivots := pivots + 1;
      } else {
        SameNullsSize(f, n, before, init);
        SameDetermined(f, n, before, init, row);
      }
    }
    if pivots == |rows| {
      EchelonIndependent(f, n, w, vs, pv);
      SameIndependent(f, n, vs, init);
    }
  }

  lemma FullPlus(were: Pivots, found: bool, pv: Pivots)
    requires pv.led == were.led + [found]
    ensures pv.Full() <==> were.Full() && found
  {
    assert forall r :: 0 <= r < |were.led| ==> pv.led[r] == were.led[r];
    assert pv.led[|were.led|] == found;
  }

  lemma NothingYet<T(!new)>(f: Field<T>, rows: seq<MatrixRow<T>>, vs: seq<Band<T>>, w: nat)
    requires Hold(rows, vs) && forall r :: r in rows ==> r.piv < w
    ensures |vs| == |rows| && Echelon(f, vs, Pivots([], [])) && Pivs(rows, Pivots([], []), w)
  {
  }

  /** The part of the band before column m. */
  function PartOf<T>(r: Band<T>, m: nat): nat {
    if m <= r.start then 0 else if m - r.start <= |r.coef| then m - r.start else |r.coef|
  }

  lemma {:induction false} WidePart<T(!new)>(f: Field<T>, r: Band<T>, x: seq<T>, m: nat)
    requires f.Domain() && r.start + |r.coef| <= |x| && m <= |x|
    ensures Dot(f, Wide(f, m, r), x[..m]) == Dot(f, r.coef[..PartOf(r, m)], x[r.start..r.start + PartOf(r, m)])
  {
    hide Field.Domain, Dot;
    if m == 0 {
      NoDot(f, Wide(f, 0, r), x[..0], r.coef[..0], x[r.start..r.start]);
    } else {
      var k, k' := PartOf(r, m), PartOf(r, m - 1);
      var row, part, band := Wide(f, m, r), r.coef[..k], x[r.start..r.start + k];
      assert row[..m - 1] == Wide(f, m - 1, r) && x[..m][..m - 1] == x[..m - 1];
      WidePart(f, r, x, m - 1);
      DotLast(f, row, x[..m]);
      if k' < k {
        assert part[..k - 1] == r.coef[..k'] && band[..k - 1] == x[r.start..r.start + k'];
        DotLast(f, part, band);
      }
    }
  }

  lemma NoDot<T(!new)>(f: Field<T>, a: seq<T>, p: seq<T>, b: seq<T>, q: seq<T>)
    requires |a| == |p| == |b| == |q| == 0
    ensures Dot(f, a, p) == Dot(f, b, q)
  {
  }

  lemma DotLast<T(!new)>(f: Field<T>, row: seq<T>, p: seq<T>)
    requires f.Domain() && |row| == |p| > 0
    ensures Dot(f, row, p) == f.Add(Dot(f, row[..|row| - 1], p[..|p| - 1]), f.Mul(row[|row| - 1], p[|p| - 1]))
    ensures row[|row| - 1] == f.zero ==> Dot(f, row, p) == Dot(f, row[..|row| - 1], p[..|p| - 1])
  {
    f.MulZero(p[|p| - 1]);
    f.Zero(Dot(f, row[..|row| - 1], p[..|p| - 1]));
  }

  /** Over all columns or over the band, the inner product is the same. */
  lemma WideDot<T(!new)>(f: Field<T>, r: Band<T>, x: seq<T>)
    requires f.Domain() && r.start + |r.coef| <= |x|
    ensures Dot(f, Wide(f, |x|, r), x) == Dot(f, r.coef, x[r.start..r.start + |r.coef|])
  {
    hide Field.Domain, Dot, Wide;
    WidePart(f, r, x, |x|);
    assert x[..|x|] == x && r.coef[..|r.coef|] == r.coef;
  }

  /** Writes the column of the row's pivot field; if that leads the row, this
      solves it, whatever the column held. */
  method SubstituteRow<T(==,!new)>(f: Field<T>, row: MatrixRow<T>, x: array<T>)
    requires f.Domain() && row.startPosition + row.data.Length <= x.Length && x != row.data && row.piv < x.Length
    modifies row`val, x
    ensures BackStep(f, old(row.Value()), row.piv, old(x[..]), x[..])
  {
    hide Field.Domain, Dot, Holds;
    ghost var before := row.Value();
    ghost var skip := Skip(f, before, row.piv);
    ghost var band := x[row.startPosition..row.startPosition + row.data.Length];
    NoTerms(f, skip, band, row.val);
    for i := 0 to row.data.Length
      invariant x[..] == old(x[..])
      invariant f.Add(row.val, Dot(f, skip[..i], band[..i])) == before.val
      modifies row`val
    {
      OneTerm(f, skip, band, i, row.val);
      if row.data[i] != f.zero && row.piv != row.startPosition + i {
        row.val := f.Sub(row.val, f.Mul(x[row.startPosition + i], row.data[i]));
      }
    }
    assert skip[..row.data.Length] == skip && band[..row.data.Length] == band;
    x[row.piv] := row.val;
  }

  /** One row of the back substitution: column c is set so that it and the row's
      other columns add up to the value, as if its coefficient were one. */
  ghost predicate BackStep<T(!new)>(f: Field<T>, r: Band<T>, c: nat, y: seq<T>, x: seq<T>) {
    && |x| == |y| && c < |y| && r.start + |r.coef| <= |y| && x == y[c := x[c]]
    && f.Add(x[c], Dot(f, Skip(f, r, c), y[r.start..r.start + |r.coef|])) == r.val
  }

  /** The band without its pivot column. */
  ghost function Skip<T(!new)>(f: Field<T>, r: Band<T>, c: nat): (s: seq<T>)
    ensures |s| == |r.coef|
    ensures forall i :: 0 <= i < |s| ==> s[i] == if r.start + i == c then f.zero else r.coef[i]
  {
    seq(|r.coef|, i requires 0 <= i < |r.coef| => if r.start + i == c then f.zero else r.coef[i])
  }

  lemma NoTerms<T(!new)>(f: Field<T>, skip: seq<T>, band: seq<T>, v: T)
    requires f.Domain() && |skip| == |band|
    ensures f.Add(v, Dot(f, skip[..0], band[..0])) == v
  {
    f.Zero(v);
  }

  /** Taking one more product off the value keeps value plus sum. */
  lemma OneTerm<T(!new)>(f: Field<T>, skip: seq<T>, band: seq<T>, i: nat, v: T)
    requires f.Domain() && i < |skip| == |band|
    ensures skip[i] == f.zero ==> Dot(f, skip[..i + 1], band[..i + 1]) == Dot(f, skip[..i], band[..i])
    ensures f.Add(f.Sub(v, f.Mul(band[i], skip[i])), Dot(f, skip[..i + 1], band[..i + 1])) == f.Add(v, Dot(f, skip[..i], band[..i]))
  {
    var d, y := Dot(f, skip[..i], band[..i]), f.Mul(band[i], skip[i]);
    assert skip[..i + 1][..i] == skip[..i] && band[..i + 1][..i] == band[..i];
    f.MComm(band[i], skip[i]);
    f.MulZero(band[i]);
    f.Zero(d);
    f.Shuffle(v, f.Neg(y), d, y);
    f.Inverse(y);
    f.Zero(f.Add(v, d));
  }

  lemma Substituted<T(!new)>(f: Field<T>, r: Band<T>, x: seq<T>, v: T, k: nat)
    requires f.Domain() && r.start + |r.coef| <= |x| && k < |r.coef| && r.coef[k] == f.one
    requires f.Add(v, Dot(f, Skip(f, r, r.start + k), x[r.start..r.start + |r.coef|])) == r.val
    ensures Holds(f, r, x[r.start + k := v])
  {
    hide Field.Group, Dot, Wide;
    var y := x[r.start + k := v];
    var band := x[r.start..r.start + |r.coef|];
    WideDot(f, r, y);
    assert Skip(f, r, r.start + k) == r.coef[k := f.zero];
    assert y[r.start..r.start + |r.coef|] == band[k := v];
    DotSplit(f, r.coef, band[k := v], k);
    DotIgnores(f, r.coef[k := f.zero], band, k, v);
    f.One(v);
    f.Comm(v, Dot(f, r.coef[k := f.zero], band));
  }

  /** The vectors of the back substitution, from the last row to the first. */
  ghost predicate BackChain<T(!new)>(f: Field<T>, vs: seq<Band<T>>, pv: Pivots, xs: seq<seq<T>>)
    requires pv.Sized(|vs|) && |pv.led| == |vs|
  {
    |xs| == |vs| + 1 && forall k :: 0 <= k < |vs| ==> BackStepAt(f, vs, pv, xs, k)
  }

  ghost predicate BackStepAt<T(!new)>(f: Field<T>, vs: seq<Band<T>>, pv: Pivots, xs: seq<seq<T>>, k: nat)
    requires pv.Sized(|vs|) && k < |pv.led| == |vs| && |xs| == |vs| + 1
  {
    BackStep(f, vs[k], pv.fields[k], xs[k + 1], xs[k])
  }

  /** Back substitution, row by row from the last one. */
  method BackSubstitute<T(==,!new)>(f: Field<T>, rows: seq<MatrixRow<T>>, x: array<T>, n: nat, w: nat, ghost vs: seq<Band<T>>, ghost pv: Pivots)
    returns (ghost xs: seq<seq<T>>)
    requires f.Domain() && Separate(rows) && Hold(rows, vs) && Sorted(vs, n, w) && Pivs(rows, pv, w) && |pv.led| == |rows| && PivsBelow(rows, n)
    requires x.Length == n && forall r :: r in rows ==> r.data != x
    modifies rows, x
    ensures |vs| == |rows| && |xs| == |vs| + 1 && BackChain(f, vs, pv, xs) && xs[|vs|] == old(x[..]) && xs[0] == x[..]
  {
    hide Field.Domain, BackStep, Sorted;
    xs := [x[..]];
    for row := |rows| downto 0
      invariant Pivs(rows, pv, w) && PivsBelow(rows, n) && forall k :: 0 <= k < row ==> rows[k].Value() == vs[k]
      invariant |xs| == |rows| - row + 1 && xs[|rows| - row] == old(x[..]) && xs[0] == x[..]
      invariant forall k :: row <= k < |rows| ==> BackStep(f, vs[k], pv.fields[k], xs[k - row + 1], xs[k - row])
    {
      assert rows[row].Value() == vs[row];
      BandFits(vs, row, n, w);
      ghost var was := xs;
      SubstituteRow(f, rows[row], x);
      xs := [x[..]] + xs;
      forall k | row <= k < |rows|
        ensures BackStep(f, vs[k], pv.fields[k], xs[k - row + 1], xs[k - row])
      {
        assert k > row ==> xs[k - row + 1] == was[k - row] && xs[k - row] == was[k - row - 1];
        assert k > row ==> BackStep(f, vs[k], pv.fields[k], was[k - (row + 1) + 1], was[k - (row + 1)]);
      }
    }
  }

  /** The rows without a pivot have no value left. */
  ghost predicate Consistent<T(!new)>(f: Field<T>, vs: seq<Band<T>>, pv: Pivots)
    requires pv.Sized(|vs|)
  {
    forall r :: 0 <= r < |pv.led| && !pv.led[r] ==> vs[r].val == f.zero
  }

  /** Later rows do not see the columns that rows without a pivot write. */
  ghost predicate Harmless<T(!new)>(f: Field<T>, vs: seq<Band<T>>, pv: Pivots)
    requires pv.Sized(|vs|)
  {
    forall r :: 0 <= r < |pv.led| && !pv.led[r] ==> Unseen(f, vs, r, pv.fields[r])
  }

  /** A column that the row's pivot field names is written once, and later rows
      that do not see it stay solved: in the end every row holds. */
  lemma {:induction false} ChainSolves<T(!new)>(f: Field<T>, n: nat, w: nat, vs: seq<Band<T>>, pv: Pivots, xs: seq<seq<T>>, k: nat)
    requires f.Domain() && Sorted(vs, n, w) && Echelon(f, vs, pv) && |pv.led| == |vs| && BackChain(f, vs, pv, xs)
    requires Consistent(f, vs, pv) && Harmless(f, vs, pv) && k <= |vs| && |xs[|vs|]| == n
    ensures |xs[k]| == n && forall q :: k <= q < |vs| ==> Holds(f, vs[q], xs[k])
    decreases |vs| - k
  {
    hide Field.Domain, Holds, LedBy, Sorted, Unseen, Empty, BackStep;
    if k < |vs| {
      ChainSolves(f, n, w, vs, pv, xs, k + 1);
      assert BackStepAt(f, vs, pv, xs, k) && PivotAt(f, vs, pv, k);
      var c := pv.fields[k];
      StepHolds(f, vs[k], c, pv.led[k], xs[k + 1], xs[k]);
      StillHold(f, vs, k, c, xs[k + 1], xs[k]);
    }
  }

  lemma StepHolds<T(!new)>(f: Field<T>, r: Band<T>, c: nat, led: bool, y: seq<T>, x: seq<T>)
    requires f.Domain() && BackStep(f, r, c, y, x) && if led then LedBy(f, r, c) else Empty(f, r) && r.val == f.zero
    ensures |x| == |y| && c < |y| && x == y[c := x[c]] && Holds(f, r, x)
  {
    hide Field.Domain, Dot;
    if led {
      Substituted(f, r, y, x[c], c - r.start);
    } else {
      DotOfZeros(f, Wide(f, |x|, r), x);
    }
  }

  /** Columns that no pivot field names keep what they held. */
  lemma {:induction false} ChainKeeps<T(!new)>(f: Field<T>, vs: seq<Band<T>>, pv: Pivots, xs: seq<seq<T>>, k: nat, c: nat)
    requires pv.Sized(|vs|) && |pv.led| == |vs| && BackChain(f, vs, pv, xs) && k <= |vs| && c !in pv.fields && c < |xs[|vs|]|
    ensures |xs[k]| == |xs[|vs|]| && xs[k][c] == xs[|vs|][c]
    decreases |vs| - k
  {
    if k < |vs| {
      ChainKeeps(f, vs, pv, xs, k + 1, c);
      assert BackStepAt(f, vs, pv, xs, k) && pv.fields[k] in pv.fields;
    }
  }

  /** The reduced rows can be solved exactly if those without a pivot have no value
      left. */
  lemma ConsistentIsSolvable<T(!new)>(f: Field<T>, n: nat, w: nat, vs: seq<Band<T>>, pv: Pivots)
    requires f.Domain() && Sorted(vs, n, w) && Echelon(f, vs, pv) && |pv.led| == |vs|
    ensures Solvable(f, n, vs) <==> Consistent(f, vs, pv)
  {
    hide Field.Domain, Holds, LedBy, Sorted, Unseen, Empty;
    if Consistent(f, vs, pv) {
      var x := FillRows(f, n, w, vs, pv, 0);
    }
    if Solvable(f, n, vs) {
      var x: seq<T> :| |x| == n && AllHold(f, vs, x);
      forall r | 0 <= r < |pv.led| && !pv.led[r]
        ensures vs[r].val == f.zero
      {
        assert PivotAt(f, vs, pv, r) && Holds(f, vs[r], x);
        EmptyHolds(f, vs[r], x);
      }
    }
  }

  lemma EmptyHolds<T(!new)>(f: Field<T>, r: Band<T>, x: seq<T>)
    requires f.Domain() && Empty(f, r)
    ensures Holds(f, r, x) <==> r.val == f.zero
  {
    DotOfZeros(f, Wide(f, |x|, r), x);
  }

  lemma {:induction false} FillRows<T(!new)>(f: Field<T>, n: nat, w: nat, vs: seq<Band<T>>, pv: Pivots, k: nat) returns (x: seq<T>)
    requires f.Domain() && Sorted(vs, n, w) && Echelon(f, vs, pv) && |pv.led| == |vs| && Consistent(f, vs, pv) && k <= |vs|
    ensures |x| == n && forall q :: k <= q < |vs| ==> Holds(f, vs[q], x)
    decreases |vs| - k
  {
    hide Field.Domain, Holds, LedBy, Sorted, Unseen, Empty, Skip;
    if k == |vs| {
      x := seq(n, _ => f.zero);
    } else {
      var y := FillRows(f, n, w, vs, pv, k + 1);
      assert PivotAt(f, vs, pv, k);
      BandFits(vs, k, n, w);
      if pv.led[k] {
        var c := pv.fields[k];
        x := FillColumn(f, vs[k], c, y);
        StillHold(f, vs, k, c, y, x);
      } else {
        x := y;
        EmptyHolds(f, vs[k], x);
      }
    }
  }

  lemma FillColumn<T(!new)>(f: Field<T>, r: Band<T>, c: nat, y: seq<T>) returns (x: seq<T>)
    requires f.Domain() && LedBy(f, r, c) && r.start + |r.coef| <= |y|
    ensures c < |y| == |x| && x == y[c := x[c]] && Holds(f, r, x)
  {
    hide Field.Group, Dot;
    var d := Dot(f, Skip(f, r, c), y[r.start..r.start + |r.coef|]);
    var v := f.Add(r.val, f.Neg(d));
    x := y[c := v];
    f.Assoc(r.val, f.Neg(d), d);
    f.Inverse(d);
    f.Zero(r.val);
    Substituted(f, r, y, v, c - r.start);
  }

  /** A row without a pivot that starts behind the first band writes a column that
      no later row sees. */
  lemma LateIsHarmless<T(!new)>(f: Field<T>, n: nat, w: nat, vs: seq<Band<T>>, pv: Pivots)
    requires pv.Sized(|vs|) && Sorted(vs, n, w) && pv.Offsets(w) && forall r :: 0 <= r < |pv.led| && !pv.led[r] ==> w <= vs[r].start
    ensures Harmless(f, vs, pv)
  {
  }

  lemma BandFits<T(!new)>(vs: seq<Band<T>>, row: nat, n: nat, w: nat)
    requires Sorted(vs, n, w) && row < |vs|
    ensures vs[row].start + |vs[row].coef| <= n
  {
  }

  lemma StillHold<T(!new)>(f: Field<T>, vs: seq<Band<T>>, row: nat, c: nat, y: seq<T>, x: seq<T>)
    requires f.Domain() && row < |vs| && Unseen(f, vs, row, c) && c < |y| == |x| && x == y[c := x[c]]
    requires forall k :: row < k < |vs| ==> Holds(f, vs[k], y)
    ensures forall k :: row < k < |vs| ==> Holds(f, vs[k], x)
  {
    hide Field.Domain, Dot;
    forall k | row < k < |vs|
      ensures Holds(f, vs[k], x)
    {
      assert ZeroAt(f, vs[k], c);
      DotIgnores(f, Wide(f, |y|, vs[k]), y, c, x[c]);
    }
  }

  /** Three keys, the first two equal with equal values, whose reduced rows can be
      solved but are not: the row without a pivot writes zero into the column in
      which the third row was just solved. */
  lemma EqualKeysCanFail<T(!new)>(f: Field<T>, a: T, b: T, xs: seq<seq<T>>)
    requires f.Domain() && b != f.zero && |xs| == 4 && |xs[3]| == 3
    requires var vs := [Band(1, [f.zero, f.one], a), Band(1, [f.zero, f.zero], f.zero), Band(1, [f.one, f.zero], b)];
      BackChain(f, vs, Pivots([2, 1, 1], [true, false, true]), xs)
    ensures var vs := [Band(1, [f.zero, f.one], a), Band(1, [f.zero, f.zero], f.zero), Band(1, [f.one, f.zero], b)];
      var pv := Pivots([2, 1, 1], [true, false, true]);
      Echelon(f, vs, pv) && Consistent(f, vs, pv) && |xs[0]| == 3 && !Holds(f, vs[2], xs[0])
  {
    hide Dot, Field.Group;
    var vs := [Band(1, [f.zero, f.one], a), Band(1, [f.zero, f.zero], f.zero), Band(1, [f.one, f.zero], b)];
    var pv := Pivots([2, 1, 1], [true, false, true]);
    assert PivotAt(f, vs, pv, 0) && PivotAt(f, vs, pv, 1) && PivotAt(f, vs, pv, 2);
    assert BackStepAt(f, vs, pv, xs, 2) && BackStepAt(f, vs, pv, xs, 1) && BackStepAt(f, vs, pv, xs, 0);
    DotOfZeros(f, Skip(f, vs[1], 1), xs[2][1..3]);
    f.Zero(xs[1][1]);
    var x := xs[0];
    assert x[1] == f.zero;
    var row := Wide(f, 3, vs[2]);
    assert row == [f.zero, f.one, f.zero];
    DotSplit(f, row, x, 1);
    DotOfZeros(f, row[1 := f.zero], x);
    f.MulZero(f.one);
    f.Zero(f.zero);
  }

  type Byte = b: seq<bool> | |b| == 8 witness seq(8, _ => false)

  /** The keyed hashes as given functions; bytes most significant bit first. */
  datatype Hash<!K> = Hash(posOf: K -> nat, bytesOf: K -> seq<Byte>)
  {
    ghost predicate InRange(key: K, n: nat, w: nat) {
      posOf(key) + w <= n && |bytesOf(key)| == (w + 7) / 8
    }

    /** The band of a key as a row. */
    function Row<T(!new)>(f: Field<T>, key: K, n: nat, w: nat, val: T): (r: Band<T>)
      requires InRange(key, n, w)
      ensures r.start == posOf(key) && |r.coef| == w && r.val == val && r.Fits(n, w)
    {
      Band(posOf(key), BandOf(f, bytesOf(key), w), val)
    }
  }

  function BandOf<T(!new)>(f: Field<T>, bytes: seq<Byte>, w: nat): (s: seq<T>)
    requires |bytes| == (w + 7) / 8
    ensures |s| == w && forall i :: 0 <= i < w ==> s[i] == if bytes[i / 8][i % 8] then f.one else f.zero
  {
    seq(w, i requires 0 <= i < w => if bytes[i / 8][i % 8] then f.one else f.zero)
  }

  /** The loop over whole bytes, and the bits of the last one. */
  method HashToBand<T(!new)>(f: Field<T>, bytes: seq<Byte>, w: nat) returns (band: seq<T>)
    requires w >= 1 && |bytes| == (w + 7) / 8
    ensures |band| == w && band == BandOf(f, bytes, w)
    ensures forall i :: 0 <= i < w ==> band[i] == if bytes[i / 8][i % 8] then f.one else f.zero
  {
    var output := new T[w](_ => f.zero);
    for i := 0 to |bytes| - 1
      invariant forall k :: 0 <= k < 8 * i ==> output[k] == BandOf(f, bytes, w)[k]
    {
      for b := 0 to 8
        invariant forall k :: 0 <= k < 8 * i + b ==> output[k] == BandOf(f, bytes, w)[k]
      {
        assert (8 * i + b) / 8 == i && (8 * i + b) % 8 == b;
        output[8 * i + b] := if bytes[i][b] then f.one else f.zero;
      }
    }
    var last := |bytes| - 1;
    var rest := if w % 8 == 0 then 8 else w % 8;
    for j := 0 to rest
      invariant forall k :: 0 <= k < 8 * last + j ==> output[k] == BandOf(f, bytes, w)[k]
    {
      assert (8 * last + j) / 8 == last && (8 * last + j) % 8 == j;
      output[8 * last + j] := if bytes[last][j] then f.one else f.zero;
    }
    band := output[..];
  }

  /** Adds up the codeword entries that the first `count` bits of byte i select. */
  method AddByte<T(!new)>(f: Field<T>, bytes: seq<Byte>, w: nat, codeWords: seq<T>, start: nat, i: nat, count: nat, acc: T) returns (result: T)
    requires f.Domain() && |bytes| == (w + 7) / 8 && i < |bytes| && count <= 8 && 8 * i + count <= w && start + w <= |codeWords|
    requires acc == Dot(f, BandOf(f, bytes, w)[..8 * i], codeWords[start..start + w][..8 * i])
    ensures result == Dot(f, BandOf(f, bytes, w)[..8 * i + count], codeWords[start..start + w][..8 * i + count])
  {
    hide Field.Domain, Dot, BandOf;
    ghost var coef, part := BandOf(f, bytes, w), codeWords[start..start + w];
    result := acc;
    for b := 0 to count
      invariant result == Dot(f, coef[..8 * i + b], part[..8 * i + b])
    {
      assert (8 * i + b) / 8 == i && (8 * i + b) % 8 == b;
      SelectOne(f, coef, part, 8 * i + b, bytes[i][b]);
      if bytes[i][b] {
        result := f.Add(result, codeWords[start + 8 * i + b]);
      }
    }
  }

  /** Adds up the codeword entries the band selects. */
  method TestDecode<K, T(!new)>(f: Field<T>, hash: Hash<K>, codeWords: seq<T>, key: K, w: nat) returns (result: T)
    requires f.Domain() && w >= 1 && hash.InRange(key, |codeWords|, w)
    ensures result == Decoded(f, hash, codeWords, key, w)
  {
    hide Field.Domain, Dot, BandOf;
    var start, bytes := hash.posOf(key), hash.bytesOf(key);
    ghost var coef, part := BandOf(f, bytes, w), codeWords[start..start + w];
    result := f.zero;
    NoDot(f, coef[..0], part[..0], [], []);
    EmptyDot(f);
    var last := |bytes| - 1;
    for i := 0 to last
      invariant result == Dot(f, coef[..8 * i], part[..8 * i])
    {
      result := AddByte(f, bytes, w, codeWords, start, i, 8, result);
    }
    result := AddByte(f, bytes, w, codeWords, start, last, if w % 8 == 0 then 8 else w % 8, result);
    assert coef[..w] == coef && part[..w] == part;
    WideDot(f, hash.Row(f, key, |codeWords|, w, f.zero), codeWords);
  }

  /** The inner product of the key's row with the codeword. */
  function Decoded<K, T(!new)>(f: Field<T>, hash: Hash<K>, codeWords: seq<T>, key: K, w: nat): T
    requires hash.InRange(key, |codeWords|, w)
  {
    Dot(f, Wide(f, |codeWords|, hash.Row(f, key, |codeWords|, w, f.zero)), codeWords)
  }

  lemma EmptyDot<T(!new)>(f: Field<T>)
    ensures Dot(f, [], []) == f.zero
  {
  }

  lemma SelectOne<T(!new)>(f: Field<T>, coef: seq<T>, p: seq<T>, i: nat, bit: bool)
    requires f.Domain() && i < |coef| == |p| && coef[i] == if bit then f.one else f.zero
    ensures Dot(f, coef[..i + 1], p[..i + 1]) == if bit then f.Add(Dot(f, coef[..i], p[..i]), p[i]) else Dot(f, coef[..i], p[..i])
  {
    assert coef[..i + 1][..i] == coef[..i] && p[..i + 1][..i] == p[..i];
    DotLast(f, coef[..i + 1], p[..i + 1]);
    f.One(p[i]);
  }

  /** Each index exactly once. */
  ghost predicate Permutation(order: seq<nat>, n: nat) {
    && |order| == n && (forall i :: 0 <= i < n ==> order[i] < n)
    && (forall i, j :: 0 <= i < j < n ==> order[i] != order[j])
    && forall k: nat :: k < n ==> k in order
  }

  /** One row per key. */
  method InitRows<K, T(!new)>(f: Field<T>, hash: Hash<K>, keys: seq<K>, vals: seq<T>, n: nat, w: nat) returns (rows: seq<MatrixRow<T>>)
    requires w >= 1 && |keys| == |vals| && forall k :: 0 <= k < |keys| ==> hash.InRange(keys[k], n, w)
    ensures |rows| == |keys| && fresh(rows) && Separate(rows) && forall r :: r in rows ==> fresh(r.data) && r.piv == 0
    ensures forall k :: 0 <= k < |keys| ==> rows[k].Value() == hash.Row(f, keys[k], n, w, vals[k])
  {
    rows := [];
    for k := 0 to |keys|
      invariant |rows| == k && fresh(rows) && Separate(rows) && forall r :: r in rows ==> fresh(r.data) && r.piv == 0
      invariant forall i :: 0 <= i < k ==> rows[i].Value() == hash.Row(f, keys[i], n, w, vals[i])
    {
      assert hash.InRange(keys[k], n, w);
      var band := HashToBand(f, hash.bytesOf(keys[k]), w);
      var row := new MatrixRow(hash.posOf(keys[k]), band, vals[k]);
      rows := rows + [row];
    }
  }

  /** The rows, in the order sorting by start position puts them in. */
  method SortedRows<K, T(!new)>(f: Field<T>, hash: Hash<K>, keys: seq<K>, vals: seq<T>, order: seq<nat>, n: nat, w: nat) returns (rows: seq<MatrixRow<T>>)
    requires w >= 1 && |keys| == |vals| && forall k :: 0 <= k < |keys| ==> hash.InRange(keys[k], n, w)
    requires Permutation(order, |keys|) && forall i, j :: 0 <= i < j < |keys| ==> hash.posOf(keys[order[i]]) <= hash.posOf(keys[order[j]])
    ensures fresh(rows) && (forall r :: r in rows ==> fresh(r.data)) && Separate(rows) && PivsBelow(rows, n) && forall r :: r in rows ==> r.piv < w
    ensures |rows| == |keys| && Hold(rows, SortedValues(f, hash, keys, vals, order, n, w))
  {
    hide Hash.Row;
    var unsorted := InitRows(f, hash, keys, vals, n, w);
    rows := seq(|keys|, i requires 0 <= i < |keys| => unsorted[order[i]]);
    forall i, j | 0 <= i < j < |rows|
      ensures rows[i] != rows[j] && rows[i].data != rows[j].data
    {
      assert order[i] != order[j];
    }
  }

  /** Encodes. It always reports success. Where no later row sees a column that a
      row without a pivot writes, every key decodes to its value exactly if some
      codeword does that; if every row found a pivot, that is so for all values.
      vs are the reduced rows; order is what sorting by start position yields. */
  method Encode<K, T(==,!new)>(f: Field<T>, inverse: T -> T, hash: Hash<K>, keys: seq<K>, vals: seq<T>, order: seq<nat>, n: nat, w: nat, draws: seq<T>, output: array<T>)
    returns (pivots: nat, ghost vs: seq<Band<T>>, ghost pv: Pivots)
    requires f.Domain() && Inverts(f, inverse) && w >= 1 && |keys| == |vals| && output.Length == n <= |draws|
    requires forall k :: 0 <= k < |keys| ==> hash.InRange(keys[k], n, w)
    requires Permutation(order, |keys|) && forall i, j :: 0 <= i < j < |keys| ==> hash.posOf(keys[order[i]]) <= hash.posOf(keys[order[j]])
    modifies output
    ensures pivots <= |keys| == |vs| == |pv.led| && pv.Sized(|vs|) && Echelon(f, vs, pv) && Sorted(vs, n, w) && pv.Offsets(w)
    ensures pivots == |keys| <==> pv.Full()
    ensures pivots == |keys| ==> forall k :: 0 <= k < |keys| ==> Decoded(f, hash, output[..], keys[k], w) == vals[k]
    ensures pivots == |keys| <==> Independent(f, n, SortedValues(f, hash, keys, vals, order, n, w))
    ensures pivots == |keys| <==> forall vals': seq<T> :: |vals'| == |keys| ==> Codable(f, hash, keys, vals', n, w)
    ensures Codable(f, hash, keys, vals, n, w) <==> Consistent(f, vs, pv)
    ensures Harmless(f, vs, pv) ==>
      ((forall k :: 0 <= k < |keys| ==> Decoded(f, hash, output[..], keys[k], w) == vals[k]) <==> Codable(f, hash, keys, vals, n, w))
    ensures pv.Keeps(draws, output[..])
  {
    hide Field.Domain, Inverts, Permutation, Separate, Sorted, Echelon, Pivs, PivsBelow, AllHold, Hash.Row, Hold, Determined, Codable, Independent;
    hide SameSolutions, Consistent, Harmless, BackChain, Decoded, Separate, Pivots.Full, Pivots.Keeps, Pivots.Offsets;
    forall c | 0 <= c < n {
      output[c] := draws[c];
    }
    var rows := SortedRows(f, hash, keys, vals, order, n, w);
    ghost var init := SortedValues(f, hash, keys, vals, order, n, w);
    pivots, vs, pv := EliminateAll(f, inverse, rows, n, w, init);
    PivsFacts(rows, pv, w);
    EchelonSized(f, vs, pv);
    ghost var xs := BackSubstitute(f, rows, output, n, w, vs, pv);
    AllKept(f, vs, pv, xs, n, draws);
    Outcome(f, hash, keys, vals, order, n, w, vs, pv, xs);
    IndependentIsCodable(f, inverse, hash, keys, vals, order, n, w);
  }

  lemma PivsFacts<T>(rows: seq<MatrixRow<T>>, pv: Pivots, w: nat)
    requires Pivs(rows, pv, w)
    ensures pv.Sized(|rows|) && pv.Offsets(w)
  {
  }

  lemma AllKept<T(!new)>(f: Field<T>, vs: seq<Band<T>>, pv: Pivots, xs: seq<seq<T>>, n: nat, draws: seq<T>)
    requires pv.Sized(|vs|) && |pv.led| == |vs| && BackChain(f, vs, pv, xs) && |xs| == |vs| + 1
    requires |xs[|vs|]| == n <= |draws| && |xs[0]| == n && forall c :: 0 <= c < n ==> xs[|vs|][c] == draws[c]
    ensures pv.Keeps(draws, xs[0])
  {
    hide BackChain;
    forall c | 0 <= c < n && c !in pv.fields
      ensures xs[0][c] == draws[c]
    {
      ChainKeeps(f, vs, pv, xs, 0, c);
    }
  }

  lemma EchelonSized<T(!new)>(f: Field<T>, vs: seq<Band<T>>, pv: Pivots)
    requires Echelon(f, vs, pv)
    ensures pv.Sized(|vs|)
  {
  }

  /** What the last vector of the back substitution decodes. */
  lemma Outcome<K, T(!new)>(f: Field<T>, hash: Hash<K>, keys: seq<K>, vals: seq<T>, order: seq<nat>, n: nat, w: nat, vs: seq<Band<T>>, pv: Pivots, xs: seq<seq<T>>)
    requires f.Domain() && |keys| == |vals| && Permutation(order, |keys|) && forall k :: 0 <= k < |keys| ==> hash.InRange(keys[k], n, w)
    requires forall i, j :: 0 <= i < j < |keys| ==> hash.posOf(keys[order[i]]) <= hash.posOf(keys[order[j]])
    requires SameSolutions(f, n, vs, SortedValues(f, hash, keys, vals, order, n, w)) && Sorted(vs, n, w) && Echelon(f, vs, pv) && |pv.led| == |vs|
    requires BackChain(f, vs, pv, xs) && |xs| == |vs| + 1 && |xs[|vs|]| == n == |xs[0]| && pv.Sized(|vs|)
    ensures Codable(f, hash, keys, vals, n, w) <==> Consistent(f, vs, pv)
    ensures Harmless(f, vs, pv) ==>
      ((forall k :: 0 <= k < |keys| ==> Decoded(f, hash, xs[0], keys[k], w) == vals[k]) <==> Codable(f, hash, keys, vals, n, w))
    ensures pv.Full() ==> forall k :: 0 <= k < |keys| ==> Decoded(f, hash, xs[0], keys[k], w) == vals[k]
  {
    hide Field.Domain, Permutation, Sorted, Echelon, AllHold, Hash.Row, BackChain, Decoded, Unseen, Holds;
    var init := SortedValues(f, hash, keys, vals, order, n, w);
    SolvableIsCodable(f, hash, keys, vals, order, n, w);
    ConsistentIsSolvable(f, n, w, vs, pv);
    SolvedKeys(f, hash, keys, vals, order, init, xs[0], w);
    if Consistent(f, vs, pv) && Harmless(f, vs, pv) {
      ChainSolves(f, n, w, vs, pv, xs, 0);
      RowsHold(f, vs, xs[0]);
    }
  }

  lemma RowsHold<T(!new)>(f: Field<T>, vs: seq<Band<T>>, x: seq<T>)
    requires forall q :: 0 <= q < |vs| ==> Holds(f, vs[q], x)
    ensures AllHold(f, vs, x)
  {
  }

  ghost function SortedValues<K, T(!new)>(f: Field<T>, hash: Hash<K>, keys: seq<K>, vals: seq<T>, order: seq<nat>, n: nat, w: nat): (vs: seq<Band<T>>)
    requires |keys| == |vals| && Permutation(order, |keys|) && forall k :: 0 <= k < |keys| ==> hash.InRange(keys[k], n, w)
    requires forall i, j :: 0 <= i < j < |keys| ==> hash.posOf(keys[order[i]]) <= hash.posOf(keys[order[j]])
    ensures |vs| == |keys| && Sorted(vs, n, w)
    ensures forall i :: 0 <= i < |keys| ==> order[i] < |keys| && hash.InRange(keys[order[i]], n, w) && vs[i] == hash.Row(f, keys[order[i]], n, w, vals[order[i]])
  {
    seq(|keys|, i requires 0 <= i < |keys| => hash.Row(f, keys[order[i]], n, w, vals[order[i]]))
  }

  /** All rows hold, in whatever order, exactly if every key decodes. */
  lemma SolvedKeys<K, T(!new)>(f: Field<T>, hash: Hash<K>, keys: seq<K>, vals: seq<T>, order: seq<nat>, init: seq<Band<T>>, x: seq<T>, w: nat)
    requires |keys| == |vals| == |init| && Permutation(order, |keys|) && forall k :: 0 <= k < |keys| ==> hash.InRange(keys[k], |x|, w)
    requires forall i :: 0 <= i < |keys| ==> order[i] < |keys| && hash.InRange(keys[order[i]], |x|, w) && init[i] == hash.Row(f, keys[order[i]], |x|, w, vals[order[i]])
    ensures AllHold(f, init, x) <==> forall k :: 0 <= k < |keys| ==> Decoded(f, hash, x, keys[k], w) == vals[k]
  {
    hide Dot;
    forall i | 0 <= i < |order|
      ensures Holds(f, init[i], x) <==> Decoded(f, hash, x, keys[order[i]], w) == vals[order[i]]
    {
      var k := order[i];
      assert Wide(f, |x|, init[i]) == Wide(f, |x|, hash.Row(f, keys[k], |x|, w, f.zero));
    }
    if AllHold(f, init, x) {
      forall k | 0 <= k < |keys|
        ensures Decoded(f, hash, x, keys[k], w) == vals[k]
      {
        assert k in order;
        var i :| 0 <= i < |order| && order[i] == k;
        assert Holds(f, init[i], x);
      }
    }
  }

  /** Some codeword decodes every key to its value. */
  ghost predicate Codable<K, T(!new)>(f: Field<T>, hash: Hash<K>, keys: seq<K>, vals: seq<T>, n: nat, w: nat)
    requires |keys| == |vals| && forall k :: 0 <= k < |keys| ==> hash.InRange(keys[k], n, w)
  {
    exists x: seq<T> :: |x| == n && forall k :: 0 <= k < |keys| ==> Decoded(f, hash, x, keys[k], w) == vals[k]
  }

  lemma SolvableIsCodable<K, T(!new)>(f: Field<T>, hash: Hash<K>, keys: seq<K>, vals: seq<T>, order: seq<nat>, n: nat, w: nat)
    requires |keys| == |vals| && Permutation(order, |keys|) && forall k :: 0 <= k < |keys| ==> hash.InRange(keys[k], n, w)
    requires forall i, j :: 0 <= i < j < |keys| ==> hash.posOf(keys[order[i]]) <= hash.posOf(keys[order[j]])
    ensures Solvable(f, n, SortedValues(f, hash, keys, vals, order, n, w)) <==> Codable(f, hash, keys, vals, n, w)
  {
    hide AllHold, Decoded, Permutation, Hash.Row;
    var vs := SortedValues(f, hash, keys, vals, order, n, w);
    forall x: seq<T> | |x| == n
      ensures AllHold(f, vs, x) <==> forall k :: 0 <= k < |keys| ==> Decoded(f, hash, x, keys[k], w) == vals[k]
    {
      SolvedKeys(f, hash, keys, vals, order, vs, x, w);
    }
  }

  /** The values in the order of the sorted rows, and back. */
  lemma SortedWith<K, T(!new)>(f: Field<T>, hash: Hash<K>, keys: seq<K>, vals: seq<T>, vals': seq<T>, order: seq<nat>, n: nat, w: nat)
    requires |keys| == |vals| == |vals'| && Permutation(order, |keys|) && forall k :: 0 <= k < |keys| ==> hash.InRange(keys[k], n, w)
    requires forall i, j :: 0 <= i < j < |keys| ==> hash.posOf(keys[order[i]]) <= hash.posOf(keys[order[j]])
    ensures SortedValues(f, hash, keys, vals', order, n, w)
      == WithVals(SortedValues(f, hash, keys, vals, order, n, w), seq(|keys|, i requires 0 <= i < |keys| => vals'[order[i]]))
  {
  }

  /** Every row finds a pivot exactly if every choice of values for the keys has a
      codeword. */
  lemma IndependentIsCodable<K, T(!new)>(f: Field<T>, inverse: T -> T, hash: Hash<K>, keys: seq<K>, vals: seq<T>, order: seq<nat>, n: nat, w: nat)
    requires f.Domain() && Inverts(f, inverse) && |keys| == |vals| && Permutation(order, |keys|) && forall k :: 0 <= k < |keys| ==> hash.InRange(keys[k], n, w)
    requires forall i, j :: 0 <= i < j < |keys| ==> hash.posOf(keys[order[i]]) <= hash.posOf(keys[order[j]])
    ensures Independent(f, n, SortedValues(f, hash, keys, vals, order, n, w)) <==>
      forall vals': seq<T> :: |vals'| == |keys| ==> Codable(f, hash, keys, vals', n, w)
  {
    hide Field.Domain, Inverts, Independent, Solvable, Codable, Hash.Row;
    var vs := SortedValues(f, hash, keys, vals, order, n, w);
    IndependentIsSolvable(f, inverse, n, vs);
    forall vals': seq<T> | |vals'| == |keys|
      ensures Independent(f, n, vs) ==> Codable(f, hash, keys, vals', n, w)
    {
      SortedWith(f, hash, keys, vals, vals', order, n, w);
      SolvableIsCodable(f, hash, keys, vals', order, n, w);
    }
    forall us: seq<T> | |us| == |vs| && forall vals': seq<T> :: |vals'| == |keys| ==> Codable(f, hash, keys, vals', n, w)
      ensures Solvable(f, n, WithVals(vs, us))
    {
      var vals' := Unsorted(order, us);
      SortedWith(f, hash, keys, vals, vals', order, n, w);
      assert seq(|keys|, i requires 0 <= i < |keys| => vals'[order[i]]) == us;
      SolvableIsCodable(f, hash, keys, vals', order, n, w);
    }
  }

  ghost function IndexOf(order: seq<nat>, k: nat): (i: nat)
    requires k in order
    ensures i < |order| && order[i] == k
  {
    var i :| 0 <= i < |order| && order[i] == k;
    i
  }

  ghost function Unsorted<T>(order: seq<nat>, us: seq<T>): (vals: seq<T>)
    requires Permutation(order, |us|)
    ensures |vals| == |us| && forall i :: 0 <= i < |us| ==> order[i] < |us| && vals[order[i]] == us[i]
  {
    seq(|us|, k requires 0 <= k < |us| => us[IndexOf(order, k)])
  }

  /** With two equal keys and different values there is no codeword, and a row
      without a pivot; still no failure is reported. */
  lemma EqualKeysFail<K, T(!new)>(f: Field<T>, inverse: T -> T, hash: Hash<K>, keys: seq<K>, vals: seq<T>, order: seq<nat>, n: nat, w: nat, i: nat, j: nat)
    requires f.Domain() && Inverts(f, inverse) && |keys| == |vals| && Permutation(order, |keys|) && forall k :: 0 <= k < |keys| ==> hash.InRange(keys[k], n, w)
    requires forall i, j :: 0 <= i < j < |keys| ==> hash.posOf(keys[order[i]]) <= hash.posOf(keys[order[j]])
    requires i < j < |keys| && keys[i] == keys[j] && vals[i] != vals[j]
    ensures !Codable(f, hash, keys, vals, n, w) && !Independent(f, n, SortedValues(f, hash, keys, vals, order, n, w))
  {
    hide Decoded, Hash.Row, Independent, Field.Domain, Inverts, Permutation;
    forall x: seq<T> | |x| == n
      ensures exists k :: 0 <= k < |keys| && Decoded(f, hash, x, keys[k], w) != vals[k]
    {
      assert Decoded(f, hash, x, keys[i], w) != vals[i] || Decoded(f, hash, x, keys[j], w) != vals[j];
    }
    IndependentIsCodable(f, inverse, hash, keys, vals, order, n, w);
  }
}
