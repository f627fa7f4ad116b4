/** The peeling key-value store: encode by triangulation and back substitution. */
module Paxos {
  import opened Fields
  import opened Equations
  import opened Inversion
  import opened Matrices
  import opened WeightBuckets
  import opened Triangulation
  import opened Cores
  import opened EqualKeys
  import opened SparseRows
  import opened FcInverse
  import opened Backfill
  import opened GapSystem
  import opened Random
  import opened Refusal
  import opened ColumnIndex

  datatype PaxosStatus = Encoded | DuplicateKeys | GapTooLarge | NotInvertible

  /** Row r decodes to its value. */
  ghost predicate Decodes<T(!new)>(f: Field<T>, rows: seq<seq<nat>>, dense: seq<T>, vals: seq<T>, p: seq<T>, s: nat, r: nat)
    requires |rows| == |dense| == |vals| && s <= |p| && RowsOk(rows, s) && r < |rows|
  {
    assert RowOk(rows[r], s);
    Decoded(f, rows[r], dense[r], p, s) == vals[r]
  }

  lemma {:induction false} SumZeros<T(!new)>(f: Field<T>, coef: seq<bool>, p: seq<T>, hi: nat)
    requires f.Group() && |coef| == |p| && hi <= |p| && forall c :: 0 <= c < hi && coef[c] ==> p[c] == f.zero
    ensures Sum(f, coef, p, 0, hi) == f.zero
  {
    f.Zero(f.zero);
    if hi > 0 {
      SumZeros(f, coef, p, hi - 1);
    }
  }

  /** The values of solved main rows are their sparse sums plus dense sums. */
  lemma {:induction false} ListValues<T(!new)>(f: Field<T>, rows: seq<seq<nat>>, dense: seq<T>, vals: seq<T>, p: seq<T>, s: nat, list: seq<nat>)
    requires f.Group() && |rows| == |dense| == |vals| && s <= |p| && RowsOk(rows, s) && RowsOk(rows, |p|) && Below(list, |rows|)
    requires forall k :: 0 <= k < |list| ==> Decodes(f, rows, dense, vals, p, s, list[k])
    ensures ValueList(f, vals, list) == f.Add(ListSum(f, rows, list, p), DenseList(f, dense, list, p[s..]))
  {
    f.Zero(f.zero);
    if list != [] {
      var rest, r := list[..|list| - 1], list[|list| - 1];
      assert RowOk(rows[r], s) && Decodes(f, rows, dense, vals, p, s, r);
      ListValues(f, rows, dense, vals, p, s, rest);
      f.Shuffle(ListSum(f, rows, rest, p), DenseList(f, dense, rest, p[s..]), RowSum(f, rows[r], p), DenseSum(f, dense[r], p[s..]));
    }
  }

  /** A gap row decodes to its value plus the free columns in which it and the
      main rows that cancel it differ. */
  lemma GapRowDecodes<T(!new)>(f: Field<T>, rows: seq<seq<nat>>, dense: seq<T>, vals: seq<T>, p: seq<T>, s: nat, gap: nat, list: seq<nat>)
    requires f.XorGroup() && |rows| == |dense| == |vals| && s <= |p| && RowsOk(rows, s) && RowsOk(rows, |p|)
    requires gap < |rows| && Below(list, |rows|)
    requires forall k :: 0 <= k < |list| ==> Decodes(f, rows, dense, vals, p, s, list[k])
    requires GapSolved(f, dense, vals, gap, list, p[s..])
    ensures RowOk(rows[gap], s)
    ensures Decoded(f, rows[gap], dense[gap], p, s) == f.Add(vals[gap], Sum(f, Leftover(rows, gap, list, |p|), p, 0, |p|))
  {
    assert RowOk(rows[gap], s);
    ListValues(f, rows, dense, vals, p, s, list);
    LeftoverSum(f, rows, gap, list, p);
    var x, e, r := vals[gap], DenseSum(f, dense[gap], p[s..]), RowSum(f, rows[gap], p);
    var rs, es := ListSum(f, rows, list, p), DenseList(f, dense, list, p[s..]);
    // e + es == x + (rs + es), so e == x + rs
    f.Assoc(x, rs, es);
    f.Comm(e, es);
    f.Comm(f.Add(x, rs), es);
    f.CancelLeft(es, e, f.Add(x, rs));
    f.Comm(r, e);
    f.Assoc(x, rs, r);
  }

  /** Whatever the free columns hold, a gap row decodes correctly, exactly when
      it and the main rows that cancel it agree on them. */
  lemma LeftoverDecides<T(!new)>(f: Field<T>, leftover: seq<bool>)
    requires f.Domain()
    ensures (forall p: seq<T> :: |p| == |leftover| ==> Sum(f, leftover, p, 0, |p|) == f.zero) <==> (forall c :: 0 <= c < |leftover| ==> !leftover[c])
  {
    if c :| 0 <= c < |leftover| && leftover[c] {
      var p := UnitRow(f, |leftover|, c);
      var unit := seq(|leftover|, x => x == c);
      SumUnit(f, unit, p, c);
      SumUnits(f, leftover, unit, p, c, |p|);
    } else {
      forall p: seq<T> | |p| == |leftover|
        ensures Sum(f, leftover, p, 0, |p|) == f.zero
      {
        SumNone(f, leftover, p, 0, |p|);
      }
    }
  }

  lemma {:induction false} SumUnits<T(!new)>(f: Field<T>, a: seq<bool>, b: seq<bool>, p: seq<T>, c: nat, hi: nat)
    requires f.Group() && |a| == |b| == |p| && hi <= |p| && forall x :: 0 <= x < |p| && x != c ==> p[x] == f.zero
    requires c < |p| && a[c] == b[c]
    ensures Sum(f, a, p, 0, hi) == Sum(f, b, p, 0, hi)
  {
    if hi > 0 {
      SumUnits(f, a, b, p, c, hi - 1);
      f.Zero(Sum(f, a, p, 0, hi - 1));
    }
  }

  /** The linear system and the outcome of peeling it. */
  datatype Peeling<T(!new)> = Peeling(rows: seq<seq<nat>>, dense: seq<T>, vals: seq<T>, s: nat,
                                mainRows: seq<nat>, mainCols: seq<nat>, gapRows: seq<(nat, nat)>, mtx: seq<seq<nat>>,
                                      ee: Matrix<T>, xx: seq<T>)
  {
    ghost predicate Sized() {
      |rows| == |dense| == |vals| && RowsOk(rows, s)
    }

    ghost predicate Peeled() {
      Sized() && Triangulated(rows, s, mainRows, mainCols, gapRows)
    }

    ghost predicate Valid() {
      && Peeled() && |mtx| == |gapRows|
      && (forall i :: 0 <= i < |gapRows| ==> gapRows[i].0 < |rows| && gapRows[i].1 < |rows|)
      && (forall i :: 0 <= i < |gapRows| ==> Cancels(rows, mainRows, mainCols, gapRows[i].0, mtx[i]))
      && forall i :: 0 <= i < |gapRows| && rows[gapRows[i].0] == rows[gapRows[i].1] ==> mtx[i] == [gapRows[i].1]
    }

    /** ee and xx are the gap system: the rows of the gap rows, and with a PRNG its
        outputs from `start` on, up to the number of dense columns. */
    ghost predicate GapSystem(f: Field<T>, denseSize: nat, prng: Prng?<T>, start: nat) {
      && |dense| == |vals| && Square(ee, GapSize(denseSize, prng))
      && SystemOf(f, dense, vals, Firsts(gapRows), mtx, ee, xx, GapSize(denseSize, prng), prng, start)
    }

    /** The inversion refuses the gap system. */
    ghost predicate Stuck(f: Field<T>, rounds: nat, denseSize: nat, prng: Prng?<T>) {
      Square(ee, GapSize(denseSize, prng)) && Refused(f, rounds, ee, GapSize(denseSize, prng))
    }

    /** The gap system, if there is one, can be inverted. */
    ghost predicate Regular(f: Field<T>, denseSize: nat, prng: Prng?<T>) {
      gapRows != [] ==> Invertible(f, GapSize(denseSize, prng), ee)
    }

    /** No two keys are equal if every gap row has a partner with another dense
        value and the gap system can be inverted. */
    lemma KeysDiffer(f: Field<T>, denseSize: nat, prng: Prng?<T>, start: nat)
      requires f.XorGroup() && f.Domain() && Valid() && PartnersDiffer(dense, gapRows) && Regular(f, denseSize, prng)
      requires gapRows != [] ==> GapSystem(f, denseSize, prng, start)
      ensures !HasEqualKeys(rows, dense)
    {
      NoEqualKeys(f, rows, s, dense, vals, mainRows, mainCols, gapRows, mtx, ee, xx, GapSize(denseSize, prng));
    }

    ghost function GapSize(denseSize: nat, prng: Prng?<T>): nat {
      if prng != null then denseSize else |gapRows|
    }

    /** What gap row i has left on the columns that are no pivots. */
    ghost function LeftoverOf(i: nat, n: nat): seq<bool>
      requires Valid() && i < |gapRows|
    {
      Leftover(rows, gapRows[i].0, mtx[i], n)
    }

    /** Only columns without a pivot can be left over. */
    lemma LeftoverIsFree(i: nat, n: nat, c: nat)
      requires Valid() && i < |gapRows| && c < n && LeftoverOf(i, n)[c]
      ensures c < s && c !in mainCols
    {
      assert Cancels(rows, mainRows, mainCols, gapRows[i].0, mtx[i]);
      assert RowOk(rows[gapRows[i].0], s);
      if c >= s {
        NotOdd(rows, s, mtx[i], c);
      }
    }

    /** A gap row with the sparse columns of its partner leaves nothing over. */
    lemma PartnerLeavesNothing(i: nat, n: nat)
      requires Valid() && i < |gapRows| && rows[gapRows[i].0] == rows[gapRows[i].1]
      ensures forall c :: 0 <= c < n ==> !LeftoverOf(i, n)[c]
    {
      assert mtx[i] == [gapRows[i].1] && mtx[i][..0] == [];
      assert forall c :: Odd(rows, mtx[i], c) == (c in rows[gapRows[i].1]);
    }
  }

  lemma {:induction false} NotOdd(rows: seq<seq<nat>>, s: nat, list: seq<nat>, c: nat)
    requires RowsOk(rows, s) && Below(list, |rows|) && c >= s
    ensures !Odd(rows, list, c)
  {
    if list != [] {
      NotOdd(rows, s, list[..|list| - 1], c);
      assert RowOk(rows[list[|list| - 1]], s);
    }
  }

  /** Every main row decodes to its value, and every gap row to its value plus
      what it leaves over on the free columns. */
  ghost predicate Solved<T(!new)>(f: Field<T>, e: Peeling<T>, p: seq<T>)
    requires e.Valid() && e.s <= |p|
  {
    && (forall r :: r in e.mainRows ==> Decodes(f, e.rows, e.dense, e.vals, p, e.s, r))
    && forall i :: 0 <= i < |e.gapRows| ==> GapDecodes(f, e, p, i)
  }

  ghost predicate GapDecodes<T(!new)>(f: Field<T>, e: Peeling<T>, p: seq<T>, i: nat)
    requires e.Valid() && e.s <= |p| && i < |e.gapRows|
  {
    var gap := e.gapRows[i].0;
    assert RowOk(e.rows[gap], e.s);
    Decoded(f, e.rows[gap], e.dense[gap], p, e.s) == f.Add(e.vals[gap], Sum(f, e.LeftoverOf(i, |p|), p, 0, |p|))
  }

  /** All rows decode, if what the gap rows leave over adds up to nothing. */
  lemma AllDecode<T(!new)>(f: Field<T>, e: Peeling<T>, p: seq<T>)
    requires f.Group() && e.Valid() && e.s <= |p| && Solved(f, e, p)
    requires forall i :: 0 <= i < |e.gapRows| ==> Sum(f, e.LeftoverOf(i, |p|), p, 0, |p|) == f.zero
    ensures forall r :: 0 <= r < |e.rows| ==> Decodes(f, e.rows, e.dense, e.vals, p, e.s, r)
  {
    forall r | 0 <= r < |e.rows|
      ensures Decodes(f, e.rows, e.dense, e.vals, p, e.s, r)
    {
      if r !in e.mainRows {
        assert r in Firsts(e.gapRows);
        var i :| 0 <= i < |e.gapRows| && Firsts(e.gapRows)[i] == r;
        assert GapDecodes(f, e, p, i);
        f.Zero(e.vals[r]);
      }
    }
  }

  /** A row decodes wrongly exactly when it is a gap row whose leftover columns
      do not add up to zero. */
  lemma GapRowExactly<T(!new)>(f: Field<T>, e: Peeling<T>, p: seq<T>, i: nat)
    requires f.Group() && e.Valid() && e.s <= |p| && Solved(f, e, p) && i < |e.gapRows|
    ensures Decodes(f, e.rows, e.dense, e.vals, p, e.s, e.gapRows[i].0) <==> Sum(f, e.LeftoverOf(i, |p|), p, 0, |p|) == f.zero
  {
    var x, l := e.vals[e.gapRows[i].0], Sum(f, e.LeftoverOf(i, |p|), p, 0, |p|);
    assert GapDecodes(f, e, p, i);
    f.Zero(x);
    if f.Add(x, l) == x {
      f.CancelLeft(x, l, f.zero);
    }
  }

  /** All rows decode if the free columns are zero, or if every gap row has the
      sparse columns of its partner. */
  lemma NothingLeftDecodes<T(!new)>(f: Field<T>, e: Peeling<T>, p: seq<T>)
    requires f.Group() && e.Valid() && e.s <= |p| && Solved(f, e, p)
    ensures (forall c :: 0 <= c < e.s && c !in e.mainCols ==> p[c] == f.zero) ==>
      forall r :: 0 <= r < |e.rows| ==> Decodes(f, e.rows, e.dense, e.vals, p, e.s, r)
    ensures (forall i :: 0 <= i < |e.gapRows| ==> e.rows[e.gapRows[i].0] == e.rows[e.gapRows[i].1]) ==>
      forall r :: 0 <= r < |e.rows| ==> Decodes(f, e.rows, e.dense, e.vals, p, e.s, r)
  {
    if forall c :: 0 <= c < e.s && c !in e.mainCols ==> p[c] == f.zero {
      forall i | 0 <= i < |e.gapRows|
        ensures Sum(f, e.LeftoverOf(i, |p|), p, 0, |p|) == f.zero
      {
        forall c | 0 <= c < |p| && e.LeftoverOf(i, |p|)[c]
          ensures p[c] == f.zero
        {
          e.LeftoverIsFree(i, |p|, c);
        }
        SumZeros(f, e.LeftoverOf(i, |p|), p, |p|);
      }
      AllDecode(f, e, p);
    }
    if forall i :: 0 <= i < |e.gapRows| ==> e.rows[e.gapRows[i].0] == e.rows[e.gapRows[i].1] {
      forall i | 0 <= i < |e.gapRows|
        ensures Sum(f, e.LeftoverOf(i, |p|), p, 0, |p|) == f.zero
      {
        e.PartnerLeavesNothing(i, |p|);
        SumNone(f, e.LeftoverOf(i, |p|), p, 0, |p|);
      }
      AllDecode(f, e, p);
    }
  }

  class Paxos<T(==,!new)> {
    const f: Field<T>
    /** Squaring runs of the scalar inverse: 7 for a block. */
    const rounds: nat
    const mSparseSize: nat
    const mDenseSize: nat
    const mWeightSets: WeightData
    var mRows: seq<seq<nat>>
    var mDense: seq<T>

    constructor (f: Field<T>, rounds: nat, sparseSize: nat, denseSize: nat, nullNode: nat)
      requires 0 < sparseSize <= nullNode
      ensures this.f == f && this.rounds == rounds && mSparseSize == sparseSize && mDenseSize == denseSize
      ensures fresh(mWeightSets) && fresh(mWeightSets.mWeight) && fresh(mWeightSets.mPrev) && fresh(mWeightSets.mNext)
      ensures mWeightSets.Separate() && mWeightSets.Size() == sparseSize && mRows == [] && mDense == []
    {
      this.f, this.rounds, mSparseSize, mDenseSize := f, rounds, sparseSize, denseSize;
      mWeightSets := new WeightData(sparseSize, nullNode);
      mRows, mDense := [], [];
    }

    /** Rows with distinct sparse columns, few enough per column; two more
        columns than rows; at least one dense column. */
    ghost predicate Ready()
      reads this
    {
      && Galois(f, rounds) && rounds >= 1 && mDenseSize >= 1
      && mWeightSets.Size() == mSparseSize && mWeightSets.Separate()
      && |mRows| == |mDense| && RowsOk(mRows, mSparseSize) && mSparseSize >= |mRows| + 2
      && forall c :: 0 <= c < mSparseSize ==> |Column(mRows, c)| < INITIAL_SETS
    }

    /** The weights are fresh ones of the rows, or drained by an earlier run. */
    ghost predicate Weights()
      requires Ready()
      reads this, mWeightSets, mWeightSets.mWeight, mWeightSets.mPrev, mWeightSets.mNext
    {
      |mWeightSets.mWeightSets| > 1 ==>
        mWeightSets.Valid() && mWeightSets.mWeight[..] == ColumnWeights(mRows, mSparseSize)
        && forall c :: 0 <= c < mSparseSize ==> c in mWeightSets.listed
    }

    /** Takes the rows of numItems keys: lists every column's rows and weighs the
        columns. It refuses rows or dense values of another number, and rows of
        another width. */
    method SetInput(index: Columns, numItems: nat, weight: nat, rows: seq<seq<nat>>, width: nat, dense: seq<T>) returns (ok: bool)
      requires index.Separate() && index.starts.Length == mSparseSize && index.mColBacking.Length == weight * numItems
      requires mWeightSets.Separate() && 0 < mWeightSets.Size() == mSparseSize
      requires RowsOk(rows, mSparseSize) && forall r :: 0 <= r < |rows| ==> |rows[r]| == width
      requires forall c :: 0 <= c < mSparseSize ==> |Column(rows, c)| < INITIAL_SETS
      requires {index.mColBacking, index.starts, index.sizes} !! {mWeightSets.mWeight, mWeightSets.mPrev, mWeightSets.mNext}
      modifies this`mRows, this`mDense, index.mColBacking, index.starts, index.sizes
      modifies mWeightSets, mWeightSets.mWeight, mWeightSets.mPrev, mWeightSets.mNext
      ensures ok <==> |rows| == |dense| == numItems && width == weight
      ensures ok ==> mRows == rows && mDense == dense
      ensures ok ==> forall c :: 0 <= c < mSparseSize ==>
        index.starts[c] + index.sizes[c] <= index.mColBacking.Length && index.Col(c) == Column(rows, c)
      ensures ok && Ready() ==> Weights()
    {
      hide Column, RowsOk, WeightData.Valid, Galois;
      if |rows| != numItems || |dense| != numItems {
        return false;
      }
      if width != weight {
        return false;
      }
      mRows, mDense := rows, dense;
      var colWeights;
      colWeights, ok := index.SetInput(rows, weight);
      assert ok;
      mWeightSets.Init(colWeights[..]);
      assert forall c :: 0 <= c < mSparseSize ==> index.Col(c) == Column(rows, c);
    }

    /** Encodes the values for the rows; with a PRNG the codeword is randomized.
        e is the outcome of the peeling, and free the randomized columns. */
    method Encode(vals: seq<T>, output: array<T>, prng: Prng?<T>)
      returns (status: PaxosStatus, ghost e: Peeling<T>, ghost free: seq<nat>)
      requires Ready() && Weights() && |vals| == |mRows| && output.Length == mSparseSize + mDenseSize
      requires prng != null ==> |prng.stream| > 0
      requires output as object != mWeightSets.mWeight && output as object != mWeightSets.mPrev && output as object != mWeightSets.mNext
      requires prng as object? != output
      modifies output, prng, mWeightSets, mWeightSets.mWeight, mWeightSets.mPrev, mWeightSets.mNext
      ensures status == DuplicateKeys ==> HasDuplicate(mRows, mDense)
      ensures status != DuplicateKeys ==> e.Peeled() && e.rows == mRows && e.dense == mDense && e.vals == vals && e.s == mSparseSize
      ensures status != DuplicateKeys ==> PartnersDiffer(mDense, e.gapRows)
      ensures status != DuplicateKeys && e.gapRows == [] <==> !HasCore(mRows)
      ensures status == GapTooLarge <==> status != DuplicateKeys && |e.gapRows| > mDenseSize
      ensures (status == Encoded || status == NotInvertible) && e.gapRows != [] ==>
        e.GapSystem(f, mDenseSize, prng, if prng != null then old(prng.next) + |free| else 0)
      ensures status == NotInvertible <==>
        status != DuplicateKeys && 0 < |e.gapRows| <= mDenseSize && e.Stuck(f, rounds, mDenseSize, prng)
      ensures status == Encoded ==> e.Valid() && Solved(f, e, output[..]) && e.Regular(f, mDenseSize, prng)
      ensures status == Encoded ==> !HasEqualKeys(mRows, mDense)
      ensures status == Encoded && prng == null ==> forall c :: 0 <= c < mSparseSize && c !in e.mainCols ==> output[c] == f.zero
      ensures status == Encoded && prng != null ==> Randomized(output[..], prng, old(prng.next), e.mainCols, free)
      ensures status == Encoded && (prng == null || forall i :: 0 <= i < |e.gapRows| ==> mRows[e.gapRows[i].0] == mRows[e.gapRows[i].1]) ==>
        forall r :: 0 <= r < |mRows| ==> Decodes(f, mRows, mDense, vals, output[..], mSparseSize, r)
      ensures !HasCore(mRows) ==> status == Encoded && forall r :: 0 <= r < |mRows| ==> Decodes(f, mRows, mDense, vals, output[..], mSparseSize, r)
    {
      hide Galois, HasCore, HasEqualKeys, Peeling.Regular, PartnersDiffer, Field.XorGroup, Field.Domain, Triangulated, Solved, Decodes, HasDuplicate, Ready, Weights, RowsOk, Column;
      hide Peeling.Valid, Peeling.GapSystem, Peeling.Stuck, Randomized;
      ReadyFacts();
      free := [];
      e := Peeling(mRows, mDense, vals, mSparseSize, [], [], [], [], [], []);
      var ok, mainRows, mainCols, gapRows;
      ok, mainRows, mainCols, gapRows, free := Peel(output, prng);
      if !ok {
        status := DuplicateKeys;
        return;
      }
      ghost var q := output[..];
      e := Peeling(mRows, mDense, vals, mSparseSize, mainRows, mainCols, gapRows, [], [], []);
      status, e := BackfillGf128(mainRows, mainCols, gapRows, vals, output, prng, e);
      if status == Encoded {
        e.KeysDiffer(f, mDenseSize, prng, if prng != null then old(prng.next) + |free| else 0);
        NothingLeftDecodes(f, e, output[..]);
        if prng != null {
          StaysRandomized(q, output[..], prng, old(prng.next), mainCols, free);
        }
      }
    }

    lemma ReadyFacts()
      requires Ready()
      ensures Galois(f, rounds) && f.XorGroup() && f.Domain() && rounds >= 1 && mDenseSize >= 1
      ensures |mRows| == |mDense| && RowsOk(mRows, mSparseSize)
    {
      GaloisDomain(f, rounds);
    }

    /** Triangulates, and clears or randomizes the columns without a pivot. */
    method Peel(output: array<T>, prng: Prng?<T>)
      returns (ok: bool, mainRows: seq<nat>, mainCols: seq<nat>, gapRows: seq<(nat, nat)>, ghost free: seq<nat>)
      requires Ready() && Weights() && output.Length == mSparseSize + mDenseSize
      requires prng != null ==> |prng.stream| > 0
      requires output as object != mWeightSets.mWeight && output as object != mWeightSets.mPrev && output as object != mWeightSets.mNext
      requires prng as object? != output
      modifies output, prng, mWeightSets, mWeightSets.mWeight, mWeightSets.mPrev, mWeightSets.mNext
      ensures !ok ==> HasDuplicate(mRows, mDense)
      ensures RowsOk(mRows, mSparseSize)
      ensures ok ==> Triangulated(mRows, mSparseSize, mainRows, mainCols, gapRows) && PartnersDiffer(mDense, gapRows)
      ensures ok && gapRows == [] <==> !HasCore(mRows)
      ensures ok ==> forall c :: 0 <= c < output.Length && (prng == null || c >= mSparseSize || c in mainCols) ==> output[c] == f.zero
      ensures ok && prng != null ==> Randomized(output[..], prng, old(prng.next), mainCols, free) && prng.next == old(prng.next) + |free|
    {
      hide Galois, Triangulated, HasDuplicate, Column, PartnersDiffer, HasCore, PeelingOrder;
      free := [];
      ok, mainRows, mainCols, gapRows := Triangulate(mWeightSets, mRows, mDense);
      hide WeightData.Valid, Fixed, RowsOk, Galois, Randomized;
      if ok {
        forall i | 0 <= i < output.Length {
          output[i] := f.zero;
        }
        if prng != null {
          free := RandomizeFree(output, prng, mainCols);
        }
      }
    }

    /** Solves for the dense columns if there are gap rows, then fills in the
        pivot columns. */
    method BackfillGf128(mainRows: seq<nat>, mainCols: seq<nat>, gapRows: seq<(nat, nat)>, vals: seq<T>, output: array<T>, prng: Prng?<T>,
                         ghost e0: Peeling<T>)
      returns (status: PaxosStatus, ghost e: Peeling<T>)
      requires Galois(f, rounds) && rounds >= 1 && mDenseSize >= 1 && output.Length == mSparseSize + mDenseSize
      requires e0 == Peeling(mRows, mDense, vals, mSparseSize, mainRows, mainCols, gapRows, [], [], []) && e0.Peeled()
      requires prng != null ==> |prng.stream| > 0 && prng as object != output
      requires forall c :: 0 <= c < output.Length && (c >= mSparseSize || c in mainCols) ==> output[c] == f.zero
      modifies output, prng
      ensures status != DuplicateKeys && e.Peeled() && e == e0.(mtx := e.mtx, ee := e.ee, xx := e.xx)
      ensures status == GapTooLarge <==> |gapRows| > mDenseSize
      ensures status != GapTooLarge && gapRows != [] ==> e.GapSystem(f, mDenseSize, prng, if prng != null then old(prng.next) else 0)
      ensures status == NotInvertible <==> 0 < |gapRows| <= mDenseSize && e.Stuck(f, rounds, mDenseSize, prng)
      ensures status == Encoded ==> e.Valid() && Solved(f, e, output[..]) && e.Regular(f, mDenseSize, prng)
      ensures forall c :: 0 <= c < mSparseSize && c !in mainCols ==> output[c] == old(output[c])
    {
      hide Galois, Field.XorGroup, Field.Domain, Peeling.GapSystem, Peeling.Stuck, Peeling.Valid, Solved, Column;
      e := e0;
      GaloisDomain(f, rounds);
      if |gapRows| > mDenseSize {
        status := GapTooLarge;
        return;
      }
      var ok;
      ok, e := FillDense(mainRows, mainCols, gapRows, vals, output, prng, e);
      if !ok {
        status := NotInvertible;
        return;
      }
      ghost var q := output[..];
      BackfillMain(f, mRows, mDense, vals, mainRows, mainCols, gapRows, output, mSparseSize, gapRows != [] || prng != null);
      assert output[mSparseSize..] == q[mSparseSize..];
      PeelingSolved(e, output[..]);
      status := Encoded;
    }

    /** The dense columns: from the gap system, random, or zero. */
    method FillDense(mainRows: seq<nat>, mainCols: seq<nat>, gapRows: seq<(nat, nat)>, vals: seq<T>, output: array<T>, prng: Prng?<T>,
                     ghost e0: Peeling<T>)
      returns (ok: bool, ghost e: Peeling<T>)
      requires Galois(f, rounds) && rounds >= 1 && mDenseSize >= 1 && output.Length == mSparseSize + mDenseSize
      requires e0 == Peeling(mRows, mDense, vals, mSparseSize, mainRows, mainCols, gapRows, [], [], []) && e0.Peeled()
      requires |gapRows| <= mDenseSize
      requires prng != null ==> |prng.stream| > 0 && prng as object != output
      requires forall c :: mSparseSize <= c < output.Length ==> output[c] == f.zero
      modifies output, prng
      ensures e.Peeled() && e == e0.(mtx := e.mtx, ee := e.ee, xx := e.xx)
      ensures gapRows != [] ==> e.GapSystem(f, mDenseSize, prng, if prng != null then old(prng.next) else 0)
      ensures !ok <==> gapRows != [] && e.Stuck(f, rounds, mDenseSize, prng)
      ensures ok ==> e.Valid() && GapsSolved(e, output[mSparseSize..]) && e.Regular(f, mDenseSize, prng)
      ensures forall c :: 0 <= c < mSparseSize ==> output[c] == old(output[c])
      ensures gapRows == [] && prng == null ==> output[..] == old(output[..])
      ensures gapRows == [] && prng != null ==>
        forall c :: mSparseSize <= c < output.Length ==> output[c] == prng.Output(old(prng.next) + (c - mSparseSize))
    {
      hide Galois, Field.XorGroup, Peeling.Peeled, Peeling.Valid, Peeling.Stuck, Peeling.GapSystem;
      ok, e := true, e0;
      if gapRows != [] {
        ok, e := SolveGapRows(mainRows, mainCols, gapRows, vals, output, prng, e0);
      } else {
        NoGapRows(e);
        if prng != null {
          RandomizeDense(output, prng);
        }
      }
    }

    lemma NoGapRows(e: Peeling<T>)
      requires e.Peeled() && e.gapRows == [] && e.mtx == []
      ensures e.Valid() && forall p2 :: GapsSolved(e, p2)
    {
    }

    /** The gap system of the peeled rows, and its solution in the dense columns. */
    method SolveGapRows(mainRows: seq<nat>, mainCols: seq<nat>, gapRows: seq<(nat, nat)>, vals: seq<T>, output: array<T>, prng: Prng?<T>,
                        ghost e0: Peeling<T>)
      returns (ok: bool, ghost e: Peeling<T>)
      requires Galois(f, rounds) && rounds >= 1 && output.Length == mSparseSize + mDenseSize
      requires e0 == Peeling(mRows, mDense, vals, mSparseSize, mainRows, mainCols, gapRows, [], [], []) && e0.Peeled()
      requires 0 < |gapRows| <= mDenseSize
      requires prng != null ==> |prng.stream| > 0 && prng as object != output
      requires forall c :: mSparseSize <= c < output.Length ==> output[c] == f.zero
      modifies output, prng
      ensures e.Peeled() && e == e0.(mtx := e.mtx, ee := e.ee, xx := e.xx)
      ensures e.GapSystem(f, mDenseSize, prng, if prng != null then old(prng.next) else 0)
      ensures !ok <==> e.Stuck(f, rounds, mDenseSize, prng)
      ensures ok ==> e.Valid() && GapsSolved(e, output[mSparseSize..]) && e.Regular(f, mDenseSize, prng)
      ensures forall c :: 0 <= c < mSparseSize ==> output[c] == old(output[c])
    {
      hide Galois, Refused, Maps, GapSolved, Triangulated, SystemOf;
      var mtx := GetFCInv(mRows, mSparseSize, mainRows, mainCols, gapRows);
      e := e0.(mtx := mtx);
      PeelingValid(e);
      ghost var m, x;
      ok, m, x := SolveGap(f, rounds, mDense, vals, Firsts(gapRows), mtx, output, mSparseSize, prng);
      e := e.(ee := m, xx := x);
      SystemKnown(e, prng, if prng != null then old(prng.next) else 0);
    }

    lemma SystemKnown(e: Peeling<T>, prng: Prng?<T>, start: nat)
      requires |e.dense| == |e.vals| && SystemOf(f, e.dense, e.vals, Firsts(e.gapRows), e.mtx, e.ee, e.xx, e.GapSize(mDenseSize, prng), prng, start)
      ensures e.GapSystem(f, mDenseSize, prng, start) && Square(e.ee, e.GapSize(mDenseSize, prng))
    {
      hide Filled, GapsOk, RowsDrawn;
    }

    /** Random values for all dense columns. */
    method RandomizeDense(output: array<T>, prng: Prng<T>)
      requires mSparseSize <= output.Length && |prng.stream| > 0 && prng as object != output
      modifies output, prng
      ensures forall c :: 0 <= c < mSparseSize ==> output[c] == old(output[c])
      ensures forall c :: mSparseSize <= c < output.Length ==> output[c] == prng.Output(old(prng.next) + (c - mSparseSize))
    {
      for i := mSparseSize to output.Length
        invariant forall c :: 0 <= c < mSparseSize ==> output[c] == old(output[c])
        invariant prng.next == old(prng.next) + (i - mSparseSize)
        invariant forall c :: mSparseSize <= c < i ==> output[c] == prng.Output(old(prng.next) + (c - mSparseSize))
      {
        var x := prng.Get();
        output[i] := x;
      }
    }

    /** Every gap row's equation holds for the dense columns. */
    ghost predicate GapsSolved(e: Peeling<T>, p2: seq<T>)
      requires e.Valid()
    {
      forall i :: 0 <= i < |e.gapRows| ==> Below(e.mtx[i], |e.dense|) && GapSolved(f, e.dense, e.vals, e.gapRows[i].0, e.mtx[i], p2)
    }

    lemma PeelingValid(e: Peeling<T>)
      requires e.Peeled() && |e.mtx| == |e.gapRows|
      requires forall i :: 0 <= i < |e.gapRows| ==> e.gapRows[i].0 < |e.rows| && e.gapRows[i].1 in e.mainRows
      requires forall i :: 0 <= i < |e.gapRows| ==> Cancels(e.rows, e.mainRows, e.mainCols, e.gapRows[i].0, e.mtx[i])
      requires forall i :: 0 <= i < |e.gapRows| && e.rows[e.gapRows[i].0] == e.rows[e.gapRows[i].1] ==> e.mtx[i] == [e.gapRows[i].1]
      ensures e.Valid() && GapsOk(Firsts(e.gapRows), e.mtx, |e.rows|)
    {
      forall i | 0 <= i < |e.gapRows|
        ensures e.gapRows[i].1 < |e.rows| && Below(e.mtx[i], |e.rows|)
      {
        assert Cancels(e.rows, e.mainRows, e.mainCols, e.gapRows[i].0, e.mtx[i]);
      }
    }

    /** Solved main rows and gap equations make every row decode. */
    lemma PeelingSolved(e: Peeling<T>, p: seq<T>)
      requires f.XorGroup() && e.Valid() && e.s <= |p| && GapsSolved(e, p[e.s..])
      requires forall k :: 0 <= k < |e.mainRows| ==> MainSolved(f, e.rows, e.dense, e.vals, e.mainRows, p, e.s, k)
      ensures Solved(f, e, p)
    {
      forall r | r in e.mainRows
        ensures Decodes(f, e.rows, e.dense, e.vals, p, e.s, r)
      {
        var k :| 0 <= k < |e.mainRows| && e.mainRows[k] == r;
        assert MainSolved(f, e.rows, e.dense, e.vals, e.mainRows, p, e.s, k);
      }
      assert RowsOk(e.rows, |p|) by {
        forall r | 0 <= r < |e.rows|
          ensures RowOk(e.rows[r], |p|)
        {
          assert RowOk(e.rows[r], e.s);
        }
      }
      forall i | 0 <= i < |e.gapRows|
        ensures GapDecodes(f, e, p, i)
      {
        assert Cancels(e.rows, e.mainRows, e.mainCols, e.gapRows[i].0, e.mtx[i]);
        GapRowDecodes(f, e.rows, e.dense, e.vals, p, e.s, e.gapRows[i].0, e.mtx[i]);
      }
    }

    /** The columns in `free` are those without a pivot, and hold the PRNG
        outputs from `start` on. */
    ghost predicate Randomized(output: seq<T>, prng: Prng<T>, start: nat, mainCols: seq<nat>, free: seq<nat>) {
      && mSparseSize <= |output| && |prng.stream| > 0 && NoDuplicates(free)
      && (forall c: nat :: c in free <==> c < mSparseSize && c !in mainCols)
      && forall k :: 0 <= k < |free| ==> free[k] < mSparseSize && output[free[k]] == prng.Output(start + k)
    }

    lemma StaysRandomized(q: seq<T>, p: seq<T>, prng: Prng<T>, start: nat, mainCols: seq<nat>, free: seq<nat>)
      requires Randomized(q, prng, start, mainCols, free) && |p| == |q|
      requires forall c :: 0 <= c < mSparseSize && c !in mainCols ==> p[c] == q[c]
      ensures Randomized(p, prng, start, mainCols, free)
    {
    }

    /** Random values for the columns of the weight-zero list, which are those
        without a pivot. */
    method RandomizeFree(output: array<T>, prng: Prng<T>, ghost mainCols: seq<nat>) returns (ghost free: seq<nat>)
      requires mWeightSets.Valid() && mWeightSets.Size() == mSparseSize <= output.Length && |prng.stream| > 0
      requires |mWeightSets.mWeightSets| == 1
      requires Fixed(mWeightSets, mainCols) && output as object != mWeightSets.mNext && prng as object != output
      requires output as object != mWeightSets.mWeight && output as object != mWeightSets.mPrev
      modifies output, prng
      ensures forall c :: 0 <= c < output.Length && (c >= mSparseSize || c in mainCols) ==> output[c] == old(output[c])
      ensures Randomized(output[..], prng, old(prng.next), mainCols, free) && prng.next == old(prng.next) + |free|
    {
      var node := mWeightSets.mWeightSets[0];
      ghost var b := mWeightSets.buckets[0];
      free := b;
      ghost var k := 0;
      assert mWeightSets.NodesOf().Spell(b, 0, node);
      while node != mWeightSets.mNull
        invariant k <= |b| && node == if k == |b| then mWeightSets.mNull else b[k]
        invariant forall c :: 0 <= c < output.Length && (c >= mSparseSize || c in mainCols) ==> output[c] == old(output[c])
        invariant mWeightSets.NodesOf() == old(mWeightSets.NodesOf())
        invariant prng.next == old(prng.next) + k
        invariant forall i :: 0 <= i < k ==> b[i] < mSparseSize && output[b[i]] == prng.Output(old(prng.next) + i)
        decreases |b| - k
      {
        mWeightSets.BucketsPartition(0, node);
        assert mWeightSets.NodesOf().LinkedAt(b, k);
        var x := prng.Get();
        output[node] := x;
        node, k := mWeightSets.mNext[node], k + 1;
      }
      forall c: nat
        ensures c in free <==> c < mSparseSize && c !in mainCols
      {
        mWeightSets.BucketsPartition(0, c);
      }
    }
  }
}
