/** The banded key-value store: encode by in-place elimination on packed words,
    decode by a band inner product. */
module RbOkvs {
  import opened Fields
  import opened Equations
  import opened Words
  import opened BandRows

  datatype EncodeStatus = SUCCESS | FAIL | ALLZERO

  /** The start position that marks a meaningless row: -1 as a u64. */
  const MEANINGLESS: nat := 0xFFFF_FFFF_FFFF_FFFF

  /** The two keyed hashes of a key, as given functions. */
  datatype Hash<!K> = Hash(posOf: K -> nat, bandOf: K -> seq<Word>)
  {
    /** What hashPos and hashBand guarantee: the band starts within the columns,
        and its bits behind the band width are cleared. */
    ghost predicate InRange(key: K, size: nat, width: nat) {
      && posOf(key) + width <= size
      && |bandOf(key)| == 2 * ((width + 127) / 128)
      && forall i: nat :: BitAt(bandOf(key), i) ==> i < width
    }
  }

  class MatrixRow<T> {
    var startPos: nat
    const data: array<Word>
    var val: T

    constructor (startPos: nat, band: seq<Word>, val: T)
      ensures fresh(this.data)
      ensures this.startPos == startPos && this.data[..] == band && this.val == val
    {
      this.startPos := startPos;
      this.data := new Word[|band|](i requires 0 <= i < |band| => band[i]);
      this.val := val;
      new;
      assert this.data[..] == band;
    }

    function Value(): Row<T>
      reads this, data
    {
      Row(startPos, data[..], val)
    }
  }

  class RBOKVS<K(!new), T(==,!new)> {
    const mN: nat
    const mSize: nat
    const mW: nat
    const f: Field<T>
    const hash: Hash<K>

    constructor (n: nat, size: nat, width: nat, f: Field<T>, hash: Hash<K>)
      ensures mN == n && mSize == size && mW == width && this.f == f && this.hash == hash
    {
      mN, mSize, mW, this.f, this.hash := n, size, width, f, hash;
    }

    /** Values add up as blocks do under XOR, the band covers at least one word
        (below that the u64 loop bounds wrap) and the hashes stay in range. */
    ghost predicate Valid() {
      && f.XorGroup()
      && 64 <= mW <= mSize < MEANINGLESS
      && forall key: K :: hash.InRange(key, mSize, mW)
    }

    function WordCount(): nat { 2 * ((mW + 127) / 128) }

    /** The equation a key and its value put on the codeword. */
    function KeyEquation(key: K, val: T): (e: Equation<T>)
      ensures |e.coef| == mSize
    {
      RowEquation(mSize, Row(hash.posOf(key), hash.bandOf(key), val))
    }

    /** All the equations to be solved. */
    function System(keys: seq<K>, vals: seq<T>): (es: seq<Equation<T>>)
      requires |keys| == |vals|
      ensures |es| == |keys|
      ensures forall i :: 0 <= i < |keys| ==> es[i] == KeyEquation(keys[i], vals[i])
    {
      seq(|keys|, i requires 0 <= i < |keys| => KeyEquation(keys[i], vals[i]))
    }

    /** The band inner product, bit by bit. */
    function Decoded(codeWords: seq<T>, key: K): T
      requires |codeWords| == mSize
    {
      Sum(f, Coef(mSize, hash.posOf(key), hash.bandOf(key)), codeWords, 0, mSize)
    }

    /** Moves the first set bit of the band to the front, in place. */
    method Reformalize(row: MatrixRow<T>) returns (status: EncodeStatus)
      requires row.data.Length == WordCount()
      modifies row, row.data
      ensures row.val == old(row.val)
      ensures status == FAIL <==> IsEmpty(old(row.Value())) && old(row.val) != f.zero
      ensures status == ALLZERO <==> IsEmpty(old(row.Value())) && old(row.val) == f.zero
      ensures status == FAIL ==> row.Value() == old(row.Value())
      ensures status == ALLZERO ==> row.Value() == old(row.Value()).(startPos := MEANINGLESS)
      ensures status == SUCCESS ==>
        var z := FirstOne(old(row.data[..]));
        && row.startPos == old(row.startPos) + z
        && Shifted(old(row.data[..]), row.data[..], z)
        && BitAt(row.data[..], 0)
    {
      var wBlocks := (mW + 127) / 128;
      var ptr := row.data;
      ghost var before := ptr[..];
      var numZeroBlocks := FirstNonZeroBlock(ptr, wBlocks);
      if numZeroBlocks == wBlocks {
        assert IsEmpty(row.Value());
        if row.val == f.zero {
          row.startPos := MEANINGLESS;
          return ALLZERO;
        } else {
          return FAIL;
        }
      }
      ShiftToFront(row, numZeroBlocks);
      return SUCCESS;
    }

    /** Drops the zero words, then the leading zeros of the first word left. */
    method ShiftToFront(row: MatrixRow<T>, numZeroBlocks: nat)
      requires row.data.Length == WordCount() && 2 * numZeroBlocks < row.data.Length
      requires forall q :: 0 <= q < 2 * numZeroBlocks ==> IsZero(row.data[q])
      requires !IsZero(row.data[2 * numZeroBlocks]) || !IsZero(row.data[2 * numZeroBlocks + 1])
      modifies row, row.data
      ensures row.val == old(row.val) && row.startPos == old(row.startPos) + FirstOne(old(row.data[..]))
      ensures Shifted(old(row.data[..]), row.data[..], FirstOne(old(row.data[..]))) && BitAt(row.data[..], 0)
    {
      hide Shifted, FirstOne, BitAt;
      var ptr := row.data;
      ghost var before := ptr[..];
      var leftShift := (if IsZero(ptr[2 * numZeroBlocks]) then 1 else 0) + 2 * numZeroBlocks;
      if leftShift != 0 {
        MoveWords(ptr, leftShift);
        row.startPos := row.startPos + leftShift * 64;
      }
      ghost var moved := ptr[..];
      var numLeadingZeros := LeadingZeros(ptr[0]);
      if numLeadingZeros != 0 {
        ShiftAcrossWords(ptr, numLeadingZeros, ptr.Length - leftShift);
        row.startPos := row.startPos + numLeadingZeros;
      } else {
        ShiftedByNone(moved);
      }
      MovedThenShifted(before, moved, ptr[..], leftShift, numLeadingZeros);
    }

    /** The rows are separate objects, each with its own band. */
    ghost predicate Separate(rows: seq<MatrixRow<T>>)
      reads rows
    {
      && |rows| == mN
      && (forall i :: 0 <= i < |rows| ==> rows[i].data.Length == WordCount())
      && (forall i, j :: 0 <= i < j < |rows| ==> rows[i] != rows[j] && rows[i].data != rows[j].data)
    }

    /** The rows hold the values vs. */
    ghost predicate Hold(rows: seq<MatrixRow<T>>, vs: seq<Row<T>>)
      reads rows, set r | r in rows :: r.data
    {
      |vs| == |rows| && forall i :: 0 <= i < |rows| ==> rows[i].Value() == vs[i]
    }

    /** Eliminates the new row against the stored ones and stores what is left
        under its leading column. vs are the rows before. */
    method Insert(bitToRowMap: array<nat>, rows: seq<MatrixRow<T>>, rowIdx: nat, ghost vs: seq<Row<T>>) returns (status: EncodeStatus)
      requires Valid() && Separate(rows) && Hold(rows, vs) && rowIdx < mN
      requires Echelon(f, mSize, mN, bitToRowMap[..], vs, rowIdx)
      requires forall r :: 0 <= r <= rowIdx ==> Fits(mSize, mW, vs[r])
      modifies bitToRowMap, rows[rowIdx], rows[rowIdx].data
      ensures Fits(mSize, mW, rows[rowIdx].Value())
      ensures SameNextTo(f, mSize, vs, rowIdx, vs[rowIdx], rows[rowIdx].Value())
      ensures status == FAIL ==> IsEmpty(rows[rowIdx].Value()) && rows[rowIdx].val != f.zero
      ensures status != FAIL ==> Echelon(f, mSize, mN, bitToRowMap[..], vs[rowIdx := rows[rowIdx].Value()], rowIdx + 1)
    {
      hide Field.XorGroup, Hash.InRange, FirstOneFrom;
      var row := rows[rowIdx];
      ghost var map0 := bitToRowMap[..];
      status := Reformalize(row);
      ReformalizedRow(vs[rowIdx], row.Value(), status);
      if status == FAIL || status == ALLZERO {
        Dropped(vs, map0, rowIdx, row.Value(), status);
        return;
      }
      var collidingRowIdx := bitToRowMap[row.startPos];
      while collidingRowIdx != mN
        invariant status == SUCCESS && LedRow(row.Value())
        invariant collidingRowIdx == map0[row.startPos] && bitToRowMap[..] == map0
        invariant SameNextTo(f, mSize, vs, rowIdx, vs[rowIdx], row.Value())
        decreases mSize - row.startPos
      {
        StoredRow(map0, vs, rowIdx, row.startPos);
        status := Eliminate(row, rows[collidingRowIdx], rowIdx, collidingRowIdx, vs);
        if status == FAIL || status == ALLZERO {
          Dropped(vs, map0, rowIdx, row.Value(), status);
          return;
        }
        collidingRowIdx := bitToRowMap[row.startPos];
      }
      bitToRowMap[row.startPos] := rowIdx;
      assert bitToRowMap[..] == map0[row.startPos := rowIdx];
      ExtendEchelon(f, mSize, mN, map0, vs, rowIdx, row.Value(), bitToRowMap[..]);
      return SUCCESS;
    }

    /** A row whose first bit is set, at a column of the codeword. */
    ghost predicate LedRow(r: Row<T>) {
      BitAt(r.words, 0) && Fits(mSize, mW, r) && r.startPos < mSize && |r.words| == WordCount()
    }

    lemma StoredRow(map0: seq<nat>, vs: seq<Row<T>>, k: nat, c: nat)
      requires k <= |vs| && Echelon(f, mSize, mN, map0, vs, k) && c < mSize && map0[c] != mN
      ensures map0[c] < k && vs[map0[c]].startPos == c && BitAt(vs[map0[c]].words, 0)
    {
    }

    /** One round of the loop of `insert`: adds the stored row with the same
        leading column and reformalizes. The start position grows. */
    method Eliminate(row: MatrixRow<T>, other: MatrixRow<T>, rowIdx: nat, colliding: nat, ghost vs: seq<Row<T>>) returns (status: EncodeStatus)
      requires Valid() && colliding < rowIdx < |vs| && row != other && row.data != other.data
      requires row.data.Length == other.data.Length == WordCount() && other.Value() == vs[colliding]
      requires LedRow(row.Value()) && LedRow(vs[colliding]) && row.startPos == other.startPos
      requires SameNextTo(f, mSize, vs, rowIdx, vs[rowIdx], row.Value())
      modifies row, row.data
      ensures Fits(mSize, mW, row.Value())
      ensures SameNextTo(f, mSize, vs, rowIdx, vs[rowIdx], row.Value())
      ensures status == SUCCESS ==> old(row.startPos) < row.startPos && LedRow(row.Value())
      ensures status == FAIL ==> IsEmpty(row.Value()) && row.val != f.zero
      ensures status == ALLZERO ==> IsEmpty(row.Value()) && row.val == f.zero
    {
      hide Fits, SameNextTo, BitAt, Field.Group, Field.XorGroup;
      ghost var prev := row.Value();
      CombinedRow(vs, rowIdx, colliding, prev);
      XorRow(row, other);
      ghost var sum := row.Value();
      status := Reformalize(row);
      NextRow(vs, rowIdx, sum, row.Value(), status);
    }

    lemma CombinedRow(vs: seq<Row<T>>, rowIdx: nat, colliding: nat, prev: Row<T>)
      requires f.XorGroup() && colliding < rowIdx < |vs| && LedRow(prev) && LedRow(vs[colliding]) && prev.startPos == vs[colliding].startPos
      requires SameNextTo(f, mSize, vs, rowIdx, vs[rowIdx], prev)
      ensures var sum := AddRows(f, prev, vs[colliding]);
        Fits(mSize, mW, sum) && !BitAt(sum.words, 0) && SameNextTo(f, mSize, vs, rowIdx, vs[rowIdx], sum)
    {
      hide BitAt, Fits, Field.Group;
      AddRowsAddsEquations(mSize, mW, f, prev, vs[colliding]);
      AddStoredRow(f, mSize, mW, vs, rowIdx, prev, colliding);
    }

    lemma NextRow(vs: seq<Row<T>>, rowIdx: nat, sum: Row<T>, next: Row<T>, status: EncodeStatus)
      requires rowIdx < |vs| && Fits(mSize, mW, sum) && !BitAt(sum.words, 0) && |next.words| == WordCount()
      requires SameNextTo(f, mSize, vs, rowIdx, vs[rowIdx], sum)
      requires status == SUCCESS ==>
        next.val == sum.val && Shifted(sum.words, next.words, FirstOne(sum.words)) && next.startPos == sum.startPos + FirstOne(sum.words) && BitAt(next.words, 0)
      requires status != SUCCESS ==> IsEmpty(sum) && next.val == sum.val && next.words == sum.words
      ensures Fits(mSize, mW, next) && SameNextTo(f, mSize, vs, rowIdx, vs[rowIdx], next)
      ensures status == SUCCESS ==> sum.startPos < next.startPos && LedRow(next)
    {
      hide BitAt, RowEquation;
      ReformalizedRow(sum, next, status);
      assert status == SUCCESS ==> BitAt(next.words, 0) && BitAt(sum.words, FirstOne(sum.words));
    }

    /** A row that vanishes keeps echelon form, unless its value is left over. */
    lemma Dropped(vs: seq<Row<T>>, map0: seq<nat>, rowIdx: nat, row: Row<T>, status: EncodeStatus)
      requires rowIdx < |vs| == mN && Echelon(f, mSize, mN, map0, vs, rowIdx)
      requires IsEmpty(row) && (status == ALLZERO ==> row.val == f.zero)
      ensures status == ALLZERO ==> Echelon(f, mSize, mN, map0, vs[rowIdx := row], rowIdx + 1)
    {
      if status == ALLZERO {
        ExtendEchelon(f, mSize, mN, map0, vs, rowIdx, row, map0);
      }
    }

    /** Encodes; output is a codeword for every key exactly on SUCCESS, and FAIL
        is returned exactly when there is none. `draws` is the PRNG stream; it
        goes to the free columns, which determine the rest of the codeword. */
    method Encode(keys: seq<K>, vals: seq<T>, output: array<T>, draws: seq<T>) returns (status: EncodeStatus, ghost free: seq<nat>)
      requires Valid() && |keys| == |vals| == mN && output.Length == mSize <= |draws|
      modifies output
      ensures status == SUCCESS || status == FAIL
      ensures status == SUCCESS ==> forall i :: 0 <= i < mN ==> Decoded(output[..], keys[i]) == vals[i]
      ensures status == FAIL <==> !exists p: seq<T> :: |p| == mSize && Solves(f, System(keys, vals), p)
      ensures status == SUCCESS ==> Draws(free, draws, output[..]) && Descending(free)
      ensures status == SUCCESS ==> forall p: seq<T> :: |p| == mSize && Solves(f, System(keys, vals), p) && Draws(free, draws, p) ==> p == output[..]
    {
      free := [];
      var bitToRowMap := new nat[mSize](_ => mN);
      var rows := InitRows(keys, vals);
      forall i | 0 <= i < mSize {
        output[i] := f.zero;
      }
      hide Field.XorGroup, Field.Group, Separate, Hold, Solves, Holds, SolvesFirst, SameSolutions, Echelon, Fits, Draws, FreeColumns;
      ghost var init := InitValues(keys, vals);
      ghost var vs;
      status, vs := InsertAll(bitToRowMap, rows, keys, vals);
      if status == FAIL {
        return;
      }
      BackSubstitute(bitToRowMap, rows, output, draws, vs);
      free := FreeColumns(bitToRowMap[..], 0);
      Encoded(keys, vals, bitToRowMap[..], vs, draws, output[..]);
      return SUCCESS, free;
    }

    /** Solving the echelon form solves the system, in the one way the draws leave open. */
    lemma Encoded(keys: seq<K>, vals: seq<T>, stored: seq<nat>, ech: seq<Row<T>>, draws: seq<T>, output: seq<T>)
      requires f.Group() && |keys| == |vals| == |ech| == mN && |output| == mSize && Echelon(f, mSize, mN, stored, ech, mN)
      requires SameSolutions(InitValues(keys, vals), ech, mN) && SolvesFirst(f, ech, mN, output)
      requires Draws(FreeColumns(stored, 0), draws, output)
      ensures Solves(f, System(keys, vals), output)
      ensures forall i :: 0 <= i < mN ==> Decoded(output, keys[i]) == vals[i]
      ensures forall p: seq<T> :: |p| == mSize && Solves(f, System(keys, vals), p) && Draws(FreeColumns(stored, 0), draws, p) ==> p == output
    {
      var init := InitValues(keys, vals);
      InitialRows(keys, vals, init, output);
      forall p: seq<T> | |p| == mSize && Solves(f, System(keys, vals), p) && Draws(FreeColumns(stored, 0), draws, p)
        ensures p == output
      {
        InitialRows(keys, vals, init, p);
        OnlySolution(stored, init, ech, draws, output, p);
      }
    }

    function InitValues(keys: seq<K>, vals: seq<T>): (vs: seq<Row<T>>)
      requires |keys| == |vals|
      ensures |vs| == |keys|
      ensures forall i :: 0 <= i < |vs| ==> vs[i] == Row(hash.posOf(keys[i]), hash.bandOf(keys[i]), vals[i])
    {
      seq(|keys|, i requires 0 <= i < |keys| => Row(hash.posOf(keys[i]), hash.bandOf(keys[i]), vals[i]))
    }

    /** The elimination loop of `encode`: brings all rows into echelon form with
        the solutions of the system, or finds that it has none. */
    method InsertAll(bitToRowMap: array<nat>, rows: seq<MatrixRow<T>>, keys: seq<K>, vals: seq<T>) returns (status: EncodeStatus, ghost vs: seq<Row<T>>)
      requires Valid() && Separate(rows) && |keys| == |vals| == mN && bitToRowMap.Length == mSize
      requires Hold(rows, InitValues(keys, vals))
      requires forall c :: 0 <= c < mSize ==> bitToRowMap[c] == mN
      modifies bitToRowMap, rows, set r | r in rows :: r.data
      ensures Separate(rows)
      ensures status == FAIL ==> !exists p: seq<T> :: |p| == mSize && Solves(f, System(keys, vals), p)
      ensures status != FAIL ==> Hold(rows, vs) && Echelon(f, mSize, mN, bitToRowMap[..], vs, mN)
      ensures status != FAIL ==> forall r :: 0 <= r < mN ==> Fits(mSize, mW, vs[r])
      ensures status != FAIL ==> SameSolutions(InitValues(keys, vals), vs, mN)
    {
      ghost var init := InitValues(keys, vals);
      vs := init;
      status := SUCCESS;
      InitialRowsFit(keys, vals, init);
      assert f.Group() && Echelon(f, mSize, mN, bitToRowMap[..], vs, 0) && SameSolutions(init, vs, 0);
      hide Valid, Field.Group, Echelon, Fits, SameSolutions, SameNextTo, Solves, Hash.InRange;
      for i := 0 to mN
        invariant Separate(rows) && Hold(rows, vs) && status != FAIL
        invariant Echelon(f, mSize, mN, bitToRowMap[..], vs, i)
        invariant forall r :: 0 <= r < mN ==> Fits(mSize, mW, vs[r])
        invariant forall r :: i <= r < mN ==> vs[r] == init[r]
        invariant SameSolutions(init, vs, i)
      {
        status := Insert(bitToRowMap, rows, i, vs);
        ghost var vs' := vs[i := rows[i].Value()];
        InsertedKeepsSolutions(init, vs, vs', i);
        if status == FAIL {
          NoSolution(keys, vals, init, vs', i);
          return;
        }
        vs := vs';
      }
    }

    /** The first k rows of both systems have the same solutions. */
    ghost predicate SameSolutions(a: seq<Row<T>>, b: seq<Row<T>>, k: nat)
      requires k <= |a| && k <= |b|
    {
      forall p: seq<T> :: |p| == mSize ==> (SolvesFirst(f, a, k, p) <==> SolvesFirst(f, b, k, p))
    }

    /** One row per key: start position, band and value. */
    method InitRows(keys: seq<K>, vals: seq<T>) returns (rows: seq<MatrixRow<T>>)
      requires Valid() && |keys| == |vals| == mN
      ensures Separate(rows) && fresh(rows) && forall r :: r in rows ==> fresh(r.data)
      ensures Hold(rows, InitValues(keys, vals))
    {
      rows := [];
      for i := 0 to mN
        invariant |rows| == i && fresh(rows) && forall r :: r in rows ==> fresh(r.data)
        invariant forall j :: 0 <= j < i ==> rows[j].data.Length == WordCount()
        invariant forall j, k :: 0 <= j < k < i ==> rows[j] != rows[k] && rows[j].data != rows[k].data
        invariant forall j :: 0 <= j < i ==> rows[j].Value() == Row(hash.posOf(keys[j]), hash.bandOf(keys[j]), vals[j])
      {
        assert hash.InRange(keys[i], mSize, mW);
        var row := new MatrixRow(hash.posOf(keys[i]), hash.bandOf(keys[i]), vals[i]);
        rows := rows + [row];
      }
    }

    lemma InitialRowsFit(keys: seq<K>, vals: seq<T>, init: seq<Row<T>>)
      requires Valid() && |keys| == |vals| == |init|
      requires forall i :: 0 <= i < |keys| ==> init[i] == Row(hash.posOf(keys[i]), hash.bandOf(keys[i]), vals[i])
      ensures forall i :: 0 <= i < |init| ==> Fits(mSize, mW, init[i])
    {
      forall i | 0 <= i < |init|
        ensures Fits(mSize, mW, init[i])
      {
        assert hash.InRange(keys[i], mSize, mW);
      }
    }

    lemma InsertedKeepsSolutions(init: seq<Row<T>>, vs: seq<Row<T>>, vs': seq<Row<T>>, i: nat)
      requires i < |init| == |vs| && vs[i] == init[i] && |vs'| == |vs| && vs' == vs[i := vs'[i]]
      requires SameNextTo(f, mSize, vs, i, vs[i], vs'[i])
      requires SameSolutions(init, vs, i)
      ensures SameSolutions(init, vs', i + 1)
    {
      forall p: seq<T> | |p| == mSize
        ensures SolvesFirst(f, init, i + 1, p) <==> SolvesFirst(f, vs', i + 1, p)
      {
        SolvesOneMore(init, i, p);
        SolvesOneMore(vs', i, p);
        assert forall r :: 0 <= r < i ==> vs'[r] == vs[r];
      }
    }

    lemma SolvesOneMore(vs: seq<Row<T>>, i: nat, p: seq<T>)
      requires i < |vs|
      ensures SolvesFirst(f, vs, i + 1, p) <==> SolvesFirst(f, vs, i, p) && Holds(f, RowEquation(|p|, vs[i]), p)
    {
    }

    /** The initial rows say what the keys and values say. */
    lemma InitialRows(keys: seq<K>, vals: seq<T>, init: seq<Row<T>>, p: seq<T>)
      requires |keys| == |vals| == |init| && |p| == mSize
      requires forall i :: 0 <= i < |keys| ==> init[i] == Row(hash.posOf(keys[i]), hash.bandOf(keys[i]), vals[i])
      ensures Solves(f, System(keys, vals), p) <==> SolvesFirst(f, init, |init|, p)
      ensures SolvesFirst(f, init, |init|, p) <==> forall i :: 0 <= i < |keys| ==> Decoded(p, keys[i]) == vals[i]
    {
      var es := System(keys, vals);
      assert forall i :: 0 <= i < |keys| ==> es[i] == RowEquation(mSize, init[i]);
      assert forall i :: 0 <= i < |keys| ==> (Holds(f, RowEquation(mSize, init[i]), p) <==> Decoded(p, keys[i]) == vals[i]);
    }

    /** A row that lost all its columns but not its value refutes the system. */
    lemma NoSolution(keys: seq<K>, vals: seq<T>, init: seq<Row<T>>, vs: seq<Row<T>>, i: nat)
      requires f.Group() && |keys| == |vals| == |init| == |vs| && i < |vs|
      requires forall j :: 0 <= j < |keys| ==> init[j] == Row(hash.posOf(keys[j]), hash.bandOf(keys[j]), vals[j])
      requires SameSolutions(init, vs, i + 1)
      requires IsEmpty(vs[i]) && vs[i].val != f.zero
      ensures !exists p: seq<T> :: |p| == mSize && Solves(f, System(keys, vals), p)
    {
      forall p: seq<T> | |p| == mSize
        ensures !Solves(f, System(keys, vals), p)
      {
        InitialRows(keys, vals, init, p);
        EmptyRow(f, mSize, vs[i], p);
      }
    }

    /** The columns at or behind c that no row leads, last one first. */
    ghost function FreeColumns(map_: seq<nat>, c: nat): (r: seq<nat>)
      requires |map_| == mSize && c <= mSize
      ensures |r| <= mSize - c && forall k :: 0 <= k < |r| ==> c <= r[k] < mSize && map_[r[k]] == mN
      ensures forall x :: c <= x < mSize && map_[x] == mN ==> x in r
      ensures Descending(r)
      decreases mSize - c
    {
      if c == mSize then []
      else if map_[c] == mN then FreeColumns(map_, c + 1) + [c]
      else FreeColumns(map_, c + 1)
    }

    ghost predicate Descending(free: seq<nat>) {
      forall i, j :: 0 <= i < j < |free| ==> free[j] < free[i]
    }

    /** Solves the echelon form from the last column down; columns without a row
        take the PRNG outputs in turn. */
    method BackSubstitute(bitToRowMap: array<nat>, rows: seq<MatrixRow<T>>, output: array<T>, draws: seq<T>, ghost ech: seq<Row<T>>)
      requires Valid() && Separate(rows) && Hold(rows, ech) && output.Length == mSize <= |draws|
      requires output as object != bitToRowMap && forall r :: r in rows ==> output as object != r.data && bitToRowMap as object != r.data
      requires Echelon(f, mSize, mN, bitToRowMap[..], ech, mN)
      requires forall r :: 0 <= r < mN ==> Fits(mSize, mW, ech[r])
      modifies output, set r | r in rows :: r.data
      ensures bitToRowMap[..] == old(bitToRowMap[..])
      ensures SolvesFirst(f, ech, mN, output[..])
      ensures Draws(FreeColumns(bitToRowMap[..], 0), draws, output[..])
    {
      ghost var stored := bitToRowMap[..];
      var next := 0;
      assert f.Group() && |ech| == |rows| == mN && bitToRowMap.Length == mSize;
      assert Draws([], draws, output[..]) && Kept(rows, stored, ech, mSize) && SolvedBehind(stored, ech, output[..], mSize);
      hide Valid, Field.Group, Echelon, Fits, Separate, Hold, Kept, SolvedBehind, SolvesFirst, Draws;
      for i := mSize downto 0
        invariant next == |FreeColumns(stored, i)|
        invariant bitToRowMap[..] == stored
        invariant Kept(rows, stored, ech, i)
        invariant SolvedBehind(stored, ech, output[..], i)
        invariant Draws(FreeColumns(stored, i), draws, output[..])
      {
        next := SubstituteColumn(bitToRowMap, rows, output, draws, ech, i, next);
      }
      EchelonSolved(stored, ech, output[..]);
    }

    /** The rows of columns before i are as they were. */
    ghost predicate Kept(rows: seq<MatrixRow<T>>, stored: seq<nat>, ech: seq<Row<T>>, i: nat)
      requires |stored| == mSize && |ech| == |rows| && i <= mSize
      reads rows, set r | r in rows :: r.data
    {
      forall c :: 0 <= c < i && stored[c] != mN ==> stored[c] < |rows| && rows[stored[c]].Value() == ech[stored[c]]
    }

    /** The rows of columns from i on are solved. */
    ghost predicate SolvedBehind(stored: seq<nat>, ech: seq<Row<T>>, p: seq<T>, i: nat)
      requires |stored| == |p| == mSize && i <= mSize
    {
      forall c :: i <= c < mSize && stored[c] != mN ==> stored[c] < |ech| && SolvedFrom(ech[stored[c]], p, c)
    }

    method SubstituteColumn(bitToRowMap: array<nat>, rows: seq<MatrixRow<T>>, output: array<T>, draws: seq<T>, ghost ech: seq<Row<T>>, i: nat, next0: nat)
      returns (next: nat)
      requires Valid() && Separate(rows) && |ech| == |rows| == mN && output.Length == bitToRowMap.Length == mSize <= |draws| && i < mSize
      requires output as object != bitToRowMap && forall r :: r in rows ==> output as object != r.data && bitToRowMap as object != r.data
      requires Echelon(f, mSize, mN, bitToRowMap[..], ech, mN)
      requires forall r :: 0 <= r < mN ==> Fits(mSize, mW, ech[r])
      requires next0 == |FreeColumns(bitToRowMap[..], i + 1)| && Draws(FreeColumns(bitToRowMap[..], i + 1), draws, output[..])
      requires Kept(rows, bitToRowMap[..], ech, i + 1) && SolvedBehind(bitToRowMap[..], ech, output[..], i + 1)
      modifies output, set r | r in rows :: r.data
      ensures bitToRowMap[..] == old(bitToRowMap[..])
      ensures Kept(rows, bitToRowMap[..], ech, i) && SolvedBehind(bitToRowMap[..], ech, output[..], i)
      ensures next == |FreeColumns(bitToRowMap[..], i)| && Draws(FreeColumns(bitToRowMap[..], i), draws, output[..])
    {
      hide Valid, Separate, Stored, Fits, Field.XorGroup, Echelon, Kept, SolvedFrom, SolvedBehind, Draws, FreeColumns;
      ghost var stored := bitToRowMap[..];
      ghost var q := output[..];
      next := next0;
      FreeNext(stored, i);
      KeptLess(rows, stored, ech, i);
      if bitToRowMap[i] != mN {
        SubstituteLed(bitToRowMap, rows, output, ech, i);
      } else {
        output[i] := draws[next];
        next := next + 1;
      }
      StillSolved(stored, ech, q, output[..], i);
      SolvedNext(stored, ech, output[..], i);
      DrawsNext(stored, draws, q, output[..], i);
    }

    /** Substitutes into the row that column i leads. */
    method SubstituteLed(bitToRowMap: array<nat>, rows: seq<MatrixRow<T>>, output: array<T>, ghost ech: seq<Row<T>>, i: nat)
      requires Valid() && Separate(rows) && |ech| == mN && output.Length == mSize && i < mSize
      requires output as object != bitToRowMap && forall r :: r in rows ==> output as object != r.data && bitToRowMap as object != r.data
      requires Echelon(f, mSize, mN, bitToRowMap[..], ech, mN) && bitToRowMap[i] != mN
      requires forall r :: 0 <= r < mN ==> Fits(mSize, mW, ech[r])
      requires Kept(rows, bitToRowMap[..], ech, i + 1)
      modifies output, set r | r in rows :: r.data
      ensures bitToRowMap[..] == old(bitToRowMap[..])
      ensures Kept(rows, bitToRowMap[..], ech, i)
      ensures bitToRowMap[i] < |ech| && SolvedFrom(ech[bitToRowMap[i]], output[..], i)
      ensures forall c :: 0 <= c < mSize && c != i ==> output[c] == old(output[c])
    {
      hide Valid, Stored, Fits, IsEmpty, Field.XorGroup, SolvedFrom;
      SubstituteRow(rows[bitToRowMap[i]], i, output);
    }

    lemma KeptLess(rows: seq<MatrixRow<T>>, stored: seq<nat>, ech: seq<Row<T>>, i: nat)
      requires |stored| == mSize && |ech| == |rows| && i < mSize && Kept(rows, stored, ech, i + 1)
      ensures Kept(rows, stored, ech, i)
    {
    }

    lemma FreeNext(map_: seq<nat>, c: nat)
      requires |map_| == mSize && c < mSize
      ensures FreeColumns(map_, c) == if map_[c] == mN then FreeColumns(map_, c + 1) + [c] else FreeColumns(map_, c + 1)
    {
    }

    lemma SolvedNext(stored: seq<nat>, ech: seq<Row<T>>, p: seq<T>, i: nat)
      requires |stored| == |p| == mSize && i < mSize && SolvedBehind(stored, ech, p, i + 1)
      requires stored[i] != mN ==> stored[i] < |ech| && SolvedFrom(ech[stored[i]], p, i)
      ensures SolvedBehind(stored, ech, p, i)
    {
      hide SolvedFrom;
    }

    ghost predicate Draws(free: seq<nat>, draws: seq<T>, p: seq<T>) {
      |free| <= |draws| && forall k :: 0 <= k < |free| ==> free[k] < |p| && p[free[k]] == draws[k]
    }

    lemma DrawsNext(stored: seq<nat>, draws: seq<T>, q: seq<T>, p: seq<T>, i: nat)
      requires |stored| == |p| == |q| == mSize <= |draws| && i < mSize && Draws(FreeColumns(stored, i + 1), draws, q)
      requires forall c :: 0 <= c < mSize && c != i ==> p[c] == q[c]
      requires stored[i] == mN ==> p[i] == draws[|FreeColumns(stored, i + 1)|]
      ensures Draws(FreeColumns(stored, i), draws, p)
    {
      hide FreeColumns;
      FreeNext(stored, i);
    }

    /** Writing column i leaves the rows led by later columns solved. */
    lemma StillSolved(stored: seq<nat>, ech: seq<Row<T>>, q: seq<T>, p: seq<T>, i: nat)
      requires Echelon(f, mSize, mN, stored, ech, |ech|) && |ech| == mN && |q| == |p| == mSize && i < mSize
      requires forall c :: 0 <= c < mSize && c != i ==> p[c] == q[c]
      requires SolvedBehind(stored, ech, q, i + 1)
      ensures SolvedBehind(stored, ech, p, i + 1)
    {
      forall c | i < c < mSize && stored[c] != mN
        ensures SolvedFrom(ech[stored[c]], p, c)
      {
        var coef := Coef(mSize, ech[stored[c]].startPos, ech[stored[c]].words);
        SumSame(f, coef, q, coef, p, c, mSize);
      }
    }

    /** A row led by column c selects nothing in front of it. */
    lemma LedFrom(r: Row<T>, p: seq<T>)
      requires f.Group() && |p| == mSize && r.startPos < mSize
      ensures SolvedFrom(r, p, r.startPos) <==> Holds(f, RowEquation(mSize, r), p)
    {
      var c := r.startPos;
      var coef := Coef(mSize, c, r.words);
      SumSplit(f, coef, p, 0, c, mSize);
      SumNone(f, coef, p, 0, c);
      f.Zero(Sum(f, coef, p, c, mSize));
    }

    lemma EchelonSolved(stored: seq<nat>, ech: seq<Row<T>>, p: seq<T>)
      requires f.Group() && |p| == mSize && |ech| == mN && Echelon(f, mSize, mN, stored, ech, mN)
      requires SolvedBehind(stored, ech, p, 0)
      ensures SolvesFirst(f, ech, mN, p)
    {
      forall r | 0 <= r < mN
        ensures Holds(f, RowEquation(mSize, ech[r]), p)
      {
        assert Stored(f, mSize, stored, ech, r);
        if IsEmpty(ech[r]) {
          EmptyRow(f, mSize, ech[r], p);
        } else {
          LedFrom(ech[r], p);
        }
      }
    }

    /** The free columns determine a solution: two that agree there are equal. */
    lemma {:induction false} SolutionsAgree(stored: seq<nat>, ech: seq<Row<T>>, p: seq<T>, q: seq<T>, c: nat)
      requires f.Group() && |p| == |q| == mSize && |ech| == mN && Echelon(f, mSize, mN, stored, ech, mN)
      requires SolvesFirst(f, ech, mN, p) && SolvesFirst(f, ech, mN, q) && c <= mSize
      requires forall x :: 0 <= x < mSize && stored[x] == mN ==> p[x] == q[x]
      ensures forall x :: c <= x < mSize ==> p[x] == q[x]
      decreases mSize - c
    {
      if c < mSize {
        SolutionsAgree(stored, ech, p, q, c + 1);
        if stored[c] != mN {
          LeadAgrees(ech[stored[c]], p, q);
        }
      }
    }

    lemma LeadAgrees(r: Row<T>, p: seq<T>, q: seq<T>)
      requires f.Group() && |p| == |q| == mSize && r.startPos < mSize && BitAt(r.words, 0)
      requires Holds(f, RowEquation(mSize, r), p) && Holds(f, RowEquation(mSize, r), q)
      requires forall x :: r.startPos < x < mSize ==> p[x] == q[x]
      ensures p[r.startPos] == q[r.startPos]
    {
      var c := r.startPos;
      var coef := Coef(mSize, c, r.words);
      LedFrom(r, p);
      LedFrom(r, q);
      SumSplit(f, coef, p, c, c + 1, mSize);
      SumSplit(f, coef, q, c, c + 1, mSize);
      SumOne(f, coef, p, c);
      SumOne(f, coef, q, c);
      SumSame(f, coef, p, coef, q, c + 1, mSize);
      var rest := Sum(f, coef, p, c + 1, mSize);
      f.Comm(p[c], rest);
      f.Comm(q[c], rest);
      f.CancelLeft(rest, p[c], q[c]);
    }

    /** The codeword found is the only solution with these free columns. */
    lemma OnlySolution(stored: seq<nat>, init: seq<Row<T>>, ech: seq<Row<T>>, draws: seq<T>, output: seq<T>, p: seq<T>)
      requires f.Group() && |p| == |output| == mSize && |ech| == |init| == mN && Echelon(f, mSize, mN, stored, ech, mN)
      requires SameSolutions(init, ech, mN) && SolvesFirst(f, ech, mN, output) && SolvesFirst(f, init, mN, p)
      requires Draws(FreeColumns(stored, 0), draws, output) && Draws(FreeColumns(stored, 0), draws, p)
      ensures p == output
    {
      SolutionsAgree(stored, ech, p, output, 0);
    }

    ghost predicate SolvedFrom(r: Row<T>, p: seq<T>, c: nat)
      requires |p| == mSize && c <= mSize
    {
      Sum(f, Coef(mSize, r.startPos, r.words), p, c, mSize) == r.val
    }

    /** Computes output[i] from the columns behind it and the row led by i. */
    method SubstituteRow(row: MatrixRow<T>, i: nat, output: array<T>)
      requires Valid() && i < mSize && output.Length == mSize && output as object != row.data
      requires row.data.Length == WordCount() && Fits(mSize, mW, row.Value())
      requires row.startPos == i && BitAt(row.data[..], 0)
      modifies output, row.data
      ensures forall c :: 0 <= c < mSize && c != i ==> output[c] == old(output[c])
      ensures SolvedFrom(old(row.Value()), output[..], i)
    {
      ghost var before := row.Value();
      var ptr := row.data;
      output[i] := row.val;
      ptr[0] := ClearTop(ptr[0]);
      ghost var q := output[..];
      ghost var coef := Coef(mSize, i, ptr[..]);
      ghost var words := ptr[..];
      assert forall b: nat :: BitAt(words, b) == (b != 0 && BitAt(before.words, b));
      f.Zero(row.val);
      var j := SubstituteWords(row, i, output, q);
      j := SubstituteTail(row, i, output, j, q);
      SolvedRow(before, words, q, output[..], i, j);
    }

    /** What the loops of the back substitution keep: output[i] is the value of
        the row plus the selected columns in [i, j). */
    ghost predicate Partial(row: MatrixRow<T>, i: nat, p: seq<T>, q: seq<T>, j: nat)
      requires i <= j <= mSize && |p| == |q| == mSize && i < mSize
      reads row, row.data
    {
      p == q[i := f.Add(row.val, Sum(f, Coef(mSize, i, row.data[..]), q, i, j))]
    }

    method SubstituteWords(row: MatrixRow<T>, i: nat, output: array<T>, ghost q: seq<T>) returns (j: nat)
      requires Valid() && i < mSize && output.Length == mSize == |q| && output as object != row.data
      requires row.data.Length == WordCount() && !BitAt(row.data[..], 0)
      requires Partial(row, i, output[..], q, i)
      modifies output
      ensures i <= j <= i + mW && j <= mSize && Partial(row, i, output[..], q, j)
    {
      hide Partial;
      ghost var k := 0;
      j := i;
      while j < i + mW - 64 && j < mSize - 64
        invariant j == i + 64 * k && j <= i + mW && j <= mSize
        invariant Partial(row, i, output[..], q, j)
      {
        SubstituteWord(row, i, output, j, k, q);
        j, k := j + 64, k + 1;
      }
    }

    method SubstituteWord(row: MatrixRow<T>, i: nat, output: array<T>, j: nat, ghost k: nat, ghost q: seq<T>)
      requires Valid() && i < mSize && output.Length == mSize == |q| && output as object != row.data
      requires row.data.Length == WordCount() && !BitAt(row.data[..], 0)
      requires j == i + 64 * k && j < i + mW - 64 && j < mSize - 64 && Partial(row, i, output[..], q, j)
      modifies output
      ensures Partial(row, i, output[..], q, j + 64)
    {
      hide Field.Group, Sum;
      var ptr := row.data;
      ghost var coef := Coef(mSize, i, ptr[..]);
      CoefOfWord(mSize, i, ptr[..], k);
      assert (j - i) / 64 == k;
      var res := AddWord(f, output[i], output, j, ptr[(j - i) / 64], coef);
      SumSame(f, coef, output[..], coef, q, j, j + 64);
      SumSplit(f, coef, q, i, j, j + 64);
      f.Assoc(row.val, Sum(f, coef, q, i, j), Sum(f, coef, q, j, j + 64));
      output[i] := res;
    }

    method SubstituteTail(row: MatrixRow<T>, i: nat, output: array<T>, from: nat, ghost q: seq<T>) returns (j: nat)
      requires Valid() && i < mSize && output.Length == mSize == |q| && output as object != row.data
      requires row.data.Length == WordCount() && !BitAt(row.data[..], 0)
      requires i <= from <= i + mW && from <= mSize && Partial(row, i, output[..], q, from)
      modifies output
      ensures (j == i + mW || j == mSize) && i <= j <= mSize && Partial(row, i, output[..], q, j)
    {
      var ptr := row.data;
      ghost var coef := Coef(mSize, i, ptr[..]);
      j := from;
      while j < i + mW && j < mSize
        invariant i <= j <= i + mW && j <= mSize
        invariant Partial(row, i, output[..], q, j)
      {
        assert coef[j] == ptr[(j - i) / 64][(j - i) % 64];
        f.Assoc(row.val, Sum(f, coef, q, i, j), q[j]);
        if ptr[(j - i) / 64][(j - i) % 64] {
          output[i] := f.Add(output[i], output[j]);
        }
        j := j + 1;
      }
    }

    /** Adding the columns behind i to the value solves the row for column i. */
    lemma SolvedRow(before: Row<T>, words: seq<Word>, q: seq<T>, p: seq<T>, i: nat, j: nat)
      requires f.XorGroup() && i < mSize && |q| == |p| == mSize && i <= j <= mSize
      requires before.startPos == i && BitAt(before.words, 0) && Fits(mSize, mW, before)
      requires forall b: nat :: BitAt(words, b) == (b != 0 && BitAt(before.words, b))
      requires j == i + mW || j == mSize
      requires p == q[i := f.Add(before.val, Sum(f, Coef(mSize, i, words), q, i, j))]
      ensures SolvedFrom(before, p, i)
    {
      hide Coef, BitAt, Field.Group, Fits;
      CoefsOff(before, words, i, j);
      var coef, full := Coef(mSize, i, words), Coef(mSize, i, before.words);
      SumSplit(f, coef, q, i, j, mSize);
      SumNone(f, coef, q, j, mSize);
      f.Zero(Sum(f, coef, q, i, j));
      var rest := Sum(f, full, p, i + 1, mSize);
      SumSplit(f, coef, q, i, i + 1, mSize);
      SumOne(f, coef, q, i);
      SumSame(f, coef, q, full, p, i + 1, mSize);
      f.Zero(rest);
      SumSplit(f, full, p, i, i + 1, mSize);
      SumOne(f, full, p, i);
      f.XorMove(before.val, rest);
    }

    /** Without its leading column, the band selects the same columns behind it. */
    lemma CoefsOff(before: Row<T>, words: seq<Word>, i: nat, j: nat)
      requires i < mSize && i <= j <= mSize && (j == i + mW || j == mSize)
      requires before.startPos == i && BitAt(before.words, 0) && Fits(mSize, mW, before)
      requires forall b: nat :: BitAt(words, b) == (b != 0 && BitAt(before.words, b))
      ensures var coef, full := Coef(mSize, i, words), Coef(mSize, i, before.words);
        && !coef[i] && full[i]
        && (forall c :: i < c < mSize ==> coef[c] == full[c])
        && forall c :: j <= c < mSize ==> !coef[c]
    {
    }

    method Decode(codeWords: array<T>, key: K) returns (res: T)
      requires Valid() && codeWords.Length == mSize
      ensures res == Decoded(codeWords[..], key)
    {
      var startPos := hash.posOf(key);
      var ptr := hash.bandOf(key);
      assert hash.InRange(key, mSize, mW);
      ghost var coef := Coef(mSize, startPos, ptr);
      res := f.zero;
      var j := 0;
      ghost var k := 0;
      while j < mW - 64
        invariant j == 64 * k <= mW
        invariant res == Sum(f, coef, codeWords[..], startPos, startPos + j)
      {
        res := DecodeWord(codeWords, startPos, ptr, res, j, k);
        j, k := j + 64, k + 1;
      }
      res := DecodeTail(codeWords, startPos, ptr, res, j);
      BandOnly(codeWords[..], coef, startPos, startPos + mW);
    }

    method DecodeWord(codeWords: array<T>, startPos: nat, ptr: seq<Word>, acc: T, j: nat, ghost k: nat) returns (res: T)
      requires f.Group() && codeWords.Length == mSize && startPos + j + 64 <= mSize && j == 64 * k && k < |ptr|
      requires acc == Sum(f, Coef(mSize, startPos, ptr), codeWords[..], startPos, startPos + j)
      ensures res == Sum(f, Coef(mSize, startPos, ptr), codeWords[..], startPos, startPos + j + 64)
    {
      hide Field.Group, Coef, Sum;
      ghost var coef := Coef(mSize, startPos, ptr);
      CoefOfWord(mSize, startPos, ptr, k);
      assert j / 64 == k;
      res := AddWord(f, acc, codeWords, startPos + j, ptr[j / 64], coef);
      SumSplit(f, coef, codeWords[..], startPos, startPos + j, startPos + j + 64);
    }

    method DecodeTail(codeWords: array<T>, startPos: nat, ptr: seq<Word>, acc: T, from: nat) returns (res: T)
      requires codeWords.Length == mSize && startPos + mW <= mSize && |ptr| == WordCount() && from <= mW
      requires acc == Sum(f, Coef(mSize, startPos, ptr), codeWords[..], startPos, startPos + from)
      ensures res == Sum(f, Coef(mSize, startPos, ptr), codeWords[..], startPos, startPos + mW)
    {
      ghost var coef := Coef(mSize, startPos, ptr);
      res := acc;
      for j := from to mW
        invariant res == Sum(f, coef, codeWords[..], startPos, startPos + j)
      {
        assert coef[startPos + j] == ptr[j / 64][j % 64];
        if ptr[j / 64][j % 64] {
          res := f.Add(res, codeWords[startPos + j]);
        }
      }
    }

    /** Outside the band nothing is selected. */
    lemma BandOnly(p: seq<T>, coef: seq<bool>, lo: nat, hi: nat)
      requires f.Group() && |p| == |coef| && lo <= hi <= |p|
      requires forall c :: 0 <= c < |p| && coef[c] ==> lo <= c < hi
      ensures Sum(f, coef, p, 0, |p|) == Sum(f, coef, p, lo, hi)
    {
      SumSplit(f, coef, p, 0, lo, |p|);
      SumSplit(f, coef, p, lo, hi, |p|);
      SumNone(f, coef, p, 0, lo);
      SumNone(f, coef, p, hi, |p|);
      f.Zero(Sum(f, coef, p, lo, hi));
    }

    /** XORs the band and the value of a stored row into `row`. */
    method XorRow(row: MatrixRow<T>, other: MatrixRow<T>)
      requires row != other && row.data != other.data && row.data.Length == other.data.Length
      modifies row`val, row.data
      ensures row.Value() == AddRows(f, old(row.Value()), other.Value())
    {
      for i := 0 to row.data.Length
        invariant forall q :: 0 <= q < i ==> row.data[q] == Xor(old(row.data[q]), other.data[q])
        invariant forall q :: i <= q < row.data.Length ==> row.data[q] == old(row.data[q])
        invariant row.val == old(row.val)
      {
        row.data[i] := Xor(row.data[i], other.data[i]);
      }
      row.val := f.Add(row.val, other.val);
      assert row.data[..] == XorWords(old(row.data[..]), other.data[..]);
    }

    /** Reformalizing a row that fits leaves its equation as it was. */
    lemma ReformalizedRow(a: Row<T>, b: Row<T>, status: EncodeStatus)
      requires Fits(mSize, mW, a)
      requires status == SUCCESS ==>
        b.val == a.val && Shifted(a.words, b.words, FirstOne(a.words)) && b.startPos == a.startPos + FirstOne(a.words)
      requires status != SUCCESS ==> IsEmpty(a) && b.val == a.val && b.words == a.words
      ensures RowEquation(mSize, b) == RowEquation(mSize, a) && Fits(mSize, mW, b)
    {
      if status == SUCCESS {
        ShiftKeepsEquation(mSize, mW, a, b, FirstOne(a.words));
      } else {
        assert Coef(mSize, a.startPos, a.words) == Coef(mSize, b.startPos, b.words);
      }
    }
  }

  /** The unrolled loop over the 64 bits of one word, lowest bit first. */
  method AddWord<T(!new)>(f: Field<T>, acc: T, p: array<T>, at: nat, w: Word, ghost coef: seq<bool>) returns (res: T)
    requires f.Group() && at + 64 <= p.Length == |coef|
    requires forall b :: 0 <= b < 64 ==> coef[at + b] == w[b]
    ensures res == f.Add(acc, Sum(f, coef, p[..], at, at + 64))
  {
    var tmp := w;
    res := acc;
    f.Zero(acc);
    for k := 0 to 64
      invariant tmp == ShiftRight(w, k)
      invariant res == f.Add(acc, Sum(f, coef, p[..], at + 64 - k, at + 64))
    {
      ghost var c := at + 63 - k;
      ghost var rest := Sum(f, coef, p[..], c + 1, at + 64);
      ghost var x := if tmp[63] then p[c] else f.zero;
      SumSplit(f, coef, p[..], c, c + 1, at + 64);
      SumOne(f, coef, p[..], c);
      f.Comm(x, rest);
      f.Assoc(acc, rest, x);
      res := f.Add(res, if tmp[63] then p[at + 63 - k] else f.zero);
      tmp := ShiftRight(tmp, 1);
    }
  }

  /** The index of the first 128-bit block with a set bit, or the block count. */
  method FirstNonZeroBlock(ptr: array<Word>, wBlocks: nat) returns (numZeroBlocks: nat)
    requires ptr.Length == 2 * wBlocks
    ensures numZeroBlocks <= wBlocks
    ensures forall q :: 0 <= q < 2 * numZeroBlocks ==> IsZero(ptr[q])
    ensures numZeroBlocks < wBlocks ==> !IsZero(ptr[2 * numZeroBlocks]) || !IsZero(ptr[2 * numZeroBlocks + 1])
  {
    for i := 0 to wBlocks
      invariant forall q :: 0 <= q < 2 * i ==> IsZero(ptr[q])
    {
      if !(IsZero(ptr[2 * i]) && IsZero(ptr[2 * i + 1])) {
        return i;
      }
    }
    return wBlocks;
  }

  lemma ShiftedByNone(ws: seq<Word>)
    ensures Shifted(ws, ws, 0)
  {
  }

  /** The word move followed by the bit shift drops exactly the leading zeros. */
  lemma MovedThenShifted(before: seq<Word>, moved: seq<Word>, after: seq<Word>, off: nat, k: nat)
    requires |before| == |moved| == |after| && off < |before| && k < 64
    requires forall q :: 0 <= q < off ==> IsZero(before[q])
    requires forall q :: 0 <= q < |before| ==> moved[q] == if q + off < |before| then before[q + off] else Zeros(64)
    requires moved[0][k] && forall b :: 0 <= b < k ==> !moved[0][b]
    requires Shifted(moved, after, k)
    ensures FirstOne(before) == 64 * off + k
    ensures Shifted(before, after, 64 * off + k) && BitAt(after, 0)
  {
    MovedWordsShift(before, moved, off);
    forall i: nat
      ensures BitAt(after, i) == BitAt(before, i + (64 * off + k))
    {
      assert BitAt(after, i) == BitAt(moved, i + k) == BitAt(before, i + k + 64 * off);
    }
    assert BitAt(after, 0) == BitAt(moved, k);
    forall i: nat | i < 64 * off + k
      ensures !BitAt(before, i)
    {
      if i < 64 * off {
        assert IsZero(before[i / 64]);
      } else {
        assert BitAt(moved, i - 64 * off) == BitAt(before, i);
      }
    }
    FirstOneIs(before, 64 * off + k);
  }

  /** memmove of the words behind the first `off` ones to the front, then memset. */
  method MoveWords(ptr: array<Word>, off: nat)
    requires off <= ptr.Length
    modifies ptr
    ensures forall q :: 0 <= q < ptr.Length ==> ptr[q] == if q + off < ptr.Length then old(ptr[q + off]) else Zeros(64)
  {
    for q := 0 to ptr.Length - off
      invariant forall r :: 0 <= r < q ==> ptr[r] == old(ptr[r + off])
      invariant forall r :: q <= r < ptr.Length ==> ptr[r] == old(ptr[r])
    {
      ptr[q] := ptr[q + off];
    }
    for q := ptr.Length - off to ptr.Length
      invariant forall r :: 0 <= r < ptr.Length - off ==> ptr[r] == old(ptr[r + off])
      invariant forall r :: ptr.Length - off <= r < q ==> ptr[r] == Zeros(64)
    {
      ptr[q] := Zeros(64);
    }
  }

  lemma MovedWordsShift(before: seq<Word>, moved: seq<Word>, off: nat)
    requires |moved| == |before|
    requires forall q :: 0 <= q < |before| ==> moved[q] == if q + off < |before| then before[q + off] else Zeros(64)
    ensures Shifted(before, moved, 64 * off)
  {
    forall i: nat
      ensures BitAt(moved, i) == BitAt(before, i + 64 * off)
    {
      assert (i + 64 * off) / 64 == i / 64 + off && (i + 64 * off) % 64 == i % 64;
    }
  }

  /** __builtin_clzll of a non-zero word. */
  method LeadingZeros(w: Word) returns (k: nat)
    requires !IsZero(w)
    ensures k < 64 && w[k] && forall b :: 0 <= b < k ==> !w[b]
  {
    k := 0;
    while !w[k]
      invariant k < 64 && forall b :: 0 <= b < k ==> !w[b]
      decreases 64 - k
    {
      assert exists b :: 0 <= b < 64 && w[b];
      k := k + 1;
    }
  }

  /** Shifts the first `used` words left by k bits, each taking the top bits of
      the next one; the words behind them are zero. */
  method ShiftAcrossWords(ptr: array<Word>, k: nat, used: nat)
    requires 0 < k < 64 && 0 < used <= ptr.Length
    requires forall q :: used <= q < ptr.Length ==> ptr[q] == Zeros(64)
    modifies ptr
    ensures Shifted(old(ptr[..]), ptr[..], k)
  {
    ghost var before := ptr[..];
    for i := 0 to used - 1
      invariant forall q :: i <= q < ptr.Length ==> ptr[q] == before[q]
      invariant forall q :: 0 <= q < i ==> ptr[q] == Or(ShiftLeft(before[q], k), ShiftRight(before[q + 1], 64 - k))
    {
      ptr[i] := Or(ShiftLeft(ptr[i], k), ShiftRight(ptr[i + 1], 64 - k));
    }
    ptr[used - 1] := ShiftLeft(ptr[used - 1], k);
    ShiftedAcrossWords(before, ptr[..], k, used);
  }

  lemma ShiftedAcrossWords(before: seq<Word>, after: seq<Word>, k: nat, used: nat)
    requires 0 < k < 64 && 0 < used <= |before| == |after|
    requires forall q :: used <= q < |before| ==> before[q] == after[q] == Zeros(64)
    requires forall q :: 0 <= q < used - 1 ==> after[q] == Or(ShiftLeft(before[q], k), ShiftRight(before[q + 1], 64 - k))
    requires after[used - 1] == ShiftLeft(before[used - 1], k)
    ensures Shifted(before, after, k)
  {
    forall i: nat
      ensures BitAt(after, i) == BitAt(before, i + k)
    {
      var q, b := i / 64, i % 64;
      assert i == 64 * q + b;
      if b + k < 64 {
        BitOfWord(before, q, b + k);
      } else {
        BitOfWord(before, q + 1, b + k - 64);
      }
      if q < used - 1 {
        CrossWordBit(before[q], before[q + 1], k, b);
      }
    }
  }
}
