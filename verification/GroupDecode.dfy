/** Decoding 32 rows at once: column by column and power by power, all rows in
    step. */
module GroupDecode {
  import opened Fields
  import opened Inversion
  import opened SparseRows
  import opened Backfill

  const GROUP: nat := 32

  /** Every row has its columns below s. */
  ghost predicate RowsBelow(rows: seq<seq<nat>>, weight: nat, s: nat) {
    forall k :: 0 <= k < |rows| ==> RowBelow(rows[k], weight, s)
  }

  ghost predicate RowBelow(row: seq<nat>, weight: nat, s: nat) {
    |row| == weight && forall j :: 0 <= j < weight ==> row[j] < s
  }

  /** What lane k holds after j sparse columns and i powers. */
  ghost function Lane<T(!new)>(f: Field<T>, row: seq<nat>, d: T, p: seq<T>, s: nat, j: nat, i: nat): T
    requires j <= |row| && s + i <= |p| && forall c :: 0 <= c < |row| ==> row[c] < s
  {
    f.Add(RowSum(f, row[..j], p), DenseSum(f, d, p[s..s + i]))
  }

  ghost predicate Lanes<T(!new)>(f: Field<T>, rows: seq<seq<nat>>, weight: nat, dense: seq<T>, p: seq<T>, s: nat, j: nat, i: nat, now: seq<T>)
    requires RowsBelow(rows, weight, s) && j <= weight && s + i <= |p|
  {
    |rows| == |dense| == |now| && forall k :: 0 <= k < |now| ==> LaneIs(f, rows[k], weight, dense[k], p, s, j, i, now[k])
  }

  ghost predicate LaneIs<T(!new)>(f: Field<T>, row: seq<nat>, weight: nat, d: T, p: seq<T>, s: nat, j: nat, i: nat, v: T)
    requires RowBelow(row, weight, s) && j <= weight && s + i <= |p|
  {
    v == Lane(f, row, d, p, s, j, i)
  }

  /** One more sparse column for every lane; the first one overwrites. */
  method AddColumn<T(!new)>(f: Field<T>, rows: seq<seq<nat>>, weight: nat, ghost dense: seq<T>, p: array<T>, s: nat, j: nat, values: array<T>)
    requires f.Domain() && |rows| == |dense| == values.Length == GROUP && RowsBelow(rows, weight, s) && j < weight && s <= p.Length && values != p
    requires j > 0 ==> Lanes(f, rows, weight, dense, p[..], s, j, 0, values[..])
    modifies values
    ensures Lanes(f, rows, weight, dense, p[..], s, j + 1, 0, values[..])
  {
    hide Field.Domain, Lane;
    ghost var was := values[..];
    for k := 0 to GROUP
      invariant forall l :: k <= l < GROUP ==> values[l] == was[l]
      invariant forall l :: 0 <= l < k ==> LaneIs(f, rows[l], weight, dense[l], p[..], s, j + 1, 0, values[l])
    {
      var c := rows[k][j];
      OneColumn(f, rows[k], weight, dense[k], p[..], s, j);
      values[k] := if j == 0 then p[c] else f.Add(values[k], p[c]);
    }
  }

  lemma OneColumn<T(!new)>(f: Field<T>, row: seq<nat>, weight: nat, d: T, p: seq<T>, s: nat, j: nat)
    requires f.Domain() && RowBelow(row, weight, s) && j < weight && s <= |p|
    ensures Lane(f, row, d, p, s, j + 1, 0) == f.Add(Lane(f, row, d, p, s, j, 0), p[row[j]])
    ensures j == 0 ==> Lane(f, row, d, p, s, 1, 0) == p[row[0]]
  {
    hide Field.Group;
    assert row[..j + 1][..j] == row[..j];
    assert p[s..s + 0] == [] && DenseSum(f, d, []) == f.zero;
    f.Zero(RowSum(f, row[..j], p));
    f.Zero(RowSum(f, row[..j + 1], p));
    f.Zero(p[row[j]]);
  }

  /** One more power for every lane. */
  method AddPower<T(!new)>(f: Field<T>, rows: seq<seq<nat>>, weight: nat, dense: seq<T>, p: array<T>, s: nat, i: nat, x: array<T>, values: array<T>)
    requires f.Domain() && |rows| == |dense| == values.Length == x.Length == GROUP && RowsBelow(rows, weight, s) && s + i < p.Length
    requires values != p && x != p && x != values && Lanes(f, rows, weight, dense, p[..], s, weight, i, values[..])
    requires i > 0 ==> forall k :: 0 <= k < GROUP ==> x[k] == Pow(f, dense[k], i)
    modifies values, x
    ensures Lanes(f, rows, weight, dense, p[..], s, weight, i + 1, values[..])
    ensures forall k :: 0 <= k < GROUP ==> x[k] == Pow(f, dense[k], i + 1)
  {
    hide Field.Domain, Lane, Pow;
    ghost var was, xs := values[..], x[..];
    for k := 0 to GROUP
      invariant forall l :: k <= l < GROUP ==> values[l] == was[l] && x[l] == xs[l]
      invariant forall l :: 0 <= l < k ==> LaneIs(f, rows[l], weight, dense[l], p[..], s, weight, i + 1, values[l]) && x[l] == Pow(f, dense[l], i + 1)
    {
      OnePower(f, rows[k], weight, dense[k], p[..], s, i);
      x[k] := if i == 0 then dense[k] else f.Mul(x[k], dense[k]);
      values[k] := f.Add(values[k], f.Mul(p[s + i], x[k]));
    }
  }

  lemma OnePower<T(!new)>(f: Field<T>, row: seq<nat>, weight: nat, d: T, p: seq<T>, s: nat, i: nat)
    requires f.Domain() && RowBelow(row, weight, s) && s + i < |p|
    ensures Lane(f, row, d, p, s, weight, i + 1) == f.Add(Lane(f, row, d, p, s, weight, i), f.Mul(p[s + i], Pow(f, d, i + 1)))
    ensures Pow(f, d, i + 1) == if i == 0 then d else f.Mul(Pow(f, d, i), d)
  {
    hide Field.Group, DenseSum;
    var p2 := p[s..];
    assert p2[..i + 1] == p[s..s + (i + 1)] && p2[..i] == p[s..s + i];
    DenseSumStep(f, d, p2, i);
    f.Assoc(RowSum(f, row[..weight], p), DenseSum(f, d, p[s..s + i]), f.Mul(p[s + i], Pow(f, d, i + 1)));
    assert Pow(f, d, 0) == f.one;
    f.One(d);
  }

  /** Each of the 32 values is what its row decodes to. */
  method Decode32<T(==, !new)>(f: Field<T>, rows: seq<seq<nat>>, weight: nat, dense: seq<T>, p: array<T>, s: nat, values: array<T>)
    requires f.Domain() && |rows| == |dense| == values.Length == GROUP && RowsBelow(rows, weight, s) && weight >= 1 && s < p.Length && values != p
    modifies values
    ensures forall k :: 0 <= k < GROUP ==> RowBelow(rows[k], weight, s) && values[k] == Decoded(f, rows[k], dense[k], p[..], s)
  {
    hide Lanes, Pow;
    AddColumn(f, rows, weight, dense, p, s, 0, values);
    for j := 1 to weight
      invariant Lanes(f, rows, weight, dense, p[..], s, j, 0, values[..])
    {
      AddColumn(f, rows, weight, dense, p, s, j, values);
    }
    var x := new T[GROUP](_ => f.zero);
    AddPower(f, rows, weight, dense, p, s, 0, x, values);
    for i := 1 to p.Length - s
      invariant Lanes(f, rows, weight, dense, p[..], s, weight, i, values[..])
      invariant forall k :: 0 <= k < GROUP ==> x[k] == Pow(f, dense[k], i)
    {
      AddPower(f, rows, weight, dense, p, s, i, x, values);
    }
    LanesDecode(f, rows, weight, dense, p[..], s, values[..]);
  }

  lemma LanesDecode<T(!new)>(f: Field<T>, rows: seq<seq<nat>>, weight: nat, dense: seq<T>, p: seq<T>, s: nat, now: seq<T>)
    requires s <= |p| && RowsBelow(rows, weight, s) && Lanes(f, rows, weight, dense, p, s, weight, |p| - s, now)
    ensures forall k :: 0 <= k < |rows| ==> RowBelow(rows[k], weight, s) && now[k] == Decoded(f, rows[k], dense[k], p, s)
  {
    forall k | 0 <= k < |rows|
      ensures now[k] == Decoded(f, rows[k], dense[k], p, s)
    {
      assert LaneIs(f, rows[k], weight, dense[k], p, s, weight, |p| - s, now[k]);
      assert rows[k][..weight] == rows[k] && p[s..s + (|p| - s)] == p[s..];
    }
  }
}
