/** The fuzzy map: identifiers from labelled cells, blinded by both parties'
    scalars, so that close points get the same one unless a label was replaced. */
module FuzzyMap {
  import opened BinaryNumbers
  import opened Fields
  import opened Layout
  import opened CellLabels
  import opened Division

  /** The cells of dimension i, point by point. */
  function CellsOf(inputs: seq<nat>, n: nat, dim: nat, delta: nat, i: nat): (r: seq<nat>)
    requires i < dim && |inputs| == Row(n, dim)
    ensures |r| == n
  {
    seq(n, j requires 0 <= j < n => CellAt(inputs, n, dim, delta, i, j))
  }

  function CellAt(inputs: seq<nat>, n: nat, dim: nat, delta: nat, i: nat, j: nat): nat
    requires i < dim && j < n && |inputs| == Row(n, dim)
  {
    RowFits(j, n, dim);
    ComputeCell(inputs[Row(j, dim) + i], delta)
  }

  /** The identifier of point j over the first d dimensions. */
  function IdOf<T(==,!new)>(f: Field<T>, inputs: seq<nat>, n: nat, dim: nat, delta: nat, draws: seq<seq<T>>, j: nat, d: nat): T
    requires d <= dim <= |draws| && j < n && |inputs| == Row(n, dim) && forall i :: 0 <= i < dim ==> |draws[i]| >= n
  {
    if d == 0 then f.zero
    else f.Add(IdOf(f, inputs, n, dim, delta, draws, j, d - 1), Given(CellsOf(inputs, n, dim, delta, d - 1), draws[d - 1], j))
  }

  /** The labels point j's cells have in the end, added up over the first d
      dimensions: what the pairs hold for it. */
  function FinalIdOf<T(==,!new)>(f: Field<T>, inputs: seq<nat>, n: nat, dim: nat, delta: nat, draws: seq<seq<T>>, j: nat, d: nat): T
    requires d <= dim <= |draws| && j < n && |inputs| == Row(n, dim) && forall i :: 0 <= i < dim ==> |draws[i]| >= n
  {
    if d == 0 then f.zero
    else f.Add(FinalIdOf(f, inputs, n, dim, delta, draws, j, d - 1), Later(CellsOf(inputs, n, dim, delta, d - 1), draws[d - 1], n, j))
  }

  /** The pairs list holds cell c of dimension i with its masked label. */
  ghost predicate Listed<T>(keys: seq<(nat, nat)>, vals: seq<T>, idx: nat, key: (nat, nat), v: T)
    requires idx <= |keys| == |vals|
  {
    exists k :: 0 <= k < idx && keys[k] == key && vals[k] == v
  }

  ghost predicate ListsAll<T(!new)>(f: Field<T>, prf: (nat, nat) -> T, keys: seq<(nat, nat)>, vals: seq<T>, idx: nat, i: nat, labels: map<nat, T>)
    requires idx <= |keys| == |vals|
  {
    forall c :: c in labels ==> Listed(keys, vals, idx, (i, c), f.Add(labels[c], prf(i, c)))
  }

  ghost predicate DistinctKeys(keys: seq<(nat, nat)>, idx: nat)
    requires idx <= |keys|
  {
    forall a, b :: 0 <= a < b < idx ==> keys[a] != keys[b]
  }

  /** Writes one dimension's cells behind the pairs already there. */
  method FillPairs<T(!new)>(f: Field<T>, prf: (nat, nat) -> T, labels: map<nat, T>, i: nat, keys: array<(nat, nat)>, vals: array<T>, idx0: nat) returns (idx: nat)
    requires keys.Length == vals.Length && idx0 + |labels| <= keys.Length && keys as object != vals
    requires DistinctKeys(keys[..], idx0) && forall k :: 0 <= k < idx0 ==> keys[k].0 < i
    modifies keys, vals
    ensures idx == idx0 + |labels| && DistinctKeys(keys[..], idx)
    ensures forall k :: 0 <= k < idx ==> keys[k].0 <= i
    ensures forall k :: 0 <= k < idx0 ==> keys[k] == old(keys[k]) && vals[k] == old(vals[k])
    ensures ListsAll(f, prf, keys[..], vals[..], idx, i, labels)
  {
    idx := idx0;
    var todo := labels.Keys;
    while todo != {}
      invariant todo <= labels.Keys && idx0 <= idx && idx + |todo| == idx0 + |labels.Keys|
      invariant forall k :: 0 <= k < idx0 ==> keys[k] == old(keys[k]) && vals[k] == old(vals[k])
      invariant forall k :: idx0 <= k < idx ==> keys[k].0 == i && keys[k].1 !in todo
      invariant DistinctKeys(keys[..], idx)
      invariant forall c :: c in labels && c !in todo ==> Listed(keys[..], vals[..], idx, (i, c), f.Add(labels[c], prf(i, c)))
      decreases todo
    {
      ghost var ks, vs := keys[..], vals[..];
      var c :| c in todo;
      keys[idx] := (i, c);
      vals[idx] := f.Add(labels[c], prf(i, c));
      forall x | x in labels && x !in todo - {c}
        ensures Listed(keys[..], vals[..], idx + 1, (i, x), f.Add(labels[x], prf(i, x)))
      {
        if x == c {
          assert keys[..][idx] == (i, c) && vals[..][idx] == f.Add(labels[c], prf(i, c));
        } else {
          ListedStays(ks, vs, idx, keys[..], vals[..], idx + 1, (i, x), f.Add(labels[x], prf(i, x)));
        }
      }
      todo := todo - {c};
      idx := idx + 1;
    }
  }

  lemma ListedStays<T>(ks: seq<(nat, nat)>, vs: seq<T>, m: nat, keys: seq<(nat, nat)>, vals: seq<T>, m': nat, key: (nat, nat), v: T)
    requires m <= m' <= |keys| == |vals| && |ks| == |vs| && m <= |ks| && Listed(ks, vs, m, key, v)
    requires forall k :: 0 <= k < m ==> keys[k] == ks[k] && vals[k] == vs[k]
    ensures Listed(keys, vals, m', key, v)
  {
    var k :| 0 <= k < m && ks[k] == key && vs[k] == v;
    assert keys[k] == key && vals[k] == v;
  }

  /** Labels one dimension and adds each point's label to its identifier. */
  method LabelDimension<T(==,!new)>(f: Field<T>, inputs: seq<nat>, n: nat, dim: nat, delta: nat, i: nat, draws: seq<T>, ids: array<T>) returns (labels: map<nat, T>)
    requires i < dim && |inputs| == Row(n, dim) && n <= |draws| && ids.Length == n
    modifies ids
    ensures labels == Run(CellsOf(inputs, n, dim, delta, i), draws, n).labels
    ensures forall j :: 0 <= j < n ==> ids[j] == f.Add(old(ids[j]), Given(CellsOf(inputs, n, dim, delta, i), draws, j))
    ensures n > 0 ==> ids[0] == f.Add(old(ids[0]), draws[0])
  {
    hide Row, Place, CellAt;
    ghost var cells := CellsOf(inputs, n, dim, delta, i);
    if n > 0 {
      FirstDraw(cells, draws);
    }
    var s: State<T> := State(map[], 0);
    for j := 0 to n
      invariant s == Run(cells, draws, j)
      invariant forall k :: 0 <= k < j ==> ids[k] == f.Add(old(ids[k]), Given(cells, draws, k))
      invariant forall k :: j <= k < n ==> ids[k] == old(ids[k])
    {
      var random;
      s, random := PlacePoint(s, draws, CellAt(inputs, n, dim, delta, i, j));
      ids[j] := f.Add(ids[j], random);
    }
    labels := s.labels;
  }

  /** The pairs of the first d dimensions are listed. */
  ghost predicate ListsDims<T(!new)>(f: Field<T>, prf: (nat, nat) -> T, inputs: seq<nat>, n: nat, dim: nat, delta: nat, draws: seq<seq<T>>,
                                        keys: seq<(nat, nat)>, vals: seq<T>, idx: nat, d: nat)
    requires d <= dim <= |draws| && |inputs| == Row(n, dim) && idx <= |keys| == |vals| && forall i :: 0 <= i < dim ==> |draws[i]| >= n
  {
    forall i :: 0 <= i < d ==> ListsAll(f, prf, keys, vals, idx, i, Run(CellsOf(inputs, n, dim, delta, i), draws[i], n).labels)
  }

  /** The identifiers of all points and the pairs to be programmed. */
  method GetId<T(==,!new)>(f: Field<T>, prf: (nat, nat) -> T, inputs: seq<nat>, n: nat, dim: nat, delta: nat, draws: seq<seq<T>>,
                           ids: array<T>, keys: array<(nat, nat)>, vals: array<T>) returns (idx: nat)
    requires dim <= |draws| && |inputs| == Row(n, dim) && forall i :: 0 <= i < dim ==> |draws[i]| >= n
    requires ids.Length == n && keys.Length == vals.Length == Row(dim, 2 * n) && forall j :: 0 <= j < n ==> ids[j] == f.zero
    requires keys as object != vals && keys as object != ids && vals != ids
    modifies ids, keys, vals
    ensures idx <= keys.Length && DistinctKeys(keys[..], idx)
    ensures forall j :: 0 <= j < n ==> ids[j] == IdOf(f, inputs, n, dim, delta, draws, j, dim)
    ensures ListsDims(f, prf, inputs, n, dim, delta, draws, keys[..], vals[..], idx, dim)
  {
    hide Row, CellsOf, Run, Given, ListsAll, DistinctKeys;
    idx := 0;
    NoKeys(keys[..]);
    for i := 0 to dim
      invariant idx <= Row(i, 2 * n) <= keys.Length && DistinctKeys(keys[..], idx)
      invariant forall k :: 0 <= k < idx ==> keys[k].0 < i
      invariant forall j :: 0 <= j < n ==> ids[j] == IdOf(f, inputs, n, dim, delta, draws, j, i)
      invariant ListsDims(f, prf, inputs, n, dim, delta, draws, keys[..], vals[..], idx, i)
    {
      var labels := LabelDimension(f, inputs, n, dim, delta, i, draws[i], ids);
      FewLabels(CellsOf(inputs, n, dim, delta, i), draws[i], n);
      RowFits(i, dim, 2 * n);
      ghost var ks, vs, m := keys[..], vals[..], idx;
      idx := FillPairs(f, prf, labels, i, keys, vals, idx);
      forall d | 0 <= d < i
        ensures ListsAll(f, prf, keys[..], vals[..], idx, d, Run(CellsOf(inputs, n, dim, delta, d), draws[d], n).labels)
      {
        AllStay(f, prf, ks, vs, m, keys[..], vals[..], idx, d, Run(CellsOf(inputs, n, dim, delta, d), draws[d], n).labels);
      }
    }
  }

  /** The left end of the run of labelled cells that a point lies in: a multiple of
      the width of a cell, whose cell is the lowest of the run. */
  ghost predicate OriginIs<T>(labels: map<nat, T>, cell: nat, delta: nat, origin: nat) {
    if delta == 0 then origin == 0
    else origin % (2 * delta) == 0 && RunFrom(labels, origin / (2 * delta), cell)
  }

  function LeftEnd(cell: nat, delta: nat): nat { if 2 * delta == 0 then 0 else Row(cell, 2 * delta) }

  /** The origins of the sender's points in one dimension. */
  method Origins<T>(inputs: seq<nat>, n: nat, dim: nat, delta: nat, i: nat, ghost draws: seq<T>, labels: map<nat, T>) returns (origins: seq<nat>)
    requires i < dim && |inputs| == Row(n, dim) && n <= |draws| && WordInputs(inputs)
    requires labels == Run(CellsOf(inputs, n, dim, delta, i), draws, n).labels
    ensures |origins| == n
    ensures forall j :: 0 <= j < n ==> OriginIs(labels, CellAt(inputs, n, dim, delta, i, j), delta, origins[j])
    ensures forall j :: 0 <= j < n ==> Row(j, dim) + i < |inputs| && origins[j] <= inputs[Row(j, dim) + i]
  {
    hide Row, TwoTo64, Run, RunFrom, WordInputs, LeftEnd, OriginIs;
    ghost var cells := CellsOf(inputs, n, dim, delta, i);
    CellsAreSmall(inputs, n, dim, delta, i);
    origins := [];
    for j := 0 to n
      invariant |origins| == j
      invariant forall k :: 0 <= k < j ==> OriginIs(labels, CellAt(inputs, n, dim, delta, i, k), delta, origins[k])
      invariant forall k :: 0 <= k < j ==> Row(k, dim) + i < |inputs| && origins[k] <= inputs[Row(k, dim) + i]
    {
      RowFits(j, n, dim);
      PointLabelled(cells, draws, n, j);
      assert cells[j] + 1 < TwoTo64();
      var base := FindBase(labels, CellAt(inputs, n, dim, delta, i, j));
      LeftEndIsOrigin(labels, base, inputs[Row(j, dim) + i], delta);
      origins := origins + [LeftEnd(base, delta)];
    }
  }

  lemma LeftEndIsOrigin<T>(labels: map<nat, T>, base: nat, input: nat, delta: nat)
    requires RunFrom(labels, base, ComputeCell(input, delta))
    ensures OriginIs(labels, ComputeCell(input, delta), delta, LeftEnd(base, delta)) && LeftEnd(base, delta) <= input
  {
    if delta > 0 {
      RowMono(base, input / (2 * delta), 2 * delta);
      RowIsProduct(input / (2 * delta), 2 * delta);
      DivMod(input, 2 * delta);
      RowIsProduct(base, 2 * delta);
      DivModUnique(base * (2 * delta), base, 2 * delta, 0);
    }
  }

  /** Points of one run of cells have one origin. */
  lemma OneOrigin<T>(labels: map<nat, T>, cell: nat, cell': nat, delta: nat, origin: nat, origin': nat)
    requires OriginIs(labels, cell, delta, origin) && OriginIs(labels, cell', delta, origin')
    requires forall c :: cell <= c <= cell' || cell' <= c <= cell ==> c in labels
    ensures origin == origin'
  {
    hide RunFrom;
    if delta > 0 {
      OneBase(labels, origin / (2 * delta), cell, origin' / (2 * delta), cell');
      DivMod(origin, 2 * delta);
      DivMod(origin', 2 * delta);
    }
  }

  lemma NoKeys(keys: seq<(nat, nat)>)
    ensures DistinctKeys(keys, 0) && forall n: nat :: Row(0, n) == 0
  {
  }

  lemma AllStay<T(!new)>(f: Field<T>, prf: (nat, nat) -> T, ks: seq<(nat, nat)>, vs: seq<T>, m: nat, keys: seq<(nat, nat)>, vals: seq<T>, m': nat, i: nat, labels: map<nat, T>)
    requires m <= m' <= |keys| == |vals| && |ks| == |vs| && m <= |ks| && ListsAll(f, prf, ks, vs, m, i, labels)
    requires forall k :: 0 <= k < m ==> keys[k] == ks[k] && vals[k] == vs[k]
    ensures ListsAll(f, prf, keys, vals, m', i, labels)
  {
    hide Listed;
    forall c | c in labels
      ensures Listed(keys, vals, m', (i, c), f.Add(labels[c], prf(i, c)))
    {
      ListedStays(ks, vs, m, keys, vals, m', (i, c), f.Add(labels[c], prf(i, c)));
    }
  }

  /** The ideal OKVS and the reader's default: the value stored for a key. */
  function Lookup<T>(keys: seq<(nat, nat)>, vals: seq<T>, idx: nat, key: (nat, nat), other: T): T
    requires idx <= |keys| == |vals|
  {
    if idx == 0 then other
    else if keys[idx - 1] == key then vals[idx - 1]
    else Lookup(keys, vals, idx - 1, key, other)
  }

  lemma {:induction false} LookupListed<T>(keys: seq<(nat, nat)>, vals: seq<T>, idx: nat, key: (nat, nat), v: T, other: T)
    requires idx <= |keys| == |vals| && DistinctKeys(keys, idx) && Listed(keys, vals, idx, key, v)
    ensures Lookup(keys, vals, idx, key, other) == v
  {
    if keys[idx - 1] != key {
      LookupListed(keys, vals, idx - 1, key, v, other);
    }
  }

  /** The key a value of dimension i is looked up under. */
  function KeyOf(inputs: seq<nat>, n: nat, dim: nat, delta: nat, j: nat, i: nat): (nat, nat)
    requires i < dim && j < n && |inputs| == Row(n, dim)
  {
    RowFits(j, n, dim);
    (i, ComputeBlock(inputs[Row(j, dim) + i], delta))
  }

  /** Coordinates are 64-bit values. */
  ghost predicate WordInputs(inputs: seq<nat>) {
    forall k :: 0 <= k < |inputs| ==> inputs[k] < TwoTo64()
  }

  lemma CellsAreSmall(inputs: seq<nat>, n: nat, dim: nat, delta: nat, i: nat)
    requires i < dim && |inputs| == Row(n, dim) && WordInputs(inputs)
    ensures Small(CellsOf(inputs, n, dim, delta, i))
  {
    hide Row;
    forall j | 0 <= j < n
      ensures CellAt(inputs, n, dim, delta, i, j) + 1 < TwoTo64()
    {
      RowFits(j, n, dim);
      if delta > 0 {
        QuotientBelow(inputs[Row(j, dim) + i], 2 * delta);
      }
    }
  }

  /** Point j of one party is close to point k of the other in every dimension. */
  ghost predicate Close(ours: seq<nat>, n: nat, theirs: seq<nat>, m: nat, dim: nat, delta: nat, j: nat, k: nat)
    requires |ours| == Row(n, dim) && |theirs| == Row(m, dim) && j < n && k < m
  {
    forall i :: 0 <= i < dim ==> CloseIn(ours, n, theirs, m, dim, delta, j, k, i)
  }

  ghost predicate CloseIn(ours: seq<nat>, n: nat, theirs: seq<nat>, m: nat, dim: nat, delta: nat, j: nat, k: nat, i: nat)
    requires |ours| == Row(n, dim) && |theirs| == Row(m, dim) && j < n && k < m && i < dim
  {
    RowFits(j, n, dim);
    RowFits(k, m, dim);
    Distance(theirs[Row(k, dim) + i], ours[Row(j, dim) + i]) <= delta
  }

  /** Looking up the block of a close value and removing the mask gives the label
      that the other point's cells have in the end in that dimension. */
  lemma CloseLookup<T(!new)>(f: Field<T>, prf: (nat, nat) -> T, ours: seq<nat>, n: nat, theirs: seq<nat>, m: nat, dim: nat, delta: nat,
                             draws: seq<T>, keys: seq<(nat, nat)>, vals: seq<T>, idx: nat, j: nat, k: nat, i: nat, other: T)
    requires f.XorGroup() && |ours| == Row(n, dim) && |theirs| == Row(m, dim) && WordInputs(theirs) && j < n && k < m && i < dim
    requires CloseIn(ours, n, theirs, m, dim, delta, j, k, i) && m <= |draws| && idx <= |keys| == |vals| && DistinctKeys(keys, idx)
    requires ListsAll(f, prf, keys, vals, idx, i, Run(CellsOf(theirs, m, dim, delta, i), draws, m).labels)
    ensures var key := KeyOf(ours, n, dim, delta, j, i);
      f.Add(Lookup(keys, vals, idx, key, other), prf(key.0, key.1)) == Later(CellsOf(theirs, m, dim, delta, i), draws, m, k)
  {
    hide Row, Run, DistinctKeys, Listed, WordInputs, Small, Field.XorGroup;
    var cells := CellsOf(theirs, m, dim, delta, i);
    var key := KeyOf(ours, n, dim, delta, j, i);
    var labels := Run(cells, draws, m).labels;
    RowFits(j, n, dim);
    RowFits(k, m, dim);
    CloseBlock(theirs[Row(k, dim) + i], ours[Row(j, dim) + i], delta);
    CellsAreSmall(theirs, m, dim, delta, i);
    EveryPointPaired(cells, draws, m, k);
    assert key.1 in labels && labels[key.1] == Later(cells, draws, m, k);
    LookupListed(keys, vals, idx, key, f.Add(labels[key.1], prf(i, key.1)), other);
    f.XorMove(labels[key.1], prf(i, key.1));
  }

  function SumRow<T(!new)>(f: Field<T>, s: seq<T>, lo: nat, len: nat): T
    requires lo + len <= |s|
  {
    if len == 0 then f.zero else f.Add(SumRow(f, s, lo, len - 1), s[lo + len - 1])
  }

  /** One party's scalar and masks, its shares of its own masks times the other
      scalar, and of the other's masks times its own. */
  datatype Party<T> = Party(scalar: T, mask: seq<T>, ownShare: seq<T>, otherShare: seq<T>)
  {
    ghost predicate Sized(n: nat) { |mask| == |ownShare| == |otherShare| == n }
  }

  /** The VOLE correlation for b's masks under a's scalar. */
  ghost predicate Vole<T(!new)>(f: Field<T>, a: Party<T>, b: Party<T>, i: nat)
    requires i < |a.otherShare| && i < |b.mask| && i < |b.ownShare|
  {
    f.Mul(a.scalar, b.mask[i]) == f.Add(a.otherShare[i], b.ownShare[i])
  }

  /** The sums of OPRF shares, masked. */
  method Blind<T(!new)>(f: Field<T>, oprf: seq<T>, n: nat, dim: nat, mask: seq<T>, off: nat) returns (sums: seq<T>)
    requires |oprf| == Row(n, dim) && off + n <= |mask|
    ensures |sums| == n
    ensures forall i :: 0 <= i < n ==> Row(i, dim) + dim <= Row(n, dim) && sums[i] == f.Add(SumRow(f, oprf, Row(i, dim), dim), mask[i + off])
  {
    hide Row;
    sums := [];
    for i := 0 to n
      invariant |sums| == i
      invariant forall k :: 0 <= k < i ==> Row(k, dim) + dim <= Row(n, dim) && sums[k] == f.Add(SumRow(f, oprf, Row(k, dim), dim), mask[k + off])
    {
      RowFits(i, n, dim);
      var sum := f.zero;
      for j := 0 to dim
        invariant sum == SumRow(f, oprf, Row(i, dim), j)
      {
        sum := f.Add(sum, oprf[Row(i, dim) + j]);
      }
      sums := sums + [f.Add(sum, mask[i + off])];
    }
  }

  /** What a party sends for one point: its scalar times the sum of what it
      decoded, its OPRF shares, the other's blinded share sum and its own
      identifier, masked. */
  function Encrypted<T(!new)>(f: Field<T>, scalar: T, decoded: T, oprf: T, sum: T, id: T, share: T, mask: T): T {
    f.Add(f.Add(f.Mul(scalar, f.Add(decoded, id)), f.Add(f.Add(f.Mul(scalar, sum), share), f.Mul(scalar, oprf))), mask)
  }

  method EncryptOne<T(!new)>(f: Field<T>, p: Party<T>, decodeVal: seq<T>, oprf: seq<T>, lo: nat, dim: nat, sum: T, id: T, share: T, mask: T) returns (enc: T)
    requires f.Domain() && lo + dim <= |decodeVal| == |oprf|
    ensures enc == Encrypted(f, p.scalar, SumRow(f, decodeVal, lo, dim), SumRow(f, oprf, lo, dim), sum, id, share, mask)
  {
    hide Field.Domain;
    var blinded := f.Add(f.Mul(p.scalar, sum), share);
    var start := blinded;
    enc := f.zero;
    NothingAdded(f, p.scalar, start);
    for j := 0 to dim
      invariant enc == SumRow(f, decodeVal, lo, j)
      invariant blinded == f.Add(start, f.Mul(p.scalar, SumRow(f, oprf, lo, j)))
    {
      enc := f.Add(enc, decodeVal[lo + j]);
      OneMoreTerm(f, p.scalar, start, SumRow(f, oprf, lo, j), oprf[lo + j]);
      blinded := f.Add(blinded, f.Mul(p.scalar, oprf[lo + j]));
    }
    enc := f.Add(f.Add(f.Mul(p.scalar, f.Add(enc, id)), blinded), mask);
  }

  lemma NothingAdded<T(!new)>(f: Field<T>, c: T, x: T)
    requires f.Domain()
    ensures f.Add(x, f.Mul(c, f.zero)) == x
  {
    f.MulZero(c);
    f.Zero(x);
  }

  lemma OneMoreTerm<T(!new)>(f: Field<T>, c: T, x: T, s: T, y: T)
    requires f.Domain()
    ensures f.Add(f.Add(x, f.Mul(c, s)), f.Mul(c, y)) == f.Add(x, f.Mul(c, f.Add(s, y)))
  {
    f.Assoc(x, f.Mul(c, s), f.Mul(c, y));
    f.Distrib(c, s, y);
  }

  ghost predicate EncryptedAt<T(!new)>(f: Field<T>, p: Party<T>, decodeVal: seq<T>, oprf: seq<T>, lo: nat, dim: nat, sum: T, id: T, at: nat, enc: T)
    requires lo + dim <= |decodeVal| == |oprf| && at < |p.mask| && p.Sized(|p.mask|)
  {
    var blinded := f.Add(f.Add(f.Mul(p.scalar, sum), p.otherShare[at]), f.Mul(p.scalar, SumRow(f, oprf, lo, dim)));
    enc == f.Add(f.Add(f.Mul(p.scalar, f.Add(SumRow(f, decodeVal, lo, dim), id)), blinded), p.mask[at])
  }

  /** The first party's messages: one encrypted identifier per point. */
  method Encrypt<T(!new)>(f: Field<T>, p: Party<T>, decodeVal: seq<T>, oprf: seq<T>, n: nat, dim: nat, sums: seq<T>, ids: seq<T>, off: nat) returns (encs: seq<T>)
    requires f.Domain() && |decodeVal| == |oprf| == Row(n, dim) && |sums| == |ids| == n && off + n <= |p.mask| && p.Sized(|p.mask|)
    ensures |encs| == n
    ensures forall i :: 0 <= i < n ==> Row(i, dim) + dim <= Row(n, dim)
    ensures forall i :: 0 <= i < n ==> EncryptedAt(f, p, decodeVal, oprf, Row(i, dim), dim, sums[i], ids[i], i + off, encs[i])
  {
    hide Row, Field.Domain, SumRow;
    encs := [];
    for i := 0 to n
      invariant |encs| == i
      invariant forall k :: 0 <= k < i ==> Row(k, dim) + dim <= Row(n, dim)
      invariant forall k :: 0 <= k < i ==> EncryptedAt(f, p, decodeVal, oprf, Row(k, dim), dim, sums[k], ids[k], k + off, encs[k])
    {
      RowFits(i, n, dim);
      var enc := EncryptOne(f, p, decodeVal, oprf, Row(i, dim), dim, sums[i], ids[i], p.otherShare[i + off], p.mask[i + off]);
      encs := encs + [enc];
    }
  }

  /** The second party's reply: multiplied by its scalar, with the masks swapped. */
  method Reencrypt<T(!new)>(f: Field<T>, o: Party<T>, encs: seq<T>, off: nat) returns (masked: seq<T>)
    requires off + |encs| <= |o.mask| && o.Sized(|o.mask|)
    ensures |masked| == |encs|
    ensures forall i :: 0 <= i < |encs| ==> masked[i] == f.Add(f.Mul(o.scalar, f.Add(encs[i], o.ownShare[i + off])), o.otherShare[i + off])
  {
    masked := [];
    for i := 0 to |encs|
      invariant |masked| == i
      invariant forall k :: 0 <= k < i ==> masked[k] == f.Add(f.Mul(o.scalar, f.Add(encs[k], o.ownShare[k + off])), o.otherShare[k + off])
    {
      masked := masked + [f.Add(f.Mul(o.scalar, f.Add(encs[i], o.ownShare[i + off])), o.otherShare[i + off])];
    }
  }

  /** Two identifiers, added up and multiplied by both scalars. */
  function Blinded<T(!new)>(f: Field<T>, a: T, b: T, x: T, y: T): T { f.Mul(a, f.Mul(b, f.Add(x, y))) }

  /** The order of the scalars and of the identifiers does not matter. */
  lemma BlindedSymmetric<T(!new)>(f: Field<T>, a: T, b: T, x: T, y: T)
    requires f.Domain()
    ensures Blinded(f, a, b, x, y) == Blinded(f, b, a, y, x)
  {
    hide Field.Group;
    f.Comm(x, y);
    f.MAssoc(a, b, f.Add(x, y));
    f.MComm(a, b);
    f.MAssoc(b, a, f.Add(x, y));
  }

  /** The exchange for the points of p: o blinds, p encrypts, o multiplies, p unmasks. */
  method Exchange<T(!new)>(f: Field<T>, p: Party<T>, o: Party<T>, decodeVal: seq<T>, oprfP: seq<T>, oprfO: seq<T>, n: nat, dim: nat, ids: seq<T>, off: nat)
    returns (outs: seq<T>)
    requires f.XorGroup() && f.Domain() && |decodeVal| == |oprfP| == |oprfO| == Row(n, dim) && |ids| == n
    requires off + n <= |p.mask| && p.Sized(|p.mask|) && o.Sized(|p.mask|)
    requires forall i :: 0 <= i < |p.mask| ==> Vole(f, p, o, i) && Vole(f, o, p, i)
    ensures |outs| == n
    ensures forall i :: 0 <= i < n ==> Row(i, dim) + dim <= Row(n, dim)
    ensures forall i :: 0 <= i < n ==> outs[i] == Blinded(f, o.scalar, p.scalar, Opened(f, decodeVal, oprfO, oprfP, Row(i, dim), dim), ids[i])
    ensures forall i :: 0 <= i < n ==> outs[i] == f.Mul(o.scalar, f.Mul(p.scalar, f.Add(Opened(f, decodeVal, oprfO, oprfP, Row(i, dim), dim), ids[i])))
  {
    hide Row, Field.Domain, Field.XorGroup, SumRow, Vole;
    var sums := Blind(f, oprfO, n, dim, o.mask, off);
    var encs := Encrypt(f, p, decodeVal, oprfP, n, dim, sums, ids, off);
    var masked := Reencrypt(f, o, encs, off);
    outs := [];
    for i := 0 to n
      invariant |outs| == i
      invariant forall k :: 0 <= k < i ==> outs[k] == Blinded(f, o.scalar, p.scalar, Opened(f, decodeVal, oprfO, oprfP, Row(k, dim), dim), ids[k])
    {
      var out := f.Add(masked[i], p.ownShare[i + off]);
      assert Vole(f, p, o, i + off) && Vole(f, o, p, i + off);
      Unblinds(f, p, o, i + off, SumRow(f, decodeVal, Row(i, dim), dim), SumRow(f, oprfP, Row(i, dim), dim), SumRow(f, oprfO, Row(i, dim), dim), ids[i], encs[i]);
      outs := outs + [out];
    }
  }

  /** The decoded values and both parties' OPRF shares, added up. */
  function Opened<T(!new)>(f: Field<T>, decodeVal: seq<T>, oprfO: seq<T>, oprfP: seq<T>, lo: nat, dim: nat): T
    requires lo + dim <= |decodeVal| == |oprfO| == |oprfP|
  {
    f.Add(SumRow(f, decodeVal, lo, dim), f.Add(SumRow(f, oprfO, lo, dim), SumRow(f, oprfP, lo, dim)))
  }

  /** The masks cancel. */
  lemma Unblinds<T(!new)>(f: Field<T>, p: Party<T>, o: Party<T>, at: nat, d: T, x: T, y: T, id: T, enc: T)
    requires f.XorGroup() && f.Domain() && p.Sized(|p.mask|) && o.Sized(|p.mask|) && at < |p.mask| && Vole(f, p, o, at) && Vole(f, o, p, at)
    requires enc == Encrypted(f, p.scalar, d, x, f.Add(y, o.mask[at]), id, p.otherShare[at], p.mask[at])
    ensures f.Add(f.Add(f.Mul(o.scalar, f.Add(enc, o.ownShare[at])), o.otherShare[at]), p.ownShare[at])
      == Blinded(f, o.scalar, p.scalar, f.Add(d, f.Add(y, x)), id)
  {
    InnerUnblinds(f, p.scalar, d, x, y, id, o.mask[at], p.otherShare[at], o.ownShare[at], p.mask[at], enc);
    var core := f.Mul(p.scalar, f.Add(f.Add(d, f.Add(y, x)), id));
    OuterUnblinds(f, o.scalar, core, p.mask[at], o.otherShare[at], p.ownShare[at]);
  }

  /** s * (core + m) + a + b == s * core, as s * m == a + b */
  lemma OuterUnblinds<T(!new)>(f: Field<T>, s: T, core: T, m: T, a: T, b: T)
    requires f.XorGroup() && f.Domain() && f.Mul(s, m) == f.Add(a, b)
    ensures f.Add(f.Add(f.Mul(s, f.Add(core, m)), a), b) == f.Mul(s, core)
  {
    hide Field.Group;
    f.Distrib(s, core, m);
    f.Assoc(f.Add(f.Mul(s, core), f.Mul(s, m)), a, b);
    f.XorMove(f.Mul(s, core), f.Mul(s, m));
  }

  /** The blinded sum: r * m cancels against its two shares. */
  lemma InnerUnblinds<T(!new)>(f: Field<T>, r: T, d: T, x: T, y: T, id: T, m: T, a: T, b: T, mask: T, enc: T)
    requires f.XorGroup() && f.Domain() && f.Mul(r, m) == f.Add(a, b)
    requires enc == Encrypted(f, r, d, x, f.Add(y, m), id, a, mask)
    ensures f.Add(enc, b) == f.Add(f.Mul(r, f.Add(f.Add(d, f.Add(y, x)), id)), mask)
  {
    hide Field.Group;
    var ry, rx, rd := f.Mul(r, y), f.Mul(r, x), f.Mul(r, f.Add(d, id));
    // r(y + m) + a == ry + b
    f.Distrib(r, y, m);
    f.Comm(a, b);
    f.Assoc(ry, f.Add(b, a), a);
    f.XorMove(b, a);
    // enc + b == (rd + (ry + rx)) + mask
    f.SwapRight(f.Add(rd, f.Add(f.Add(ry, b), rx)), mask, b);
    f.Assoc(rd, f.Add(f.Add(ry, b), rx), b);
    f.SwapRight(f.Add(ry, b), rx, b);
    f.XorMove(ry, b);
    // rd + (ry + rx) == r((d + (y + x)) + id)
    f.Distrib(r, y, x);
    f.Distrib(r, f.Add(d, id), f.Add(y, x));
    f.SwapRight(d, id, f.Add(y, x));
  }

  /** One party's points, its labels' randomness, the PRF it holds the key of,
      its random shares of the other's OPRF outputs, and what decoding its OKVS
      gives for a key that is not in it. */
  datatype Input<T(==,!new)> = Input(points: seq<nat>, n: nat, draws: seq<seq<T>>, prf: (nat, nat) -> T, shares: seq<T>, other: (nat, nat) -> T)
  {
    ghost predicate Shaped(dim: nat) {
      |points| == Row(n, dim) && |draws| == dim && forall i :: 0 <= i < dim ==> |draws[i]| >= n
    }

    ghost predicate Valid(dim: nat, m: nat) {
      Shaped(dim) && |shares| == Row(m, dim)
    }

    /** No relabelling changes a label in any dimension. */
    ghost predicate Settled(dim: nat, delta: nat)
      requires Shaped(dim)
    {
      forall i :: 0 <= i < dim ==> NeverFires(CellsOf(points, n, dim, delta, i), draws[i], n)
    }

    /** In no dimension is anything relabelled after point j in the run of cells it
        lies in. */
    ghost predicate QuietAt(dim: nat, delta: nat, j: nat)
      requires Shaped(dim) && j < n
    {
      forall i :: 0 <= i < dim ==> Quiet(CellsOf(points, n, dim, delta, i), draws[i], n, j)
    }

    /** The identifier of point j, from the labels it was given. */
    function Id(f: Field<T>, dim: nat, delta: nat, j: nat): T
      requires Shaped(dim) && j < n
    {
      IdOf(f, points, n, dim, delta, draws, j, dim)
    }

    /** The identifier the other party can find for point j. */
    function FinalId(f: Field<T>, dim: nat, delta: nat, j: nat): T
      requires Shaped(dim) && j < n
    {
      FinalIdOf(f, points, n, dim, delta, draws, j, dim)
    }
  }

  /** The reader looks its blocks up in the holder's OKVS, and gets its shares of
      the holder's PRF. */
  method ReadBlocks<T(!new)>(f: Field<T>, dim: nat, delta: nat, reader: Input<T>, holder: Input<T>, keys: seq<(nat, nat)>, vals: seq<T>, idx: nat)
    returns (decodeVal: seq<T>, oprf: seq<T>)
    requires reader.Valid(dim, holder.n) && holder.Valid(dim, reader.n) && idx <= |keys| == |vals|
    ensures |decodeVal| == |oprf| == Row(reader.n, dim)
    ensures forall j, i :: 0 <= j < reader.n && 0 <= i < dim ==> ReadAt(f, dim, delta, reader, holder, keys, vals, idx, decodeVal, oprf, j, i)
  {
    hide Row, KeyOf;
    decodeVal, oprf := [], [];
    RowStart(dim);
    for j := 0 to reader.n
      invariant |decodeVal| == |oprf| == Row(j, dim) <= Row(reader.n, dim)
      invariant forall k, i :: 0 <= k < j && 0 <= i < dim ==> ReadAt(f, dim, delta, reader, holder, keys, vals, idx, decodeVal, oprf, k, i)
    {
      RowFits(j, reader.n, dim);
      for i := 0 to dim
        invariant |decodeVal| == |oprf| == Row(j, dim) + i
        invariant forall k, d :: 0 <= k < j && 0 <= d < dim ==> ReadAt(f, dim, delta, reader, holder, keys, vals, idx, decodeVal, oprf, k, d)
        invariant forall d :: 0 <= d < i ==> ReadAt(f, dim, delta, reader, holder, keys, vals, idx, decodeVal, oprf, j, d)
      {
        var key := KeyOf(reader.points, reader.n, dim, delta, j, i);
        ghost var dv, op := decodeVal, oprf;
        decodeVal := decodeVal + [Lookup(keys, vals, idx, key, holder.other(key.0, key.1))];
        oprf := oprf + [f.Add(holder.prf(key.0, key.1), holder.shares[Row(j, dim) + i])];
        forall k, d | 0 <= k < j && 0 <= d < dim
          ensures ReadAt(f, dim, delta, reader, holder, keys, vals, idx, decodeVal, oprf, k, d)
        {
          assert ReadAt(f, dim, delta, reader, holder, keys, vals, idx, dv, op, k, d);
        }
        forall d | 0 <= d < i
          ensures ReadAt(f, dim, delta, reader, holder, keys, vals, idx, decodeVal, oprf, j, d)
        {
          assert ReadAt(f, dim, delta, reader, holder, keys, vals, idx, dv, op, j, d);
        }
      }
    }
  }

  ghost predicate ReadAt<T(!new)>(f: Field<T>, dim: nat, delta: nat, reader: Input<T>, holder: Input<T>, keys: seq<(nat, nat)>, vals: seq<T>, idx: nat,
                                  decodeVal: seq<T>, oprf: seq<T>, j: nat, i: nat)
    requires reader.Valid(dim, holder.n) && holder.Valid(dim, reader.n) && idx <= |keys| == |vals| && j < reader.n && i < dim
  {
    var key := KeyOf(reader.points, reader.n, dim, delta, j, i);
    && Row(j, dim) + i < |decodeVal| == |oprf| && Row(j, dim) + i < |holder.shares|
    && decodeVal[Row(j, dim) + i] == Lookup(keys, vals, idx, key, holder.other(key.0, key.1))
    && oprf[Row(j, dim) + i] == f.Add(holder.prf(key.0, key.1), holder.shares[Row(j, dim) + i])
  }

  /** (D + v) + ((O + b) + (P + (y + b))) == (D + (O + P)) + (v + y) */
  lemma ShareStep<T(!new)>(f: Field<T>, d: T, v: T, o: T, b: T, p: T, y: T)
    requires f.XorGroup()
    ensures f.Add(f.Add(d, v), f.Add(f.Add(o, b), f.Add(p, f.Add(y, b)))) == f.Add(f.Add(d, f.Add(o, p)), f.Add(v, y))
  {
    hide Field.Group;
    f.Shuffle(o, b, p, f.Add(y, b));
    f.Comm(y, b);
    f.XorMove(b, y);
    f.Shuffle(d, v, f.Add(o, p), y);
  }

  /** What the reader's point j opens are the labels which the cells of the
      holder's point k close to it have in the end. */
  lemma {:induction false} OpensTheirId<T(!new)>(f: Field<T>, dim: nat, delta: nat, reader: Input<T>, holder: Input<T>, keys: seq<(nat, nat)>, vals: seq<T>, idx: nat,
                                                 decodeVal: seq<T>, oprf: seq<T>, j: nat, k: nat, d: nat)
    requires f.XorGroup() && reader.Valid(dim, holder.n) && holder.Valid(dim, reader.n) && idx <= |keys| == |vals| && j < reader.n && k < holder.n
    requires d <= dim && |decodeVal| == |oprf| == |holder.shares| == Row(reader.n, dim) && Row(j, dim) + dim <= Row(reader.n, dim)
    requires forall i :: 0 <= i < dim ==> ReadAt(f, dim, delta, reader, holder, keys, vals, idx, decodeVal, oprf, j, i)
    requires WordInputs(holder.points) && DistinctKeys(keys, idx)
    requires ListsDims(f, holder.prf, holder.points, holder.n, dim, delta, holder.draws, keys, vals, idx, dim)
    requires Close(reader.points, reader.n, holder.points, holder.n, dim, delta, j, k)
    ensures Opened(f, decodeVal, holder.shares, oprf, Row(j, dim), d) == FinalIdOf(f, holder.points, holder.n, dim, delta, holder.draws, k, d)
  {
    hide Row, Field.XorGroup, KeyOf, ListsAll, DistinctKeys, Later, Run, WordInputs, CellsOf, CloseIn, Lookup;
    if d == 0 {
      NothingOpened(f);
    } else {
      var i, at := d - 1, Row(j, dim) + (d - 1);
      OpensTheirId(f, dim, delta, reader, holder, keys, vals, idx, decodeVal, oprf, j, k, i);
      assert ReadAt(f, dim, delta, reader, holder, keys, vals, idx, decodeVal, oprf, j, i);
      var key := KeyOf(reader.points, reader.n, dim, delta, j, i);
      CloseLookup(f, holder.prf, reader.points, reader.n, holder.points, holder.n, dim, delta, holder.draws[i], keys, vals, idx, j, k, i, holder.other(key.0, key.1));
      var lo := Row(j, dim);
      ShareStep(f, SumRow(f, decodeVal, lo, i), decodeVal[at], SumRow(f, holder.shares, lo, i), holder.shares[at], SumRow(f, oprf, lo, i), holder.prf(key.0, key.1));
    }
  }

  lemma NothingOpened<T(!new)>(f: Field<T>)
    requires f.XorGroup()
    ensures f.Add(f.zero, f.Add(f.zero, f.zero)) == f.zero
  {
    f.Zero(f.zero);
  }

  /** One direction: the reader's points get the blinded identifiers. */
  method Identify<T(!new)>(f: Field<T>, dim: nat, delta: nat, reader: Input<T>, p: Party<T>, holder: Input<T>, o: Party<T>,
                           ids: seq<T>, keys: seq<(nat, nat)>, vals: seq<T>, idx: nat, off: nat) returns (outs: seq<T>)
    requires f.XorGroup() && f.Domain() && reader.Valid(dim, holder.n) && holder.Valid(dim, reader.n) && idx <= |keys| == |vals| && |ids| == reader.n
    requires off + reader.n <= |p.mask| && p.Sized(|p.mask|) && o.Sized(|p.mask|)
    requires forall i :: 0 <= i < |p.mask| ==> Vole(f, p, o, i) && Vole(f, o, p, i)
    requires WordInputs(holder.points) && DistinctKeys(keys, idx)
    requires ListsDims(f, holder.prf, holder.points, holder.n, dim, delta, holder.draws, keys, vals, idx, dim)
    ensures |outs| == reader.n
    ensures forall j, k :: 0 <= j < reader.n && 0 <= k < holder.n && Close(reader.points, reader.n, holder.points, holder.n, dim, delta, j, k) ==>
      outs[j] == Blinded(f, o.scalar, p.scalar, holder.FinalId(f, dim, delta, k), ids[j])
  {
    hide Row, WordInputs, DistinctKeys, ListsDims, Close, FinalIdOf, Vole, Field.XorGroup, Field.Domain, ReadAt, Opened;
    var decodeVal, oprf := ReadBlocks(f, dim, delta, reader, holder, keys, vals, idx);
    outs := Exchange(f, p, o, decodeVal, oprf, holder.shares, reader.n, dim, ids, off);
    forall j, k | 0 <= j < reader.n && 0 <= k < holder.n && Close(reader.points, reader.n, holder.points, holder.n, dim, delta, j, k)
      ensures outs[j] == Blinded(f, o.scalar, p.scalar, holder.FinalId(f, dim, delta, k), ids[j])
    {
      OpensTheirId(f, dim, delta, reader, holder, keys, vals, idx, decodeVal, oprf, j, k, dim);
    }
  }

  lemma CloseSymmetric(ours: seq<nat>, n: nat, theirs: seq<nat>, m: nat, dim: nat, delta: nat, j: nat, k: nat)
    requires |ours| == Row(n, dim) && |theirs| == Row(m, dim) && j < n && k < m && Close(ours, n, theirs, m, dim, delta, j, k)
    ensures Close(theirs, m, ours, n, dim, delta, k, j)
  {
    hide Row;
    forall i | 0 <= i < dim
      ensures CloseIn(theirs, m, ours, n, dim, delta, k, j, i)
    {
      assert CloseIn(ours, n, theirs, m, dim, delta, j, k, i);
    }
  }

  /** Labels, identifiers and pairs of one party. */
  method Prepare<T(==,!new)>(f: Field<T>, dim: nat, delta: nat, m: nat, x: Input<T>) returns (ids: seq<T>, keys: seq<(nat, nat)>, vals: seq<T>, idx: nat)
    requires x.Valid(dim, m)
    ensures |ids| == x.n && idx <= |keys| == |vals| && DistinctKeys(keys, idx)
    ensures forall j :: 0 <= j < x.n ==> ids[j] == x.Id(f, dim, delta, j)
    ensures ListsDims(f, x.prf, x.points, x.n, dim, delta, x.draws, keys, vals, idx, dim)
  {
    hide Row, IdOf, ListsDims, DistinctKeys;
    var idArray := new T[x.n](_ => f.zero);
    var keyArray := new (nat, nat)[Row(dim, 2 * x.n)](_ => (0, 0));
    var valArray := new T[Row(dim, 2 * x.n)](_ => f.zero);
    idx := GetId(f, x.prf, x.points, x.n, dim, delta, x.draws, idArray, keyArray, valArray);
    ids, keys, vals := idArray[..], keyArray[..], valArray[..];
  }

  /** If nothing is relabelled in the runs of a point, its cells keep what its
      identifier says, whatever is relabelled elsewhere. */
  lemma {:induction false} QuietId<T(!new)>(f: Field<T>, x: Input<T>, dim: nat, delta: nat, j: nat, d: nat)
    requires x.Shaped(dim) && WordInputs(x.points) && j < x.n && x.QuietAt(dim, delta, j) && d <= dim
    ensures FinalIdOf(f, x.points, x.n, dim, delta, x.draws, j, d) == IdOf(f, x.points, x.n, dim, delta, x.draws, j, d)
  {
    hide Row, WordInputs, Quiet, Later, Given, CellsOf, Small;
    if d > 0 {
      QuietId(f, x, dim, delta, j, d - 1);
      CellsAreSmall(x.points, x.n, dim, delta, d - 1);
      QuietLasts(CellsOf(x.points, x.n, dim, delta, d - 1), x.draws[d - 1], x.n, j, x.n);
    }
  }

  /** If no relabelling ever changes a label, every point is quiet. */
  lemma SettledIsQuiet<T(!new)>(x: Input<T>, dim: nat, delta: nat, j: nat)
    requires x.Shaped(dim) && x.Settled(dim, delta) && j < x.n
    ensures x.QuietAt(dim, delta, j)
  {
    hide Row, Fires, OneRun, CellsOf;
  }

  /** a + b == 0 exactly if a == b */
  lemma ZeroSum<T(!new)>(f: Field<T>, a: T, b: T)
    requires f.XorGroup()
    ensures f.Add(a, b) == f.zero <==> a == b
  {
    hide Field.Group;
    f.XorMove(a, b);
    f.Zero(b);
  }

  /** Blinded by the same scalars, x + y and z + w meet exactly if x + w == z + y. */
  lemma BlindedMeet<T(!new)>(f: Field<T>, a: T, b: T, x: T, y: T, z: T, w: T)
    requires f.XorGroup() && f.Domain() && a != f.zero && b != f.zero
    ensures Blinded(f, a, b, x, y) == Blinded(f, b, a, z, w) <==> f.Add(x, w) == f.Add(z, y)
  {
    hide Field.Group, Field.XorGroup, Field.Domain;
    BlindedSymmetric(f, b, a, z, w);
    BlindedCancel(f, a, b, f.Add(x, y), f.Add(w, z));
    MeetCrosswise(f, x, y, z, w);
  }

  lemma BlindedCancel<T(!new)>(f: Field<T>, a: T, b: T, x: T, y: T)
    requires f.Domain() && a != f.zero && b != f.zero
    ensures f.Mul(a, f.Mul(b, x)) == f.Mul(a, f.Mul(b, y)) <==> x == y
  {
    hide Field.Group;
    if f.Mul(a, f.Mul(b, x)) == f.Mul(a, f.Mul(b, y)) {
      f.MulCancel(a, f.Mul(b, x), f.Mul(b, y));
      f.MulCancel(b, x, y);
    }
  }

  lemma MeetCrosswise<T(!new)>(f: Field<T>, x: T, y: T, z: T, w: T)
    requires f.XorGroup()
    ensures f.Add(x, y) == f.Add(w, z) <==> f.Add(x, w) == f.Add(z, y)
  {
    hide Field.Group;
    ZeroSum(f, f.Add(x, y), f.Add(w, z));
    ZeroSum(f, f.Add(x, w), f.Add(z, y));
    f.Shuffle(x, y, w, z);
    f.Comm(y, z);
  }

  ghost predicate Meets<T(!new)>(f: Field<T>, dim: nat, delta: nat, recv: Input<T>, send: Input<T>, j: nat, k: nat, recvId: T, sendId: T)
    requires recv.Shaped(dim) && send.Shaped(dim) && j < recv.n && k < send.n
  {
    recvId == sendId <==>
    f.Add(send.FinalId(f, dim, delta, k), send.Id(f, dim, delta, k)) == f.Add(recv.FinalId(f, dim, delta, j), recv.Id(f, dim, delta, j))
  }

  lemma MeetExactly<T(!new)>(f: Field<T>, dim: nat, delta: nat, recv: Input<T>, r: T, send: Input<T>, s: T, j: nat, k: nat)
    requires f.XorGroup() && f.Domain() && recv.Shaped(dim) && send.Shaped(dim) && j < recv.n && k < send.n
    requires WordInputs(recv.points) && WordInputs(send.points)
    ensures var recvId := Blinded(f, s, r, send.FinalId(f, dim, delta, k), recv.Id(f, dim, delta, j));
      var sendId := Blinded(f, r, s, recv.FinalId(f, dim, delta, j), send.Id(f, dim, delta, k));
      && (r != f.zero && s != f.zero ==> Meets(f, dim, delta, recv, send, j, k, recvId, sendId))
      && (recv.QuietAt(dim, delta, j) && send.QuietAt(dim, delta, k) ==> recvId == sendId)
  {
    hide Row, Input.QuietAt, WordInputs, Field.XorGroup, Field.Domain, Blinded, IdOf, FinalIdOf;
    if r != f.zero && s != f.zero {
      BlindedMeet(f, s, r, send.FinalId(f, dim, delta, k), recv.Id(f, dim, delta, j), recv.FinalId(f, dim, delta, j), send.Id(f, dim, delta, k));
    }
    if recv.QuietAt(dim, delta, j) && send.QuietAt(dim, delta, k) {
      QuietId(f, recv, dim, delta, j, dim);
      QuietId(f, send, dim, delta, k, dim);
      BlindedSymmetric(f, s, r, send.Id(f, dim, delta, k), recv.Id(f, dim, delta, j));
    }
  }

  /** Both runs: two close points get the same identifier exactly if relabelling
      has moved the labels of one as far from the given ones as those of the
      other; they do if nothing is relabelled in the runs of cells they lie in,
      whatever happens in other runs. */
  method MapPoints<T(==,!new)>(f: Field<T>, dim: nat, delta: nat, recv: Input<T>, r: Party<T>, send: Input<T>, s: Party<T>)
    returns (recvIds: seq<T>, sendIds: seq<T>)
    requires f.XorGroup() && f.Domain() && recv.Valid(dim, send.n) && send.Valid(dim, recv.n)
    requires r.Sized(recv.n + send.n) && s.Sized(recv.n + send.n)
    requires forall i :: 0 <= i < recv.n + send.n ==> Vole(f, r, s, i) && Vole(f, s, r, i)
    requires WordInputs(recv.points) && WordInputs(send.points)
    ensures |recvIds| == recv.n && |sendIds| == send.n
    ensures forall j, k :: 0 <= j < recv.n && 0 <= k < send.n && Close(recv.points, recv.n, send.points, send.n, dim, delta, j, k) ==>
      && recvIds[j] == Blinded(f, s.scalar, r.scalar, send.FinalId(f, dim, delta, k), recv.Id(f, dim, delta, j))
      && sendIds[k] == Blinded(f, r.scalar, s.scalar, recv.FinalId(f, dim, delta, j), send.Id(f, dim, delta, k))
    ensures r.scalar != f.zero && s.scalar != f.zero ==>
      forall j, k :: 0 <= j < recv.n && 0 <= k < send.n && Close(recv.points, recv.n, send.points, send.n, dim, delta, j, k) ==>
        (recvIds[j] == sendIds[k] <==> f.Add(send.FinalId(f, dim, delta, k), send.Id(f, dim, delta, k)) == f.Add(recv.FinalId(f, dim, delta, j), recv.Id(f, dim, delta, j)))
    ensures forall j, k :: 0 <= j < recv.n && 0 <= k < send.n && Close(recv.points, recv.n, send.points, send.n, dim, delta, j, k) ==>
      (recv.QuietAt(dim, delta, j) && send.QuietAt(dim, delta, k) ==> recvIds[j] == sendIds[k])
    ensures recv.Settled(dim, delta) && send.Settled(dim, delta) ==>
      forall j, k :: 0 <= j < recv.n && 0 <= k < send.n && Close(recv.points, recv.n, send.points, send.n, dim, delta, j, k) ==> recvIds[j] == sendIds[k]
  {
    hide Row, WordInputs, Input.Settled, Input.QuietAt, Input.Id, Input.FinalId, DistinctKeys, ListsDims, Close, Vole, Field.XorGroup, Blinded;
    var sIds, sKeys, sVals, sIdx := Prepare(f, dim, delta, recv.n, send);
    var rIds, rKeys, rVals, rIdx := Prepare(f, dim, delta, send.n, recv);
    recvIds := Identify(f, dim, delta, recv, r, send, s, rIds, sKeys, sVals, sIdx, 0);
    sendIds := Identify(f, dim, delta, send, s, recv, r, sIds, rKeys, rVals, rIdx, recv.n);
    forall j, k | 0 <= j < recv.n && 0 <= k < send.n && Close(recv.points, recv.n, send.points, send.n, dim, delta, j, k)
      ensures recvIds[j] == Blinded(f, s.scalar, r.scalar, send.FinalId(f, dim, delta, k), recv.Id(f, dim, delta, j))
      ensures sendIds[k] == Blinded(f, r.scalar, s.scalar, recv.FinalId(f, dim, delta, j), send.Id(f, dim, delta, k))
    {
      CloseSymmetric(recv.points, recv.n, send.points, send.n, dim, delta, j, k);
    }
    forall j, k | 0 <= j < recv.n && 0 <= k < send.n && Close(recv.points, recv.n, send.points, send.n, dim, delta, j, k)
      ensures r.scalar != f.zero && s.scalar != f.zero ==> Meets(f, dim, delta, recv, send, j, k, recvIds[j], sendIds[k])
      ensures recv.QuietAt(dim, delta, j) && send.QuietAt(dim, delta, k) ==> recvIds[j] == sendIds[k]
      ensures recv.Settled(dim, delta) && send.Settled(dim, delta) ==> recv.QuietAt(dim, delta, j) && send.QuietAt(dim, delta, k)
    {
      if recv.Settled(dim, delta) && send.Settled(dim, delta) {
        SettledIsQuiet(recv, dim, delta, j);
        SettledIsQuiet(send, dim, delta, k);
      }
      MeetExactly(f, dim, delta, recv, r.scalar, send, s.scalar, j, k);
    }
  }

  /** Two equal points for which it fails: the other party's last point relabels
      the cells of the second one after it got its label. */
  lemma ClosePointsCanDiffer<T(!new)>(f: Field<T>, recv: Input<T>, send: Input<T>)
    requires f.XorGroup() && recv.points == [8] && recv.n == 1 && |recv.draws| == 1 && |recv.draws[0]| >= 1
    requires send.points == [2, 8, 6, 4] && send.n == 4 && |send.draws| == 1 && |send.draws[0]| >= 4 && send.draws[0][0] != send.draws[0][1]
    ensures recv.Shaped(1) && send.Shaped(1) && Close(recv.points, 1, send.points, 4, 1, 1, 0, 1)
    ensures f.Add(send.FinalId(f, 1, 1, 1), send.Id(f, 1, 1, 1)) != f.Add(recv.FinalId(f, 1, 1, 0), recv.Id(f, 1, 1, 0))
  {
    hide Field.XorGroup, Later, Given, Run;
    RowsOfOne();
    CellsOfExample(send.points);
    var a, b, e := send.draws[0][0], send.draws[0][1], Given(CellsOf(recv.points, 1, 1, 1, 0), recv.draws[0], 0);
    RelabelOutdates(send.draws[0]);
    OnePointKeeps(CellsOf(recv.points, 1, 1, 1, 0), recv.draws[0]);
    OneLabel(f, send, 1);
    OneLabel(f, recv, 0);
    ZeroSum(f, a, b);
    ZeroSum(f, e, e);
  }

  lemma RowsOfOne()
    ensures Row(0, 1) == 0 && Row(1, 1) == 1 && Row(4, 1) == 4
  {
  }

  lemma CellsOfExample(points: seq<nat>)
    requires points == [2, 8, 6, 4]
    ensures |points| == Row(4, 1) && CellsOf(points, 4, 1, 1, 0) == [1, 4, 3, 2]
  {
    RowOne(4);
    assert Quotient(2, 2) == 1 && Quotient(4, 2) == 2 && Quotient(6, 2) == 3 && Quotient(8, 2) == 4;
  }

  lemma OnePointKeeps<T>(cells: seq<nat>, draws: seq<T>)
    requires |cells| == 1 <= |draws|
    ensures Later(cells, draws, 1, 0) == Given(cells, draws, 0)
  {
    assert NeverFires(cells, draws, 1);
    LabelsLast(cells, draws, 1, 0);
  }

  /** In one dimension the identifier is the label. */
  lemma OneLabel<T(!new)>(f: Field<T>, x: Input<T>, j: nat)
    requires f.XorGroup() && x.Shaped(1) && j < x.n
    ensures x.Id(f, 1, 1, j) == Given(CellsOf(x.points, x.n, 1, 1, 0), x.draws[0], j)
    ensures x.FinalId(f, 1, 1, j) == Later(CellsOf(x.points, x.n, 1, 1, 0), x.draws[0], x.n, j)
  {
    hide Field.Group, Later, Given, CellsOf;
    assert IdOf(f, x.points, x.n, 1, 1, x.draws, j, 0) == FinalIdOf(f, x.points, x.n, 1, 1, x.draws, j, 0) == f.zero;
    f.Zero(Given(CellsOf(x.points, x.n, 1, 1, 0), x.draws[0], j));
    f.Zero(Later(CellsOf(x.points, x.n, 1, 1, 0), x.draws[0], x.n, j));
  }
}
