/** The binned store: the inputs are sorted into bins by several threads, every
    bin is solved by itself, and decoding goes to the slice of the input's bin. */
module Baxos {
  import opened Fields
  import opened Layout
  import opened Random
  import Inversion
  import Hash = RowHash
  import Threads = BaxosThreads
  import Batches = BaxosDecode
  import Store = Paxos
  import Fill = Backfill
  import Peel = Triangulation
  import Cores
  import Keys = EqualKeys
  import Index = ColumnIndex
  import Buckets = WeightBuckets

  /** The parameters of one bin, and what a hash gives a row: its words and its
      dense value. */
  datatype Params<!H(!new), !T(==, !new)> =
    Params(f: Field<T>, rounds: nat, sparseSize: nat, denseSize: nat, weight: nat, itemsPerBin: nat, words: H -> Hash.Hashed, dense: H -> T)
  {
    ghost predicate Valid() {
      && Inversion.Galois(f, rounds) && rounds >= 1 && denseSize >= 1
      && 1 <= weight <= sparseSize && itemsPerBin + 2 <= sparseSize
      && forall h :: words(h).Valid(weight)
    }

    function SizePer(): nat { sparseSize + denseSize }

    function RowFor(h: H): (row: seq<nat>)
      requires Valid()
      ensures |row| == weight && Peel.RowOk(row, sparseSize) && Hash.RowPicked(sparseSize, weight, words(h), row)
    {
      Hash.RowIsDistinct(sparseSize, weight, words(h));
      Hash.RowIsPicked(sparseSize, weight, words(h));
      Hash.RowOf(sparseSize, weight, words(h))
    }

    /** What a hash decodes to in one bin's codeword. */
    function DecodedBy(p: seq<T>, h: H): T
      requires Valid() && |p| == SizePer()
    {
      Fill.Decoded(f, RowFor(h), dense(h), p, sparseSize)
    }

    /** Bin b's codeword. */
    function Slice(p: seq<T>, b: nat): (q: seq<T>)
      requires Row(b, SizePer()) + SizePer() <= |p|
      ensures |q| == SizePer() && forall k :: 0 <= k < |q| ==> q[k] == p[Row(b, SizePer()) + k]
    {
      p[Row(b, SizePer())..Row(b, SizePer()) + SizePer()]
    }

    ghost function RowsFor(hs: seq<H>): seq<seq<nat>>
      requires Valid()
    {
      seq(|hs|, k requires 0 <= k < |hs| => RowFor(hs[k]))
    }

    ghost function DenseFor(hs: seq<H>): seq<T> {
      seq(|hs|, k requires 0 <= k < |hs| => dense(hs[k]))
    }

    /** No sparse column is in too many of the rows. */
    ghost predicate Spread(hs: seq<H>)
      requires Valid()
    {
      forall c :: 0 <= c < sparseSize ==> |Peel.Column(RowsFor(hs), c)| < Buckets.INITIAL_SETS
    }
  }

  /** The rows of 32 hashes at once. */
  method BuildGroup<H(!new), T(==, !new)>(prm: Params<H, T>, xor: Field<nat>, hs: seq<H>, buff: array<nat>) returns (rows: seq<seq<nat>>)
    requires prm.Valid() && Hash.XorWords(xor) && |hs| == 32 && buff.Length == Row(32, prm.weight)
    modifies buff
    ensures rows == prm.RowsFor(hs)
  {
    hide Inversion.Galois, Hash.XorWords, Row, Hash.RowOf;
    var group := seq(32, k requires 0 <= k < 32 => prm.words(hs[k]));
    Hash.BuildRow32(xor, prm.sparseSize, prm.weight, group, buff);
    rows := [];
    for k := 0 to 32
      invariant |rows| == k && forall j :: 0 <= j < k ==> rows[j] == prm.RowFor(hs[j])
    {
      assert Hash.RowBuilt(prm.sparseSize, prm.weight, group[k], buff[..], k);
      rows := rows + [buff[Row(k, prm.weight)..Row(k, prm.weight) + prm.weight]];
    }
  }

  /** The rows of a bin: for weight 3 in groups of 32 as far as they go. */
  method BuildRows<H(!new), T(==, !new)>(prm: Params<H, T>, xor: Field<nat>, hs: seq<H>) returns (rows: seq<seq<nat>>)
    requires prm.Valid() && Hash.XorWords(xor)
    ensures rows == prm.RowsFor(hs)
  {
    hide Inversion.Galois, Hash.XorWords, Row, Hash.RowOf;
    rows := [];
    var i := 0;
    if prm.weight == 3 {
      var buff := new nat[Row(32, prm.weight)](_ => 0);
      var main := |hs| / 32 * 32;
      while i + 32 <= main
        invariant i <= main <= |hs| && rows == prm.RowsFor(hs[..i])
      {
        var group := BuildGroup(prm, xor, hs[i..i + 32], buff);
        RowsAppend(prm, hs, i, i + 32);
        rows, i := rows + group, i + 32;
      }
    }
    var one := new nat[prm.weight](_ => 0);
    while i < |hs|
      invariant i <= |hs| && rows == prm.RowsFor(hs[..i])
    {
      Hash.BuildRow(prm.sparseSize, prm.weight, prm.words(hs[i]), one, 0);
      assert one[..] == one[0..prm.weight];
      RowsAppend(prm, hs, i, i + 1);
      rows, i := rows + [one[..]], i + 1;
    }
    assert hs[..|hs|] == hs;
  }

  lemma RowsAppend<H(!new), T(!new)>(prm: Params<H, T>, hs: seq<H>, i: nat, j: nat)
    requires prm.Valid() && i <= j <= |hs|
    ensures prm.RowsFor(hs[..j]) == prm.RowsFor(hs[..i]) + prm.RowsFor(hs[i..j])
  {
  }

  /** Every gap row of the bin has the sparse columns of its partner. */
  ghost predicate Partnered<T(!new)>(e: Store.Peeling<T>) {
    forall i :: 0 <= i < |e.gapRows| ==>
      e.gapRows[i].0 < |e.rows| && e.gapRows[i].1 < |e.rows| && e.rows[e.gapRows[i].0] == e.rows[e.gapRows[i].1]
  }

  /** The codeword of one bin decodes the hashes to the values. */
  ghost predicate BinDecodes<H(!new), T(!new)>(prm: Params<H, T>, hs: seq<H>, vs: seq<T>, p: seq<T>)
    requires prm.Valid() && |hs| == |vs| && |p| == prm.SizePer()
  {
    forall k :: 0 <= k < |hs| ==> prm.DecodedBy(p, hs[k]) == vs[k]
  }

  /** Why a bin is not solved: its rows have a core, and there are two rows that share a column and their dense value,
      more gap rows than dense columns, or a gap matrix that is singular or misses
      a pivot. */
  ghost predicate Unsolvable<H(!new), T(!new)>(prm: Params<H, T>, rows: seq<seq<nat>>, dense: seq<T>, vs: seq<T>, prng: Prng?<T>,
                                               status: Store.PaxosStatus, e: Store.Peeling<T>)
    requires |rows| == |dense|
  {
    Cores.HasCore(rows) && match status
    case Encoded => false
    case DuplicateKeys => Peel.HasDuplicate(rows, dense)
    case GapTooLarge => PeelingOf(prm, rows, dense, vs, e) && |e.gapRows| > prm.denseSize
    case NotInvertible =>
      && PeelingOf(prm, rows, dense, vs, e) && 0 < |e.gapRows| <= prm.denseSize && e.Stuck(prm.f, prm.rounds, prm.denseSize, prng)
      && exists start :: e.GapSystem(prm.f, prm.denseSize, prng, start)
  }

  /** e is a peeling of these rows. */
  ghost predicate PeelingOf<H(!new), T(!new)>(prm: Params<H, T>, rows: seq<seq<nat>>, dense: seq<T>, vs: seq<T>, e: Store.Peeling<T>) {
    e.Peeled() && e.rows == rows && e.dense == dense && e.vals == vs && e.s == prm.sparseSize
  }

  /** Solves the rows of one bin by a store of its own. */
  method SolveRows<H(!new), T(==, !new)>(prm: Params<H, T>, nullNode: nat, rows: seq<seq<nat>>, dense: seq<T>, vs: seq<T>, prng: Prng?<T>)
    returns (status: Store.PaxosStatus, p: seq<T>, ghost e: Store.Peeling<T>)
    requires prm.Valid() && prm.sparseSize <= nullNode && |rows| == |dense| == |vs| <= prm.itemsPerBin
    requires Peel.RowsOk(rows, prm.sparseSize) && forall r :: 0 <= r < |rows| ==> |rows[r]| == prm.weight
    requires forall c :: 0 <= c < prm.sparseSize ==> |Peel.Column(rows, c)| < Buckets.INITIAL_SETS
    requires prng != null ==> |prng.stream| > 0
    modifies prng
    ensures |p| == prm.SizePer()
    ensures status.Encoded? && (prng == null || Partnered(e)) ==> forall r :: 0 <= r < |rows| ==> Store.Decodes(prm.f, rows, dense, vs, p, prm.sparseSize, r)
    ensures status.Encoded? ==> !Keys.HasEqualKeys(rows, dense)
    ensures !Cores.HasCore(rows) ==> status.Encoded? && Partnered(e)
    ensures !status.Encoded? ==> Unsolvable(prm, rows, dense, vs, prng, status, e)
  {
    hide Inversion.Galois, Peel.Column, Peel.HasDuplicate, Store.Decodes, Peel.RowsOk, Store.Paxos.Weights;
    hide Cores.HasCore, Keys.HasEqualKeys, Peel.PartnersDiffer, Store.Peeling.Regular, Store.Peeling.Peeled, Store.Peeling.Valid, Store.Peeling.Stuck, Store.Peeling.GapSystem, Store.Solved;
    var paxos := new Store.Paxos(prm.f, prm.rounds, prm.sparseSize, prm.denseSize, nullNode);
    var index := new Index.Columns(prm.sparseSize, prm.weight * |rows|);
    var ok := paxos.SetInput(index, |rows|, prm.weight, rows, prm.weight, dense);
    var output := new T[prm.SizePer()](_ => prm.f.zero);
    ghost var free;
    status, e, free := paxos.Encode(vs, output, prng);
    p := output[..];
  }

  /** Solves one bin. */
  method SolveBin<H(!new), T(==, !new)>(prm: Params<H, T>, xor: Field<nat>, nullNode: nat, hs: seq<H>, vs: seq<T>, prng: Prng?<T>)
    returns (status: Store.PaxosStatus, p: seq<T>, ghost e: Store.Peeling<T>)
    requires prm.Valid() && Hash.XorWords(xor) && prm.sparseSize <= nullNode && |hs| == |vs| <= prm.itemsPerBin && prm.Spread(hs)
    requires prng != null ==> |prng.stream| > 0
    modifies prng
    ensures |p| == prm.SizePer()
    ensures status.Encoded? && (prng == null || Partnered(e)) ==> BinDecodes(prm, hs, vs, p)
    ensures status.Encoded? ==> !Keys.HasEqualKeys(prm.RowsFor(hs), prm.DenseFor(hs))
    ensures !Cores.HasCore(prm.RowsFor(hs)) ==> status.Encoded? && Partnered(e)
    ensures !status.Encoded? ==> Unsolvable(prm, prm.RowsFor(hs), prm.DenseFor(hs), vs, prng, status, e)
  {
    hide Inversion.Galois, Hash.XorWords, Peel.Column, Unsolvable, Partnered, Store.Decodes, Cores.HasCore, Keys.HasEqualKeys;
    var rows := BuildRows(prm, xor, hs);
    var dense := seq(|hs|, k requires 0 <= k < |hs| => prm.dense(hs[k]));
    assert dense == prm.DenseFor(hs);
    status, p, e := SolveRows(prm, nullNode, rows, dense, vs, prng);
    if status.Encoded? && (prng == null || Partnered(e)) {
      RowsDecode(prm, hs, vs, p);
    }
  }

  lemma RowsDecode<H(!new), T(!new)>(prm: Params<H, T>, hs: seq<H>, vs: seq<T>, p: seq<T>)
    requires prm.Valid() && |hs| == |vs| && |p| == prm.SizePer() && Peel.RowsOk(prm.RowsFor(hs), prm.sparseSize)
    requires forall r :: 0 <= r < |hs| ==> Store.Decodes(prm.f, prm.RowsFor(hs), prm.DenseFor(hs), vs, p, prm.sparseSize, r)
    ensures BinDecodes(prm, hs, vs, p)
  {
    hide Inversion.Galois;
    forall k | 0 <= k < |hs|
      ensures prm.DecodedBy(p, hs[k]) == vs[k]
    {
      assert Store.Decodes(prm.f, prm.RowsFor(hs), prm.DenseFor(hs), vs, p, prm.sparseSize, k);
    }
  }

  datatype Outcome = Solved | Unfinished | BinTooLarge | BinFailed(bin: nat, status: Store.PaxosStatus)

  /** The hashes routed to a bin can be weighed. */
  ghost predicate AllSpread<H(!new), T(!new)>(prm: Params<H, T>, job: Threads.Job<H, T>)
    requires prm.Valid()
  {
    forall b :: 0 <= b < job.numBins ==> prm.Spread(Threads.Pick(job.inputs, Threads.Routed(job.bin, job.inputs, 0, |job.inputs|, b)))
  }

  /** In the slice of its bin, input i decodes to its value. */
  ghost predicate DecodesInput<H(!new), T(!new)>(prm: Params<H, T>, job: Threads.Job<H, T>, p: seq<T>, i: nat)
    requires prm.Valid() && i < |job.inputs| == |job.vals|
  {
    var b := job.bin(job.inputs[i]);
    Row(b, prm.SizePer()) + prm.SizePer() <= |p| && prm.DecodedBy(prm.Slice(p, b), job.inputs[i]) == job.vals[i]
  }

  /** In bin b's slice, the inputs of the bin decode to their values. */
  ghost predicate SliceDecodes<H(!new), T(!new)>(prm: Params<H, T>, job: Threads.Job<H, T>, p: seq<T>, b: nat)
    requires prm.Valid() && |job.inputs| == |job.vals|
  {
    forall i :: 0 <= i < |job.inputs| && job.bin(job.inputs[i]) == b ==> DecodesInput(prm, job, p, i)
  }

  /** The slots of a bin hold what is routed there. */
  lemma InBin<H(!new), T(!new)>(prm: Params<H, T>, job: Threads.Job<H, T>, hs: seq<H>, vs: seq<T>, b: nat)
    requires prm.Valid() && job.Valid() && b < job.numBins && AllSpread(prm, job) && job.BinsFit(prm.itemsPerBin) && job.BinOk(hs, vs, b)
    ensures var base, r := Row(b, job.Width()), Threads.Routed(job.bin, job.inputs, 0, |job.inputs|, b);
      && |r| <= prm.itemsPerBin && base + |r| <= |hs| && base + |r| <= |vs|
      && hs[base..base + |r|] == Threads.Pick(job.inputs, r) && vs[base..base + |r|] == Threads.Pick(job.vals, r)
      && prm.Spread(hs[base..base + |r|])
  {
    hide Params.Spread, Threads.Routed, Row;
  }

  /** One more slice: its inputs decode, and those of the slices before still do. */
  lemma SliceSolved<H(!new), T(!new)>(prm: Params<H, T>, job: Threads.Job<H, T>, p: seq<T>, q: seq<T>, b: nat)
    requires prm.Valid() && job.Valid() && |p| == Row(b, prm.SizePer()) && |q| == prm.SizePer()
    requires var r := Threads.Routed(job.bin, job.inputs, 0, |job.inputs|, b); BinDecodes(prm, Threads.Pick(job.inputs, r), Threads.Pick(job.vals, r), q)
    ensures SliceDecodes(prm, job, p + q, b)
  {
    hide Threads.Routed, Row, Params.DecodedBy;
    assert prm.Slice(p + q, b) == q;
    var r := Threads.Routed(job.bin, job.inputs, 0, |job.inputs|, b);
    forall i | 0 <= i < |job.inputs| && job.bin(job.inputs[i]) == b
      ensures DecodesInput(prm, job, p + q, i)
    {
      Threads.RoutedAll(job.bin, job.inputs, |job.inputs|, i);
      var k :| 0 <= k < |r| && r[k] == i;
      assert prm.DecodedBy(q, Threads.Pick(job.inputs, r)[k]) == Threads.Pick(job.vals, r)[k];
    }
  }

  lemma SliceStays<H(!new), T(!new)>(prm: Params<H, T>, job: Threads.Job<H, T>, p: seq<T>, q: seq<T>, b: nat)
    requires prm.Valid() && |job.inputs| == |job.vals| && SliceDecodes(prm, job, p, b)
    ensures SliceDecodes(prm, job, p + q, b)
  {
    hide Row, Params.DecodedBy;
    forall i | 0 <= i < |job.inputs| && job.bin(job.inputs[i]) == b
      ensures DecodesInput(prm, job, p + q, i)
    {
      assert DecodesInput(prm, job, p, i);
      assert prm.Slice(p + q, b) == prm.Slice(p, b);
    }
  }

  /** Bin b's slice behind those of the bins before. */
  lemma OneMoreSlice<H(!new), T(!new)>(prm: Params<H, T>, job: Threads.Job<H, T>, p: seq<T>, q: seq<T>, es: seq<Store.Peeling<T>>, e: Store.Peeling<T>, b: nat, plain: bool)
    requires prm.Valid() && job.Valid() && |es| == b && |p| == Row(b, prm.SizePer()) && |q| == prm.SizePer()
    requires forall c :: 0 <= c < b && (plain || Partnered(es[c])) ==> SliceDecodes(prm, job, p, c)
    requires var r := Threads.Routed(job.bin, job.inputs, 0, |job.inputs|, b);
      plain || Partnered(e) ==> BinDecodes(prm, Threads.Pick(job.inputs, r), Threads.Pick(job.vals, r), q)
    ensures forall c :: 0 <= c <= b && (plain || Partnered((es + [e])[c])) ==> SliceDecodes(prm, job, p + q, c)
  {
    hide SliceDecodes, BinDecodes, Partnered, Params.Valid, Threads.Routed, Row;
    forall c | 0 <= c <= b && (plain || Partnered((es + [e])[c]))
      ensures SliceDecodes(prm, job, p + q, c)
    {
      if c < b {
        SliceStays(prm, job, p, q, c);
      } else {
        SliceSolved(prm, job, p, q, b);
      }
    }
  }

  ghost predicate BinUnsolvable<H(!new), T(!new)>(prm: Params<H, T>, job: Threads.Job<H, T>, b: nat, prng: Prng?<T>, status: Store.PaxosStatus, e: Store.Peeling<T>)
    requires prm.Valid() && |job.inputs| == |job.vals|
  {
    var r := Threads.Routed(job.bin, job.inputs, 0, |job.inputs|, b);
    var hs := Threads.Pick(job.inputs, r);
    Unsolvable(prm, prm.RowsFor(hs), prm.DenseFor(hs), Threads.Pick(job.vals, r), prng, status, e)
  }

  /** The rows of the inputs routed to bin b have no core. */
  ghost predicate Peelable<H(!new), T(!new)>(prm: Params<H, T>, job: Threads.Job<H, T>, b: nat)
    requires prm.Valid()
  {
    !Cores.HasCore(prm.RowsFor(Threads.Pick(job.inputs, Threads.Routed(job.bin, job.inputs, 0, |job.inputs|, b))))
  }

  /** Only a bin whose rows have a core is not solved. */
  lemma PeelableIsSolved<H(!new), T(!new)>(prm: Params<H, T>, job: Threads.Job<H, T>, b: nat, prng: Prng?<T>, status: Store.PaxosStatus, e: Store.Peeling<T>)
    requires prm.Valid() && |job.inputs| == |job.vals| && BinUnsolvable(prm, job, b, prng, status, e)
    ensures !Peelable(prm, job, b)
  {
    hide Cores.HasCore;
  }

  /** Bins the inputs by any schedule of the threads, then solves bin by bin. If
      all steps are taken, every bin fits and every system is solved, decoding
      gives every input its value. */
  method Solve<H(!new), T(==, !new)>(prm: Params<H, T>, xor: Field<nat>, nullNode: nat, job: Threads.Job<H, T>, schedule: seq<Threads.Step>, blank: H, prng: Prng?<T>)
    returns (outcome: Outcome, p: seq<T>, ghost es: seq<Store.Peeling<T>>)
    requires prm.Valid() && Hash.XorWords(xor) && prm.sparseSize <= nullNode && job.Valid() && AllSpread(prm, job)
    requires prng != null ==> |prng.stream| > 0
    modifies prng
    ensures outcome.BinTooLarge? <==> job.Stops(Threads.Start(job), schedule, prm.itemsPerBin)
    ensures outcome.BinTooLarge? ==> !job.BinsFit(prm.itemsPerBin)
    ensures outcome.Unfinished? <==> !outcome.BinTooLarge? && !job.Done(job.After(Threads.Start(job), schedule, |schedule|))
    ensures outcome.Solved? || outcome.BinFailed? ==> job.BinsFit(prm.itemsPerBin)
    ensures outcome.BinFailed? ==> outcome.bin < job.numBins && |es| == outcome.bin + 1
    ensures outcome.BinFailed? ==> BinUnsolvable(prm, job, outcome.bin, prng, outcome.status, es[outcome.bin])
    ensures outcome.Solved? ==> |p| == Row(job.numBins, prm.SizePer()) && |es| == job.numBins
    ensures outcome.Solved? && (prng == null || forall b :: 0 <= b < job.numBins ==> Partnered(es[b])) ==>
      forall i :: 0 <= i < |job.inputs| ==> DecodesInput(prm, job, p, i)
    ensures (forall b :: 0 <= b < job.numBins ==> Peelable(prm, job, b)) ==>
      !outcome.BinFailed? && (outcome.Solved? ==> forall i :: 0 <= i < |job.inputs| ==> DecodesInput(prm, job, p, i))
  {
    hide Inversion.Galois, Hash.XorWords, Peel.Column, Params.Spread, Threads.Job.BinOk, Threads.Routed, Threads.Job.BinsFit, Row;
    hide Cores.HasCore, Keys.HasEqualKeys;
    hide SliceDecodes, DecodesInput, Partnered, BinDecodes, AllSpread, Unsolvable, Threads.Job.Stops, Threads.Job.After;
    p, es := [], [];
    var binner := new Threads.Binner(job, prm.itemsPerBin, blank, prm.f.zero);
    var ok;
    ghost var taken;
    ok, taken := Threads.RunSchedule(binner, schedule);
    if !ok {
      return BinTooLarge, p, es;
    }
    if !binner.Over() {
      return Unfinished, p, es;
    }
    var hs, vs := binner.hashes[..], binner.values[..];
    RowStart(prm.SizePer());
    for b := 0 to job.numBins
      invariant |es| == b && |p| == Row(b, prm.SizePer())
      invariant forall c :: 0 <= c < b && (prng == null || Partnered(es[c])) ==> SliceDecodes(prm, job, p, c)
      invariant forall c :: 0 <= c < b && Peelable(prm, job, c) ==> Partnered(es[c])
    {
      var base, size := Row(b, job.Width()), |Threads.Routed(job.bin, job.inputs, 0, |job.inputs|, b)|;
      InBin(prm, job, hs, vs, b);
      var status, q;
      ghost var e;
      status, q, e := SolveBin(prm, xor, nullNode, hs[base..base + size], vs[base..base + size], prng);
      if status != Store.Encoded {
        PeelableIsSolved(prm, job, b, prng, status, e);
        return BinFailed(b, status), p, es + [e];
      }
      OneMoreSlice(prm, job, p, q, es, e, b, prng == null);
      NextRow(b, prm.SizePer());
      p, es := p + q, es + [e];
    }
    outcome := Solved;
    if prng == null || forall b :: 0 <= b < job.numBins ==> Partnered(es[b]) {
      AllInputs(prm, job, p);
    }
  }

  lemma AllInputs<H(!new), T(!new)>(prm: Params<H, T>, job: Threads.Job<H, T>, p: seq<T>)
    requires prm.Valid() && job.Valid() && forall b :: 0 <= b < job.numBins ==> SliceDecodes(prm, job, p, b)
    ensures forall i :: 0 <= i < |job.inputs| ==> DecodesInput(prm, job, p, i)
  {
    hide DecodesInput;
    forall i | 0 <= i < |job.inputs|
      ensures DecodesInput(prm, job, p, i)
    {
      assert SliceDecodes(prm, job, p, job.bin(job.inputs[i]));
    }
  }

  lemma NextRow(i: nat, len: nat)
    ensures Row(i + 1, len) == Row(i, len) + len
  {
  }

  /** How a hash decodes in the slice of a bin. */
  function Decoder<H(!new), T(!new)>(prm: Params<H, T>, p: seq<T>): (nat, H) -> T
    requires prm.Valid()
  {
    (b: nat, h: H) => if Row(b, prm.SizePer()) + prm.SizePer() <= |p| then prm.DecodedBy(prm.Slice(p, b), h) else prm.f.zero
  }

  /** Decodes all inputs and compares, as the debugging check does. */
  method Check<H(!new), T(==, !new)>(prm: Params<H, T>, job: Threads.Job<H, T>, p: seq<T>) returns (passed: bool)
    requires prm.Valid() && job.Valid() && |p| == Row(job.numBins, prm.SizePer())
    ensures passed <==> forall i :: 0 <= i < |job.inputs| ==> DecodesInput(prm, job, p, i)
  {
    hide Row, Params.DecodedBy, Inversion.Galois;
    var v2 := new T[|job.inputs|](_ => prm.f.zero);
    var decoding := Batches.Job(job.inputs, job.bin, job.numBins, Decoder(prm, p), false, (a, b) => prm.f.Add(a, b));
    Batches.DecodeBatch(decoding, v2);
    var decoded := v2[..];
    passed := true;
    for i := 0 to |job.inputs|
      invariant passed <==> forall k :: 0 <= k < i ==> DecodesInput(prm, job, p, k)
    {
      DecoderDecodes(prm, job, p, i);
      passed := passed && decoded[i] == job.vals[i];
    }
  }

  lemma DecoderDecodes<H(!new), T(!new)>(prm: Params<H, T>, job: Threads.Job<H, T>, p: seq<T>, i: nat)
    requires prm.Valid() && job.Valid() && |p| == Row(job.numBins, prm.SizePer()) && i < |job.inputs|
    ensures Decoder(prm, p)(job.bin(job.inputs[i]), job.inputs[i]) == job.vals[i] <==> DecodesInput(prm, job, p, i)
  {
    hide Row, Params.DecodedBy;
    RowFits(job.bin(job.inputs[i]), job.numBins, prm.SizePer());
  }

  /** The debugging check finds nothing wrong: decoding inverts solving. */
  method SolveChecked<H(!new), T(==, !new)>(prm: Params<H, T>, xor: Field<nat>, nullNode: nat, job: Threads.Job<H, T>, schedule: seq<Threads.Step>, blank: H, prng: Prng?<T>)
    returns (outcome: Outcome, p: seq<T>, passed: bool, ghost es: seq<Store.Peeling<T>>)
    requires prm.Valid() && Hash.XorWords(xor) && prm.sparseSize <= nullNode && job.Valid() && AllSpread(prm, job)
    requires prng != null ==> |prng.stream| > 0
    modifies prng
    ensures outcome.Solved? ==> |es| == job.numBins
    ensures outcome.Solved? && (prng == null || forall b :: 0 <= b < job.numBins ==> Partnered(es[b])) ==> passed
    ensures outcome.Solved? && (forall b :: 0 <= b < job.numBins ==> Peelable(prm, job, b)) ==> passed
  {
    hide Row, Params.Valid, Threads.Job.Valid, Hash.XorWords, AllSpread, DecodesInput;
    outcome, p, es := Solve(prm, xor, nullNode, job, schedule, blank, prng);
    passed := false;
    if outcome.Solved? {
      passed := Check(prm, job, p);
    }
  }
}
