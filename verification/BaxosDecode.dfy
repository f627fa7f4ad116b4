/** Batched decoding: inputs are collected per bin and decoded when a batch is
    full, and the rest at the end. */
module BaxosDecode {

  /** A decoding job: the hashed inputs, their bins, and how a hash decodes in
      its bin's slice of the codeword. With addTo the result is added to what
      the output holds. */
  datatype Job<!H, !V> = Job(hashes: seq<H>, bin: H -> nat, numBins: nat, dec: (nat, H) -> V, addTo: bool, add: (V, V) -> V)
  {
    ghost predicate Valid() {
      numBins > 0 && forall i :: 0 <= i < |hashes| ==> bin(hashes[i]) < numBins
    }

    /** What the output for input i must become. */
    function Final(old_: V, i: nat): V
      requires i < |hashes|
    {
      var v := dec(bin(hashes[i]), hashes[i]);
      if addTo then add(old_, v) else v
    }

    /** The indices of a batch of one bin: distinct, and hashed there. */
    ghost predicate BatchOf(idxs: seq<nat>, b: nat) {
      && (forall k :: 0 <= k < |idxs| ==> idxs[k] < |hashes| && bin(hashes[idxs[k]]) == b)
      && forall j, k :: 0 <= j < k < |idxs| ==> idxs[j] != idxs[k]
    }
  }

  const BATCH: nat := 32

  /** Decodes one batch: groups of 32 through a buffer, then one by one. */
  method DecodeBin<H(!new), V(!new)>(job: Job<H, V>, b: nat, hashes: seq<H>, values: array<V>, inIdxs: seq<nat>)
    requires job.Valid() && |hashes| == |inIdxs| && job.BatchOf(inIdxs, b) && values.Length == |job.hashes|
    requires forall k :: 0 <= k < |hashes| ==> inIdxs[k] < |job.hashes| && hashes[k] == job.hashes[inIdxs[k]]
    modifies values
    ensures forall j :: 0 <= j < values.Length && j !in inIdxs ==> values[j] == old(values[j])
    ensures !job.addTo ==> forall j :: 0 <= j < values.Length && j in inIdxs ==> values[j] == job.dec(b, job.hashes[j])
    ensures job.addTo ==> forall j :: 0 <= j < values.Length && j in inIdxs ==> values[j] == job.add(old(values[j]), job.dec(b, job.hashes[j]))
    ensures forall j :: 0 <= j < values.Length && j in inIdxs ==> values[j] == job.Final(old(values[j]), j)
  {
    var main := |hashes| / BATCH * BATCH;
    var i := 0;
    while i + BATCH <= main
      invariant i <= main <= |hashes|
      invariant forall j :: 0 <= j < values.Length ==> values[j] == if j in inIdxs[..i] then job.Final(old(values[j]), j) else old(values[j])
    {
      var buff := seq(BATCH, k requires 0 <= k < BATCH => job.dec(b, hashes[i + k]));
      for k := 0 to BATCH
        invariant forall j :: 0 <= j < values.Length ==> values[j] == if j in inIdxs[..i + k] then job.Final(old(values[j]), j) else old(values[j])
      {
        NotBefore(inIdxs, i + k);
        values[inIdxs[i + k]] := if job.addTo then job.add(values[inIdxs[i + k]], buff[k]) else buff[k];
      }
      i := i + BATCH;
    }
    while i < |hashes|
      invariant i <= |hashes|
      invariant forall j :: 0 <= j < values.Length ==> values[j] == if j in inIdxs[..i] then job.Final(old(values[j]), j) else old(values[j])
    {
      NotBefore(inIdxs, i);
      var v := job.dec(b, hashes[i]);
      values[inIdxs[i]] := if job.addTo then job.add(values[inIdxs[i]], v) else v;
      i := i + 1;
    }
    assert inIdxs[..|hashes|] == inIdxs;
  }

  lemma NotBefore(idxs: seq<nat>, m: nat)
    requires m < |idxs| && forall j, k :: 0 <= j < k < |idxs| ==> idxs[j] != idxs[k]
    ensures idxs[m] !in idxs[..m] && forall j :: j in idxs[..m + 1] <==> j in idxs[..m] || j == idxs[m]
  {
    assert idxs[..m + 1] == idxs[..m] + [idxs[m]];
  }

  /** Input j has not been decoded yet: it is still to come, or in a batch. */
  ghost predicate Waiting<H, V>(job: Job<H, V>, pending: seq<seq<nat>>, i: nat, j: nat)
    requires job.Valid() && |pending| == job.numBins && j < |job.hashes|
  {
    j >= i || j in pending[job.bin(job.hashes[j])]
  }

  /** Everything before i that is in no batch has been decoded exactly once. */
  ghost predicate Progress<H, V>(job: Job<H, V>, pending: seq<seq<nat>>, i: nat, before: seq<V>, now: seq<V>) {
    && job.Valid() && |pending| == job.numBins && |before| == |now| == |job.hashes| && i <= |job.hashes|
    && (forall b :: 0 <= b < job.numBins ==> job.BatchOf(pending[b], b))
    && (forall b, j :: 0 <= b < job.numBins && j in pending[b] ==> j < i)
    && forall j :: 0 <= j < |now| ==> now[j] == if Waiting(job, pending, i, j) then before[j] else job.Final(before[j], j)
  }

  /** The batches hold the hashes of the pending indices. */
  ghost predicate Holds<H, V>(job: Job<H, V>, inIdxs: seq<seq<nat>>, batches: seq<seq<H>>) {
    |inIdxs| == |batches| == job.numBins && forall b :: 0 <= b < job.numBins ==> HoldsBin(job, inIdxs[b], batches[b])
  }

  ghost predicate HoldsBin<H, V>(job: Job<H, V>, idxs: seq<nat>, batch: seq<H>) {
    |batch| == |idxs| && forall k :: 0 <= k < |idxs| ==> idxs[k] < |job.hashes| && batch[k] == job.hashes[idxs[k]]
  }

  /** Putting the next input into its bin's batch. */
  lemma OneMoreWaits<H, V>(job: Job<H, V>, pending: seq<seq<nat>>, i: nat, before: seq<V>, now: seq<V>)
    requires Progress(job, pending, i, before, now) && i < |job.hashes|
    ensures var b := job.bin(job.hashes[i]); b < job.numBins && Progress(job, pending[b := pending[b] + [i]], i + 1, before, now)
  {
    var b := job.bin(job.hashes[i]);
    var pending' := pending[b := pending[b] + [i]];
    forall j | 0 <= j < |now|
      ensures Waiting(job, pending', i + 1, j) == Waiting(job, pending, i, j)
    {
    }
    forall c | 0 <= c < job.numBins
      ensures job.BatchOf(pending'[c], c)
    {
      assert job.BatchOf(pending[c], c);
      assert forall k :: 0 <= k < |pending[c]| ==> pending[c][k] in pending[c];
    }
  }

  /** Decoding a bin's batch leaves nothing of that bin waiting. */
  lemma BatchDone<H, V>(job: Job<H, V>, pending: seq<seq<nat>>, i: nat, before: seq<V>, now: seq<V>, b: nat, now': seq<V>)
    requires Progress(job, pending, i, before, now) && b < job.numBins && |now'| == |now|
    requires forall j :: 0 <= j < |now| ==> now'[j] == if j in pending[b] then job.Final(now[j], j) else now[j]
    ensures Progress(job, pending[b := []], i, before, now')
  {
    var pending' := pending[b := []];
    assert job.BatchOf(pending[b], b);
    forall j | 0 <= j < |now|
      ensures now'[j] == if Waiting(job, pending', i, j) then before[j] else job.Final(before[j], j)
    {
      if j in pending[b] {
        assert j < i;
        var k :| 0 <= k < |pending[b]| && pending[b][k] == j;
      }
    }
  }

  /** Decodes all inputs; every output is written exactly once, from its own
      bin's slice. */
  method DecodeBatch<H(!new), V(!new)>(job: Job<H, V>, values: array<V>)
    requires job.Valid() && values.Length == |job.hashes|
    modifies values
    ensures !job.addTo ==> forall j :: 0 <= j < values.Length ==> values[j] == job.dec(job.bin(job.hashes[j]), job.hashes[j])
    ensures job.addTo ==> forall j :: 0 <= j < values.Length ==> values[j] == job.add(old(values[j]), job.dec(job.bin(job.hashes[j]), job.hashes[j]))
  {
    hide Progress, Holds, HoldsBin;
    assert job.numBins > 0;
    var n := |job.hashes|;
    var decodeSize := if n < 512 then n else 512;
    var batches: seq<seq<H>> := seq(job.numBins, _ => []);
    var inIdxs: seq<seq<nat>> := seq(job.numBins, _ => []);
    NothingWaits(job, inIdxs, batches, values[..]);
    var main := n / BATCH * BATCH;
    var i := 0;
    while i + BATCH <= main
      invariant i <= main <= n
      invariant Holds(job, inIdxs, batches) && Progress(job, inIdxs, i, old(values[..]), values[..])
    {
      for k := 0 to BATCH
        invariant Holds(job, inIdxs, batches) && Progress(job, inIdxs, i + k, old(values[..]), values[..])
      {
        batches, inIdxs := Collect(job, values, decodeSize, batches, inIdxs, i + k, old(values[..]));
      }
      i := i + BATCH;
    }
    while i < n
      invariant i <= n && Holds(job, inIdxs, batches) && Progress(job, inIdxs, i, old(values[..]), values[..])
    {
      batches, inIdxs := Collect(job, values, decodeSize, batches, inIdxs, i, old(values[..]));
      i := i + 1;
    }
    Sizes(job, inIdxs, batches, 0);
    for b := 0 to job.numBins
      invariant Holds(job, inIdxs, batches) && Progress(job, inIdxs, n, old(values[..]), values[..])
      invariant |inIdxs| == job.numBins && forall c :: 0 <= c < b ==> inIdxs[c] == []
    {
      Sizes(job, inIdxs, batches, b);
      if |batches[b]| > 0 {
        batches, inIdxs := Flush(job, values, batches, inIdxs, n, b, old(values[..]));
      }
    }
    NothingLeft(job, inIdxs, n, old(values[..]), values[..]);
  }

  lemma NothingWaits<H, V>(job: Job<H, V>, inIdxs: seq<seq<nat>>, batches: seq<seq<H>>, now: seq<V>)
    requires job.Valid() && |inIdxs| == |batches| == job.numBins && |now| == |job.hashes|
    requires forall b :: 0 <= b < job.numBins ==> inIdxs[b] == [] && batches[b] == []
    ensures Holds(job, inIdxs, batches) && Progress(job, inIdxs, 0, now, now)
  {
  }

  lemma NothingLeft<H, V>(job: Job<H, V>, inIdxs: seq<seq<nat>>, n: nat, before: seq<V>, now: seq<V>)
    requires Progress(job, inIdxs, n, before, now) && n == |job.hashes| && |inIdxs| == job.numBins && forall b :: 0 <= b < job.numBins ==> inIdxs[b] == []
    ensures |before| == |now| == n && forall j :: 0 <= j < n ==> now[j] == job.Final(before[j], j)
  {
  }

  lemma Sizes<H, V>(job: Job<H, V>, inIdxs: seq<seq<nat>>, batches: seq<seq<H>>, b: nat)
    requires Holds(job, inIdxs, batches) && b < job.numBins
    ensures |inIdxs| == |batches| == job.numBins && |batches[b]| == |inIdxs[b]| && HoldsBin(job, inIdxs[b], batches[b])
  {
  }

  /** Puts one input into its batch, and decodes the batch if that fills it. */
  method Collect<H(!new), V(!new)>(job: Job<H, V>, values: array<V>, decodeSize: nat, batches0: seq<seq<H>>, inIdxs0: seq<seq<nat>>, i: nat, ghost before: seq<V>)
    returns (batches: seq<seq<H>>, inIdxs: seq<seq<nat>>)
    requires i < |job.hashes| && Holds(job, inIdxs0, batches0) && Progress(job, inIdxs0, i, before, values[..])
    modifies values
    ensures Holds(job, inIdxs, batches) && Progress(job, inIdxs, i + 1, before, values[..])
  {
    hide Progress, Holds, HoldsBin;
    OneMoreWaits(job, inIdxs0, i, before, values[..]);
    var binIdx := job.bin(job.hashes[i]);
    Sizes(job, inIdxs0, batches0, binIdx);
    batches := batches0[binIdx := batches0[binIdx] + [job.hashes[i]]];
    inIdxs := inIdxs0[binIdx := inIdxs0[binIdx] + [i]];
    HoldsMore(job, inIdxs0, batches0, binIdx, inIdxs[binIdx], batches[binIdx], i);
    if |batches[binIdx]| == decodeSize {
      batches, inIdxs := Flush(job, values, batches, inIdxs, i + 1, binIdx, before);
    }
  }

  lemma HoldsMore<H, V>(job: Job<H, V>, inIdxs: seq<seq<nat>>, batches: seq<seq<H>>, b: nat, idxs: seq<nat>, batch: seq<H>, i: nat)
    requires Holds(job, inIdxs, batches) && b < job.numBins && i < |job.hashes|
    requires |inIdxs| == |batches| == job.numBins && idxs == inIdxs[b] + [i] && batch == batches[b] + [job.hashes[i]]
    ensures Holds(job, inIdxs[b := idxs], batches[b := batch])
  {
    assert HoldsBin(job, inIdxs[b], batches[b]);
  }

  /** Decodes the batch of bin b. */
  method Flush<H(!new), V(!new)>(job: Job<H, V>, values: array<V>, batches0: seq<seq<H>>, inIdxs0: seq<seq<nat>>, i: nat, b: nat, ghost before: seq<V>)
    returns (batches: seq<seq<H>>, inIdxs: seq<seq<nat>>)
    requires b < job.numBins && Holds(job, inIdxs0, batches0) && Progress(job, inIdxs0, i, before, values[..])
    modifies values
    ensures Holds(job, inIdxs, batches) && Progress(job, inIdxs, i, before, values[..]) && |inIdxs0| == |batches0| == job.numBins
    ensures inIdxs == inIdxs0[b := []] && batches == batches0[b := []]
  {
    ghost var now := values[..];
    Sizes(job, inIdxs0, batches0, b);
    assert job.BatchOf(inIdxs0[b], b);
    DecodeBin(job, b, batches0[b], values, inIdxs0[b]);
    BatchDone(job, inIdxs0, i, before, now, b, values[..]);
    batches, inIdxs := batches0[b := []], inIdxs0[b := []];
  }
}
