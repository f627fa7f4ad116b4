/** The threads of the parallel front end as a protocol: any interleaving of
    hashing steps, arrivals at the barrier and merges. */
module BaxosThreads {
  import opened Division
  import opened Layout
  import opened BaxosBins

  /** The inputs from lo up to hi that belong to bin b, in order. */
  function Routed<H>(bin: H -> nat, inputs: seq<H>, lo: nat, hi: nat, b: nat): (r: seq<nat>)
    requires lo <= hi <= |inputs|
    ensures |r| <= hi - lo && forall k :: 0 <= k < |r| ==> lo <= r[k] < hi && bin(inputs[r[k]]) == b
    decreases hi
  {
    if lo == hi then []
    else if bin(inputs[hi - 1]) == b then Routed(bin, inputs, lo, hi - 1, b) + [hi - 1]
    else Routed(bin, inputs, lo, hi - 1, b)
  }

  lemma {:induction false} RoutedSplit<H>(bin: H -> nat, inputs: seq<H>, lo: nat, mid: nat, hi: nat, b: nat)
    requires lo <= mid <= hi <= |inputs|
    ensures Routed(bin, inputs, lo, hi, b) == Routed(bin, inputs, lo, mid, b) + Routed(bin, inputs, mid, hi, b)
    decreases hi
  {
    if mid < hi {
      RoutedSplit(bin, inputs, lo, mid, hi - 1, b);
    }
  }

  /** Every input of the bin is in the list. */
  lemma {:induction false} RoutedAll<H>(bin: H -> nat, inputs: seq<H>, hi: nat, i: nat)
    requires i < hi <= |inputs|
    ensures i in Routed(bin, inputs, 0, hi, bin(inputs[i]))
    decreases hi
  {
    if i < hi - 1 {
      RoutedAll(bin, inputs, hi - 1, i);
    }
  }

  function Pick<X>(xs: seq<X>, idxs: seq<nat>): (r: seq<X>)
    requires forall k :: 0 <= k < |idxs| ==> idxs[k] < |xs|
    ensures |r| == |idxs| && forall k :: 0 <= k < |idxs| ==> r[k] == xs[idxs[k]]
  {
    seq(|idxs|, k requires 0 <= k < |idxs| => xs[idxs[k]])
  }

  /** The memory from `at` on holds the picked elements. */
  ghost predicate Stored<X>(mem: seq<X>, at: nat, xs: seq<X>, idxs: seq<nat>) {
    && (forall k :: 0 <= k < |idxs| ==> idxs[k] < |xs|)
    && at + |idxs| <= |mem| && mem[at..at + |idxs|] == Pick(xs, idxs)
  }

  lemma StoredMore<X>(mem: seq<X>, mem': seq<X>, at: nat, xs: seq<X>, idxs: seq<nat>, i: nat)
    requires Stored(mem, at, xs, idxs) && i < |xs| && at + |idxs| < |mem| && mem' == mem[at + |idxs| := xs[i]]
    ensures Stored(mem', at, xs, idxs + [i])
  {
    var m := at + |idxs|;
    SliceSame(mem', mem, at, m);
    SliceSplit(mem', at, m, m + 1);
    assert Pick(xs, idxs + [i]) == Pick(xs, idxs) + [xs[i]];
  }

  lemma StoredSame<X>(mem: seq<X>, mem': seq<X>, at: nat, xs: seq<X>, idxs: seq<nat>)
    requires Stored(mem, at, xs, idxs) && |mem'| == |mem| && forall k :: at <= k < at + |idxs| && k < |mem| ==> mem'[k] == mem[k]
    ensures Stored(mem', at, xs, idxs)
  {
    SliceSame(mem', mem, at, at + |idxs|);
  }

  lemma StoredElsewhere<X>(mem: seq<X>, at: nat, x: X, lo: nat, p: nat, xs: seq<X>, idxs: seq<nat>)
    requires Stored(mem, lo, xs, idxs) && |idxs| <= p && at < |mem| && (at < lo || lo + p <= at)
    ensures Stored(mem[at := x], lo, xs, idxs)
  {
    StoredSame(mem, mem[at := x], lo, xs, idxs);
  }

  /** Where thread t's range of n inputs begins: n * t / threads. */
  function Begin(n: nat, t: nat, threads: nat): nat
    requires threads > 0
  {
    Quotient(Row(t, n), threads)
  }

  lemma Ranges(n: nat, t: nat, threads: nat)
    requires threads > 0
    ensures Begin(n, 0, threads) == 0 && Begin(n, threads, threads) == n
    ensures t < threads ==> Begin(n, t, threads) <= Begin(n, t + 1, threads) <= n
  {
    RowCommutes(threads, n);
    QuotientOfRow(n, threads);
    if t < threads {
      RowMono(t, t + 1, n);
      RowMono(t + 1, threads, n);
      QuotientMono(Row(t, n), Row(t + 1, n), threads);
      QuotientMono(Row(t + 1, n), Row(threads, n), threads);
    }
  }

  /** The ranges are the integer shares of the inputs, and bins are dealt out in
      turn. */
  lemma SharesAre<H, V>(job: Job<H, V>, t: nat, b: nat)
    requires job.threads > 0
    ensures Begin(|job.inputs|, t, job.threads) == |job.inputs| * t / job.threads && job.Owner(b) == b % job.threads
  {
    RowIsProduct(t, |job.inputs|);
    AreDivision(Row(t, |job.inputs|), job.threads);
    AreDivision(b, job.threads);
  }

  /** A bin's inputs are listed in their order. */
  lemma {:induction false} RoutedAscends<H>(bin: H -> nat, inputs: seq<H>, lo: nat, hi: nat, b: nat, i: nat, j: nat)
    requires lo <= hi <= |inputs| && i < j < |Routed(bin, inputs, lo, hi, b)|
    ensures Routed(bin, inputs, lo, hi, b)[i] < Routed(bin, inputs, lo, hi, b)[j]
    decreases hi
  {
    var rest := Routed(bin, inputs, lo, hi - 1, b);
    if j < |rest| {
      RoutedAscends(bin, inputs, lo, hi - 1, b, i, j);
    }
  }

  /** The parts of a bin, merged, are its inputs in order. */
  lemma {:induction false} GatheredRouted<H, X>(bin: H -> nat, inputs: seq<H>, xs: seq<X>, mem: seq<X>, base: nat, p: nat, sizes: seq<nat>, b: nat, t: nat)
    requires |xs| == |inputs| && t <= |sizes| && |sizes| > 0 && base + Row(t, p) <= |mem| && forall i :: 0 <= i < |sizes| ==> sizes[i] <= p
    requires forall i :: 0 <= i < |sizes| ==> PartOf(bin, inputs, xs, mem, base + Row(i, p), sizes[i], b, i, |sizes|)
    requires Begin(|inputs|, t, |sizes|) <= |inputs|
    ensures Gathered(mem, base, p, sizes, t) == Pick(xs, Routed(bin, inputs, 0, Begin(|inputs|, t, |sizes|), b))
  {
    hide Row, Begin, Routed;
    var n, threads := |inputs|, |sizes|;
    Ranges(n, 0, threads);
    EmptyRouted(bin, inputs, 0, b);
    if t > 0 {
      Ranges(n, t - 1, threads);
      RowFits(t - 1, t, p);
      GatheredRouted(bin, inputs, xs, mem, base, p, sizes, b, t - 1);
      RoutedSplit(bin, inputs, 0, Begin(n, t - 1, threads), Begin(n, t, threads), b);
      assert PartOf(bin, inputs, xs, mem, base + Row(t - 1, p), sizes[t - 1], b, t - 1, threads);
      PickAppend(xs, Routed(bin, inputs, 0, Begin(n, t - 1, threads), b), Routed(bin, inputs, Begin(n, t - 1, threads), Begin(n, t, threads), b));
    }
  }

  lemma PickAppend<X>(xs: seq<X>, a: seq<nat>, b: seq<nat>)
    requires (forall k :: 0 <= k < |a| ==> a[k] < |xs|) && forall k :: 0 <= k < |b| ==> b[k] < |xs|
    ensures Pick(xs, a + b) == Pick(xs, a) + Pick(xs, b)
  {
  }

  /** Thread t's finished part of bin b. */
  ghost predicate PartOf<H, X>(bin: H -> nat, inputs: seq<H>, xs: seq<X>, mem: seq<X>, at: nat, size: nat, b: nat, t: nat, threads: nat)
    requires threads > 0
  {
    Begin(|inputs|, t, threads) <= Begin(|inputs|, t + 1, threads) <= |inputs|
    && size == |Routed(bin, inputs, Begin(|inputs|, t, threads), Begin(|inputs|, t + 1, threads), b)|
    && Stored(mem, at, xs, Routed(bin, inputs, Begin(|inputs|, t, threads), Begin(|inputs|, t + 1, threads), b))
  }

  /** How far every thread is, and how many items it has put in every bin. */
  datatype Progress = Progress(pos: seq<nat>, arrived: seq<bool>, nextBin: seq<nat>, sizes: seq<seq<nat>>)

  /** The job: inputs, values and the layout of the memory. */
  datatype Job<!H, V> = Job(inputs: seq<H>, vals: seq<V>, bin: H -> nat, numBins: nat, threads: nat, perThrd: nat)
  {
    function Width(): nat { Row(threads, perThrd) }

    /** Where thread t's part of bin b begins. */
    function Slot(t: nat, b: nat): nat { Row(b, Width()) + Row(t, perThrd) }

    ghost function Mine(t: nat, hi: nat, b: nat): seq<nat>
      requires threads > 0 && Begin(|inputs|, t, threads) <= hi <= |inputs|
    {
      Routed(bin, inputs, Begin(|inputs|, t, threads), hi, b)
    }

    /** Every thread has room for what it routes to any bin. */
    ghost predicate Valid() {
      && |inputs| == |vals| && threads > 0 && numBins > 0
      && (forall i :: 0 <= i < |inputs| ==> bin(inputs[i]) < numBins)
      && forall t, b :: 0 <= t < threads && 0 <= b < numBins ==> Room(t, b)
    }

    ghost predicate Room(t: nat, b: nat)
      requires threads > 0
    {
      Begin(|inputs|, t, threads) <= Begin(|inputs|, t + 1, threads) <= |inputs| && |Mine(t, Begin(|inputs|, t + 1, threads), b)| <= perThrd
    }

    /** The thread that merges bin b. */
    function Owner(b: nat): (t: nat)
      requires threads > 0
      ensures t < threads
    {
      Remainder(b, threads)
    }

    ghost predicate Shaped(g: Progress) {
      |g.pos| == |g.arrived| == |g.nextBin| == |g.sizes| == threads && forall t :: 0 <= t < threads ==> |g.sizes[t]| == numBins
    }

    ghost predicate Merged(g: Progress, b: nat)
      requires threads > 0 && Shaped(g)
    {
      b < g.nextBin[Owner(b)]
    }

    ghost predicate ThreadOk(g: Progress, t: nat)
      requires threads > 0 && Shaped(g) && t < threads
    {
      && Begin(|inputs|, t, threads) <= g.pos[t] <= Begin(|inputs|, t + 1, threads) <= |inputs|
      && (g.arrived[t] ==> g.pos[t] == Begin(|inputs|, t + 1, threads))
      && Owner(g.nextBin[t]) == t
    }

    /** Thread t's part of bin b holds what it has routed there so far. */
    ghost predicate PartOk(hs: seq<H>, vs: seq<V>, g: Progress, t: nat, b: nat)
      requires threads > 0 && Shaped(g) && t < threads && b < numBins && ThreadOk(g, t)
    {
      var r := Mine(t, g.pos[t], b);
      g.sizes[t][b] == |r| && Stored(hs, Slot(t, b), inputs, r) && Stored(vs, Slot(t, b), vals, r)
    }

    /** The first slots of bin b hold its inputs with their values, in order. */
    ghost predicate BinOk(hs: seq<H>, vs: seq<V>, b: nat) {
      Stored(hs, Row(b, Width()), inputs, Routed(bin, inputs, 0, |inputs|, b)) && Stored(vs, Row(b, Width()), vals, Routed(bin, inputs, 0, |inputs|, b))
    }

    predicate AllArrived(g: Progress)
      requires Shaped(g)
    {
      forall t :: 0 <= t < threads ==> g.arrived[t]
    }

    /** What every step of every thread keeps. */
    ghost predicate Inv(hs: seq<H>, vs: seq<V>, g: Progress)
      requires Valid()
    {
      && Shaped(g) && |hs| == |vs| == Row(numBins, Width())
      && (forall t :: 0 <= t < threads ==> ThreadOk(g, t))
      && (forall b :: 0 <= b < numBins ==> BinState(hs, vs, g, b))
    }

    ghost predicate BinState(hs: seq<H>, vs: seq<V>, g: Progress, b: nat)
      requires threads > 0 && Shaped(g) && b < numBins && forall t :: 0 <= t < threads ==> ThreadOk(g, t)
    {
      if Merged(g, b) then AllArrived(g) && BinOk(hs, vs, b)
      else forall t :: 0 <= t < threads ==> PartOk(hs, vs, g, t, b)
    }

    /** Parts of different threads or bins do not overlap, and lie in memory. */
    lemma SlotsApart(t: nat, b: nat, t': nat, b': nat)
      requires t < threads && t' < threads && b < numBins && b' < numBins
      ensures Slot(t, b) + perThrd <= Row(b, Width()) + Width() <= Row(numBins, Width())
      ensures b < b' ==> Slot(t, b) + perThrd <= Row(b', Width())
      ensures t != t' || b != b' ==> Slot(t, b) + perThrd <= Slot(t', b') || Slot(t', b') + perThrd <= Slot(t, b)
    {
      hide Row;
      RowFits(t, threads, perThrd);
      RowFits(t', threads, perThrd);
      RowFits(b, numBins, Width());
      RowFits(b', numBins, Width());
      if t < t' {
        RowFits(t, t', perThrd);
      } else if t' < t {
        RowFits(t', t, perThrd);
      }
      if b < b' {
        RowFits(b, b', Width());
      } else if b' < b {
        RowFits(b', b, Width());
      }
    }

    /** What a thread has routed to a bin so far fits its part, with room for
        the next item. */
    lemma RoomLeft(g: Progress, t: nat, b: nat)
      requires Valid() && Shaped(g) && t < threads && b < numBins && ThreadOk(g, t)
      ensures |Mine(t, g.pos[t], b)| <= perThrd
      ensures g.pos[t] < Begin(|inputs|, t + 1, threads) && bin(inputs[g.pos[t]]) == b ==>
        |Mine(t, g.pos[t], b)| < perThrd && Mine(t, g.pos[t] + 1, b) == Mine(t, g.pos[t], b) + [g.pos[t]]
    {
      hide Begin;
      var lo, hi := Begin(|inputs|, t, threads), Begin(|inputs|, t + 1, threads);
      assert Room(t, b);
      RoutedSplit(bin, inputs, lo, g.pos[t], hi, b);
      if g.pos[t] < hi {
        RoutedSplit(bin, inputs, lo, g.pos[t] + 1, hi, b);
      }
    }

    /** While a thread still hashes, nothing is merged. */
    lemma NothingMerged(hs: seq<H>, vs: seq<V>, g: Progress, t: nat)
      requires Valid() && Inv(hs, vs, g) && t < threads && !g.arrived[t]
      ensures forall b :: 0 <= b < numBins ==> !Merged(g, b)
    {
      hide PartOk, BinOk, ThreadOk;
      forall b | 0 <= b < numBins
        ensures !Merged(g, b)
      {
        assert BinState(hs, vs, g, b);
      }
    }

    /** The state after thread t has hashed its next input. */
    ghost predicate Hashed(hs: seq<H>, vs: seq<V>, g: Progress, t: nat, hs': seq<H>, vs': seq<V>, g': Progress)
      requires threads > 0 && Shaped(g) && |vals| == |inputs| && t < threads && g.pos[t] < |inputs| && bin(inputs[g.pos[t]]) < numBins && |hs| == |vs|
    {
      var i := g.pos[t];
      var b := bin(inputs[i]);
      var at := Slot(t, b) + g.sizes[t][b];
      && at < |hs| && hs' == hs[at := inputs[i]] && vs' == vs[at := vals[i]]
      && g' == g.(pos := g.pos[t := i + 1], sizes := g.sizes[t := g.sizes[t][b := g.sizes[t][b] + 1]])
    }

    /** Before a thread has arrived at the barrier, it may hash. */
    ghost predicate CanHash(g: Progress, t: nat)
      requires threads > 0 && Shaped(g)
    {
      t < threads && ThreadOk(g, t) && g.pos[t] < Begin(|inputs|, t + 1, threads) && !g.arrived[t]
    }

    lemma HashedThread(hs: seq<H>, vs: seq<V>, g: Progress, t: nat, hs': seq<H>, vs': seq<V>, g': Progress, u: nat)
      requires Valid() && Shaped(g) && CanHash(g, t) && |hs| == |vs| && u < threads && ThreadOk(g, u) && Hashed(hs, vs, g, t, hs', vs', g')
      ensures Shaped(g') && ThreadOk(g', u)
    {
      hide Begin, Slot;
    }

    /** One thread's step keeps the invariant. */
    lemma HashKeepsInv(hs: seq<H>, vs: seq<V>, g: Progress, t: nat, hs': seq<H>, vs': seq<V>, g': Progress)
      requires Valid() && Inv(hs, vs, g) && CanHash(g, t) && g.pos[t] < |inputs| && bin(inputs[g.pos[t]]) < numBins && Hashed(hs, vs, g, t, hs', vs', g')
      ensures Inv(hs', vs', g')
    {
      hide PartOk, Begin, Slot, Stored, ThreadOk, Merged;
      NothingMerged(hs, vs, g, t);
      HashedThread(hs, vs, g, t, hs', vs', g', t);
      forall u | 0 <= u < threads
        ensures ThreadOk(g', u)
      {
        HashedThread(hs, vs, g, t, hs', vs', g', u);
      }
      assert BinState(hs, vs, g, bin(inputs[g.pos[t]]));
      forall c | 0 <= c < numBins
        ensures BinState(hs', vs', g', c)
      {
        assert BinState(hs, vs, g, c);
        HashKeepsBin(hs, vs, g, t, hs', vs', g', c);
        MergedBins(g, g', c);
      }
    }

    lemma MergedBins(g: Progress, g': Progress, c: nat)
      requires threads > 0 && Shaped(g) && Shaped(g') && g'.nextBin == g.nextBin
      ensures Merged(g', c) == Merged(g, c)
    {
    }

    lemma HashKeepsBin(hs: seq<H>, vs: seq<V>, g: Progress, t: nat, hs': seq<H>, vs': seq<V>, g': Progress, c: nat)
      requires Valid() && Shaped(g) && CanHash(g, t) && |hs| == |vs| == Row(numBins, Width()) && g.pos[t] < |inputs| && bin(inputs[g.pos[t]]) < numBins
      requires Hashed(hs, vs, g, t, hs', vs', g') && c < numBins
      requires Shaped(g') && forall u :: 0 <= u < threads ==> ThreadOk(g, u) && ThreadOk(g', u)
      requires PartOk(hs, vs, g, t, bin(inputs[g.pos[t]])) && forall u :: 0 <= u < threads ==> PartOk(hs, vs, g, u, c)
      ensures forall u :: 0 <= u < threads ==> PartOk(hs', vs', g', u, c)
    {
      hide PartOk, Begin, Slot, Stored, ThreadOk, Hashed, Valid, Shaped;
      forall u | 0 <= u < threads
        ensures PartOk(hs', vs', g', u, c)
      {
        HashKeepsPart(hs, vs, g, t, hs', vs', g', u, c);
      }
    }

    /** The part the item goes to. */
    lemma GrownPart(hs: seq<H>, vs: seq<V>, g: Progress, g': Progress, t: nat, b: nat)
      requires threads > 0 && Shaped(g) && Shaped(g') && t < threads && b < numBins && ThreadOk(g, t) && ThreadOk(g', t) && g.pos[t] < |inputs| == |vals|
      requires PartOk(hs, vs, g, t, b) && g'.pos[t] == g.pos[t] + 1 && g'.sizes[t][b] == g.sizes[t][b] + 1
      requires Mine(t, g.pos[t] + 1, b) == Mine(t, g.pos[t], b) + [g.pos[t]] && Slot(t, b) + g.sizes[t][b] < |hs| == |vs|
      ensures var at := Slot(t, b) + g.sizes[t][b]; PartOk(hs[at := inputs[g.pos[t]]], vs[at := vals[g.pos[t]]], g', t, b)
    {
      hide Slot, Stored, Begin, Mine;
      var at := Slot(t, b) + g.sizes[t][b];
      StoredMore(hs, hs[at := inputs[g.pos[t]]], Slot(t, b), inputs, Mine(t, g.pos[t], b), g.pos[t]);
      StoredMore(vs, vs[at := vals[g.pos[t]]], Slot(t, b), vals, Mine(t, g.pos[t], b), g.pos[t]);
    }

    /** Any other part. */
    lemma OtherPart(hs: seq<H>, vs: seq<V>, g: Progress, g': Progress, u: nat, c: nat, at: nat, x: H, v: V)
      requires threads > 0 && Shaped(g) && Shaped(g') && u < threads && c < numBins && ThreadOk(g, u) && ThreadOk(g', u)
      requires PartOk(hs, vs, g, u, c) && Mine(u, g'.pos[u], c) == Mine(u, g.pos[u], c) && g'.sizes[u][c] == g.sizes[u][c]
      requires |Mine(u, g.pos[u], c)| <= perThrd && at < |hs| == |vs| && (at < Slot(u, c) || Slot(u, c) + perThrd <= at)
      ensures PartOk(hs[at := x], vs[at := v], g', u, c)
    {
      hide Slot, Stored, Begin, Mine;
      StoredElsewhere(hs, at, x, Slot(u, c), perThrd, inputs, Mine(u, g.pos[u], c));
      StoredElsewhere(vs, at, v, Slot(u, c), perThrd, vals, Mine(u, g.pos[u], c));
    }

    lemma HashKeepsPart(hs: seq<H>, vs: seq<V>, g: Progress, t: nat, hs': seq<H>, vs': seq<V>, g': Progress, u: nat, c: nat)
      requires Valid() && Shaped(g) && Shaped(g') && CanHash(g, t) && u < threads && c < numBins && |hs| == |vs| == Row(numBins, Width())
      requires ThreadOk(g, u) && ThreadOk(g', u) && ThreadOk(g', t) && g.pos[t] < |inputs| && bin(inputs[g.pos[t]]) < numBins
      requires PartOk(hs, vs, g, u, c) && PartOk(hs, vs, g, t, bin(inputs[g.pos[t]])) && Hashed(hs, vs, g, t, hs', vs', g')
      ensures PartOk(hs', vs', g', u, c)
    {
      hide Begin, Slot, ThreadOk, Valid, PartOk, Mine;
      HashPlace(g, t);
      var i := g.pos[t];
      var b := bin(inputs[i]);
      RoomLeft(g, t, b);
      PartSize(hs, vs, g, t, b);
      if u == t && c == b {
        GrownPart(hs, vs, g, g', t, b);
      } else {
        var at := Slot(t, b) + g.sizes[t][b];
        RoomLeft(g, u, c);
        SlotsApart(t, b, u, c);
        SameMine(g, t, u, c);
        OtherPart(hs, vs, g, g', u, c, at, inputs[i], vals[i]);
      }
    }

    lemma PartSize(hs: seq<H>, vs: seq<V>, g: Progress, t: nat, b: nat)
      requires threads > 0 && Shaped(g) && t < threads && b < numBins && ThreadOk(g, t) && PartOk(hs, vs, g, t, b)
      ensures g.sizes[t][b] == |Mine(t, g.pos[t], b)|
    {
      hide Stored, Begin;
    }

    lemma HashPlace(g: Progress, t: nat)
      requires Valid() && Shaped(g) && CanHash(g, t)
      ensures g.pos[t] < Begin(|inputs|, t + 1, threads) <= |inputs| == |vals| && bin(inputs[g.pos[t]]) < numBins && t < threads && ThreadOk(g, t)
    {
    }

    /** The place of a thread's next item lies in memory. */
    lemma HashPlaceIn(hs: seq<H>, vs: seq<V>, g: Progress, t: nat) returns (b: nat)
      requires Valid() && Inv(hs, vs, g) && CanHash(g, t)
      ensures g.pos[t] < |inputs| == |vals| && b == bin(inputs[g.pos[t]]) < numBins && t < threads
      ensures Slot(t, b) + g.sizes[t][b] < |hs| == |vs|
    {
      hide PartOk, Begin, Slot, Mine;
      HashPlace(g, t);
      b := bin(inputs[g.pos[t]]);
      NothingMerged(hs, vs, g, t);
      assert BinState(hs, vs, g, b);
      assert PartOk(hs, vs, g, t, b);
      PartSize(hs, vs, g, t, b);
      RoomLeft(g, t, b);
      SlotsApart(t, b, t, b);
    }

    /** Another bin or another thread is not affected. */
    lemma SameMine(g: Progress, t: nat, u: nat, c: nat)
      requires Valid() && Shaped(g) && CanHash(g, t) && u < threads && ThreadOk(g, u) && g.pos[t] < |inputs|
      ensures Begin(|inputs|, u, threads) <= g.pos[t := g.pos[t] + 1][u] <= |inputs|
      ensures u != t || bin(inputs[g.pos[t]]) != c ==> Mine(u, g.pos[t := g.pos[t] + 1][u], c) == Mine(u, g.pos[u], c)
    {
      hide Begin;
    }

    lemma ArriveKeepsInv(hs: seq<H>, vs: seq<V>, g: Progress, t: nat)
      requires Valid() && Inv(hs, vs, g) && t < threads && g.pos[t] == Begin(|inputs|, t + 1, threads) && !g.arrived[t]
      ensures Inv(hs, vs, g.(arrived := g.arrived[t := true]))
    {
      hide PartOk, Begin;
      var g' := g.(arrived := g.arrived[t := true]);
      NothingMerged(hs, vs, g, t);
      assert forall u :: 0 <= u < threads ==> ThreadOk(g, u) && ThreadOk(g', u);
      forall c | 0 <= c < numBins
        ensures BinState(hs, vs, g', c)
      {
        assert BinState(hs, vs, g, c);
        forall u | 0 <= u < threads
          ensures PartOk(hs, vs, g', u, c)
        {
          assert PartOk(hs, vs, g, u, c);
          SamePart(hs, vs, g, g', u, c);
        }
      }
    }

    lemma SamePart(hs: seq<H>, vs: seq<V>, g: Progress, g': Progress, u: nat, c: nat)
      requires threads > 0 && Shaped(g) && Shaped(g') && u < threads && c < numBins && ThreadOk(g, u) && ThreadOk(g', u)
      requires g'.pos == g.pos && g'.sizes == g.sizes && PartOk(hs, vs, g, u, c)
      ensures PartOk(hs, vs, g', u, c)
    {
      hide Stored, Begin;
    }

    /** How many items the threads put in bin b. */
    function Column(g: Progress, b: nat): (r: seq<nat>)
      requires Shaped(g) && b < numBins
      ensures |r| == threads && forall t :: 0 <= t < threads ==> r[t] == g.sizes[t][b]
    {
      seq(threads, t requires 0 <= t < threads => g.sizes[t][b])
    }

    /** A bin never has more items than its part of memory. */
    lemma {:induction false} BinFits(b: nat, t: nat)
      requires Valid() && b < numBins && t <= threads
      ensures Begin(|inputs|, t, threads) <= |inputs| && |Routed(bin, inputs, 0, Begin(|inputs|, t, threads), b)| <= Row(t, perThrd)
    {
      hide Begin, Row;
      Ranges(|inputs|, 0, threads);
      if t > 0 {
        Ranges(|inputs|, t - 1, threads);
        RowFits(t - 1, t, perThrd);
        BinFits(b, t - 1);
        assert Room(t - 1, b);
        RoutedSplit(bin, inputs, 0, Begin(|inputs|, t - 1, threads), Begin(|inputs|, t, threads), b);
      }
    }

    /** The memory after bin b has been merged. */
    ghost predicate MergedFrom<X>(mem: seq<X>, mem': seq<X>, sizes: seq<nat>, b: nat)
      requires Row(b, Width()) + Width() <= |mem| && |sizes| == threads && forall t :: 0 <= t < threads ==> sizes[t] <= perThrd
    {
      var base := Row(b, Width());
      var merged := Gathered(mem, base, perThrd, sizes, threads);
      && |mem'| == |mem| && base + |merged| <= |mem| && mem'[base..base + |merged|] == merged
      && forall k :: 0 <= k < |mem| && !(base <= k < base + Width()) ==> mem'[k] == mem[k]
    }

    /** Merging the finished parts of a bin gives its inputs in order. */
    lemma MergedIsRouted<X>(xs: seq<X>, mem: seq<X>, mem': seq<X>, sizes: seq<nat>, b: nat)
      requires Valid() && |xs| == |inputs| && b < numBins && Row(b, Width()) + Width() <= |mem| && |sizes| == threads
      requires (forall t :: 0 <= t < threads ==> sizes[t] <= perThrd) && MergedFrom(mem, mem', sizes, b)
      requires forall t :: 0 <= t < threads ==> PartOf(bin, inputs, xs, mem, Slot(t, b), sizes[t], b, t, threads)
      ensures Stored(mem', Row(b, Width()), xs, Routed(bin, inputs, 0, |inputs|, b))
    {
      hide Begin, Row, PartOf;
      Ranges(|inputs|, 0, threads);
      forall t | 0 <= t < |sizes|
        ensures PartOf(bin, inputs, xs, mem, Row(b, Width()) + Row(t, perThrd), sizes[t], b, t, |sizes|)
      {
        assert PartOf(bin, inputs, xs, mem, Slot(t, b), sizes[t], b, t, threads);
      }
      GatheredRouted(bin, inputs, xs, mem, Row(b, Width()), perThrd, sizes, b, threads);
    }

    /** After the barrier a part is complete. */
    lemma FinishedPart(hs: seq<H>, vs: seq<V>, g: Progress, t: nat, b: nat)
      requires Valid() && Shaped(g) && t < threads && b < numBins && ThreadOk(g, t) && PartOk(hs, vs, g, t, b) && g.arrived[t]
      ensures g.sizes[t][b] <= perThrd
      ensures PartOf(bin, inputs, inputs, hs, Slot(t, b), g.sizes[t][b], b, t, threads) && PartOf(bin, inputs, vals, vs, Slot(t, b), g.sizes[t][b], b, t, threads)
    {
      hide Begin, Stored;
      assert Room(t, b);
      Ranges(|inputs|, t, threads);
    }

    lemma SameResidue(b: nat, c: nat)
      requires threads > 0 && Owner(b) == Owner(c) && c != b
      ensures c < b + threads <==> c < b
      ensures Owner(b + threads) == Owner(b)
    {
      Division.SameResidue(b, c, threads);
    }

    lemma NextResidue(b: nat)
      requires threads > 0
      ensures Owner(b + threads) == Owner(b)
    {
    }

    /** Behind the barrier, a thread may merge its next bin. */
    ghost predicate CanMerge(g: Progress, t: nat)
      requires threads > 0 && Shaped(g)
    {
      AllArrived(g) && t < threads && ThreadOk(g, t) && g.nextBin[t] < numBins
    }

    /** The bin about to be merged is complete but not merged. */
    lemma NextBinReady(hs: seq<H>, vs: seq<V>, g: Progress, t: nat)
      requires Valid() && Inv(hs, vs, g) && CanMerge(g, t)
      ensures var b := g.nextBin[t]; !Merged(g, b) && Row(b, Width()) + Width() <= |hs| == |vs|
      ensures forall u :: 0 <= u < threads ==> g.sizes[u][g.nextBin[t]] <= perThrd
      ensures forall u :: 0 <= u < threads ==> PartOf(bin, inputs, inputs, hs, Slot(u, g.nextBin[t]), g.sizes[u][g.nextBin[t]], g.nextBin[t], u, threads)
      ensures forall u :: 0 <= u < threads ==> PartOf(bin, inputs, vals, vs, Slot(u, g.nextBin[t]), g.sizes[u][g.nextBin[t]], g.nextBin[t], u, threads)
    {
      hide PartOk, Slot, PartOf, Begin, Row;
      var b := g.nextBin[t];
      RowFits(b, numBins, Width());
      assert BinState(hs, vs, g, b);
      forall u | 0 <= u < threads
        ensures g.sizes[u][b] <= perThrd
        ensures PartOf(bin, inputs, inputs, hs, Slot(u, b), g.sizes[u][b], b, u, threads) && PartOf(bin, inputs, vals, vs, Slot(u, b), g.sizes[u][b], b, u, threads)
      {
        assert PartOk(hs, vs, g, u, b);
        FinishedPart(hs, vs, g, u, b);
      }
    }

    /** Merging one bin keeps the invariant. */
    lemma MergeKeepsInv(hs: seq<H>, vs: seq<V>, g: Progress, t: nat, hs': seq<H>, vs': seq<V>)
      requires Valid() && Inv(hs, vs, g) && CanMerge(g, t) && Row(g.nextBin[t], Width()) + Width() <= |hs|
      requires forall u :: 0 <= u < threads ==> g.sizes[u][g.nextBin[t]] <= perThrd
      requires MergedFrom(hs, hs', Column(g, g.nextBin[t]), g.nextBin[t]) && MergedFrom(vs, vs', Column(g, g.nextBin[t]), g.nextBin[t])
      ensures Inv(hs', vs', g.(nextBin := g.nextBin[t := g.nextBin[t] + threads]))
    {
      hide PartOk, BinOk, Slot, PartOf, Begin, Row, MergedFrom;
      var b := g.nextBin[t];
      var g' := g.(nextBin := g.nextBin[t := b + threads]);
      NextResidue(b);
      NextBinReady(hs, vs, g, t);
      SameLength(hs, hs', Column(g, b), b);
      SameLength(vs, vs', Column(g, b), b);
      assert forall u :: 0 <= u < threads ==> ThreadOk(g, u) && ThreadOk(g', u);
      forall c | 0 <= c < numBins
        ensures BinState(hs', vs', g', c)
      {
        assert BinState(hs, vs, g, c);
        if c == b {
          MergedIsRouted(inputs, hs, hs', Column(g, b), b);
          MergedIsRouted(vals, vs, vs', Column(g, b), b);
          JustMerged(hs', vs', g', b);
        } else {
          OtherBinState(hs, vs, g, t, hs', vs', g', c);
        }
      }
    }

    lemma SameLength<X>(mem: seq<X>, mem': seq<X>, sizes: seq<nat>, b: nat)
      requires Row(b, Width()) + Width() <= |mem| && |sizes| == threads && forall t :: 0 <= t < threads ==> sizes[t] <= perThrd
      requires MergedFrom(mem, mem', sizes, b)
      ensures |mem'| == |mem|
    {
    }

    lemma JustMerged(hs: seq<H>, vs: seq<V>, g: Progress, b: nat)
      requires threads > 0 && Shaped(g) && b < numBins && (forall t :: 0 <= t < threads ==> ThreadOk(g, t)) && AllArrived(g) && Merged(g, b)
      requires Stored(hs, Row(b, Width()), inputs, Routed(bin, inputs, 0, |inputs|, b)) && Stored(vs, Row(b, Width()), vals, Routed(bin, inputs, 0, |inputs|, b))
      ensures BinState(hs, vs, g, b)
    {
      hide Stored, PartOk;
    }

    /** The other bins stay as they were. */
    lemma OtherBinState(hs: seq<H>, vs: seq<V>, g: Progress, t: nat, hs': seq<H>, vs': seq<V>, g': Progress, c: nat)
      requires Valid() && Inv(hs, vs, g) && CanMerge(g, t) && c < numBins && c != g.nextBin[t] && Row(g.nextBin[t], Width()) + Width() <= |hs|
      requires forall u :: 0 <= u < threads ==> g.sizes[u][g.nextBin[t]] <= perThrd
      requires MergedFrom(hs, hs', Column(g, g.nextBin[t]), g.nextBin[t]) && MergedFrom(vs, vs', Column(g, g.nextBin[t]), g.nextBin[t])
      requires g' == g.(nextBin := g.nextBin[t := g.nextBin[t] + threads]) && Shaped(g') && forall u :: 0 <= u < threads ==> ThreadOk(g', u)
      ensures BinState(hs', vs', g', c)
    {
      hide Begin, Row, Slot, PartOf, Stored, Valid, Routed, PartOk, MergedFrom, Merged;
      var b := g.nextBin[t];
      OtherMerged(g, t, g', c);
      assert BinState(hs, vs, g, c);
      OtherMemory(hs, hs', Column(g, b), b, c);
      OtherMemory(vs, vs', Column(g, b), b, c);
      if Merged(g, c) {
        BinFitsAll(c);
        StoredSame(hs, hs', Row(c, Width()), inputs, Routed(bin, inputs, 0, |inputs|, c));
        StoredSame(vs, vs', Row(c, Width()), vals, Routed(bin, inputs, 0, |inputs|, c));
      } else {
        forall u | 0 <= u < threads
          ensures PartOk(hs', vs', g', u, c)
        {
          assert PartOk(hs, vs, g, u, c);
          UntouchedPart(hs, vs, g, hs', vs', g', u, c);
        }
      }
    }

    /** Nothing changed in bin c. */
    lemma UntouchedPart(hs: seq<H>, vs: seq<V>, g: Progress, hs': seq<H>, vs': seq<V>, g': Progress, u: nat, c: nat)
      requires Valid() && Shaped(g) && Shaped(g') && u < threads && c < numBins && ThreadOk(g, u) && ThreadOk(g', u) && PartOk(hs, vs, g, u, c)
      requires g'.pos == g.pos && g'.sizes == g.sizes && |hs'| == |hs| == |vs| == |vs'|
      requires forall k :: Row(c, Width()) <= k < Row(c, Width()) + Width() && k < |hs| ==> hs'[k] == hs[k] && vs'[k] == vs[k]
      ensures PartOk(hs', vs', g', u, c)
    {
      hide Begin, Row, Stored, Routed;
      RoomLeft(g, u, c);
      SlotsApart(u, c, u, c);
      PartLies(hs, vs, g, u, c);
      StoredSame(hs, hs', Slot(u, c), inputs, Mine(u, g.pos[u], c));
      StoredSame(vs, vs', Slot(u, c), vals, Mine(u, g.pos[u], c));
    }

    lemma PartLies(hs: seq<H>, vs: seq<V>, g: Progress, u: nat, c: nat)
      requires threads > 0 && Shaped(g) && u < threads && c < numBins && ThreadOk(g, u) && PartOk(hs, vs, g, u, c)
      ensures Slot(u, c) + |Mine(u, g.pos[u], c)| <= |hs| && Slot(u, c) + |Mine(u, g.pos[u], c)| <= |vs|
    {
      hide Begin, Row;
    }

    lemma BinFitsAll(c: nat)
      requires Valid() && c < numBins
      ensures |Routed(bin, inputs, 0, |inputs|, c)| <= Width()
    {
      hide Begin, Row, Routed;
      Ranges(|inputs|, 0, threads);
      BinFits(c, threads);
    }

    lemma OtherMemory<X>(mem: seq<X>, mem': seq<X>, sizes: seq<nat>, b: nat, c: nat)
      requires Row(b, Width()) + Width() <= |mem| && |sizes| == threads && forall t :: 0 <= t < threads ==> sizes[t] <= perThrd
      requires MergedFrom(mem, mem', sizes, b) && b != c
      ensures |mem'| == |mem| && forall k :: Row(c, Width()) <= k < Row(c, Width()) + Width() && k < |mem| ==> mem'[k] == mem[k]
    {
      hide Row, Gathered;
      BinApart(b, c, |mem|);
    }

    /** The sizes add up to the number of inputs of the bin. */
    lemma BinSize(hs: seq<H>, vs: seq<V>, g: Progress, t: nat)
      requires Valid() && Inv(hs, vs, g) && CanMerge(g, t)
      ensures SumTo(Column(g, g.nextBin[t]), threads) == |Routed(bin, inputs, 0, |inputs|, g.nextBin[t])|
    {
      hide PartOk, PartOf, Begin, Row, BinState, Gathered, SumTo;
      var b := g.nextBin[t];
      NextBinReady(hs, vs, g, t);
      var sizes := Column(g, b);
      Ranges(|inputs|, 0, threads);
      forall u | 0 <= u < |sizes|
        ensures PartOf(bin, inputs, inputs, hs, Row(b, Width()) + Row(u, perThrd), sizes[u], b, u, |sizes|)
      {
        assert PartOf(bin, inputs, inputs, hs, Slot(u, b), g.sizes[u][b], b, u, threads);
      }
      GatheredRouted(bin, inputs, inputs, hs, Row(b, Width()), perThrd, sizes, b, threads);
      GatheredSize(hs, Row(b, Width()), perThrd, sizes, threads);
    }

    lemma MergedByLoop<X>(mem: seq<X>, mem': seq<X>, sizes: seq<nat>, b: nat, m: nat)
      requires Row(b, Width()) + Width() <= |mem| == |mem'| && |sizes| == threads && forall t :: 0 <= t < threads ==> sizes[t] <= perThrd
      requires m <= Width() && mem'[Row(b, Width())..Row(b, Width()) + m] == Gathered(mem, Row(b, Width()), perThrd, sizes, threads)
      requires forall k :: 0 <= k < |mem| && !(Row(b, Width()) <= k < Row(b, Width()) + Width()) ==> mem'[k] == mem[k]
      ensures MergedFrom(mem, mem', sizes, b)
    {
      hide Row, Gathered;
    }

    lemma MergedBinOk(hs: seq<H>, vs: seq<V>, g': Progress, g: Progress, t: nat)
      requires Valid() && Shaped(g) && CanMerge(g, t) && Inv(hs, vs, g') && g' == g.(nextBin := g.nextBin[t := g.nextBin[t] + threads])
      ensures BinOk(hs, vs, g.nextBin[t])
    {
      hide PartOk, BinOk, Begin;
      assert BinState(hs, vs, g', g.nextBin[t]);
    }

    /** All threads have run to the end. */
    predicate Done(g: Progress)
      requires Shaped(g)
    {
      AllArrived(g) && forall t :: 0 <= t < threads ==> g.nextBin[t] >= numBins
    }

    /** Every bin merged so far has at most that many inputs. */
    ghost predicate MergedFit(g: Progress, items: nat)
      requires threads > 0 && Shaped(g)
    {
      forall b :: 0 <= b < numBins && Merged(g, b) ==> |Routed(bin, inputs, 0, |inputs|, b)| <= items
    }

    lemma MergeKeepsFit(g: Progress, t: nat, g': Progress, items: nat)
      requires threads > 0 && Shaped(g) && Shaped(g') && MergedFit(g, items) && CanMerge(g, t)
      requires g' == g.(nextBin := g.nextBin[t := g.nextBin[t] + threads]) && |Routed(bin, inputs, 0, |inputs|, g.nextBin[t])| <= items
      ensures MergedFit(g', items)
    {
      hide Begin, Routed, Merged;
      forall b | 0 <= b < numBins && Merged(g', b)
        ensures |Routed(bin, inputs, 0, |inputs|, b)| <= items
      {
        if b != g.nextBin[t] {
          OtherMerged(g, t, g', b);
        }
      }
    }

    /** No bin has more inputs than fit. */
    ghost predicate BinsFit(items: nat) {
      forall b :: 0 <= b < numBins ==> |Routed(bin, inputs, 0, |inputs|, b)| <= items
    }

    lemma DoneMeansFit(g: Progress, items: nat)
      requires threads > 0 && Shaped(g) && MergedFit(g, items) && Done(g)
      ensures BinsFit(items)
    {
      hide Routed;
      forall b | 0 <= b < numBins
        ensures Merged(g, b)
      {
      }
    }

    /** However the steps were interleaved, at the end every bin holds exactly
        its inputs, each with its value, in the order of the inputs. */
    lemma DoneMeansBinned(hs: seq<H>, vs: seq<V>, g: Progress)
      requires Valid() && Inv(hs, vs, g) && Done(g)
      ensures forall b :: 0 <= b < numBins ==> BinOk(hs, vs, b)
    {
      hide PartOk, BinOk, Begin;
      forall b | 0 <= b < numBins
        ensures BinOk(hs, vs, b)
      {
        assert BinState(hs, vs, g, b);
      }
    }

    /** Until the end some thread can take a step. */
    lemma NoDeadlock(hs: seq<H>, vs: seq<V>, g: Progress) returns (step: Step)
      requires Valid() && Inv(hs, vs, g) && !Done(g)
      ensures CanTake(g, step)
    {
      hide BinState, Begin;
      if AllArrived(g) {
        var t :| 0 <= t < threads && g.nextBin[t] < numBins;
        assert ThreadOk(g, t);
        step := MergeStep(t);
      } else {
        var t :| 0 <= t < threads && !g.arrived[t];
        assert ThreadOk(g, t);
        step := if g.pos[t] < Begin(|inputs|, t + 1, threads) then HashStep(t) else ArriveStep(t);
      }
    }

    /** The bins a thread still has to merge, from bin b on. */
    ghost function BinsLeft(b: nat): nat
      requires threads > 0
      decreases if b < numBins then numBins - b else 0
    {
      if b >= numBins then 0 else BinsLeft(b + threads) + 1
    }

    /** The steps a thread still has to take: its inputs, its arrival, its bins. */
    ghost function ThreadLeft(g: Progress, t: nat): nat
      requires threads > 0 && Shaped(g) && t < threads && ThreadOk(g, t)
    {
      Begin(|inputs|, t + 1, threads) - g.pos[t] + (if g.arrived[t] then 0 else 1) + BinsLeft(g.nextBin[t])
    }

    /** The steps the first k threads still have to take. */
    ghost function LeftTo(g: Progress, k: nat): nat
      requires threads > 0 && Shaped(g) && k <= threads && forall t :: 0 <= t < threads ==> ThreadOk(g, t)
    {
      if k == 0 then 0 else LeftTo(g, k - 1) + ThreadLeft(g, k - 1)
    }

    /** When thread t has one step less to take, so have all together. */
    lemma {:induction false} OneTaken(g: Progress, g': Progress, t: nat, k: nat)
      requires threads > 0 && Shaped(g) && Shaped(g') && k <= threads && t < threads
      requires forall u :: 0 <= u < threads ==> ThreadOk(g, u) && ThreadOk(g', u)
      requires forall u :: 0 <= u < threads && u != t ==> g'.pos[u] == g.pos[u] && g'.arrived[u] == g.arrived[u] && g'.nextBin[u] == g.nextBin[u]
      requires ThreadLeft(g', t) + 1 == ThreadLeft(g, t)
      ensures LeftTo(g', k) + (if t < k then 1 else 0) == LeftTo(g, k)
    {
      hide ThreadOk, BinsLeft, Begin;
      if k > 0 {
        OneTaken(g, g', t, k - 1);
      }
    }

    /** Nothing is left to do exactly at the end. */
    lemma {:induction false} NothingLeft(g: Progress, k: nat)
      requires threads > 0 && Shaped(g) && k <= threads && forall t :: 0 <= t < threads ==> ThreadOk(g, t)
      ensures LeftTo(g, k) == 0 <==> forall t :: 0 <= t < k ==> g.arrived[t] && g.nextBin[t] >= numBins
    {
      hide Begin;
      if k > 0 {
        NothingLeft(g, k - 1);
        assert ThreadOk(g, k - 1);
      }
    }

    /** The bins left for k neighbouring threads. */
    ghost function BinsTo(b: nat, k: nat): nat
      requires threads > 0
    {
      if k == 0 then 0 else BinsTo(b, k - 1) + BinsLeft(b + (k - 1))
    }

    lemma {:induction false} BinsShift(b: nat, k: nat)
      requires threads > 0
      ensures BinsTo(b, k + 1) == BinsLeft(b) + BinsTo(b + 1, k)
    {
      if k > 0 {
        BinsShift(b, k - 1);
        assert BinsTo(b, k + 1) == BinsTo(b, k) + BinsLeft(b + k);
        assert b + 1 + (k - 1) == b + k;
      }
    }

    /** Every bin is merged by one thread. */
    lemma {:induction false} AllBins(b: nat)
      requires threads > 0
      ensures BinsTo(b, threads) == if b < numBins then numBins - b else 0
      decreases if b < numBins then numBins - b else 0
    {
      BinsShift(b, threads);
      if b < numBins {
        AllBins(b + 1);
      } else {
        NoBins(b, threads);
      }
    }

    lemma {:induction false} NoBins(b: nat, k: nat)
      requires threads > 0 && b >= numBins
      ensures BinsTo(b, k) == 0
    {
      if k > 0 {
        NoBins(b, k - 1);
      }
    }

    /** A step that its thread may take now. */
    ghost predicate CanTake(g: Progress, step: Step)
      requires threads > 0 && Shaped(g)
    {
      match step
      case HashStep(t) => CanHash(g, t)
      case ArriveStep(t) => t < threads && !g.arrived[t] && g.pos[t] == Begin(|inputs|, t + 1, threads)
      case MergeStep(t) => CanMerge(g, t)
    }

    /** What a step does to the progress: nothing if it cannot be taken now. */
    ghost function Advance(g: Progress, step: Step): (g': Progress)
      requires Valid() && Shaped(g)
      ensures Shaped(g')
    {
      if !CanTake(g, step) then g
      else
        match step
        case HashStep(t) =>
          var b := bin(inputs[g.pos[t]]);
          g.(pos := g.pos[t := g.pos[t] + 1], sizes := g.sizes[t := g.sizes[t][b := g.sizes[t][b] + 1]])
        case ArriveStep(t) => g.(arrived := g.arrived[t := true])
        case MergeStep(t) => g.(nextBin := g.nextBin[t := g.nextBin[t] + threads])
    }

    /** The progress after the first k steps of a schedule. */
    ghost function After(g: Progress, schedule: seq<Step>, k: nat): (g': Progress)
      requires Valid() && Shaped(g) && k <= |schedule|
      ensures Shaped(g')
    {
      if k == 0 then g else Advance(After(g, schedule, k - 1), schedule[k - 1])
    }

    /** The step would merge a bin with too many inputs. */
    ghost predicate Overfull(g: Progress, step: Step, items: nat)
      requires threads > 0 && Shaped(g)
    {
      step.MergeStep? && CanMerge(g, step.t) && |Routed(bin, inputs, 0, |inputs|, g.nextBin[step.t])| > items
    }

    /** Some step of the schedule would. */
    ghost predicate Stops(g: Progress, schedule: seq<Step>, items: nat)
      requires Valid() && Shaped(g)
    {
      exists k :: 0 <= k < |schedule| && Overfull(After(g, schedule, k), schedule[k], items)
    }

    lemma BinApart(b: nat, c: nat, size: nat)
      requires b != c
      ensures Row(b, Width()) + Width() <= Row(c, Width()) || Row(c, Width()) + Width() <= Row(b, Width())
    {
      hide Row;
      if b < c {
        RowFits(b, c, Width());
      } else {
        RowFits(c, b, Width());
      }
    }

    lemma OtherMerged(g: Progress, t: nat, g': Progress, c: nat)
      requires threads > 0 && Shaped(g) && t < threads && Owner(g.nextBin[t]) == t && c != g.nextBin[t]
      requires g' == g.(nextBin := g.nextBin[t := g.nextBin[t] + threads])
      ensures Merged(g', c) == Merged(g, c)
    {
      hide Owner;
      if Owner(c) == t {
        SameResidue(g.nextBin[t], c);
      }
    }
  }

  /** One step of one thread. */
  datatype Step = HashStep(t: nat) | ArriveStep(t: nat) | MergeStep(t: nat)

  /** The state the threads share. */
  class Binner<H(!new), V(!new)> {
    const job: Job<H, V>
    /** A larger bin is refused. */
    const mItemsPerBin: nat
    const hashes: array<H>
    const values: array<V>
    var progress: Progress
    var numDone: nat

    constructor (job: Job<H, V>, itemsPerBin: nat, h: H, v: V)
      requires job.Valid()
      ensures this.job == job && mItemsPerBin == itemsPerBin && Inv() && Fit() && Left() == |job.inputs| + job.threads + job.numBins
      ensures progress == Start(job)
      ensures fresh(hashes) && fresh(values)
    {
      this.job, mItemsPerBin := job, itemsPerBin;
      hashes := new H[Row(job.numBins, job.Width())](_ => h);
      values := new V[Row(job.numBins, job.Width())](_ => v);
      progress := Start(job);
      numDone := 0;
      new;
      StartInv(job, hashes[..], values[..]);
      NoneArrived(progress.arrived);
      NoneMerged(job, itemsPerBin);
      StartLeft(job);
    }

    /** Every bin merged so far had few enough inputs. */
    ghost predicate Fit()
      requires Inv()
      reads this, hashes, values
    {
      job.MergedFit(progress, mItemsPerBin)
    }

    /** All threads have run to the end. */
    predicate Over()
      requires Inv()
      reads this, hashes, values
    {
      job.Done(progress)
    }

    /** The steps left until all threads are done. */
    ghost function Left(): nat
      requires Inv()
      reads this, hashes, values
    {
      job.LeftTo(progress, job.threads)
    }

    /** The protocol invariant, and the barrier counts the arrived threads. */
    ghost predicate Inv()
      reads this, hashes, values
    {
      && job.Valid() && hashes as object != values
      && job.Inv(hashes[..], values[..], progress) && numDone == Arrived(progress.arrived)
    }

    /** A thread hashes its next input and stores it in its part of the bin. */
    method Hash(t: nat)
      requires Inv() && job.CanHash(progress, t)
      modifies hashes, values, this`progress
      ensures Inv()
      ensures old(progress.pos[t]) < |job.inputs| && job.bin(job.inputs[old(progress.pos[t])]) < job.numBins
      ensures job.Hashed(old(hashes[..]), old(values[..]), old(progress), t, hashes[..], values[..], progress)
    {
      ghost var hs, vs, g := hashes[..], values[..], progress;
      ghost var b0 := job.HashPlaceIn(hs, vs, g, t);
      var i := progress.pos[t];
      var binIdx := job.bin(job.inputs[i]);
      var bs := progress.sizes[t][binIdx];
      var at := job.Slot(t, binIdx) + bs;
      hashes[at] := job.inputs[i];
      values[at] := job.vals[i];
      progress := progress.(pos := progress.pos[t := i + 1], sizes := progress.sizes[t := progress.sizes[t][binIdx := bs + 1]]);
      job.HashKeepsInv(hs, vs, g, t, hashes[..], values[..], progress);
    }

    /** A thread that has mapped all its inputs arrives at the barrier. */
    method Arrive(t: nat)
      requires Inv() && t < job.threads && !progress.arrived[t] && progress.pos[t] == Begin(|job.inputs|, t + 1, job.threads)
      modifies this
      ensures Inv() && numDone == old(numDone) + 1
      ensures progress == old(progress).(arrived := old(progress.arrived)[t := true])
    {
      job.ArriveKeepsInv(hashes[..], values[..], progress, t);
      OneMoreArrived(progress.arrived, t);
      progress := progress.(arrived := progress.arrived[t := true]);
      numDone := numDone + 1;
    }

    /** Behind the barrier, a thread merges its next bin, unless that is too large. */
    method Merge(t: nat) returns (ok: bool)
      requires Inv() && numDone == job.threads && t < job.threads && progress.nextBin[t] < job.numBins
      modifies hashes, values, this`progress
      ensures Inv() && numDone == old(numDone)
      ensures ok <==> |Routed(job.bin, job.inputs, 0, |job.inputs|, old(progress.nextBin[t]))| <= mItemsPerBin
      ensures ok ==> progress == old(progress).(nextBin := old(progress.nextBin)[t := old(progress.nextBin[t]) + job.threads])
      ensures ok ==> job.BinOk(hashes[..], values[..], old(progress.nextBin[t]))
      ensures !ok ==> progress == old(progress)
    {
      hide Job.BinOk, Job.MergedFrom, Routed, Job.Valid, Gathered, Row;
      ghost var hs, vs, g := hashes[..], values[..], progress;
      var binIdx := progress.nextBin[t];
      assert job.CanMerge(g, t);
      job.NextBinReady(hs, vs, g, t);
      var sizes := job.Column(progress, binIdx);
      var binSize := SumSizes(sizes);
      job.BinSize(hs, vs, g, t);
      if binSize > mItemsPerBin {
        return false;
      }
      MergeMemory(sizes, binIdx);
      progress := progress.(nextBin := progress.nextBin[t := binIdx + job.threads]);
      job.MergeKeepsInv(hs, vs, g, t, hashes[..], values[..]);
      job.MergedBinOk(hashes[..], values[..], progress, g, t);
      return true;
    }

    /** Merges the hashes and the values of a bin the same way. */
    method MergeMemory(sizes: seq<nat>, binIdx: nat)
      requires hashes as object != values && hashes.Length == values.Length && Row(binIdx, job.Width()) + job.Width() <= hashes.Length
      requires |sizes| == job.threads >= 1 && forall t :: 0 <= t < |sizes| ==> sizes[t] <= job.perThrd
      modifies hashes, values
      ensures job.MergedFrom(old(hashes[..]), hashes[..], sizes, binIdx) && job.MergedFrom(old(values[..]), values[..], sizes, binIdx)
    {
      hide Gathered, Row, Job.MergedFrom;
      ghost var hs, vs := hashes[..], values[..];
      var base := Row(binIdx, job.Width());
      var m := MergeBin(hashes, base, job.perThrd, sizes);
      assert values[..] == vs;
      job.MergedByLoop(hs, hashes[..], sizes, binIdx, m);
      ghost var hs' := hashes[..];
      m := MergeBin(values, base, job.perThrd, sizes);
      assert hashes[..] == hs';
      job.MergedByLoop(vs, values[..], sizes, binIdx, m);
    }
  }

  /** The sum of the sizes, as the merging thread takes it. */
  method SumSizes(sizes: seq<nat>) returns (sum: nat)
    ensures sum == SumTo(sizes, |sizes|)
  {
    sum := 0;
    for i := 0 to |sizes|
      invariant sum == SumTo(sizes, i)
    {
      sum := sum + sizes[i];
    }
  }

  function SumTo(sizes: seq<nat>, t: nat): nat
    requires t <= |sizes|
  {
    if t == 0 then 0 else SumTo(sizes, t - 1) + sizes[t - 1]
  }

  lemma {:induction false} GatheredSize<X>(a: seq<X>, base: nat, p: nat, sizes: seq<nat>, t: nat)
    requires t <= |sizes| && base + Row(t, p) <= |a| && forall i :: 0 <= i < |sizes| ==> sizes[i] <= p
    ensures |Gathered(a, base, p, sizes, t)| == SumTo(sizes, t)
  {
    hide Row;
    if t > 0 {
      RowFits(t - 1, t, p);
      GatheredSize(a, base, p, sizes, t - 1);
    }
  }

  function Start<H, V>(job: Job<H, V>): Progress
    requires job.threads > 0
  {
    Progress(seq(job.threads, t requires 0 <= t < job.threads => Begin(|job.inputs|, t, job.threads)),
             seq(job.threads, _ => false), seq(job.threads, t => t), seq(job.threads, _ => seq(job.numBins, _ => 0)))
  }

  /** How many threads have arrived. */
  function Arrived(arrived: seq<bool>): (n: nat)
    ensures n <= |arrived|
    ensures n == |arrived| ==> forall t :: 0 <= t < |arrived| ==> arrived[t]
  {
    if arrived == [] then 0 else Arrived(arrived[..|arrived| - 1]) + if arrived[|arrived| - 1] then 1 else 0
  }

  lemma {:induction false} NoneArrived(arrived: seq<bool>)
    requires forall t :: 0 <= t < |arrived| ==> !arrived[t]
    ensures Arrived(arrived) == 0
  {
    if arrived != [] {
      NoneArrived(arrived[..|arrived| - 1]);
    }
  }

  lemma {:induction false} OneMoreArrived(arrived: seq<bool>, t: nat)
    requires t < |arrived| && !arrived[t]
    ensures Arrived(arrived[t := true]) == Arrived(arrived) + 1
  {
    var n := |arrived| - 1;
    if t < n {
      assert arrived[t := true][..n] == arrived[..n][t := true];
      OneMoreArrived(arrived[..n], t);
    } else {
      assert arrived[t := true][..n] == arrived[..n];
    }
  }

  lemma StartInv<H, V>(job: Job<H, V>, hs: seq<H>, vs: seq<V>)
    requires job.Valid() && |hs| == |vs| == Row(job.numBins, job.Width())
    ensures job.Inv(hs, vs, Start(job))
  {
    hide Row, Begin, Routed;
    var g := Start(job);
    forall t | 0 <= t < job.threads
      ensures job.ThreadOk(g, t)
    {
      Ranges(|job.inputs|, t, job.threads);
    }
    forall b | 0 <= b < job.numBins
      ensures job.BinState(hs, vs, g, b)
    {
      NotMerged(job, b);
      forall t | 0 <= t < job.threads
        ensures job.PartOk(hs, vs, g, t, b)
      {
        job.SlotsApart(t, b, t, b);
        Ranges(|job.inputs|, t, job.threads);
        EmptyStored(hs, job.Slot(t, b), job.inputs);
        EmptyStored(vs, job.Slot(t, b), job.vals);
        EmptyRouted(job.bin, job.inputs, Begin(|job.inputs|, t, job.threads), b);
      }
    }
  }

  lemma EmptyRouted<H>(bin: H -> nat, inputs: seq<H>, lo: nat, b: nat)
    requires lo <= |inputs|
    ensures Routed(bin, inputs, lo, lo, b) == []
  {
  }

  lemma EmptyStored<X>(mem: seq<X>, at: nat, xs: seq<X>)
    requires at <= |mem|
    ensures Stored(mem, at, xs, [])
  {
  }

  lemma NoneMerged<H, V>(job: Job<H, V>, items: nat)
    requires job.threads > 0 && job.Shaped(Start(job))
    ensures job.MergedFit(Start(job), items)
  {
    forall b | 0 <= b < job.numBins
      ensures !job.Merged(Start(job), b)
    {
      NotMerged(job, b);
    }
  }

  /** At the start no bin is merged: each is the owner's own number or larger. */
  lemma NotMerged<H, V>(job: Job<H, V>, b: nat)
    requires job.threads > 0 && job.Shaped(Start(job))
    ensures !job.Merged(Start(job), b)
  {
  }

  /** Runs any schedule; a step that is not enabled is skipped. A bin that is too
      large ends the run. */
  method RunSchedule<H(!new), V(!new)>(binner: Binner<H, V>, schedule: seq<Step>) returns (ok: bool, ghost taken: nat)
    requires binner.Inv() && binner.Fit()
    modifies binner, binner.hashes, binner.values
    ensures binner.Inv() && taken <= |schedule| && taken + binner.Left() == old(binner.Left())
    ensures taken == old(binner.Left()) <==> binner.job.Done(binner.progress)
    ensures binner.job.Done(binner.progress) ==>
      forall b :: 0 <= b < binner.job.numBins ==> binner.job.BinOk(binner.hashes[..], binner.values[..], b)
    ensures binner.job.Done(binner.progress) ==> binner.job.BinsFit(binner.mItemsPerBin)
    ensures !ok ==> !binner.job.BinsFit(binner.mItemsPerBin)
    ensures !ok <==> binner.job.Stops(old(binner.progress), schedule, binner.mItemsPerBin)
    ensures ok ==> binner.progress == binner.job.After(old(binner.progress), schedule, |schedule|)
  {
    hide Job.Inv, Job.BinOk, Job.LeftTo, Job.MergedFit, Job.BinsFit, Job.Overfull, Job.Advance, Job.Shaped;
    InvParts(binner.job, binner.hashes[..], binner.values[..], binner.progress);
    ghost var g := binner.progress;
    ok, taken := true, 0;
    var k := 0;
    while k < |schedule| && ok
      invariant binner.Inv() && taken <= k <= |schedule| && taken + binner.Left() == old(binner.Left())
      invariant binner.Fit()
      invariant !ok ==> !binner.job.BinsFit(binner.mItemsPerBin)
      invariant !ok ==> k > 0 && binner.job.Overfull(binner.job.After(g, schedule, k - 1), schedule[k - 1], binner.mItemsPerBin)
      invariant ok ==> binner.progress == binner.job.After(g, schedule, k)
      invariant ok ==> forall j :: 0 <= j < k ==> !binner.job.Overfull(binner.job.After(g, schedule, j), schedule[j], binner.mItemsPerBin)
    {
      ghost var took;
      ok, took := TakeStep(binner, schedule[k]);
      taken := if took then taken + 1 else taken;
      k := k + 1;
    }
    InvParts(binner.job, binner.hashes[..], binner.values[..], binner.progress);
    binner.job.NothingLeft(binner.progress, binner.job.threads);
    if binner.job.Done(binner.progress) {
      binner.job.DoneMeansFit(binner.progress, binner.mItemsPerBin);
      binner.job.DoneMeansBinned(binner.hashes[..], binner.values[..], binner.progress);
    }
  }

  lemma InvParts<H, V>(job: Job<H, V>, hs: seq<H>, vs: seq<V>, g: Progress)
    requires job.Valid() && job.Inv(hs, vs, g)
    ensures job.Shaped(g) && forall t :: 0 <= t < job.threads ==> job.ThreadOk(g, t)
  {
  }

  lemma {:induction false} StartLeftTo<H, V>(job: Job<H, V>, k: nat)
    requires job.Valid() && k <= job.threads && job.Shaped(Start(job)) && forall t :: 0 <= t < job.threads ==> job.ThreadOk(Start(job), t)
    ensures job.LeftTo(Start(job), k) == Begin(|job.inputs|, k, job.threads) + k + job.BinsTo(0, k)
  {
    hide Job.BinsLeft;
    if k == 0 {
      Ranges(|job.inputs|, 0, job.threads);
    } else {
      StartLeftTo(job, k - 1);
      assert job.ThreadOk(Start(job), k - 1);
    }
  }

  /** At the start every input is to be hashed, every thread to arrive and every
      bin to be merged. */
  lemma StartLeft<H, V>(job: Job<H, V>)
    requires job.Valid() && job.Shaped(Start(job)) && forall t :: 0 <= t < job.threads ==> job.ThreadOk(Start(job), t)
    ensures job.LeftTo(Start(job), job.threads) == |job.inputs| + job.threads + job.numBins
  {
    hide Job.LeftTo, Job.BinsTo, Begin;
    StartLeftTo(job, job.threads);
    Ranges(|job.inputs|, 0, job.threads);
    job.AllBins(0);
  }

  lemma {:induction false} AllCounted(arrived: seq<bool>)
    requires forall t :: 0 <= t < |arrived| ==> arrived[t]
    ensures Arrived(arrived) == |arrived|
  {
    if arrived != [] {
      AllCounted(arrived[..|arrived| - 1]);
    }
  }

  /** A step that is enabled is taken, and then one step less is left; only a bin
      that is too large ends the run. */
  method TakeStep<H(!new), V(!new)>(binner: Binner<H, V>, step: Step) returns (ok: bool, ghost taken: bool)
    requires binner.Inv() && binner.Fit()
    modifies binner, binner.hashes, binner.values
    ensures binner.Inv() && binner.Fit()
    ensures (taken ==> ok) && binner.Left() + (if taken then 1 else 0) == old(binner.Left())
    ensures ok ==> (taken <==> old(binner.job.CanTake(binner.progress, step)))
    ensures !ok <==> binner.job.Overfull(old(binner.progress), step, binner.mItemsPerBin)
    ensures !ok ==> !binner.job.BinsFit(binner.mItemsPerBin)
    ensures ok ==> binner.progress == binner.job.Advance(old(binner.progress), step)
  {
    hide Job.BinState, Job.LeftTo, Begin, Routed, Row, Job.ThreadLeft, Job.MergedFit;
    ok, taken := true, false;
    var job, g := binner.job, binner.progress;
    if step.t >= job.threads {
      return;
    }
    assert job.ThreadOk(g, step.t);
    match step
    case HashStep(t) =>
      if g.pos[t] < Begin(|job.inputs|, t + 1, job.threads) && !g.arrived[t] {
        binner.Hash(t);
        taken := true;
        HashTaken(job, g, binner.progress, t);
        SameFit(job, g, binner.progress, binner.mItemsPerBin);
      }
    case ArriveStep(t) =>
      if g.pos[t] == Begin(|job.inputs|, t + 1, job.threads) && !g.arrived[t] {
        binner.Arrive(t);
        taken := true;
        ArriveTaken(job, g, binner.progress, t);
        SameFit(job, g, binner.progress, binner.mItemsPerBin);
      }
    case MergeStep(t) =>
      if job.AllArrived(g) {
        AllCounted(g.arrived);
      }
      if binner.numDone == job.threads && g.nextBin[t] < job.numBins {
        ok := binner.Merge(t);
        if ok {
          taken := true;
          MergeTaken(job, g, binner.progress, t);
          job.MergeKeepsFit(g, t, binner.progress, binner.mItemsPerBin);
        }
      }
  }

  lemma SameFit<H, V>(job: Job<H, V>, g: Progress, g': Progress, items: nat)
    requires job.threads > 0 && job.Shaped(g) && job.Shaped(g') && g'.nextBin == g.nextBin && job.MergedFit(g, items)
    ensures job.MergedFit(g', items)
  {
    hide Routed;
    forall b | 0 <= b < job.numBins && job.Merged(g', b)
      ensures job.Merged(g, b)
    {
    }
  }

  lemma HashTaken<H, V>(job: Job<H, V>, g: Progress, g': Progress, t: nat)
    requires job.threads > 0 && job.Shaped(g) && job.Shaped(g') && t < job.threads && forall u :: 0 <= u < job.threads ==> job.ThreadOk(g, u) && job.ThreadOk(g', u)
    requires g'.pos == g.pos[t := g.pos[t] + 1] && g'.arrived == g.arrived && g'.nextBin == g.nextBin
    ensures job.LeftTo(g', job.threads) + 1 == job.LeftTo(g, job.threads)
  {
    hide Begin, Job.LeftTo, Job.ThreadOk, Job.BinsLeft;
    ThreadSteps(job, g, t);
    ThreadSteps(job, g', t);
    job.OneTaken(g, g', t, job.threads);
  }

  lemma ThreadSteps<H, V>(job: Job<H, V>, g: Progress, t: nat)
    requires job.threads > 0 && job.Shaped(g) && t < job.threads && job.ThreadOk(g, t)
    ensures g.pos[t] <= Begin(|job.inputs|, t + 1, job.threads)
    ensures job.ThreadLeft(g, t) == Begin(|job.inputs|, t + 1, job.threads) - g.pos[t] + (if g.arrived[t] then 0 else 1) + job.BinsLeft(g.nextBin[t])
  {
  }

  lemma ArriveTaken<H, V>(job: Job<H, V>, g: Progress, g': Progress, t: nat)
    requires job.threads > 0 && job.Shaped(g) && job.Shaped(g') && t < job.threads && forall u :: 0 <= u < job.threads ==> job.ThreadOk(g, u) && job.ThreadOk(g', u)
    requires g' == g.(arrived := g.arrived[t := true]) && !g.arrived[t]
    ensures job.LeftTo(g', job.threads) + 1 == job.LeftTo(g, job.threads)
  {
    hide Begin, Job.LeftTo, Job.ThreadOk, Job.BinsLeft;
    ThreadSteps(job, g, t);
    ThreadSteps(job, g', t);
    job.OneTaken(g, g', t, job.threads);
  }

  lemma MergeTaken<H, V>(job: Job<H, V>, g: Progress, g': Progress, t: nat)
    requires job.threads > 0 && job.Shaped(g) && job.Shaped(g') && t < job.threads && forall u :: 0 <= u < job.threads ==> job.ThreadOk(g, u) && job.ThreadOk(g', u)
    requires g' == g.(nextBin := g.nextBin[t := g.nextBin[t] + job.threads]) && g.nextBin[t] < job.numBins
    ensures job.LeftTo(g', job.threads) + 1 == job.LeftTo(g, job.threads)
  {
    hide Begin, Job.LeftTo, Job.ThreadOk, Job.BinsLeft;
    NextBins(job, g.nextBin[t]);
    ThreadSteps(job, g, t);
    ThreadSteps(job, g', t);
    job.OneTaken(g, g', t, job.threads);
  }

  lemma NextBins<H, V>(job: Job<H, V>, b: nat)
    requires job.threads > 0 && b < job.numBins
    ensures job.BinsLeft(b) == job.BinsLeft(b + job.threads) + 1
  {
  }
}
