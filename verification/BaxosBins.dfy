/** Sorting the inputs into bins with several threads: every thread fills its own
    part of every bin, and behind a barrier the parts of a bin are merged in place. */
module BaxosBins {
  import opened Layout

  /** The parts of the first t threads, one after the other. */
  function Gathered<X>(a: seq<X>, base: nat, p: nat, sizes: seq<nat>, t: nat): seq<X>
    requires t <= |sizes| && base + Row(t, p) <= |a| && forall i :: 0 <= i < |sizes| ==> sizes[i] <= p
  {
    if t == 0 then []
    else
      RowFits(t - 1, t, p);
      Gathered(a, base, p, sizes, t - 1) + a[base + Row(t - 1, p)..base + Row(t - 1, p) + sizes[t - 1]]
  }

  lemma Shifted<X>(a: seq<X>, b: seq<X>, dst: nat, src: nat, len: nat)
    requires dst + len <= |b| && src + len <= |a| && forall k :: dst <= k < dst + len ==> b[k] == a[k - dst + src]
    ensures b[dst..dst + len] == a[src..src + len]
  {
    var s, t := b[dst..dst + len], a[src..src + len];
    forall j | 0 <= j < len
      ensures s[j] == t[j]
    {
      assert b[dst + j] == a[dst + j - dst + src];
    }
  }

  /** Copies a stretch downward, element by element. */
  method MoveDown<X>(a: array<X>, dst: nat, src: nat, len: nat)
    requires dst <= src && src + len <= a.Length
    modifies a
    ensures a[dst..dst + len] == old(a[src..src + len])
    ensures forall k :: 0 <= k < a.Length && !(dst <= k < dst + len) ==> a[k] == old(a[k])
  {
    for j := 0 to len
      invariant forall k :: dst <= k < dst + j ==> a[k] == old(a[k - dst + src])
      invariant forall k :: 0 <= k < a.Length && !(dst <= k < dst + j) ==> a[k] == old(a[k])
    {
      a[dst + j] := a[src + j];
    }
    Shifted(old(a[..]), a[..], dst, src, len);
    assert a[dst..dst + len] == a[..][dst..dst + len] && old(a[src..src + len]) == old(a[..])[src..src + len];
  }

  /** Merges the parts of one bin: its first slots become what the threads put
      there, and nothing outside the bin changes. */
  method MergeBin<X>(a: array<X>, base: nat, p: nat, sizes: seq<nat>) returns (binPos: nat)
    requires |sizes| >= 1 && base + Row(|sizes|, p) <= a.Length && forall i :: 0 <= i < |sizes| ==> sizes[i] <= p
    modifies a
    ensures binPos <= Row(|sizes|, p) && a[base..base + binPos] == Gathered(old(a[..]), base, p, sizes, |sizes|)
    ensures forall k :: 0 <= k < a.Length && !(base <= k < base + Row(|sizes|, p)) ==> a[k] == old(a[k])
  {
    hide Row, Gathered;
    ghost var was := a[..];
    RowFits(0, |sizes|, p);
    RowStart(p);
    binPos := sizes[0];
    GatherOne(was, base, p, sizes);
    for i := 1 to |sizes|
      invariant binPos <= Row(i, p) <= Row(|sizes|, p) && Merged(a[..], was, base, p, sizes, i, binPos)
    {
      binPos := MergePart(a, base, p, sizes, i, binPos, was);
    }
  }

  /** The first i parts are merged, the others as they were. */
  ghost predicate Merged<X>(now: seq<X>, was: seq<X>, base: nat, p: nat, sizes: seq<nat>, i: nat, binPos: nat)
    requires i <= |sizes| && base + Row(i, p) <= |was| && forall k :: 0 <= k < |sizes| ==> sizes[k] <= p
  {
    && |now| == |was| && base + binPos <= |now| && now[base..base + binPos] == Gathered(was, base, p, sizes, i)
    && forall k :: 0 <= k < |was| && !(base <= k < base + Row(i, p)) ==> now[k] == was[k]
  }

  method MergePart<X>(a: array<X>, base: nat, p: nat, sizes: seq<nat>, i: nat, binPos0: nat, ghost was: seq<X>) returns (binPos: nat)
    requires i < |sizes| && base + Row(|sizes|, p) <= a.Length == |was| && forall k :: 0 <= k < |sizes| ==> sizes[k] <= p
    requires binPos0 <= Row(i, p) <= Row(|sizes|, p) && Merged(a[..], was, base, p, sizes, i, binPos0)
    modifies a
    ensures binPos <= Row(i + 1, p) <= Row(|sizes|, p) && Merged(a[..], was, base, p, sizes, i + 1, binPos)
  {
    hide Row, Gathered;
    ghost var now := a[..];
    RowFits(i, |sizes|, p);
    MoveDown(a, base + binPos0, base + Row(i, p), sizes[i]);
    SliceSame(a[..], now, base, base + binPos0);
    SliceSame(now, was, base + Row(i, p), base + Row(i, p) + sizes[i]);
    GatherMore(was, a[..], base, p, sizes, i, binPos0);
    binPos := binPos0 + sizes[i];
  }

  lemma GatherOne<X>(a: seq<X>, base: nat, p: nat, sizes: seq<nat>)
    requires |sizes| >= 1 && base + Row(1, p) <= |a| && Row(1, p) == p && (forall i :: 0 <= i < |sizes| ==> sizes[i] <= p)
    ensures Gathered(a, base, p, sizes, 1) == a[base..base + sizes[0]]
  {
    RowStart(p);
    assert Gathered(a, base, p, sizes, 0) == [];
  }

  lemma SliceSame<X>(a: seq<X>, b: seq<X>, lo: nat, hi: nat)
    requires lo <= hi <= |a| == |b| && forall k :: lo <= k < hi ==> a[k] == b[k]
    ensures a[lo..hi] == b[lo..hi]
  {
  }

  lemma SliceSplit<X>(a: seq<X>, lo: nat, mid: nat, hi: nat)
    requires lo <= mid <= hi <= |a|
    ensures a[lo..hi] == a[lo..mid] + a[mid..hi]
  {
  }

  lemma GatherMore<X>(was: seq<X>, now: seq<X>, base: nat, p: nat, sizes: seq<nat>, i: nat, binPos: nat)
    requires i < |sizes| && base + Row(i, p) + p == base + Row(i + 1, p) <= |was| == |now| && forall k :: 0 <= k < |sizes| ==> sizes[k] <= p
    requires binPos <= Row(i, p) && now[base..base + binPos] == Gathered(was, base, p, sizes, i)
    requires now[base + binPos..base + binPos + sizes[i]] == was[base + Row(i, p)..base + Row(i, p) + sizes[i]]
    ensures now[base..base + binPos + sizes[i]] == Gathered(was, base, p, sizes, i + 1)
  {
    hide Row;
    SliceSplit(now, base, base + binPos, base + binPos + sizes[i]);
  }
}
