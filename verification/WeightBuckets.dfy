/** The columns of the triangulation, bucketed by weight in intrusive doubly
    linked lists. */
module WeightBuckets {

  ghost predicate NoDuplicates(s: seq<nat>) {
    forall i, j :: 0 <= i < j < |s| ==> s[i] != s[j]
  }

  /** A bucket without its k-th node. */
  function Without(s: seq<nat>, k: nat): (r: seq<nat>)
    requires k < |s|
    ensures |r| == |s| - 1
    ensures forall i :: 0 <= i < k ==> r[i] == s[i]
    ensures forall i :: k <= i < |r| ==> r[i] == s[i + 1]
  {
    s[..k] + s[k + 1..]
  }

  function Copies(n: nat, x: nat): (r: seq<nat>)
    ensures |r| == n && forall i :: 0 <= i < n ==> r[i] == x
  {
    seq(n, _ => x)
  }

  function EmptyLists(n: nat): (r: seq<seq<nat>>)
    ensures |r| == n && forall i :: 0 <= i < n ==> r[i] == []
  {
    seq(n, _ => [])
  }

  /** The node in front of the k-th one, or no node. */
  function Before(b: seq<nat>, k: nat, nil: nat): nat
    requires k < |b|
  {
    if k == 0 then nil else b[k - 1]
  }

  /** The node behind the k-th one, or no node. */
  function After(b: seq<nat>, k: nat, nil: nat): nat
    requires k < |b|
  {
    if k == |b| - 1 then nil else b[k + 1]
  }

  /** The weight and the two links of every node. */
  datatype Nodes = Nodes(weight: seq<nat>, prev: seq<nat>, next: seq<nat>, nil: nat)
  {
    ghost predicate Wf() { |weight| == |prev| == |next| <= nil }

    /** The links of the nodes of weight w spell out b, from head on. */
    ghost predicate Spell(b: seq<nat>, w: nat, head: nat)
      requires Wf()
    {
      && head == (if b == [] then nil else b[0])
      && NoDuplicates(b)
      && (forall k :: 0 <= k < |b| ==> b[k] < |weight| && weight[b[k]] == w)
      && (forall k :: 0 <= k < |b| ==> LinkedAt(b, k))
    }

    ghost predicate LinkedAt(b: seq<nat>, k: nat)
      requires Wf() && k < |b| && b[k] < |weight|
    {
      prev[b[k]] == Before(b, k, nil) && next[b[k]] == After(b, k, nil)
    }

    /** Every list spells out its bucket, and the nodes in none have no links. */
    ghost predicate Represent(sets: seq<nat>, buckets: seq<seq<nat>>) {
      && Wf() && |sets| == |buckets|
      && (forall w :: 0 <= w < |buckets| ==> Spell(buckets[w], w, sets[w]))
      && (forall x :: 0 <= x < |weight| && !In(buckets, x) ==> prev[x] == nil && next[x] == nil)
    }

    ghost predicate In(buckets: seq<seq<nat>>, x: nat)
      requires x < |weight|
    {
      weight[x] < |buckets| && x in buckets[weight[x]]
    }
  }

  /** The nodes that are in a list. */
  ghost function ListedIn(a: Nodes, buckets: seq<seq<nat>>): set<nat> {
    set x | 0 <= x < |a.weight| && a.In(buckets, x)
  }

  /** Links of nodes outside the bucket do not matter to it. */
  lemma SpellFrame(a: Nodes, a': Nodes, b: seq<nat>, w: nat, head: nat)
    requires a.Wf() && a'.Wf() && a.Spell(b, w, head) && |a'.weight| == |a.weight| && a'.nil == a.nil
    requires forall k :: 0 <= k < |b| ==> a'.weight[b[k]] == w && a'.prev[b[k]] == a.prev[b[k]] && a'.next[b[k]] == a.next[b[k]]
    ensures a'.Spell(b, w, head)
  {
    forall k | 0 <= k < |b|
      ensures a'.LinkedAt(b, k)
    {
      assert a.LinkedAt(b, k);
    }
  }

  /** The nodes whose links or weight differ between a and a'. */
  ghost predicate SameAt(a: Nodes, a': Nodes, x: nat)
    requires a.Wf() && a'.Wf() && |a'.weight| == |a.weight| && x < |a.weight|
  {
    a'.weight[x] == a.weight[x] && a'.prev[x] == a.prev[x] && a'.next[x] == a.next[x]
  }

  /** Replacing one bucket, when only the links of its nodes and of x change. */
  lemma ReplaceBucket(a: Nodes, a': Nodes, sets: seq<nat>, buckets: seq<seq<nat>>, w: nat, x: nat, b': seq<nat>, head: nat)
    requires a.Represent(sets, buckets) && w < |buckets| && x < |a.weight| && a.weight[x] == w
    requires a'.Wf() && a'.nil == a.nil && a'.weight == a.weight && a'.Spell(b', w, head)
    requires forall y :: 0 <= y < |a.weight| && y !in buckets[w] && y != x ==> SameAt(a, a', y)
    requires forall y :: y in buckets[w] && y != x ==> y in b'
    requires x in b' || (a'.prev[x] == a.nil && a'.next[x] == a.nil)
    ensures a'.Represent(sets[w := head], buckets[w := b'])
  {
    var sets', buckets' := sets[w := head], buckets[w := b'];
    forall v | 0 <= v < |buckets| && v != w
      ensures a'.Spell(buckets'[v], v, sets'[v])
    {
      assert a.Spell(buckets[v], v, sets[v]) && a.Spell(buckets[w], w, sets[w]);
      forall k | 0 <= k < |buckets[v]|
        ensures SameAt(a, a', buckets[v][k])
      {
        assert a.weight[buckets[v][k]] == v;
      }
      SpellFrame(a, a', buckets[v], v, sets[v]);
    }
    forall y | 0 <= y < |a.weight| && !a'.In(buckets', y)
      ensures a'.prev[y] == a.nil && a'.next[y] == a.nil
    {
      assert y in buckets[w] ==> a.weight[y] == w by {
        assert a.Spell(buckets[w], w, sets[w]);
      }
      if y != x {
        assert SameAt(a, a', y);
        assert !a.In(buckets, y);
      }
    }
  }

  lemma PushRepresents(a: Nodes, a': Nodes, sets: seq<nat>, buckets: seq<seq<nat>>, x: nat)
    requires a.Represent(sets, buckets) && x < |a.weight| && !a.In(buckets, x) && a.weight[x] < |buckets|
    requires var h := sets[a.weight[x]];
      if h == a.nil then a' == a else h < |a.weight| && a' == a.(prev := a.prev[h := x], next := a.next[x := h])
    ensures a'.Represent(sets[a.weight[x] := x], buckets[a.weight[x] := [x] + buckets[a.weight[x]]])
  {
    var w := a.weight[x];
    assert a.Spell(buckets[w], w, sets[w]);
    PushSpells(a, a', buckets[w], w, sets[w], x);
    ReplaceBucket(a, a', sets, buckets, w, x, [x] + buckets[w], x);
  }

  lemma PushSpells(a: Nodes, a': Nodes, b: seq<nat>, w: nat, head: nat, x: nat)
    requires a.Wf() && a.Spell(b, w, head) && x < |a.weight| && x !in b && a.weight[x] == w
    requires a.prev[x] == a.nil && a.next[x] == a.nil
    requires if head == a.nil then a' == a else head < |a.weight| && a' == a.(prev := a.prev[head := x], next := a.next[x := head])
    ensures a'.Wf() && a'.Spell([x] + b, w, x)
  {
    var b' := [x] + b;
    forall k | 0 <= k < |b'|
      ensures b'[k] < |a.weight| && a.weight[b'[k]] == w && a'.LinkedAt(b', k)
    {
      if 0 < k {
        assert b'[k] == b[k - 1] && a.LinkedAt(b, k - 1);
      }
    }
  }

  /** What popNode writes for the k-th node of its bucket. */
  function PopLinks(a: Nodes, b: seq<nat>, k: nat): Nodes
    requires a.Wf() && k < |b| && forall i :: 0 <= i < |b| ==> b[i] < |a.weight|
  {
    var x := b[k];
    a.(prev := (if k + 1 < |b| then a.prev[b[k + 1] := a.prev[x]] else a.prev)[x := a.nil],
       next := (if 0 < k then a.next[b[k - 1] := a.next[x]] else a.next)[x := a.nil])
  }

  lemma PopSpells(a: Nodes, b: seq<nat>, w: nat, head: nat, k: nat)
    requires a.Wf() && a.Spell(b, w, head) && k < |b|
    ensures var b' := Without(b, k);
      PopLinks(a, b, k).Wf() && PopLinks(a, b, k).Spell(b', w, if b' == [] then a.nil else b'[0]) && b[k] !in b'
  {
    var b' := Without(b, k);
    var a' := PopLinks(a, b, k);
    forall j | 0 <= j < |b'|
      ensures b'[j] != b[k]
      ensures a'.LinkedAt(b', j)
    {
      var i := if j < k then j else j + 1;
      assert b'[j] == b[i] && a.LinkedAt(b, i) && a.LinkedAt(b, k);
    }
  }

  lemma PopRepresents(a: Nodes, sets: seq<nat>, buckets: seq<seq<nat>>, w: nat, k: nat)
    requires a.Represent(sets, buckets) && w < |buckets| && k < |buckets[w]|
    requires forall i :: 0 <= i < |buckets[w]| ==> buckets[w][i] < |a.weight|
    ensures var b' := Without(buckets[w], k);
      PopLinks(a, buckets[w], k).Represent(sets[w := if b' == [] then a.nil else b'[0]], buckets[w := b'])
  {
    var b := buckets[w];
    assert a.Spell(b, w, sets[w]);
    PopSpells(a, b, w, sets[w], k);
    forall y | y in b && y != b[k]
      ensures y in Without(b, k)
    {
      var i :| 0 <= i < |b| && b[i] == y;
      assert Without(b, k)[if i < k then i else i - 1] == y;
    }
    ReplaceBucket(a, PopLinks(a, b, k), sets, buckets, w, b[k], Without(b, k), if Without(b, k) == [] then a.nil else Without(b, k)[0]);
  }

  lemma PushListed(a: Nodes, a': Nodes, buckets: seq<seq<nat>>, x: nat)
    requires x < |a.weight| && a.weight[x] < |buckets| && a'.weight == a.weight
    ensures ListedIn(a', buckets[a.weight[x] := [x] + buckets[a.weight[x]]]) == ListedIn(a, buckets) + {x}
  {
  }

  lemma PopListed(a: Nodes, sets: seq<nat>, buckets: seq<seq<nat>>, w: nat, k: nat)
    requires a.Represent(sets, buckets) && w < |buckets| && k < |buckets[w]|
    requires forall i :: 0 <= i < |buckets[w]| ==> buckets[w][i] < |a.weight|
    ensures ListedIn(PopLinks(a, buckets[w], k), buckets[w := Without(buckets[w], k)]) == ListedIn(a, buckets) - {buckets[w][k]}
  {
    var b := buckets[w];
    var b' := Without(b, k);
    assert a.Spell(b, w, sets[w]);
    PopSpells(a, b, w, sets[w], k);
    forall x | x in b && x != b[k]
      ensures x in b'
    {
      var i :| 0 <= i < |b| && b[i] == x;
      assert b'[if i < k then i else i - 1] == x;
    }
    assert b[k] in b && forall x :: x in b' ==> x in b;
  }

  /** A node of weight w that is in no bucket yet: the lists stay what they are. */
  lemma AppendRepresents(a: Nodes, sets: seq<nat>, buckets: seq<seq<nat>>, w: nat)
    requires a.Represent(sets, buckets) && |a.weight| < a.nil
    ensures var a' := Nodes(a.weight + [w], a.prev + [a.nil], a.next + [a.nil], a.nil);
      a'.Represent(sets, buckets) && !a'.In(buckets, |a.weight|)
  {
    var a' := Nodes(a.weight + [w], a.prev + [a.nil], a.next + [a.nil], a.nil);
    forall v | 0 <= v < |buckets|
      ensures a'.Spell(buckets[v], v, sets[v])
      ensures |a.weight| !in buckets[v]
    {
      assert a.Spell(buckets[v], v, sets[v]);
      SpellFrame'(a, a', buckets[v], v, sets[v]);
    }
    forall y | 0 <= y < |a'.weight| && !a'.In(buckets, y)
      ensures a'.prev[y] == a.nil && a'.next[y] == a.nil
    {
      if y < |a.weight| {
        assert !a.In(buckets, y);
      }
    }
  }

  lemma SpellFrame'(a: Nodes, a': Nodes, b: seq<nat>, w: nat, head: nat)
    requires a.Wf() && a'.Wf() && a.Spell(b, w, head) && |a'.weight| == |a.weight| + 1 && a'.nil == a.nil
    requires a'.weight[..|a.weight|] == a.weight && a'.prev[..|a.weight|] == a.prev && a'.next[..|a.weight|] == a.next
    ensures a'.Spell(b, w, head)
  {
    forall k | 0 <= k < |b|
      ensures a'.LinkedAt(b, k)
    {
      assert a.LinkedAt(b, k);
      assert a'.prev[b[k]] == a'.prev[..|a.weight|][b[k]] && a'.next[b[k]] == a'.next[..|a.weight|][b[k]];
    }
    forall k | 0 <= k < |b|
      ensures a'.weight[b[k]] == w
    {
      assert a'.weight[b[k]] == a'.weight[..|a.weight|][b[k]];
    }
  }

  /** The weight of a node in no list is free. */
  lemma ReweightRepresents(a: Nodes, sets: seq<nat>, buckets: seq<seq<nat>>, x: nat, w: nat)
    requires a.Represent(sets, buckets) && x < |a.weight| && !a.In(buckets, x)
    ensures a.(weight := a.weight[x := w]).Represent(sets, buckets)
    ensures forall y :: 0 <= y < |a.weight| ==> a.(weight := a.weight[x := w]).In(buckets, y) == a.In(buckets, y)
  {
    var a' := a.(weight := a.weight[x := w]);
    forall v | 0 <= v < |buckets|
      ensures a'.Spell(buckets[v], v, sets[v]) && x !in buckets[v]
    {
      assert a.Spell(buckets[v], v, sets[v]);
      SpellFrame(a, a', buckets[v], v, sets[v]);
    }
  }

  /** Empty lists above the heaviest node. */
  lemma PadRepresents(a: Nodes, sets: seq<nat>, buckets: seq<seq<nat>>, pad: nat)
    requires a.Represent(sets, buckets)
    ensures a.Represent(sets + Copies(pad, a.nil), buckets + EmptyLists(pad))
    ensures ListedIn(a, buckets + EmptyLists(pad)) == ListedIn(a, buckets)
  {
    var sets', buckets' := sets + Copies(pad, a.nil), buckets + EmptyLists(pad);
    forall v | 0 <= v < |buckets'|
      ensures a.Spell(buckets'[v], v, sets'[v])
    {
      if v < |buckets| {
        assert a.Spell(buckets[v], v, sets[v]);
      }
    }
  }

  /** An empty list above all others can go. */
  lemma DropEmpty(a: Nodes, sets: seq<nat>, buckets: seq<seq<nat>>)
    requires a.Represent(sets, buckets) && |buckets| > 0 && sets[|sets| - 1] == a.nil
    ensures var top := |buckets| - 1;
      buckets[top] == [] && a.Represent(sets[..top], buckets[..top]) && ListedIn(a, buckets[..top]) == ListedIn(a, buckets)
  {
    var top := |buckets| - 1;
    assert a.Spell(buckets[top], top, sets[top]);
    forall v | 0 <= v < top
      ensures a.Spell(buckets[..top][v], v, sets[..top][v])
    {
      assert a.Spell(buckets[v], v, sets[v]);
    }
    assert forall x :: 0 <= x < |a.weight| ==> a.In(buckets[..top], x) == a.In(buckets, x);
  }

  /** The weights the vector of list heads is sized for at first. */
  const INITIAL_SETS: nat := 200

  class WeightData {
    /** NullNode, the index that stands for no node. */
    const mNull: nat
    const mWeight: array<nat>
    const mPrev: array<nat>
    const mNext: array<nat>
    /** The first node of every weight, or NullNode. */
    var mWeightSets: seq<nat>
    /** What the lists represent: the nodes of every weight, in list order. */
    ghost var buckets: seq<seq<nat>>
    /** The nodes that are in some list. */
    ghost var listed: set<nat>

    constructor (size: nat, nullNode: nat)
      requires 0 < size <= nullNode
      ensures mNull == nullNode && Separate() && mWeight.Length == size
      ensures fresh(mWeight) && fresh(mPrev) && fresh(mNext)
    {
      mNull := nullNode;
      mWeight := new nat[size](_ => 0);
      mPrev := new nat[size](_ => nullNode);
      mNext := new nat[size](_ => nullNode);
      mWeightSets, buckets, listed := [], [], {};
    }

    ghost predicate Separate() {
      && mPrev.Length == mNext.Length == mWeight.Length <= mNull
      && mPrev != mNext && mPrev != mWeight && mNext != mWeight
    }

    function Size(): nat { mWeight.Length }

    function NodesOf(): Nodes
      reads mWeight, mPrev, mNext
    {
      Nodes(mWeight[..], mPrev[..], mNext[..], mNull)
    }

    /** All links represent the buckets, nodes in no bucket have no links, and
        the top bucket is not empty. */
    ghost predicate Valid()
      reads this, mWeight, mPrev, mNext
    {
      && Separate()
      && NodesOf().Represent(mWeightSets, buckets)
      && listed == ListedIn(NodesOf(), buckets)
      && |buckets| > 0 && buckets[|buckets| - 1] != []
    }

    /** The nodes of weight w, in list order. */
    ghost function Bucket(w: nat): seq<nat>
      reads this
    {
      if w < |buckets| then buckets[w] else []
    }

    /** The lists partition the listed nodes by weight. */
    lemma BucketsPartition(w: nat, x: nat)
      requires Valid()
      ensures x in Bucket(w) <==> x in listed && x < Size() && mWeight[x] == w
    {
      if w < |buckets| {
        assert NodesOf().Spell(buckets[w], w, mWeightSets[w]);
      }
    }

    /** Lists all nodes with the given weights. */
    method Init(weights: seq<nat>)
      requires Separate() && 0 < |weights| == Size() && forall i :: 0 <= i < |weights| ==> weights[i] < INITIAL_SETS
      modifies this, mWeight, mPrev, mNext
      ensures Valid() && mWeight[..] == weights 
      ensures forall x: nat :: x in listed <==> x < Size()
    {
      hide Nodes.Represent, ListedIn;
      mWeightSets := Copies(INITIAL_SETS, mNull);
      buckets := EmptyLists(INITIAL_SETS);
      EmptyRepresents(Nodes([], [], [], mNull), INITIAL_SETS);
      assert Prefix(0) == Nodes([], [], [], mNull);
      for i := 0 to |weights|
        invariant mWeight[..i] == weights[..i] && |mWeightSets| == |buckets| == INITIAL_SETS
        invariant Prefix(i).Represent(mWeightSets, buckets)
        invariant forall x: nat :: x in ListedIn(Prefix(i), buckets) <==> x < i
      {
        InitNode(i, weights[i]);
      }
      assert Prefix(Size()) == NodesOf();
      assert mWeight[..] == weights[..|weights|] == weights;
      SomeBucket(NodesOf(), buckets, 0);
      Trim();
    }

    lemma SomeBucket(a: Nodes, bs: seq<seq<nat>>, x: nat)
      requires x in ListedIn(a, bs)
      ensures exists w :: 0 <= w < |bs| && bs[w] != []
    {
      assert bs[a.weight[x]] != [];
    }

    lemma EmptyRepresents(a: Nodes, n: nat)
      requires a == Nodes([], [], [], a.nil)
      ensures a.Represent(Copies(n, a.nil), EmptyLists(n)) && ListedIn(a, EmptyLists(n)) == {}
    {
      PadRepresents(a, [], [], n);
      assert [] + Copies(n, a.nil) == Copies(n, a.nil);
      assert [] + EmptyLists(n) == EmptyLists(n);
    }

    /** The first n nodes. */
    ghost function Prefix(n: nat): Nodes
      requires Separate() && n <= Size()
      reads mWeight, mPrev, mNext
    {
      Nodes(mWeight[..n], mPrev[..n], mNext[..n], mNull)
    }

    /** Adds node i with weight w to the lists of the nodes before it. */
    method InitNode(i: nat, w: nat)
      requires Separate() && i < Size() && w < |mWeightSets|
      requires Prefix(i).Represent(mWeightSets, buckets)
      modifies this`mWeightSets, this`buckets, mWeight, mPrev, mNext
      ensures Prefix(i + 1).Represent(mWeightSets, buckets) && mWeight[..i + 1] == old(mWeight[..i]) + [w]
      ensures ListedIn(Prefix(i + 1), buckets) == old(ListedIn(Prefix(i), buckets)) + {i}
      ensures |mWeightSets| == |buckets| == old(|mWeightSets|)
    {
      ghost var a := Prefix(i);
      AppendRepresents(a, mWeightSets, buckets, w);
      mWeight[i], mPrev[i], mNext[i] := w, mNull, mNull;
      assert Prefix(i + 1) == Nodes(a.weight + [w], a.prev + [mNull], a.next + [mNull], mNull);
      assert ListedIn(Prefix(i + 1), buckets) == ListedIn(a, buckets);
      LinkFront(i, i + 1);
    }

    /** Links node x in front of the list of its weight; the nodes before n count. */
    method LinkFront(x: nat, ghost n: nat)
      requires Separate() && x < n <= Size()
      requires Prefix(n).Represent(mWeightSets, buckets) && !Prefix(n).In(buckets, x)
      requires mWeight[x] < |mWeightSets|
      modifies this`mWeightSets, this`buckets, mPrev, mNext
      ensures Prefix(n).Represent(mWeightSets, buckets)
      ensures buckets == old(buckets)[mWeight[x] := [x] + old(buckets)[mWeight[x]]]
      ensures |mWeightSets| == old(|mWeightSets|)
      ensures ListedIn(Prefix(n), buckets) == old(ListedIn(Prefix(n), buckets)) + {x}
    {
      ghost var a := Prefix(n);
      ghost var sets0 := mWeightSets;
      var w := mWeight[x];
      var head := mWeightSets[w];
      assert a.weight[x] == w && a.Spell(buckets[w], w, head);
      if head != mNull {
        assert head == buckets[w][0] && a.LinkedAt(buckets[w], 0) && head < n;
        mPrev[head] := x;
        mNext[x] := head;
      }
      ghost var a' := Prefix(n);
      assert head != mNull ==> a' == a.(prev := a.prev[head := x], next := a.next[x := head]);
      PushRepresents(a, a', sets0, buckets, x);
      PushListed(a, a', buckets, x);
      mWeightSets := mWeightSets[w := x];
      buckets := buckets[w := [x] + buckets[w]];
    }

    /** Drops the empty lists above the heaviest node. */
    method Trim()
      requires Separate() && NodesOf().Represent(mWeightSets, buckets)
      requires exists w :: 0 <= w < |buckets| && buckets[w] != []
      modifies this
      ensures Valid() && listed == old(ListedIn(NodesOf(), buckets))
      ensures buckets <= old(buckets) && forall w :: |buckets| <= w < |old(buckets)| ==> old(buckets)[w] == []
    {
      hide Nodes.Represent, ListedIn;
      HeadsMatch(NodesOf(), mWeightSets, buckets);
      while mWeightSets[|mWeightSets| - 1] == mNull
        invariant NodesOf().Represent(mWeightSets, buckets) && |mWeightSets| == |buckets|
        invariant exists w :: 0 <= w < |buckets| && buckets[w] != []
        invariant ListedIn(NodesOf(), buckets) == old(ListedIn(NodesOf(), buckets))
        invariant buckets <= old(buckets) && forall w :: |buckets| <= w < |old(buckets)| ==> old(buckets)[w] == []
        decreases |mWeightSets|
      {
        DropEmpty(NodesOf(), mWeightSets, buckets);
        mWeightSets := mWeightSets[..|mWeightSets| - 1];
        buckets := buckets[..|buckets| - 1];
      }
      HeadsMatch(NodesOf(), mWeightSets, buckets);
      listed := ListedIn(NodesOf(), buckets);
    }

    lemma HeadsMatch(a: Nodes, sets: seq<nat>, bs: seq<seq<nat>>)
      requires a.Represent(sets, bs)
      ensures |sets| == |bs|
      ensures |sets| > 0 && sets[|sets| - 1] != a.nil ==> bs[|bs| - 1] != []
    {
      assert |bs| > 0 ==> a.Spell(bs[|bs| - 1], |bs| - 1, sets[|sets| - 1]);
    }

    /** Puts an unlisted node in front of the list of its weight. */
    method PushNode(x: nat)
      requires Valid() && x < Size() && x !in listed
      modifies this, mPrev, mNext
      ensures Valid() && listed == old(listed) + {x} && unchanged(mWeight)
      ensures Bucket(mWeight[x]) == [x] + old(Bucket(mWeight[x]))
    {
      var w := mWeight[x];
      if |mWeightSets| <= w {
        var pad := w + 1 - |mWeightSets|;
        PadRepresents(NodesOf(), mWeightSets, buckets, pad);
        mWeightSets := mWeightSets + Copies(pad, mNull);
        buckets := buckets + EmptyLists(pad);
      }
      assert Prefix(Size()) == NodesOf();
      assert ListedIn(Prefix(Size()), buckets) == old(listed);
      LinkFront(x, Size());
      assert Prefix(Size()) == NodesOf();
      listed := listed + {x};

    }

    /** Takes a listed node out of its list; the empty lists above the then
        heaviest node go with it, so some other node has to be listed. */
    method PopNode(x: nat)
      requires Valid() && x in listed && exists y :: y != x && y in listed
      modifies this, mPrev, mNext
      ensures Valid() && listed == old(listed) - {x} && unchanged(mWeight)
    {
      ghost var w := mWeight[x];
      ghost var y: nat :| y != x && y in listed;
      assert NodesOf().Spell(buckets[w], w, mWeightSets[w]);
      ghost var k :| 0 <= k < |buckets[w]| && buckets[w][k] == x;
      Unlink(x, k);
      assert NodesOf().In(buckets, y);
      Trim();
    }

    /** The link writes of popNode, for the k-th node of its list. */
    method Unlink(x: nat, ghost k: nat)
      requires Separate() && NodesOf().Represent(mWeightSets, buckets)
      requires x < Size() && mWeight[x] < |buckets| && k < |buckets[mWeight[x]]| && buckets[mWeight[x]][k] == x
      modifies this`mWeightSets, this`buckets, mPrev, mNext
      ensures NodesOf().Represent(mWeightSets, buckets)
      ensures buckets == old(buckets)[mWeight[x] := Without(old(buckets[mWeight[x]]), k)]
      ensures ListedIn(NodesOf(), buckets) == old(ListedIn(NodesOf(), buckets)) - {x}
    {
      var w := mWeight[x];
      ghost var a, sets0, b := NodesOf(), mWeightSets, buckets[w];
      assert a.Spell(b, w, sets0[w]) && a.LinkedAt(b, k);
      PopRepresents(a, sets0, buckets, w, k);
      if mPrev[x] == mNull {
        if mNext[x] == mNull {
          mWeightSets := mWeightSets[w := mNull];
        } else {
          mWeightSets := mWeightSets[w := mNext[x]];
          mPrev[mWeightSets[w]] := mNull;
        }
      } else {
        var prev := mPrev[x];
        if mNext[x] == mNull {
          mNext[prev] := mNull;
        } else {
          var next := mNext[x];
          mNext[prev] := next;
          mPrev[next] := prev;
        }
      }
      mPrev[x], mNext[x] := mNull, mNull;
      buckets := buckets[w := Without(b, k)];
      assert NodesOf() == PopLinks(a, b, k);
      PopListed(a, sets0, old(buckets), w, k);
    }

    /** Pop, decrease the weight by one, push. */
    method DecrementWeight(x: nat)
      requires Valid() && x in listed && x < Size() && mWeight[x] > 0 && exists y :: y != x && y in listed
      modifies this, mWeight, mPrev, mNext
      ensures Valid() && listed == old(listed)
      ensures forall y :: 0 <= y < Size() ==> mWeight[y] == old(mWeight[y]) - if y == x then 1 else 0
    {
      PopNode(x);
      SetWeight(x, mWeight[x] - 1);
      PushNode(x);
    }

    /** Writes the weight of a node that is in no list. */
    method SetWeight(x: nat, w: nat)
      requires Valid() && x < Size() && x !in listed
      modifies mWeight
      ensures Valid()
      ensures forall y :: 0 <= y < Size() ==> mWeight[y] == if y == x then w else old(mWeight[y])
    {
      ghost var a := NodesOf();
      mWeight[x] := w;
      ReweightRepresents(a, mWeightSets, buckets, x, w);
      assert NodesOf() == a.(weight := a.weight[x := w]);
    }

    /** A listed node of least positive weight, the first of its list. */
    method GetMinWeightNode() returns (x: nat)
      requires Valid() && |mWeightSets| > 1
      ensures x in listed && x < Size() && 0 < mWeight[x] < |mWeightSets| && x == mWeightSets[mWeight[x]]
      ensures forall y: nat :: y in listed && y < Size() && mWeight[y] > 0 ==> mWeight[x] <= mWeight[y]
    {
      var i := 1;
      while mWeightSets[i] == mNull
        invariant 1 <= i < |mWeightSets|
        invariant forall w :: 1 <= w < i ==> buckets[w] == []
        decreases |mWeightSets| - i
      {
        assert NodesOf().Spell(buckets[i], i, mWeightSets[i]);
        i := i + 1;
      }
      assert NodesOf().Spell(buckets[i], i, mWeightSets[i]);
      x := mWeightSets[i];
      assert x == buckets[i][0];
    }
  }
}
