/** Cores: the sets of rows that no peeling order can take apart. */
module Cores {
  import opened WeightBuckets

  /** A row of the set other than r has column c. */
  ghost predicate Elsewhere(rows: seq<seq<nat>>, some: set<nat>, r: nat, c: nat) {
    exists q :: q in some && q != r && q < |rows| && c in rows[q]
  }

  /** A set of rows in which every column occurs at least twice. */
  ghost predicate IsCore(rows: seq<seq<nat>>, core: set<nat>) {
    && core != {} && (forall r :: r in core ==> r < |rows|)
    && forall r, c :: r in core && c in rows[r] ==> Elsewhere(rows, core, r, c)
  }

  ghost predicate HasCore(rows: seq<seq<nat>>) {
    exists core: set<nat> :: IsCore(rows, core)
  }

  /** Row k of the order has column c, and no later one has it. */
  ghost predicate LastWith(rows: seq<seq<nat>>, order: seq<nat>, k: nat, c: nat) {
    && k < |order| && order[k] < |rows| && c in rows[order[k]]
    && forall j :: k < j < |order| && order[j] < |rows| ==> c !in rows[order[j]]
  }

  ghost predicate Peels(rows: seq<seq<nat>>, order: seq<nat>, k: nat) {
    exists c: nat :: LastWith(rows, order, k, c)
  }

  /** An order of all rows in which each has a column that no later one has. */
  ghost predicate PeelingOrder(rows: seq<seq<nat>>, order: seq<nat>) {
    && NoDuplicates(order) && (forall r: nat :: r in order <==> r < |rows|)
    && forall k :: 0 <= k < |order| ==> Peels(rows, order, k)
  }

  ghost function AllBelow(n: nat): (r: set<nat>)
    ensures forall x: nat :: x in r <==> x < n
  {
    if n == 0 then {} else AllBelow(n - 1) + {n - 1}
  }

  /** Rows can be peeled one by one exactly if they have no core. */
  lemma CoreOrOrder(rows: seq<seq<nat>>)
    ensures HasCore(rows) <==> !exists order :: PeelingOrder(rows, order)
  {
    if order :| PeelingOrder(rows, order) {
      OrderHasNoCore(rows, order);
    } else if !HasCore(rows) {
      var order := PeelRest(rows, AllBelow(|rows|));
      assert PeelingOrder(rows, order);
    }
  }

  lemma OrderHasNoCore(rows: seq<seq<nat>>, order: seq<nat>)
    requires PeelingOrder(rows, order)
    ensures !HasCore(rows)
  {
    forall core: set<nat> | core != {} && forall r :: r in core ==> r < |rows|
      ensures !IsCore(rows, core)
    {
      NotACore(rows, order, core);
    }
  }

  /** The first row of the set in the order has a column of its own. */
  lemma NotACore(rows: seq<seq<nat>>, order: seq<nat>, some: set<nat>)
    requires PeelingOrder(rows, order) && some != {} && forall r :: r in some ==> r < |rows|
    ensures !IsCore(rows, some)
  {
    var r :| r in some;
    var k := FirstOf(order, some, r);
    assert Peels(rows, order, k);
    var c: nat :| LastWith(rows, order, k, c);
    forall q | q in some
      ensures q == order[k] || c !in rows[q]
    {
      assert q in order;
      var j :| 0 <= j < |order| && order[j] == q;
    }
    assert !Elsewhere(rows, some, order[k], c);
  }

  lemma {:induction false} FirstOf(order: seq<nat>, some: set<nat>, r: nat) returns (k: nat)
    requires r in order && r in some
    ensures k < |order| && order[k] in some && forall j :: 0 <= j < k ==> order[j] !in some
  {
    if order[0] in some {
      k := 0;
    } else {
      k := FirstOf(order[1..], some, r);
      assert forall j :: 1 <= j < k + 1 ==> order[j] == order[1..][j - 1];
      k := k + 1;
    }
  }

  /** Without a core, any set of rows has a row with a column of its own. */
  lemma {:induction false} PeelRest(rows: seq<seq<nat>>, rest: set<nat>) returns (order: seq<nat>)
    requires !HasCore(rows) && forall r :: r in rest ==> r < |rows|
    ensures NoDuplicates(order) && forall r: nat :: r in order <==> r in rest
    ensures forall k :: 0 <= k < |order| ==> Peels(rows, order, k)
    decreases rest
  {
    order := [];
    if rest != {} {
      assert !IsCore(rows, rest);
      var r, c :| r in rest && c in rows[r] && !Elsewhere(rows, rest, r, c);
      var later := PeelRest(rows, rest - {r});
      order := [r] + later;
      forall k: nat | k < |order|
        ensures Peels(rows, order, k)
      {
        if k == 0 {
          OwnColumn(rows, order, rest, c);
        } else {
          PeelsBehind(rows, r, later, k - 1);
        }
      }
    }
  }

  lemma OwnColumn(rows: seq<seq<nat>>, order: seq<nat>, rest: set<nat>, c: nat)
    requires |order| > 0 && order[0] < |rows| && c in rows[order[0]] && !Elsewhere(rows, rest, order[0], c)
    requires NoDuplicates(order) && forall r :: r in order ==> r in rest
    ensures Peels(rows, order, 0)
  {
    forall j | 0 < j < |order| && order[j] < |rows|
      ensures c !in rows[order[j]]
    {
      assert order[j] in order && order[j] != order[0];
    }
    assert LastWith(rows, order, 0, c);
  }

  lemma PeelsBehind(rows: seq<seq<nat>>, r: nat, later: seq<nat>, k: nat)
    requires k < |later| && Peels(rows, later, k)
    ensures Peels(rows, [r] + later, k + 1)
  {
    var order := [r] + later;
    var c: nat :| LastWith(rows, later, k, c);
    assert forall j :: 0 < j < |order| ==> order[j] == later[j - 1];
    assert LastWith(rows, order, k + 1, c);
  }
}
