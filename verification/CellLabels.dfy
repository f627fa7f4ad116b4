/** The labelled cells of a set of points: two neighbouring cells per point and
    dimension, which must end up with one label. */
module CellLabels {
  import opened BinaryNumbers
  import opened Division
  import opened FiniteSets

  /** The block a value is looked up in. */
  function ComputeBlock(input: nat, delta: nat): (r: nat)
    ensures r == if delta > 0 && input >= delta then (input - delta) / (2 * delta) else 0
  {
    if 2 * delta == 0 then 0
    else if input >= delta then AreDivision(input - delta, 2 * delta); Quotient(input - delta, 2 * delta)
    else 0
  }

  /** The cell a value lies in. */
  function ComputeCell(input: nat, delta: nat): (r: nat)
    ensures r == if delta > 0 then input / (2 * delta) else 0
  {
    if 2 * delta == 0 then 0
    else AreDivision(input, 2 * delta); Quotient(input, 2 * delta)
  }

  /** The cell below, or the lowest one itself. */
  function Below(cell: nat): nat { if cell != 0 then cell - 1 else 0 }

  /** The block of a value is one of the two cells of any value close to it. */
  lemma CloseBlock(x: nat, y: nat, delta: nat)
    requires Distance(x, y) <= delta
    ensures ComputeBlock(y, delta) == ComputeCell(x, delta) || ComputeBlock(y, delta) == Below(ComputeCell(x, delta))
  {
    var d := 2 * delta;
    if d != 0 && y >= delta {
      QuotientMono(y - delta, x, d);
      QuotientMono(x, y - delta + d, d);
    }
  }

  /** The cells whose label is not the given one. */
  ghost function Others<T>(labels: map<nat, T>, random: T): set<nat> {
    set c | c in labels && labels[c] != random
  }

  lemma FewerOthers<T>(labels: map<nat, T>, tmp: nat, random: T)
    requires tmp in labels && labels[tmp] != random
    ensures |Others(labels[tmp := random], random)| < |Others(labels, random)|
  {
    SubsetSize(Others(labels[tmp := random], random), Others(labels, random) - {tmp});
  }

  /** The relabel loop: runs up from tmp while the next cell has another label. */
  function Relabel<T(==)>(labels: map<nat, T>, tmp: nat, random: T): (r: map<nat, T>)
    ensures r.Keys == labels.Keys
    decreases |Others(labels, random)|
  {
    if tmp in labels && labels[tmp] != random then
      FewerOthers(labels, tmp, random);
      Relabel(labels[tmp := random], U64(tmp + 1), random)
    else labels
  }

  /** Labels so far, and how many random labels were drawn. */
  datatype State<T> = State(labels: map<nat, T>, next: nat)

  /** The two cells of a point whose upper cell is c have one label. */
  ghost predicate Paired<T>(labels: map<nat, T>, c: nat) {
    c in labels && Below(c) in labels && labels[c] == labels[Below(c)]
  }

  /** What one point does to the labels, and the label it gets. */
  function Place<T(==)>(s: State<T>, draws: seq<T>, cell: nat): (r: (State<T>, T))
    requires s.next < |draws|
    ensures s.next <= r.0.next <= s.next + 1
  {
    var block0 := Below(cell);
    if block0 in s.labels then
      var random := s.labels[block0];
      if cell in s.labels then (s.(labels := Relabel(s.labels, cell, random)), random)
      else (s.(labels := s.labels[cell := random]), random)
    else if cell in s.labels then
      (s.(labels := s.labels[block0 := s.labels[cell]]), s.labels[cell])
    else
      var random := draws[s.next];
      (State(s.labels[block0 := random][cell := random], s.next + 1), random)
  }

  /** The relabel loop changes something for this point. */
  ghost predicate Fires<T>(labels: map<nat, T>, cell: nat) {
    cell in labels && Below(cell) in labels && labels[cell] != labels[Below(cell)]
  }

  /** Relabelling upward from c, below which the label is already the new one,
      keeps every pair together. */
  lemma {:induction false} RelabelKeepsPairs<T>(labels: map<nat, T>, tmp: nat, random: T, c: nat)
    requires c in labels && Below(c) in labels && c + 1 < TwoTo64()
    requires labels[c] == labels[Below(c)] || (c == tmp && labels[Below(c)] == random)
    requires tmp < TwoTo64() && (tmp in labels && labels[tmp] != random ==> tmp > 0 && tmp - 1 in labels && labels[tmp - 1] == random)
    requires forall x :: x in labels ==> x + 1 < TwoTo64()
    ensures Paired(Relabel(labels, tmp, random), c)
    decreases |Others(labels, random)|
  {
    if tmp in labels && labels[tmp] != random {
      FewerOthers(labels, tmp, random);
      var labels' := labels[tmp := random];
      RelabelKeepsPairs(labels', U64(tmp + 1), random, c);
    }
  }

  /** The labels after relabelling upward from a cell: the cells up to the first one
      that is not labelled or has the label already get it, and no others. */
  ghost predicate Relabelled<T>(before: map<nat, T>, cell: nat, random: T, after: map<nat, T>) {
    after.Keys == before.Keys && exists end :: RelabelledTo(before, cell, random, after, end)
  }

  ghost predicate RelabelledTo<T>(before: map<nat, T>, cell: nat, random: T, after: map<nat, T>, end: nat)
    requires after.Keys == before.Keys
  {
    && cell <= end && (end in before ==> before[end] == random)
    && (forall c :: cell <= c < end ==> c in before && before[c] != random && after[c] == random)
    && forall c :: c in before && !(cell <= c < end) ==> after[c] == before[c]
  }

  lemma {:induction false} RelabelIs<T>(labels: map<nat, T>, tmp: nat, random: T) returns (end: nat)
    requires forall x :: x in labels ==> x + 1 < TwoTo64()
    ensures RelabelledTo(labels, tmp, random, Relabel(labels, tmp, random), end)
    decreases |Others(labels, random)|
  {
    hide TwoTo64, U64;
    if tmp in labels && labels[tmp] != random {
      FewerOthers(labels, tmp, random);
      end := RelabelIs(labels[tmp := random], U64(tmp + 1), random);
    } else {
      end := tmp;
    }
  }

  method RelabelUp<T(==)>(labels: map<nat, T>, cell: nat, random: T) returns (r: map<nat, T>)
    ensures r == Relabel(labels, cell, random)
  {
    r := labels;
    var tmp := cell;
    while tmp in r && r[tmp] != random
      invariant Relabel(r, tmp, random) == Relabel(labels, cell, random)
      decreases |Others(r, random)|
    {
      FewerOthers(r, tmp, random);
      r := r[tmp := random];
      tmp := U64(tmp + 1);
    }
  }

  /** The labels of one point's two cells. */
  method PlacePoint<T(==)>(s: State<T>, draws: seq<T>, cell: nat) returns (s': State<T>, random: T)
    requires s.next < |draws|
    ensures (s', random) == Place(s, draws, cell)
    ensures SmallKeys(s.labels) ==> Placed(s, draws, cell, if cell > 0 then cell - 1 else 0, s', random)
  {
    PlaceIs(s, draws, cell);
    var labels := s.labels;
    var next := s.next;
    var block0 := Below(cell);
    if block0 in labels {
      random := labels[block0];
      if cell in labels {
        labels := RelabelUp(labels, cell, random);
      } else {
        labels := labels[cell := random];
      }
    } else if cell in labels {
      random := labels[cell];
      labels := labels[block0 := random];
    } else {
      random := draws[next];
      next := next + 1;
      labels := labels[block0 := random][cell := random];
    }
    s' := State(labels, next);
  }

  /** What one point does: it joins the labels of its two cells by relabelling
      upward, or labels a cell like the other one, or both with the next draw. */
  ghost predicate Placed<T>(s: State<T>, draws: seq<T>, cell: nat, below: nat, s': State<T>, random: T)
    requires s.next < |draws|
  {
    if below in s.labels && cell in s.labels then
      random == s.labels[below] && s'.next == s.next && Relabelled(s.labels, cell, random, s'.labels)
    else if below in s.labels then
      random == s.labels[below] && s' == State(s.labels[cell := random], s.next)
    else if cell in s.labels then
      random == s.labels[cell] && s' == State(s.labels[below := random], s.next)
    else
      random == draws[s.next] && s' == State(s.labels[below := random][cell := random], s.next + 1)
  }

  lemma PlaceIs<T>(s: State<T>, draws: seq<T>, cell: nat)
    requires s.next < |draws|
    ensures SmallKeys(s.labels) ==> Placed(s, draws, cell, Below(cell), Place(s, draws, cell).0, Place(s, draws, cell).1)
  {
    if SmallKeys(s.labels) && Below(cell) in s.labels && cell in s.labels {
      var end := RelabelIs(s.labels, cell, s.labels[Below(cell)]);
    }
  }

  ghost predicate SmallKeys<T>(labels: map<nat, T>) {
    forall x :: x in labels ==> x + 1 < TwoTo64()
  }

  /** The labels after the first n points. */
  function Run<T(==)>(cells: seq<nat>, draws: seq<T>, n: nat): (r: State<T>)
    requires n <= |cells| <= |draws|
    ensures r.next <= n
  {
    if n == 0 then State(map[], 0) else Place(Run(cells, draws, n - 1), draws, cells[n - 1]).0
  }

  /** The label point j was given at its turn. */
  function Given<T(==)>(cells: seq<nat>, draws: seq<T>, j: nat): T
    requires j < |cells| <= |draws|
  {
    Place(Run(cells, draws, j), draws, cells[j]).1
  }

  /** The first point gets the first draw. */
  lemma FirstDraw<T>(cells: seq<nat>, draws: seq<T>)
    requires 0 < |cells| <= |draws|
    ensures Given(cells, draws, 0) == draws[0]
  {
  }

  ghost predicate Small(cells: seq<nat>) {
    forall j :: 0 <= j < |cells| ==> cells[j] + 1 < TwoTo64()
  }

  lemma PlaceKeepsPairs<T>(s: State<T>, draws: seq<T>, cell: nat, c: nat)
    requires s.next < |draws| && SmallKeys(s.labels) && cell + 1 < TwoTo64()
    ensures SmallKeys(Place(s, draws, cell).0.labels)
    ensures Paired(s.labels, c) || c == cell ==> Paired(Place(s, draws, cell).0.labels, c)
  {
    hide TwoTo64, Relabel;
    if Below(cell) in s.labels && cell in s.labels && (Paired(s.labels, c) || c == cell) {
      RelabelKeepsPairs(s.labels, cell, s.labels[Below(cell)], c);
    }
  }

  /** Whatever is relabelled, the two cells of every point have one label. */
  lemma {:induction false} EveryPointPaired<T>(cells: seq<nat>, draws: seq<T>, n: nat, j: nat)
    requires n <= |cells| <= |draws| && j < |cells| && Small(cells)
    ensures SmallKeys(Run(cells, draws, n).labels)
    ensures j < n ==> Paired(Run(cells, draws, n).labels, cells[j])
  {
    hide TwoTo64, Place, Paired;
    if n > 0 {
      EveryPointPaired(cells, draws, n - 1, j);
      PlaceKeepsPairs(Run(cells, draws, n - 1), draws, cells[n - 1], cells[j]);
    }
  }

  /** At most two cells per point. */
  lemma {:induction false} FewLabels<T>(cells: seq<nat>, draws: seq<T>, n: nat)
    requires n <= |cells| <= |draws|
    ensures |Run(cells, draws, n).labels| <= 2 * n
  {
    hide Place;
    if n > 0 {
      FewLabels(cells, draws, n - 1);
      PlaceAddsTwo(Run(cells, draws, n - 1), draws, cells[n - 1]);
    }
  }

  lemma PlaceAddsTwo<T>(s: State<T>, draws: seq<T>, cell: nat)
    requires s.next < |draws|
    ensures |Place(s, draws, cell).0.labels| <= |s.labels| + 2
  {
    var after := Place(s, draws, cell).0.labels;
    assert after.Keys <= s.labels.Keys + {cell, Below(cell)};
    AtMostTwoMore(after.Keys, s.labels.Keys, cell, Below(cell));
    assert |s.labels| == |s.labels.Keys| && |after| == |after.Keys|;
  }

  lemma AtMostTwoMore(a: set<nat>, b: set<nat>, x: nat, y: nat)
    requires a <= b + {x, y}
    ensures |a| <= |b| + 2
  {
    var c := b + {x, y};
    SubsetSize(a, c);
    assert c == b + {x} + {y};
    assert |b + {x}| <= |b| + 1;
  }

  lemma {:induction false} PointLabelled<T>(cells: seq<nat>, draws: seq<T>, n: nat, j: nat)
    requires j < n <= |cells| <= |draws|
    ensures cells[j] in Run(cells, draws, n).labels
  {
    if j < n - 1 {
      PointLabelled(cells, draws, n - 1, j);
    }
  }

  /** The label of point j's cells after m points. */
  function Later<T(==)>(cells: seq<nat>, draws: seq<T>, m: nat, j: nat): T
    requires j < m <= |cells| <= |draws|
  {
    PointLabelled(cells, draws, m, j);
    Run(cells, draws, m).labels[cells[j]]
  }

  /** Up to the n-th point the relabel loop changes nothing. */
  ghost predicate NeverFires<T>(cells: seq<nat>, draws: seq<T>, n: nat)
    requires n <= |cells| <= |draws|
  {
    forall k :: 0 <= k < n ==> !Fires(Run(cells, draws, k).labels, cells[k])
  }

  /** base is the lowest cell of the run of labelled cells that cell lies in. */
  ghost predicate RunFrom<T>(labels: map<nat, T>, base: nat, cell: nat) {
    && base <= cell && (forall c :: base <= c <= cell ==> c in labels)
    && (base > 0 ==> base - 1 !in labels)
  }

  /** The lowest cell of a run, by going down cell by cell; below zero the u64 wraps
      and the loop is left. */
  method FindBase<T>(labels: map<nat, T>, cell: nat) returns (base: nat)
    requires cell in labels && cell < TwoTo64()
    ensures RunFrom(labels, base, cell)
  {
    hide TwoTo64, U64;
    var tmp := cell;
    while tmp in labels
      invariant 0 <= tmp <= cell && forall c :: tmp < c <= cell ==> c in labels
      decreases tmp
    {
      if tmp == 0 {
        U64Add(tmp - 1, 1);
        return U64(U64(tmp - 1) + 1);
      }
      tmp := U64(tmp - 1);
    }
    base := U64(tmp + 1);
  }

  /** Cells of one run have one base; so all points of a run have one origin. */
  lemma OneBase<T>(labels: map<nat, T>, base: nat, cell: nat, base': nat, cell': nat)
    requires RunFrom(labels, base, cell) && RunFrom(labels, base', cell')
    ensures base == base' <==> (forall c :: (cell <= c <= cell' || cell' <= c <= cell) ==> c in labels)
  {
    if base < base' {
      assert base' - 1 !in labels;
      assert cell < base' - 1;
    } else if base' < base {
      assert base - 1 !in labels;
      assert cell' < base - 1;
    }
  }

  lemma PlaceKeepsLabels<T>(s: State<T>, draws: seq<T>, cell: nat, c: nat)
    requires s.next < |draws| && !Fires(s.labels, cell)
    ensures c in s.labels ==> c in Place(s, draws, cell).0.labels && Place(s, draws, cell).0.labels[c] == s.labels[c]
    ensures cell in Place(s, draws, cell).0.labels && Place(s, draws, cell).0.labels[cell] == Place(s, draws, cell).1
  {
  }

  /** If it never does, every point's cells keep the label the point was given. */
  lemma {:induction false} LabelsLast<T>(cells: seq<nat>, draws: seq<T>, n: nat, j: nat)
    requires j < n <= |cells| <= |draws| && NeverFires(cells, draws, n)
    ensures Later(cells, draws, n, j) == Given(cells, draws, j)
  {
    hide Place, Fires;
    PointLabelled(cells, draws, n, j);
    PlaceKeepsLabels(Run(cells, draws, n - 1), draws, cells[n - 1], cells[j]);
    if j < n - 1 {
      PointLabelled(cells, draws, n - 1, j);
      LabelsLast(cells, draws, n - 1, j);
    }
  }

  /** All cells from one to the other are labelled. */
  ghost predicate OneRun<T>(labels: map<nat, T>, a: nat, b: nat) {
    forall c :: a <= c <= b || b <= c <= a ==> c in labels
  }

  /** After point j's turn the relabel loop changes nothing in the run of labelled
      cells it lies in. */
  ghost predicate Quiet<T>(cells: seq<nat>, draws: seq<T>, n: nat, j: nat)
    requires j < n <= |cells| <= |draws|
  {
    forall k :: j < k < n && Fires(Run(cells, draws, k).labels, cells[k]) ==> !OneRun(Run(cells, draws, n).labels, cells[k], cells[j])
  }

  /** Relabelling leaves the cells below and those of other runs alone. */
  lemma RelabelStays<T>(before: map<nat, T>, cell: nat, random: T, after: map<nat, T>, c: nat)
    requires Relabelled(before, cell, random, after) && c in before && !(c >= cell && OneRun(before, cell, c))
    ensures after[c] == before[c]
  {
    var end: nat :| RelabelledTo(before, cell, random, after, end);
  }

  lemma RelabelGives<T>(before: map<nat, T>, cell: nat, random: T, after: map<nat, T>)
    requires Relabelled(before, cell, random, after) && cell in before
    ensures after[cell] == random
  {
    var end: nat :| RelabelledTo(before, cell, random, after, end);
  }

  /** A point's turn gives its cell the label. */
  lemma PlacedLabel<T>(s: State<T>, draws: seq<T>, cell: nat)
    requires s.next < |draws| && SmallKeys(s.labels)
    ensures cell in Place(s, draws, cell).0.labels && Place(s, draws, cell).0.labels[cell] == Place(s, draws, cell).1
  {
    PlaceIs(s, draws, cell);
    hide Relabelled, SmallKeys;
    if Below(cell) in s.labels && cell in s.labels {
      RelabelGives(s.labels, cell, s.labels[Below(cell)], Place(s, draws, cell).0.labels);
    }
  }

  /** Another point's turn keeps the label of a cell, unless it changes something
      in the run the cell lies in. */
  lemma PlaceKeepsOther<T>(s: State<T>, draws: seq<T>, cell: nat, c: nat)
    requires s.next < |draws| && SmallKeys(s.labels) && c in s.labels
    requires Fires(s.labels, cell) ==> !OneRun(s.labels, cell, c)
    ensures c in Place(s, draws, cell).0.labels && Place(s, draws, cell).0.labels[c] == s.labels[c]
  {
    if Fires(s.labels, cell) {
      PlaceIs(s, draws, cell);
      hide Relabelled, SmallKeys;
      RelabelStays(s.labels, cell, s.labels[Below(cell)], Place(s, draws, cell).0.labels, c);
    } else {
      PlaceKeepsLabels(s, draws, cell, c);
    }
  }

  /** Labelled cells stay labelled. */
  lemma {:induction false} RunsGrow<T>(cells: seq<nat>, draws: seq<T>, k: nat, n: nat)
    requires k <= n <= |cells| <= |draws|
    ensures Run(cells, draws, k).labels.Keys <= Run(cells, draws, n).labels.Keys
  {
    if k < n {
      RunsGrow(cells, draws, k, n - 1);
    }
  }

  /** The cells of a point keep the label it was given if nothing is relabelled in
      their run, whatever is in others. */
  lemma {:induction false} QuietLasts<T>(cells: seq<nat>, draws: seq<T>, n: nat, j: nat, m: nat)
    requires j < m <= n <= |cells| <= |draws| && Small(cells) && Quiet(cells, draws, n, j)
    ensures Later(cells, draws, m, j) == Given(cells, draws, j)
  {
    hide Place, Fires, SmallKeys, Small;
    PointLabelled(cells, draws, m, j);
    EveryPointPaired(cells, draws, m - 1, j);
    var before := Run(cells, draws, m - 1);
    if j < m - 1 {
      PointLabelled(cells, draws, m - 1, j);
      QuietLasts(cells, draws, n, j, m - 1);
      RunsGrow(cells, draws, m - 1, n);
      PlaceKeepsOther(before, draws, cells[m - 1], cells[j]);
    } else {
      PlacedLabel(before, draws, cells[j]);
    }
  }

  /** Different draws are different values. */
  ghost predicate Differ<T>(draws: seq<T>) {
    forall i, j :: 0 <= i < j < |draws| ==> draws[i] != draws[j]
  }

  /** Labels are draws so far, and cells with one label lie in one run. */
  ghost predicate Apart<T>(s: State<T>, draws: seq<T>)
    requires s.next <= |draws|
  {
    && (forall c :: c in s.labels ==> s.labels[c] in draws[..s.next])
    && forall a, b :: a in s.labels && b in s.labels && s.labels[a] == s.labels[b] ==> OneRun(s.labels, a, b)
  }

  /** If the draws differ, cells of separate runs never have one label. */
  lemma {:induction false} RunsApart<T>(cells: seq<nat>, draws: seq<T>, n: nat)
    requires n <= |cells| <= |draws| && Small(cells) && Differ(draws)
    ensures Apart(Run(cells, draws, n), draws)
  {
    hide Place, Small, Differ, Apart, SmallKeys;
    if n == 0 {
      NoneApart(draws);
    } else {
      RunsApart(cells, draws, n - 1);
      EveryPointPaired(cells, draws, n - 1, n - 1);
      PlaceIs(Run(cells, draws, n - 1), draws, cells[n - 1]);
      PlaceKeepsApart(Run(cells, draws, n - 1), draws, cells[n - 1], Run(cells, draws, n), Place(Run(cells, draws, n - 1), draws, cells[n - 1]).1);
    }
  }

  lemma NoneApart<T>(draws: seq<T>)
    ensures Apart(State(map[], 0), draws)
  {
  }

  lemma PlaceKeepsApart<T>(s: State<T>, draws: seq<T>, cell: nat, s': State<T>, random: T)
    requires s.next < |draws| && s'.next <= |draws| && Differ(draws) && Apart(s, draws) && Placed(s, draws, cell, Below(cell), s', random)
    ensures Apart(s', draws)
  {
    var below := Below(cell);
    if below in s.labels && cell in s.labels {
      RelabelApart(s, draws, cell, s', random);
    } else if below in s.labels {
      JoinApart(s, draws, below, cell, s');
    } else if cell in s.labels {
      JoinApart(s, draws, cell, below, s');
    } else {
      NewApart(s, draws, below, s.(labels := s.labels[below := random], next := s.next + 1));
      if cell != below {
        JoinApart(s.(labels := s.labels[below := random], next := s.next + 1), draws, below, cell, s');
      } else {
        assert s'.labels == s.labels[below := random];
      }
    }
  }

  lemma NewApart<T>(s: State<T>, draws: seq<T>, cell: nat, s': State<T>)
    requires s.next < |draws| && Differ(draws) && Apart(s, draws) && cell !in s.labels
    requires s' == State(s.labels[cell := draws[s.next]], s.next + 1)
    ensures Apart(s', draws)
  {
    assert draws[..s.next + 1] == draws[..s.next] + [draws[s.next]];
    assert draws[s.next] !in draws[..s.next];
  }

  /** A cell labelled like its neighbour. */
  lemma JoinApart<T>(s: State<T>, draws: seq<T>, old_: nat, new_: nat, s': State<T>)
    requires s.next <= |draws| && Apart(s, draws) && old_ in s.labels && new_ !in s.labels && (new_ == old_ + 1 || old_ == new_ + 1)
    requires s' == State(s.labels[new_ := s.labels[old_]], s.next)
    ensures Apart(s', draws)
  {
    forall a, b | a in s'.labels && b in s'.labels && s'.labels[a] == s'.labels[b]
      ensures OneRun(s'.labels, a, b)
    {
      var a', b' := if a == new_ then old_ else a, if b == new_ then old_ else b;
      assert OneRun(s.labels, a', b');
    }
  }

  lemma RelabelApart<T>(s: State<T>, draws: seq<T>, cell: nat, s': State<T>, random: T)
    requires s.next <= |draws| && Apart(s, draws) && cell in s.labels && Below(cell) in s.labels && random == s.labels[Below(cell)]
    requires s'.next == s.next && Relabelled(s.labels, cell, random, s'.labels)
    ensures Apart(s', draws)
  {
    var end: nat :| RelabelledTo(s.labels, cell, random, s'.labels, end);
    forall a, b | a in s'.labels && b in s'.labels && s'.labels[a] == s'.labels[b]
      ensures OneRun(s'.labels, a, b)
    {
      var a', b' := if cell <= a < end then Below(cell) else a, if cell <= b < end then Below(cell) else b;
      assert s.labels[a'] == s'.labels[a] && s.labels[b'] == s'.labels[b];
      assert OneRun(s.labels, a', b');
    }
  }

  /** Every labelled cell belongs to a point. */
  lemma {:induction false} CellOfPoint<T>(cells: seq<nat>, draws: seq<T>, n: nat, c: nat) returns (j: nat)
    requires n <= |cells| <= |draws| && c in Run(cells, draws, n).labels
    ensures j < n && (c == cells[j] || c == Below(cells[j]))
  {
    if c == cells[n - 1] || c == Below(cells[n - 1]) {
      j := n - 1;
    } else {
      j := CellOfPoint(cells, draws, n - 1, c);
    }
  }

  /** Point j's cells have the label it was given, after m points. */
  ghost predicate Current<T>(cells: seq<nat>, draws: seq<T>, m: nat, j: nat)
    requires j < m <= |cells| <= |draws|
  {
    Later(cells, draws, m, j) == Given(cells, draws, j)
  }

  /** In the end every point's cells have the label the point was given exactly
      if the relabel loop never changed anything, and then they always had it. */
  lemma CurrentExactlyIfNeverFires<T>(cells: seq<nat>, draws: seq<T>, n: nat)
    requires n <= |cells| <= |draws| && Small(cells)
    ensures (forall j :: 0 <= j < n ==> Current(cells, draws, n, j)) <==> NeverFires(cells, draws, n)
    ensures NeverFires(cells, draws, n) ==> forall m, j :: 0 <= j < m <= n ==> Current(cells, draws, m, j)
  {
    hide Run, Place, Fires, Small, Given;
    if NeverFires(cells, draws, n) {
      forall m, j | 0 <= j < m <= n
        ensures Current(cells, draws, m, j)
      {
        LabelsLast(cells, draws, m, j);
      }
    } else {
      var k :| 0 <= k < n && Fires(Run(cells, draws, k).labels, cells[k]);
      FiringOutdates(cells, draws, n, k);
    }
  }

  /** A cell labelled before the loop first changes something has the label some
      point was given, and has it in the end too if that label is current. */
  lemma LabelOfPoint<T>(cells: seq<nat>, draws: seq<T>, n: nat, k: nat, c: nat) returns (j: nat)
    requires k <= n <= |cells| <= |draws| && Small(cells) && NeverFires(cells, draws, k) && c in Run(cells, draws, k).labels
    ensures j < k && Run(cells, draws, k).labels[c] == Given(cells, draws, j)
    ensures Current(cells, draws, n, j) ==> c in Run(cells, draws, n).labels && Run(cells, draws, n).labels[c] == Given(cells, draws, j)
  {
    hide Run, Place, Fires, Small, Given, NeverFires;
    j := CellOfPoint(cells, draws, k, c);
    LabelsLast(cells, draws, k, j);
    EveryPointPaired(cells, draws, k, j);
    EveryPointPaired(cells, draws, n, j);
  }

  /** Where the loop first changes something, two cells with different given
      labels are joined for good: one of the two labels is outdated. */
  lemma {:induction false} FiringOutdates<T>(cells: seq<nat>, draws: seq<T>, n: nat, k: nat)
    requires k < n <= |cells| <= |draws| && Small(cells) && Fires(Run(cells, draws, k).labels, cells[k])
    ensures exists j :: 0 <= j < n && !Current(cells, draws, n, j)
  {
    hide Run, Place, Small, Given;
    if NeverFires(cells, draws, k) {
      var upper := LabelOfPoint(cells, draws, n, k, cells[k]);
      var lower := LabelOfPoint(cells, draws, n, k, Below(cells[k]));
      EveryPointPaired(cells, draws, n, k);
      assert !Current(cells, draws, n, upper) || !Current(cells, draws, n, lower);
    } else {
      var first :| 0 <= first < k && Fires(Run(cells, draws, first).labels, cells[first]);
      FiringOutdates(cells, draws, n, first);
    }
  }

  /** If it does, it can leave a point with an outdated label: the last of these
      points joins two runs of cells, and the second point was in the upper one. */
  lemma RelabelOutdates<T>(draws: seq<T>)
    requires |draws| >= 4 && draws[0] != draws[1]
    ensures var cells := [1, 4, 3, 2];
      Given(cells, draws, 1) == draws[1] && Later(cells, draws, 4, 1) == draws[0]
  {
    var cells := [1, 4, 3, 2];
    var a, b := draws[0], draws[1];
    assert Run(cells, draws, 0) == State(map[], 0);
    assert Run(cells, draws, 1) == State(map[0 := a, 1 := a], 1);
    assert Run(cells, draws, 2) == State(map[0 := a, 1 := a, 3 := b, 4 := b], 2);
    var m := map[0 := a, 1 := a, 3 := b, 4 := b, 2 := b];
    assert Run(cells, draws, 3) == State(m, 2);
    RelabelOne(m, 2, a);
    RelabelOne(m[2 := a], 3, a);
    RelabelOne(m[2 := a][3 := a], 4, a);
  }

  lemma RelabelOne<T>(labels: map<nat, T>, tmp: nat, random: T)
    requires tmp + 1 < TwoTo64() && tmp in labels && labels[tmp] != random
    ensures Relabel(labels, tmp, random) == Relabel(labels[tmp := random], tmp + 1, random)
  {
  }
}
