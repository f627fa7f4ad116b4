/** Secret-shared equality: an AND tree over shared bits, compacted in place. */
module EqualityTree {
  import opened BinaryNumbers
  import opened BeaverTriples
  import opened Layout

  /** ceil(log2(n)) */
  function Log2Ceil(n: nat): (k: nat)
    requires n >= 1
    ensures n <= Exp2(k) && (n > 1 ==> k >= 1 && Exp2(k - 1) < n)
  {
    if n == 1 then 0 else Log2Ceil((n + 1) / 2) + 1
  }

  /** The number of pairs of a row, and what is left of it one level up. */
  function Pairs(cur: nat): nat { cur / 2 }

  function Next(cur: nat): nat { (cur + 1) / 2 }

  /** The AND of the shared bits of a row. */
  ghost predicate Conj(res0: seq<bool>, res1: seq<bool>, lo: nat, len: nat)
    requires lo + len <= |res0| == |res1|
  {
    forall p :: lo <= p < lo + len ==> res0[p] != res1[p]
  }

  /** The opened differences of the q-th pair of a row, as one party sends them. */
  ghost predicate MaskedAt(xa: seq<bool>, yb: seq<bool>, out: nat, res: seq<bool>, lo: nat, s: Shares, t: nat, q: nat)
    requires out + q < |xa| == |yb| && lo + 2 * q + 1 < |res| && s.Sized(|s.a|) && t + q < |s.a|
  {
    && xa[out + q] == (res[lo + 2 * q] != s.a[t + q])
    && yb[out + q] == (res[lo + 2 * q + 1] != s.b[t + q])
  }

  /** The opened differences of the first m pairs of a row. */
  ghost predicate MaskedSpan(m: nat, xa: seq<bool>, yb: seq<bool>, out: nat, res: seq<bool>, lo: nat, s: Shares, t: nat) {
    && s.Sized(|s.a|) && |xa| == |yb| && out + m <= |xa| && lo + 2 * m <= |res| && t + m <= |s.a|
    && forall q :: 0 <= q < m ==> MaskedAt(xa, yb, out, res, lo, s, t, q)
  }

  lemma MaskedOneMore(m: nat, x: seq<bool>, y: seq<bool>, xa: seq<bool>, yb: seq<bool>, out: nat, res: seq<bool>, lo: nat, s: Shares, t: nat)
    requires MaskedSpan(m, x, y, out, res, lo, s, t)
    requires out + m < |x| == |xa| == |yb| && lo + 2 * m + 1 < |res| && t + m < |s.a| && MaskedAt(xa, yb, out, res, lo, s, t, m)
    requires forall p :: 0 <= p < |xa| && p != out + m ==> xa[p] == x[p] && yb[p] == y[p]
    ensures MaskedSpan(m + 1, xa, yb, out, res, lo, s, t)
  {
    forall q | 0 <= q < m
      ensures MaskedAt(xa, yb, out, res, lo, s, t, q)
    {
      assert MaskedAt(x, y, out, res, lo, s, t, q);
    }
  }

  /** The first inner loop of a level: masks the pairs of one row. */
  method MaskRow(cur: nat, t: Triples, res: array<bool>, lo: nat, xa: array<bool>, yb: array<bool>, out: nat)
    requires t.Sized() && t.curTriple + Pairs(cur) <= t.nTriples < TwoTo64()
    requires lo + cur <= res.Length && out + Pairs(cur) <= xa.Length == yb.Length && xa != yb && res != xa && res != yb
    requires xa != t.a && xa != t.b && xa != t.c && yb != t.a && yb != t.b && yb != t.c
    modifies xa, yb, t`curTriple
    ensures t.curTriple == old(t.curTriple) + Pairs(cur)
    ensures MaskedSpan(Pairs(cur), xa[..], yb[..], out, res[..], lo, t.View(), old(t.curTriple))
    ensures forall p :: 0 <= p < xa.Length && !(out <= p < out + Pairs(cur)) ==> xa[p] == old(xa[p]) && yb[p] == old(yb[p])
  {
    hide TwoTo64, U64;
    var j := 0;
    ghost var q := 0;
    while j < cur
      invariant j == 2 * q && q <= Next(cur)
      invariant t.curTriple == old(t.curTriple) + if q <= Pairs(cur) then q else Pairs(cur)
      invariant MaskedSpan(if q <= Pairs(cur) then q else Pairs(cur), xa[..], yb[..], out, res[..], lo, t.View(), old(t.curTriple))
      invariant forall p :: 0 <= p < xa.Length && !(out <= p < out + Pairs(cur)) ==> xa[p] == old(xa[p]) && yb[p] == old(yb[p])
    {
      if j != cur - 1 {
        ghost var x, y := xa[..], yb[..];
        xa[out + j / 2] := res[lo + j] != t.CurA();
        yb[out + j / 2] := res[lo + j + 1] != t.CurB();
        MaskedOneMore(q, x, y, xa[..], yb[..], out, res[..], lo, t.View(), old(t.curTriple));
        t.Move(1);
      }
      j, q := j + 2, q + 1;
    }
  }

  /** The opened differences of row i. */
  ghost predicate MaskedRow(cur: nat, xa: seq<bool>, yb: seq<bool>, res: seq<bool>, s: Shares, t: nat, i: nat) {
    MaskedSpan(Pairs(cur), xa, yb, Row(i, Pairs(cur)), res, Row(i, cur), s, t + Row(i, Pairs(cur)))
  }

  ghost predicate MaskedRows(n: nat, cur: nat, xa: seq<bool>, yb: seq<bool>, res: seq<bool>, s: Shares, t: nat) {
    forall i :: 0 <= i < n ==> MaskedRow(cur, xa, yb, res, s, t, i)
  }

  /** The first double loop of a level. */
  method MaskLevel(n: nat, cur: nat, t: Triples, res: array<bool>) returns (xa: array<bool>, yb: array<bool>)
    requires t.Sized() && t.curTriple + Row(n, Pairs(cur)) <= t.nTriples < TwoTo64() && Row(n, cur) <= res.Length
    modifies t`curTriple
    ensures fresh(xa) && fresh(yb) && xa.Length == yb.Length == Row(n, Pairs(cur))
    ensures t.curTriple == old(t.curTriple) + Row(n, Pairs(cur))
    ensures MaskedRows(n, cur, xa[..], yb[..], res[..], t.View(), old(t.curTriple))
  {
    hide TwoTo64, Row, MaskedSpan;
    xa := new bool[Row(n, Pairs(cur))](_ => false);
    yb := new bool[Row(n, Pairs(cur))](_ => false);
    RowStart(Pairs(cur));
    for i := 0 to n
      invariant t.curTriple == old(t.curTriple) + Row(i, Pairs(cur))
      invariant MaskedRows(i, cur, xa[..], yb[..], res[..], t.View(), old(t.curTriple))
    {
      ghost var x, y := xa[..], yb[..];
      RowFits(i, n, cur);
      RowFits(i, n, Pairs(cur));
      MaskRow(cur, t, res, Row(i, cur), xa, yb, Row(i, Pairs(cur)));
      forall k | 0 <= k < i
        ensures MaskedRow(cur, xa[..], yb[..], res[..], t.View(), old(t.curTriple), k)
      {
        RowFits(k, i, Pairs(cur));
        MaskedRowFrame(cur, x, y, xa[..], yb[..], res[..], t.View(), old(t.curTriple), k);
      }
    }
  }

  lemma MaskedRowFrame(cur: nat, x: seq<bool>, y: seq<bool>, xa: seq<bool>, yb: seq<bool>, res: seq<bool>, s: Shares, t: nat, k: nat)
    requires |x| == |y| == |xa| == |yb| && MaskedRow(cur, x, y, res, s, t, k)
    requires forall p :: 0 <= p < Row(k, Pairs(cur)) + Pairs(cur) && p < |x| ==> xa[p] == x[p] && yb[p] == y[p]
    ensures MaskedRow(cur, xa, yb, res, s, t, k)
  {
    hide Row;
    var out, lo, at := Row(k, Pairs(cur)), Row(k, cur), t + Row(k, Pairs(cur));
    forall q | 0 <= q < Pairs(cur)
      ensures MaskedAt(xa, yb, out, res, lo, s, at, q)
    {
      assert MaskedAt(x, y, out, res, lo, s, at, q);
    }
  }

  /** The masked bits of both parties, after the exchange. */
  datatype Opened = Opened(xa0: seq<bool>, yb0: seq<bool>, xa1: seq<bool>, yb1: seq<bool>)
  {
    predicate Sized(n: nat) { |xa0| == |yb0| == |xa1| == |yb1| == n }
  }

  /** The q-th bit of a row one level up: the bit left over, or a share of the
      product d & e + d & b + e & a + c, where only the first party adds d & e. */
  ghost predicate NewAt(first: bool, cur: nat, now: seq<bool>, dst: nat, was: seq<bool>, lo: nat, o: Opened, out: nat, s: Shares, t: nat, q: nat)
    requires q < Next(cur) && dst + Next(cur) <= |now| && lo + cur <= |was| && o.Sized(|o.xa0|) && out + Pairs(cur) <= |o.xa0|
    requires s.Sized(|s.a|) && t + Pairs(cur) <= |s.a|
  {
    now[dst + q] == if 2 * q == cur - 1 then was[lo + 2 * q]
                    else
                      var d, e := o.xa0[out + q] != o.xa1[out + q], o.yb0[out + q] != o.yb1[out + q];
                      ((first && d && e) != (d && s.b[t + q])) != ((e && s.a[t + q]) != s.c[t + q])
  }

  ghost predicate NewSpan(first: bool, cur: nat, m: nat, now: seq<bool>, dst: nat, was: seq<bool>, lo: nat, o: Opened, out: nat, s: Shares, t: nat) {
    && m <= Next(cur) && dst + Next(cur) <= |now| && lo + cur <= |was| && o.Sized(|o.xa0|) && out + Pairs(cur) <= |o.xa0|
    && s.Sized(|s.a|) && t + Pairs(cur) <= |s.a|
    && forall q :: 0 <= q < m ==> NewAt(first, cur, now, dst, was, lo, o, out, s, t, q)
  }

  lemma NewOneMore(first: bool, cur: nat, m: nat, now: seq<bool>, now': seq<bool>, dst: nat, was: seq<bool>, lo: nat, o: Opened, out: nat, s: Shares, t: nat)
    requires NewSpan(first, cur, m, now, dst, was, lo, o, out, s, t) && m < Next(cur) && |now'| == |now|
    requires NewAt(first, cur, now', dst, was, lo, o, out, s, t, m)
    requires forall p :: 0 <= p < |now| && p != dst + m ==> now'[p] == now[p]
    ensures NewSpan(first, cur, m + 1, now', dst, was, lo, o, out, s, t)
  {
    forall q | 0 <= q < m
      ensures NewAt(first, cur, now', dst, was, lo, o, out, s, t, q)
    {
      assert NewAt(first, cur, now, dst, was, lo, o, out, s, t, q);
    }
  }

  method CombineBit(first: bool, d: bool, e: bool, t: Triples) returns (bit: bool)
    requires t.Sized() && t.curTriple < t.nTriples
    ensures bit == (((first && d && e) != (d && t.b[t.curTriple])) != ((e && t.a[t.curTriple]) != t.c[t.curTriple]))
  {
    if first {
      bit := (((d && e) != (d && t.CurB())) != (e && t.CurA())) != t.CurC();
    } else {
      bit := ((d && t.CurB()) != (e && t.CurA())) != t.CurC();
    }
  }

  /** The second inner loop of a level: one row, compacted in place. It writes
      no bit it has yet to read, because dst <= lo. */
  method CombineRow(first: bool, cur: nat, t: Triples, res: array<bool>, lo: nat, dst: nat, o: Opened, out: nat)
    requires t.Sized() && t.curTriple + Pairs(cur) <= t.nTriples < TwoTo64() && res != t.a && res != t.b && res != t.c
    requires dst <= lo && lo + cur <= res.Length && o.Sized(|o.xa0|) && out + Pairs(cur) <= |o.xa0|
    modifies res, t`curTriple
    ensures t.curTriple == old(t.curTriple) + Pairs(cur)
    ensures NewSpan(first, cur, Next(cur), res[..], dst, old(res[..]), lo, o, out, t.View(), old(t.curTriple))
    ensures forall p :: 0 <= p < res.Length && !(dst <= p < dst + Next(cur)) ==> res[p] == old(res[p])
  {
    hide TwoTo64, NewAt;
    var j := 0;
    ghost var q := 0;
    while j < cur
      invariant j == 2 * q && q <= Next(cur)
      invariant t.curTriple == old(t.curTriple) + if q <= Pairs(cur) then q else Pairs(cur)
      invariant NewSpan(first, cur, q, res[..], dst, old(res[..]), lo, o, out, t.View(), old(t.curTriple))
      invariant forall p :: 0 <= p < res.Length && !(dst <= p < dst + q) ==> res[p] == old(res[p])
    {
      ghost var now := res[..];
      CombinePair(first, cur, t, res, lo, dst, o, out, j, old(res[..]), old(t.curTriple));
      NewOneMore(first, cur, q, now, res[..], dst, old(res[..]), lo, o, out, t.View(), old(t.curTriple));
      j, q := j + 2, q + 1;
    }
  }

  /** The pair at j, or the bit left over. */
  method CombinePair(first: bool, cur: nat, t: Triples, res: array<bool>, lo: nat, dst: nat, o: Opened, out: nat, j: nat, ghost was: seq<bool>, ghost start: nat)
    requires t.Sized() && start + Pairs(cur) <= t.nTriples < TwoTo64() && res != t.a && res != t.b && res != t.c
    requires dst <= lo && lo + cur <= res.Length == |was| && o.Sized(|o.xa0|) && out + Pairs(cur) <= |o.xa0|
    requires j % 2 == 0 && j < cur && t.curTriple == start + j / 2 && res[lo + j] == was[lo + j]
    modifies res, t`curTriple
    ensures t.curTriple == start + if j / 2 + 1 <= Pairs(cur) then j / 2 + 1 else Pairs(cur)
    ensures dst + Next(cur) <= res.Length && j / 2 < Next(cur) && NewAt(first, cur, res[..], dst, was, lo, o, out, t.View(), start, j / 2)
    ensures forall p :: 0 <= p < res.Length && p != dst + j / 2 ==> res[p] == old(res[p])
  {
    hide TwoTo64, U64;
    if j == cur - 1 {
      res[dst + j / 2] := res[lo + j];
    } else {
      var d := o.xa0[out + j / 2] != o.xa1[out + j / 2];
      var e := o.yb0[out + j / 2] != o.yb1[out + j / 2];
      var bit := CombineBit(first, d, e, t);
      res[dst + j / 2] := bit;
      t.Move(1);
    }
  }

  /** Row i one level up. */
  ghost predicate NewRow(first: bool, cur: nat, now: seq<bool>, was: seq<bool>, o: Opened, s: Shares, t: nat, i: nat) {
    NewSpan(first, cur, Next(cur), now, Row(i, Next(cur)), was, Row(i, cur), o, Row(i, Pairs(cur)), s, t + Row(i, Pairs(cur)))
  }

  ghost predicate NewRows(first: bool, n: nat, cur: nat, now: seq<bool>, was: seq<bool>, o: Opened, s: Shares, t: nat) {
    forall i :: 0 <= i < n ==> NewRow(first, cur, now, was, o, s, t, i)
  }

  lemma NewRowFrame(first: bool, cur: nat, now: seq<bool>, now': seq<bool>, was: seq<bool>, o: Opened, s: Shares, t: nat, i: nat)
    requires NewRow(first, cur, now, was, o, s, t, i) && |now'| == |now|
    requires forall p :: 0 <= p < Row(i, Next(cur)) + Next(cur) && p < |now| ==> now'[p] == now[p]
    ensures NewRow(first, cur, now', was, o, s, t, i)
  {
    hide Row;
    var dst, lo, out, at := Row(i, Next(cur)), Row(i, cur), Row(i, Pairs(cur)), t + Row(i, Pairs(cur));
    forall q | 0 <= q < Next(cur)
      ensures NewAt(first, cur, now', dst, was, lo, o, out, s, at, q)
    {
      assert NewAt(first, cur, now, dst, was, lo, o, out, s, at, q);
    }
  }

  /** A row only depends on its own stretch of the level below. */
  lemma NewSpanSame(first: bool, cur: nat, now: seq<bool>, dst: nat, was: seq<bool>, was': seq<bool>, lo: nat, o: Opened, out: nat, s: Shares, t: nat)
    requires NewSpan(first, cur, Next(cur), now, dst, was, lo, o, out, s, t) && |was'| == |was|
    requires forall p :: lo <= p < lo + cur ==> was'[p] == was[p]
    ensures NewSpan(first, cur, Next(cur), now, dst, was', lo, o, out, s, t)
  {
    forall q | 0 <= q < Next(cur)
      ensures NewAt(first, cur, now, dst, was', lo, o, out, s, t, q)
    {
      assert NewAt(first, cur, now, dst, was, lo, o, out, s, t, q);
    }
  }

  lemma RowOrder(i: nat, cur: nat)
    ensures Row(i, Next(cur)) <= Row(i, cur)
  {
    if cur > 0 {
      RowSum(i, Next(cur), cur - Next(cur));
    }
  }

  /** The second double loop of a level: back to the level's first triple, then
      row by row. */
  method CombineLevel(first: bool, n: nat, cur: nat, t: Triples, res: array<bool>, o: Opened)
    requires t.Sized() && Row(n, Pairs(cur)) <= t.curTriple <= t.nTriples < TwoTo64() && res != t.a && res != t.b && res != t.c
    requires Row(n, cur) <= res.Length && o.Sized(Row(n, Pairs(cur)))
    modifies res, t`curTriple
    ensures t.curTriple == old(t.curTriple)
    ensures NewRows(first, n, cur, res[..], old(res[..]), o, t.View(), old(t.curTriple) - Row(n, Pairs(cur)))
  {
    hide TwoTo64, U64, Row, NewRow, NewSpan;
    RowStart(Pairs(cur));
    RowStart(Next(cur));
    t.Move(0 - Row(n, Pairs(cur)));
    ghost var from := t.curTriple;
    ghost var was := res[..];
    for i := 0 to n
      invariant from == old(t.curTriple) - Row(n, Pairs(cur)) && t.curTriple == from + Row(i, Pairs(cur))
      invariant NewRows(first, i, cur, res[..], was, o, t.View(), from)
      invariant forall p :: Row(i, Next(cur)) <= p < res.Length ==> res[p] == was[p]
    {
      ghost var now := res[..];
      RowFits(i, n, cur);
      RowFits(i, n, Pairs(cur));
      RowFits(i, n, Next(cur));
      RowOrder(i, cur);
      CombineRow(first, cur, t, res, Row(i, cur), Row(i, Next(cur)), o, Row(i, Pairs(cur)));
      NewRowsOneMore(first, i, cur, now, res[..], was, o, t.View(), from);
    }
  }

  lemma NewRowsOneMore(first: bool, i: nat, cur: nat, now: seq<bool>, now': seq<bool>, was: seq<bool>, o: Opened, s: Shares, t: nat)
    requires NewRows(first, i, cur, now, was, o, s, t) && |now| == |was| == |now'|
    requires NewSpan(first, cur, Next(cur), now', Row(i, Next(cur)), now, Row(i, cur), o, Row(i, Pairs(cur)), s, t + Row(i, Pairs(cur)))
    requires forall p :: Row(i, cur) <= p < |now| ==> now[p] == was[p]
    requires forall p :: 0 <= p < |now| && !(Row(i, Next(cur)) <= p < Row(i, Next(cur)) + Next(cur)) ==> now'[p] == now[p]
    ensures NewRows(first, i + 1, cur, now', was, o, s, t)
  {
    hide Row, NewSpan;
    forall k | 0 <= k < i
      ensures NewRow(first, cur, now', was, o, s, t, k)
    {
      RowFits(k, i, Next(cur));
      NewRowFrame(first, cur, now, now', was, o, s, t, k);
    }
    SpanFits(first, cur, now', Row(i, Next(cur)), now, Row(i, cur), o, Row(i, Pairs(cur)), s, t + Row(i, Pairs(cur)));
    NewSpanSame(first, cur, now', Row(i, Next(cur)), now, was, Row(i, cur), o, Row(i, Pairs(cur)), s, t + Row(i, Pairs(cur)));
  }

  lemma SpanFits(first: bool, cur: nat, now: seq<bool>, dst: nat, was: seq<bool>, lo: nat, o: Opened, out: nat, s: Shares, t: nat)
    requires NewSpan(first, cur, Next(cur), now, dst, was, lo, o, out, s, t)
    ensures lo + cur <= |was|
  {
  }

  /** Bit q of a row shares the AND of the pair below it, or the last bit. */
  ghost predicate Halved(cur: nat, was0: seq<bool>, was1: seq<bool>, lo: nat, now0: seq<bool>, now1: seq<bool>, dst: nat, q: nat)
    requires q < Next(cur) && lo + cur <= |was0| && lo + cur <= |was1| && dst + Next(cur) <= |now0| && dst + Next(cur) <= |now1|
  {
    now0[dst + q] != now1[dst + q]
    <==> was0[lo + 2 * q] != was1[lo + 2 * q] && (2 * q + 1 < cur ==> was0[lo + 2 * q + 1] != was1[lo + 2 * q + 1])
  }

  /** The two parties' new bits share the AND of the pair they shared. */
  lemma PairKeepsAnd(cur: nat, q: nat, was0: seq<bool>, was1: seq<bool>, lo: nat, now0: seq<bool>, now1: seq<bool>, dst: nat,
                     o: Opened, out: nat, s0: Shares, s1: Shares, t: nat)
    requires MaskedSpan(Pairs(cur), o.xa0, o.yb0, out, was0, lo, s0, t) && MaskedSpan(Pairs(cur), o.xa1, o.yb1, out, was1, lo, s1, t)
    requires NewSpan(true, cur, Next(cur), now0, dst, was0, lo, o, out, s0, t)
    requires NewSpan(false, cur, Next(cur), now1, dst, was1, lo, o, out, s1, t)
    requires q < Next(cur) && |s0.a| == |s1.a| && forall k :: t <= k < t + Pairs(cur) ==> Beaver(s0, s1, k)
    ensures lo + cur <= |was0| && lo + cur <= |was1| && dst + Next(cur) <= |now0| && dst + Next(cur) <= |now1|
    ensures Halved(cur, was0, was1, lo, now0, now1, dst, q)
  {
    assert NewAt(true, cur, now0, dst, was0, lo, o, out, s0, t, q) && NewAt(false, cur, now1, dst, was1, lo, o, out, s1, t, q);
    if 2 * q != cur - 1 {
      assert MaskedAt(o.xa0, o.yb0, out, was0, lo, s0, t, q) && MaskedAt(o.xa1, o.yb1, out, was1, lo, s1, t, q);
      assert Beaver(s0, s1, t + q);
    }
  }

  /** So does a whole row, odd lengths included. */
  lemma RowKeepsAnd(cur: nat, i: nat, was0: seq<bool>, was1: seq<bool>, now0: seq<bool>, now1: seq<bool>, o: Opened, s0: Shares, s1: Shares, t: nat)
    requires MaskedRow(cur, o.xa0, o.yb0, was0, s0, t, i) && MaskedRow(cur, o.xa1, o.yb1, was1, s1, t, i)
    requires NewRow(true, cur, now0, was0, o, s0, t, i) && NewRow(false, cur, now1, was1, o, s1, t, i)
    requires |was0| == |was1| && |now0| == |now1| && |s0.a| == |s1.a|
    requires forall k :: t + Row(i, Pairs(cur)) <= k < t + Row(i, Pairs(cur)) + Pairs(cur) ==> Beaver(s0, s1, k)
    ensures Row(i, Next(cur)) + Next(cur) <= |now0| && Row(i, cur) + cur <= |was0|
    ensures Conj(now0, now1, Row(i, Next(cur)), Next(cur)) <==> Conj(was0, was1, Row(i, cur), cur)
  {
    hide Row, Beaver;
    var lo, dst := Row(i, cur), Row(i, Next(cur));
    forall q | 0 <= q < Next(cur)
      ensures Halved(cur, was0, was1, lo, now0, now1, dst, q)
    {
      PairKeepsAnd(cur, q, was0, was1, lo, now0, now1, dst, o, Row(i, Pairs(cur)), s0, s1, t + Row(i, Pairs(cur)));
    }
    HalvedConj(cur, was0, was1, lo, now0, now1, dst);
  }

  lemma HalvedConj(cur: nat, was0: seq<bool>, was1: seq<bool>, lo: nat, now0: seq<bool>, now1: seq<bool>, dst: nat)
    requires lo + cur <= |was0| == |was1| && dst + Next(cur) <= |now0| == |now1|
    requires forall q :: 0 <= q < Next(cur) ==> Halved(cur, was0, was1, lo, now0, now1, dst, q)
    ensures Conj(now0, now1, dst, Next(cur)) <==> Conj(was0, was1, lo, cur)
  {
    if Conj(now0, now1, dst, Next(cur)) {
      forall p | lo <= p < lo + cur
        ensures was0[p] != was1[p]
      {
        var q := (p - lo) / 2;
        assert Halved(cur, was0, was1, lo, now0, now1, dst, q);
        assert p == lo + 2 * q || p == lo + 2 * q + 1;
      }
    }
    if Conj(was0, was1, lo, cur) {
      forall p | dst <= p < dst + Next(cur)
        ensures now0[p] != now1[p]
      {
        assert Halved(cur, was0, was1, lo, now0, now1, dst, p - dst);
      }
    }
  }

  /** The whole rows share what they shared one level below. */
  ghost predicate SameAnds(n: nat, was0: seq<bool>, was1: seq<bool>, from: nat, now0: seq<bool>, now1: seq<bool>, to: nat)
    requires |was0| == |was1| && |now0| == |now1| && Row(n, from) <= |was0| && Row(n, to) <= |now0|
  {
    forall i :: 0 <= i < n ==> SameAnd(n, was0, was1, from, now0, now1, to, i)
  }

  ghost predicate SameAnd(n: nat, was0: seq<bool>, was1: seq<bool>, from: nat, now0: seq<bool>, now1: seq<bool>, to: nat, i: nat)
    requires |was0| == |was1| && |now0| == |now1| && Row(n, from) <= |was0| && Row(n, to) <= |now0| && i < n
  {
    RowFits(i, n, from);
    RowFits(i, n, to);
    Conj(now0, now1, Row(i, to), to) <==> Conj(was0, was1, Row(i, from), from)
  }

  /** The parties agree on the next triple, and their shares from there on add
      up to products. */
  ghost predicate Paired(t0: Triples, t1: Triples, count: nat)
    reads t0, t1, t0.a, t0.b, t0.c, t1.a, t1.b, t1.c
  {
    && t0.Sized() && t1.Sized() && t0.nTriples == t1.nTriples < TwoTo64()
    && t0.curTriple == t1.curTriple && t0.curTriple + count <= t0.nTriples
    && forall k :: t0.curTriple <= k < t0.curTriple + count ==> Beaver(t0.View(), t1.View(), k)
  }

  /** The working arrays are no triples. */
  ghost predicate Apart(t: Triples, res: array<bool>) {
    res != t.a && res != t.b && res != t.c
  }

  /** One level: both parties mask, exchange and combine. */
  method EqualLevel(n: nat, cur: nat, t0: Triples, res0: array<bool>, t1: Triples, res1: array<bool>)
    requires Paired(t0, t1, Row(n, Pairs(cur))) && t0 != t1 && res0 != res1 && res0.Length == res1.Length >= Row(n, cur)
    requires Apart(t0, res0) && Apart(t1, res0) && Apart(t0, res1) && Apart(t1, res1) && Row(n, Next(cur)) <= Row(n, cur)
    modifies t0`curTriple, t1`curTriple, res0, res1
    ensures t0.curTriple == t1.curTriple == old(t0.curTriple) + Row(n, Pairs(cur))
    ensures SameAnds(n, old(res0[..]), old(res1[..]), cur, res0[..], res1[..], Next(cur))
  {
    hide TwoTo64, Row, MaskedRows, NewRows, Beaver;
    ghost var was0, was1, t := res0[..], res1[..], t0.curTriple;
    var xa0, yb0 := MaskLevel(n, cur, t0, res0);
    var xa1, yb1 := MaskLevel(n, cur, t1, res1);
    var o := Opened(xa0[..], yb0[..], xa1[..], yb1[..]);
    CombineLevel(true, n, cur, t0, res0, o);
    CombineLevel(false, n, cur, t1, res1, o);
    LevelKeepsAnds(n, cur, was0, was1, res0[..], res1[..], o, t0.View(), t1.View(), t);
  }

  lemma LevelKeepsAnds(n: nat, cur: nat, was0: seq<bool>, was1: seq<bool>, now0: seq<bool>, now1: seq<bool>, o: Opened, s0: Shares, s1: Shares, t: nat)
    requires |was0| == |was1| == |now0| == |now1| && Row(n, cur) <= |was0| && Row(n, Next(cur)) <= |now0| && |s0.a| == |s1.a|
    requires s0.Sized(|s0.a|) && s1.Sized(|s0.a|) && t + Row(n, Pairs(cur)) <= |s0.a|
    requires MaskedRows(n, cur, o.xa0, o.yb0, was0, s0, t) && MaskedRows(n, cur, o.xa1, o.yb1, was1, s1, t)
    requires NewRows(true, n, cur, now0, was0, o, s0, t) && NewRows(false, n, cur, now1, was1, o, s1, t)
    requires forall k :: t <= k < t + Row(n, Pairs(cur)) ==> Beaver(s0, s1, k)
    ensures SameAnds(n, was0, was1, cur, now0, now1, Next(cur))
  {
    hide Row, Beaver, Conj, MaskedRow, NewRow;
    forall i | 0 <= i < n
      ensures SameAnd(n, was0, was1, cur, now0, now1, Next(cur), i)
    {
      RowFits(i, n, Pairs(cur));
      RowFits(i, n, cur);
      RowFits(i, n, Next(cur));
      RowKeepsAnd(cur, i, was0, was1, now0, now1, o, s0, s1, t);
    }
  }

  lemma SameAndsTrans(n: nat, a0: seq<bool>, a1: seq<bool>, from: nat, b0: seq<bool>, b1: seq<bool>, mid: nat, c0: seq<bool>, c1: seq<bool>, to: nat)
    requires |a0| == |a1| && |b0| == |b1| && |c0| == |c1| && Row(n, from) <= |a0| && Row(n, mid) <= |b0| && Row(n, to) <= |c0|
    requires SameAnds(n, a0, a1, from, b0, b1, mid) && SameAnds(n, b0, b1, mid, c0, c1, to)
    ensures SameAnds(n, a0, a1, from, c0, c1, to)
  {
    hide Row, Conj;
    forall i | 0 <= i < n
      ensures SameAnd(n, a0, a1, from, c0, c1, to, i)
    {
      assert SameAnd(n, a0, a1, from, b0, b1, mid, i) && SameAnd(n, b0, b1, mid, c0, c1, to, i);
    }
  }

  lemma SameAndsRefl(n: nat, a0: seq<bool>, a1: seq<bool>, len: nat)
    requires |a0| == |a1| && Row(n, len) <= |a0|
    ensures SameAnds(n, a0, a1, len, a0, a1, len)
  {
    hide Row, Conj;
    forall i | 0 <= i < n
      ensures SameAnd(n, a0, a1, len, a0, a1, len, i)
    {
    }
  }

  /** Both parties' runs over all levels: the results share the ANDs of the
      shared inputs, and n * (length - 1) triples are used up. */
  method Equal(length: nat, t0: Triples, in0: seq<bool>, t1: Triples, in1: seq<bool>) returns (out0: seq<bool>, out1: seq<bool>)
    requires length >= 1 && |in0| == |in1| && t0 != t1
    requires Paired(t0, t1, Row(|in0| / length, length - 1))
    modifies t0`curTriple, t1`curTriple
    ensures |out0| == |out1| == |in0| / length && Row(|out0|, length) <= |in0| && Row(|out0|, 1) == |out0|
    ensures t0.curTriple == t1.curTriple == old(t0.curTriple) + Row(|in0| / length, length - 1)
    ensures SameAnds(|out0|, in0, in1, length, out0, out1, 1)
  {
    hide Row, Paired, SameAnds;
    RowsFit(|in0|, length);
    RowOne(|in0| / length);
    out0, out1 := EqualRows(|in0| / length, length, t0, in0, t1, in1);
  }

  lemma RowsFit(size: nat, length: nat)
    requires length >= 1
    ensures Row(size / length, length) <= size
  {
    RowIsProduct(size / length, length);
    DivMod(size, length);
  }

  method EqualRows(n: nat, length: nat, t0: Triples, in0: seq<bool>, t1: Triples, in1: seq<bool>) returns (out0: seq<bool>, out1: seq<bool>)
    requires length >= 1 && |in0| == |in1| && t0 != t1
    requires Paired(t0, t1, Row(n, length - 1)) && Row(n, length) <= |in0|
    modifies t0`curTriple, t1`curTriple
    ensures |out0| == |out1| == n && Row(n, 1) == n
    ensures t0.curTriple == t1.curTriple == old(t0.curTriple) + Row(n, length - 1)
    ensures SameAnds(n, in0, in1, length, out0, out1, 1)
  {
    hide Row, Paired, SameAnds, Log2Ceil, Next;
    LevelsLeft(length);
    var res0 := new bool[|in0|](i requires 0 <= i < |in0| => in0[i]);
    var res1 := new bool[|in1|](i requires 0 <= i < |in1| => in1[i]);
    assert res0[..] == in0 && res1[..] == in1;
    SameAndsRefl(n, in0, in1, length);
    var lengthLevel := Log2Ceil(length);
    var cur := length;
    RowSame(n, length);
    for k := 0 to lengthLevel
      invariant 1 <= cur <= length && Log2Ceil(cur) == lengthLevel - k && Row(n, cur) <= |in0|
      invariant Paired(t0, t1, Row(n, cur - 1)) && t0.curTriple + Row(n, cur - 1) == old(t0.curTriple) + Row(n, length - 1)
      invariant SameAnds(n, in0, in1, length, res0[..], res1[..], cur)
    {
      LevelsLeft(cur);
      EqualNext(n, length, cur, t0, in0, res0, t1, in1, res1);
      cur := Next(cur);
    }
    LevelsLeft(cur);
    RowOne(n);
    PairedHas(t0, t1, Row(n, cur - 1));
    out0, out1 := res0[..n], res1[..n];
    TruncatedAnds(n, in0, in1, length, res0[..], res1[..]);
  }

  lemma LevelsLeft(cur: nat)
    requires cur >= 1
    ensures Log2Ceil(cur) == 0 <==> cur == 1
    ensures cur > 1 ==> 1 <= Next(cur) < cur && Log2Ceil(cur) == Log2Ceil(Next(cur)) + 1
  {
  }

  lemma PairedHas(t0: Triples, t1: Triples, count: nat)
    requires Paired(t0, t1, count)
    ensures t0.curTriple == t1.curTriple
  {
  }

  /** One level of the runs. */
  method EqualNext(n: nat, length: nat, cur: nat, t0: Triples, ghost in0: seq<bool>, res0: array<bool>, t1: Triples, ghost in1: seq<bool>, res1: array<bool>)
    requires 1 < cur <= length && |in0| == |in1| == res0.Length == res1.Length && res0 != res1 && t0 != t1
    requires Row(n, length) <= |in0| && Row(n, cur) <= |in0| && Paired(t0, t1, Row(n, cur - 1))
    requires SameAnds(n, in0, in1, length, res0[..], res1[..], cur)
    requires Apart(t0, res0) && Apart(t1, res0) && Apart(t0, res1) && Apart(t1, res1)
    modifies t0`curTriple, t1`curTriple, res0, res1
    ensures Row(n, Next(cur)) <= |in0| && Paired(t0, t1, Row(n, Next(cur) - 1))
    ensures t0.curTriple + Row(n, Next(cur) - 1) == old(t0.curTriple) + Row(n, cur - 1)
    ensures SameAnds(n, in0, in1, length, res0[..], res1[..], Next(cur))
  {
    hide TwoTo64, Row, Beaver, Conj, Exp2, SameAnds;
    ghost var was0, was1 := res0[..], res1[..];
    LevelBudget(n, cur);
    RowOrder(n, cur);
    EqualLevel(n, cur, t0, res0, t1, res1);
    SameAndsTrans(n, in0, in1, length, was0, was1, cur, res0[..], res1[..], Next(cur));
  }

  lemma RowSame(n: nat, len: nat)
    requires len >= 1
    ensures Row(n, len - 1) <= Row(n, len)
  {
    RowSum(n, len - 1, 1);
  }

  /** A level uses the triples of its pairs and leaves those of the levels above. */
  lemma LevelBudget(n: nat, cur: nat)
    requires cur >= 1
    ensures Row(n, cur - 1) == Row(n, Pairs(cur)) + Row(n, Next(cur) - 1)
  {
    RowSum(n, Pairs(cur), Next(cur) - 1);
  }

  lemma TruncatedAnds(n: nat, a0: seq<bool>, a1: seq<bool>, from: nat, b0: seq<bool>, b1: seq<bool>)
    requires |a0| == |a1| && |b0| == |b1| && Row(n, from) <= |a0| && Row(n, 1) == n <= |b0|
    requires SameAnds(n, a0, a1, from, b0, b1, 1)
    ensures SameAnds(n, a0, a1, from, b0[..n], b1[..n], 1)
  {
    forall i | 0 <= i < n
      ensures SameAnd(n, a0, a1, from, b0[..n], b1[..n], 1, i)
    {
      assert SameAnd(n, a0, a1, from, b0, b1, 1, i);
      RowOne(i);
    }
  }

  /** The bits of the elements, one after the other. */
  function Flatten(eles: seq<seq<bool>>): (bits: seq<bool>) {
    if eles == [] then [] else Flatten(eles[..|eles| - 1]) + eles[|eles| - 1]
  }

  ghost predicate OfLength(eles: seq<seq<bool>>, len: nat) {
    forall i :: 0 <= i < |eles| ==> |eles[i]| == len
  }

  lemma {:induction false} FlattenAt(eles: seq<seq<bool>>, len: nat, i: nat)
    requires OfLength(eles, len) && i < |eles|
    ensures |Flatten(eles)| == Row(|eles|, len) && Row(i, len) + len <= Row(|eles|, len)
    ensures Flatten(eles)[Row(i, len)..Row(i, len) + len] == eles[i]
  {
    hide Row;
    var last := |eles| - 1;
    RowFits(i, |eles|, len);
    RowFits(last, |eles|, len);
    FlattenSize(eles[..last], len);
    if i < last {
      FlattenAt(eles[..last], len, i);
    }
  }

  lemma {:induction false} FlattenSize(eles: seq<seq<bool>>, len: nat)
    requires OfLength(eles, len)
    ensures |Flatten(eles)| == Row(|eles|, len)
  {
    hide Row;
    RowStart(len);
    if eles != [] {
      FlattenSize(eles[..|eles| - 1], len);
      RowFits(|eles| - 1, |eles|, len);
    }
  }

  function Negate(bits: seq<bool>): (r: seq<bool>)
    ensures |r| == |bits| && forall i :: 0 <= i < |bits| ==> r[i] == !bits[i]
  {
    seq(|bits|, i requires 0 <= i < |bits| => !bits[i])
  }

  /** One party's outputs of the transfers its triples come from. */
  datatype OtOutputs = OtOutputs(sent: seq<(bool, bool)>, choices: seq<bool>, received: seq<bool>)

  /** Transfers of that many bits in both directions. */
  ghost predicate Exchanged(x0: OtOutputs, x1: OtOutputs, count: nat) {
    |x0.sent| == |x1.sent| == count && Transferred(x0.sent, x1.choices, x1.received) && Transferred(x1.sent, x0.choices, x0.received)
  }

  /** Both parties' triples, from transfers in both directions. */
  method GenTriples(count: nat, x0: OtOutputs, x1: OtOutputs) returns (t0: Triples, t1: Triples)
    requires count < TwoTo64() && Exchanged(x0, x1, count)
    ensures fresh(t0) && fresh(t1) && t0 != t1 && Paired(t0, t1, count)
  {
    hide TwoTo64, Beaver;
    t0 := new Triples(count);
    t1 := new Triples(count);
    t0.Gen(x0.sent, x0.choices, x0.received);
    t1.Gen(x1.sent, x1.choices, x1.received);
    TransfersGiveTriples(t0.View(), t1.View(), x0.sent, x0.choices, x0.received, x1.sent, x1.choices, x1.received);
  }

  /** Batched equality: the receiver's and the sender's result share, element by
      element, whether the two values are equal. */
  method BatchPeqt(bitLength: nat, eles: seq<seq<bool>>, datas: seq<seq<bool>>, x0: OtOutputs, x1: OtOutputs) returns (eqRes0: seq<bool>, eqRes1: seq<bool>)
    requires bitLength >= 1 && |eles| == |datas| && OfLength(eles, bitLength) && OfLength(datas, bitLength)
    requires |eles| * bitLength < TwoTo64() && Exchanged(x0, x1, |eles| * bitLength)
    ensures |eqRes0| == |eqRes1| == |eles|
    ensures forall i :: 0 <= i < |eles| ==> (eqRes0[i] != eqRes1[i] <==> eles[i] == datas[i])
  {
    hide TwoTo64, Row, Beaver, Conj, SameAnds, OfLength, Flatten;
    var inputBits0 := Flatten(eles);
    var inputBits1 := Negate(Flatten(datas));
    FlattenSize(eles, bitLength);
    FlattenSize(datas, bitLength);
    RowCount(|eles|, bitLength);
    RowOne(|eles|);
    var t0, t1 := GenTriples(|eles| * bitLength, x0, x1);
    eqRes0, eqRes1 := Equal(bitLength, t0, inputBits0, t1, inputBits1);
    forall i | 0 <= i < |eles|
      ensures eqRes0[i] != eqRes1[i] <==> eles[i] == datas[i]
    {
      EqualAt(bitLength, eles, datas, eqRes0, eqRes1, i);
    }
  }

  lemma ProductOverFactor(n: nat, len: nat)
    requires len >= 1
    ensures n * len / len == n
  {
    DivModUnique(n * len, n, len, 0);
  }

  lemma RowCount(n: nat, len: nat)
    requires len >= 1
    ensures Row(n, len) / len == n && Row(n, len) == n * len && Row(n, len - 1) <= n * len
  {
    hide Row;
    RowIsProduct(n, len);
    RowSame(n, len);
    ProductOverFactor(n, len);
  }

  lemma EqualAt(len: nat, eles: seq<seq<bool>>, datas: seq<seq<bool>>, eq0: seq<bool>, eq1: seq<bool>, i: nat)
    requires i < |eles| == |datas| == |eq0| == |eq1| && OfLength(eles, len) && OfLength(datas, len)
    requires |Flatten(eles)| == |Flatten(datas)| == Row(|eles|, len) && Row(|eles|, 1) == |eles|
    requires SameAnds(|eles|, Flatten(eles), Negate(Flatten(datas)), len, eq0, eq1, 1)
    ensures eq0[i] != eq1[i] <==> eles[i] == datas[i]
  {
    hide Row, Flatten, Conj;
    var a, d, lo := Flatten(eles), Flatten(datas), Row(i, len);
    assert SameAnd(|eles|, a, Negate(d), len, eq0, eq1, 1, i);
    RowOne(i);
    FlattenAt(eles, len, i);
    FlattenAt(datas, len, i);
    ConjOne(eq0, eq1, i);
    ConjNegated(a, d, lo, len);
  }

  lemma ConjOne(eq0: seq<bool>, eq1: seq<bool>, i: nat)
    requires i < |eq0| == |eq1|
    ensures Conj(eq0, eq1, i, 1) <==> eq0[i] != eq1[i]
  {
  }

  /** No bit differs from the negated bits exactly when the stretches are equal. */
  lemma ConjNegated(a: seq<bool>, d: seq<bool>, lo: nat, len: nat)
    requires lo + len <= |a| == |d|
    ensures Conj(a, Negate(d), lo, len) <==> a[lo..lo + len] == d[lo..lo + len]
  {
    var s, t := a[lo..lo + len], d[lo..lo + len];
    if Conj(a, Negate(d), lo, len) {
      forall j | 0 <= j < len
        ensures s[j] == t[j]
      {
        assert a[lo + j] != Negate(d)[lo + j];
      }
    }
    if s == t {
      forall p | lo <= p < lo + len
        ensures a[p] != Negate(d)[p]
      {
        assert s[p - lo] == t[p - lo];
      }
    }
  }
}
