/** Linear equations with 0/1 coefficients over the columns of a codeword. */
module Equations {
  import opened Fields

  /** coef says which columns of the codeword are added up to make val. */
  datatype Equation<T> = Equation(coef: seq<bool>, val: T)

  /** The sum of p[c] over the columns c in [lo, hi) that coef selects. */
  function Sum<T(!new)>(f: Field<T>, coef: seq<bool>, p: seq<T>, lo: nat, hi: nat): T
    requires |coef| == |p| && lo <= hi <= |p|
    decreases hi
  {
    if lo == hi then f.zero
    else if coef[hi - 1] then f.Add(Sum(f, coef, p, lo, hi - 1), p[hi - 1])
    else Sum(f, coef, p, lo, hi - 1)
  }

  ghost predicate Holds<T(!new)>(f: Field<T>, e: Equation<T>, p: seq<T>)
    requires |e.coef| == |p|
  {
    Sum(f, e.coef, p, 0, |p|) == e.val
  }

  /** p satisfies every equation of the system. */
  ghost predicate Solves<T(!new)>(f: Field<T>, es: seq<Equation<T>>, p: seq<T>) {
    forall i :: 0 <= i < |es| ==> |es[i].coef| == |p| && Holds(f, es[i], p)
  }

  function XorBits(a: seq<bool>, b: seq<bool>): (r: seq<bool>)
    requires |a| == |b|
    ensures |r| == |a|
    ensures forall i :: 0 <= i < |a| ==> r[i] == (a[i] != b[i])
  {
    seq(|a|, i requires 0 <= i < |a| => a[i] != b[i])
  }

  function AddEquations<T(!new)>(f: Field<T>, a: Equation<T>, b: Equation<T>): (r: Equation<T>)
    requires |a.coef| == |b.coef|
  {
    Equation(XorBits(a.coef, b.coef), f.Add(a.val, b.val))
  }

  lemma {:induction false} SumSplit<T(!new)>(f: Field<T>, coef: seq<bool>, p: seq<T>, lo: nat, mid: nat, hi: nat)
    requires f.Group() && |coef| == |p| && lo <= mid <= hi <= |p|
    ensures Sum(f, coef, p, lo, hi) == f.Add(Sum(f, coef, p, lo, mid), Sum(f, coef, p, mid, hi))
  {
    f.Zero(Sum(f, coef, p, lo, mid));
    if mid < hi {
      SumSplit(f, coef, p, lo, mid, hi - 1);
      f.Assoc(Sum(f, coef, p, lo, mid), Sum(f, coef, p, mid, hi - 1), p[hi - 1]);
    }
  }

  /** The sum over one column. */
  lemma SumOne<T(!new)>(f: Field<T>, coef: seq<bool>, p: seq<T>, c: nat)
    requires f.Group() && |coef| == |p| && c < |p|
    ensures Sum(f, coef, p, c, c + 1) == if coef[c] then p[c] else f.zero
  {
    f.Zero(p[c]);
  }

  lemma {:induction false} SumNone<T(!new)>(f: Field<T>, coef: seq<bool>, p: seq<T>, lo: nat, hi: nat)
    requires f.Group() && |coef| == |p| && lo <= hi <= |p|
    requires forall c :: lo <= c < hi ==> !coef[c]
    ensures Sum(f, coef, p, lo, hi) == f.zero
  {
    if lo < hi {
      SumNone(f, coef, p, lo, hi - 1);
    }
  }

  lemma {:induction false} SumXor<T(!new)>(f: Field<T>, a: seq<bool>, b: seq<bool>, p: seq<T>, lo: nat, hi: nat)
    requires f.XorGroup() && |a| == |b| == |p| && lo <= hi <= |p|
    ensures Sum(f, XorBits(a, b), p, lo, hi) == f.Add(Sum(f, a, p, lo, hi), Sum(f, b, p, lo, hi))
  {
    f.Zero(f.zero);
    if lo < hi {
      SumXor(f, a, b, p, lo, hi - 1);
      var sa, sb, x := Sum(f, a, p, lo, hi - 1), Sum(f, b, p, lo, hi - 1), p[hi - 1];
      f.Shuffle(sa, x, sb, x);
      f.XorMove(x, x);
      f.Zero(f.Add(sa, sb));
      f.SwapRight(sa, x, sb);
      f.Assoc(sa, sb, x);
    }
  }

  /** Only the columns in the range matter. */
  lemma {:induction false} SumSame<T(!new)>(f: Field<T>, a: seq<bool>, p: seq<T>, b: seq<bool>, q: seq<T>, lo: nat, hi: nat)
    requires |a| == |p| && |b| == |q| && lo <= hi <= |p| && hi <= |q|
    requires forall c :: lo <= c < hi ==> a[c] == b[c] && (a[c] ==> p[c] == q[c])
    ensures Sum(f, a, p, lo, hi) == Sum(f, b, q, lo, hi)
  {
    if lo < hi {
      SumSame(f, a, p, b, q, lo, hi - 1);
    }
  }

  /** Adding an equation that already holds changes nothing: the row operation
      of the elimination keeps the solution set. */
  lemma RowOperation<T(!new)>(f: Field<T>, a: Equation<T>, b: Equation<T>, p: seq<T>)
    requires f.XorGroup() && |a.coef| == |b.coef| == |p|
    requires Holds(f, b, p)
    ensures Holds(f, AddEquations(f, a, b), p) <==> Holds(f, a, p)
  {
    SumXor(f, a.coef, b.coef, p, 0, |p|);
    var s := Sum(f, a.coef, p, 0, |p|);
    if f.Add(s, b.val) == f.Add(a.val, b.val) {
      f.Comm(s, b.val);
      f.Comm(a.val, b.val);
      f.CancelLeft(b.val, s, a.val);
    }
  }

  /** An equation without columns holds exactly when its value is zero. */
  lemma EmptyEquation<T(!new)>(f: Field<T>, e: Equation<T>, p: seq<T>)
    requires f.Group() && |e.coef| == |p| && (forall c :: 0 <= c < |p| ==> !e.coef[c])
    ensures Holds(f, e, p) <==> e.val == f.zero
  {
    SumNone(f, e.coef, p, 0, |p|);
  }
}
