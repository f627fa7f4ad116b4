/** The last step: the sender's identifiers, transferred by the shared equality bits. */
module IdTransfer {
  import opened BinaryNumbers
  import opened EqualityTree
  import opened Fields

  datatype Bin = Empty | Holds(idx: nat)

  /** How many random values the sender draws for a bin. */
  function Draws(b: Bin): nat { if b.Empty? then 2 else 1 }

  function DrawsBefore(bins: seq<Bin>, i: nat): (n: nat)
    requires i <= |bins|
    ensures n == i + EmptyBefore(bins, i)
  {
    if i == 0 then 0
    else
      EmptyStep(bins, i - 1);
      DrawsBefore(bins, i - 1) + Draws(bins[i - 1])
  }

  ghost function EmptyBefore(bins: seq<Bin>, i: nat): nat
    requires i <= |bins|
  {
    |set k | 0 <= k < |bins| && bins[k].Empty? && k < i|
  }

  lemma EmptyStep(bins: seq<Bin>, i: nat)
    requires i < |bins|
    ensures EmptyBefore(bins, 0) == 0
    ensures EmptyBefore(bins, i + 1) == EmptyBefore(bins, i) + if bins[i].Empty? then 1 else 0
  {
    assert (set k | 0 <= k < |bins| && bins[k].Empty? && k < 0) == {};
    var was := set k | 0 <= k < |bins| && bins[k].Empty? && k < i;
    assert (set k | 0 <= k < |bins| && bins[k].Empty? && k < i + 1) == if bins[i].Empty? then was + {i} else was;
  }

  lemma {:induction false} DrawsFit(bins: seq<Bin>, i: nat, n: nat)
    requires i < n <= |bins|
    ensures DrawsBefore(bins, i) + Draws(bins[i]) <= DrawsBefore(bins, n)
  {
    if i < n - 1 {
      DrawsFit(bins, i, n - 1);
    }
  }

  /** The sender's state: bins, identifiers, equality bits and random values. */
  datatype Offer<T> = Offer(bins: seq<Bin>, ids: seq<T>, ee: seq<bool>, draws: seq<T>)
  {
    ghost predicate Valid() {
      && |ee| == |bins| && DrawsBefore(bins, |bins|) <= |draws|
      && forall i :: 0 <= i < |bins| && bins[i].Holds? ==> bins[i].idx < |ids|
    }

    /** The random value at a position of bin i. */
    function Draw(i: nat, k: nat): T
      requires Valid() && i < |bins| && k < Draws(bins[i])
    {
      DrawsFit(bins, i, |bins|);
      draws[DrawsBefore(bins, i) + k]
    }

    /** What is sent under choice bit c. */
    function Message(i: nat, c: bool): T
      requires Valid() && i < |bins|
    {
      if bins[i].Empty? then Draw(i, if c then 1 else 0)
      else if ee[i] != c then ids[bins[i].idx]
      else Draw(i, 0)
    }
  }

  /** The messages sent for bin i: two random values for an empty bin; else the
      identifier under the choice that the sender's equality bit negates, and a
      random value under the other. */
  ghost predicate SentFor<T(!new)>(f: Field<T>, s: Offer<T>, ot: seq<(T, T)>, half0: seq<T>, half1: seq<T>, i: nat)
    requires i < |s.bins| == |s.ee| == |ot| == |half0| == |half1|
  {
    var at := i + EmptyBefore(s.bins, i);
    match s.bins[i]
    case Empty => at + 1 < |s.draws| && half0[i] == f.Add(s.draws[at], ot[i].0) && half1[i] == f.Add(s.draws[at + 1], ot[i].1)
    case Holds(idx) =>
      && at < |s.draws| && idx < |s.ids|
      && half0[i] == f.Add(if s.ee[i] then s.ids[idx] else s.draws[at], ot[i].0)
      && half1[i] == f.Add(if s.ee[i] then s.draws[at] else s.ids[idx], ot[i].1)
  }

  lemma MessagesSent<T(!new)>(f: Field<T>, s: Offer<T>, ot: seq<(T, T)>, half0: seq<T>, half1: seq<T>, i: nat)
    requires s.Valid() && |ot| == |half0| == |half1| == |s.bins| && i < |s.bins|
    requires half0[i] == f.Add(s.Message(i, false), ot[i].0) && half1[i] == f.Add(s.Message(i, true), ot[i].1)
    ensures SentFor(f, s, ot, half0, half1, i)
  {
    DrawsFit(s.bins, i, |s.bins|);
  }

  /** The sender's loop: every message is masked with one side of a random OT. */
  method PlaceMessages<T(!new)>(f: Field<T>, s: Offer<T>, ot: seq<(T, T)>) returns (half0: seq<T>, half1: seq<T>)
    requires s.Valid() && |ot| == |s.bins|
    ensures |half0| == |half1| == |s.bins|
    ensures forall i :: 0 <= i < |s.bins| ==> half0[i] == f.Add(s.Message(i, false), ot[i].0)
    ensures forall i :: 0 <= i < |s.bins| ==> half1[i] == f.Add(s.Message(i, true), ot[i].1)
    ensures forall i :: 0 <= i < |s.bins| ==> SentFor(f, s, ot, half0, half1, i)
  {
    hide SentFor, EmptyBefore;
    half0, half1 := [], [];
    var next := 0;
    for i := 0 to |s.bins|
      invariant |half0| == |half1| == i && next == DrawsBefore(s.bins, i)
      invariant forall k :: 0 <= k < i ==> half0[k] == f.Add(s.Message(k, false), ot[k].0)
      invariant forall k :: 0 <= k < i ==> half1[k] == f.Add(s.Message(k, true), ot[k].1)
    {
      DrawsFit(s.bins, i, |s.bins|);
      var m0, m1;
      if s.bins[i].Empty? {
        m0, m1 := s.draws[next], s.draws[next + 1];
        next := next + 2;
      } else if s.ee[i] {
        m0, m1 := s.ids[s.bins[i].idx], s.draws[next];
        next := next + 1;
      } else {
        m0, m1 := s.draws[next], s.ids[s.bins[i].idx];
        next := next + 1;
      }
      assert m0 == s.Message(i, false) && m1 == s.Message(i, true);
      half0, half1 := half0 + [f.Add(m0, ot[i].0)], half1 + [f.Add(m1, ot[i].1)];
    }
    forall i | 0 <= i < |s.bins|
      ensures SentFor(f, s, ot, half0, half1, i)
    {
      MessagesSent(f, s, ot, half0, half1, i);
    }
  }

  /** The receiver unmasks the message its own bit selects. */
  method SelectMessages<T(!new)>(f: Field<T>, ee: seq<bool>, ot: seq<T>, mask0: seq<T>, mask1: seq<T>) returns (msgs: seq<T>)
    requires |ee| == |ot| == |mask0| == |mask1|
    ensures |msgs| == |ee| && forall i :: 0 <= i < |ee| ==> msgs[i] == f.Add(ot[i], if ee[i] then mask1[i] else mask0[i])
  {
    msgs := [];
    for i := 0 to |ee|
      invariant |msgs| == i && forall k :: 0 <= k < i ==> msgs[k] == f.Add(ot[k], if ee[k] then mask1[k] else mask0[k])
    {
      msgs := msgs + [if ee[i] then f.Add(ot[i], mask1[i]) else f.Add(ot[i], mask0[i])];
    }
  }

  /** Both sides together: the receiver learns the identifier of a bin exactly
      when the two equality bits share a one, and else one of the random values. */
  method Transfer<T(!new)>(f: Field<T>, s: Offer<T>, sent: seq<(T, T)>, ee: seq<bool>, received: seq<T>) returns (msgs: seq<T>)
    requires f.XorGroup() && s.Valid() && |s.bins| == |sent| == |ee| == |received|
    requires forall i :: 0 <= i < |sent| ==> received[i] == if ee[i] then sent[i].1 else sent[i].0
    ensures |msgs| == |s.bins|
    ensures forall i :: 0 <= i < |msgs| && s.bins[i].Holds? && s.ee[i] != ee[i] ==> msgs[i] == s.ids[s.bins[i].idx]
    ensures forall i :: 0 <= i < |msgs| && s.bins[i].Holds? && s.ee[i] == ee[i] ==> msgs[i] == s.Draw(i, 0)
    ensures forall i :: 0 <= i < |msgs| && s.bins[i].Empty? ==> msgs[i] == s.Draw(i, if ee[i] then 1 else 0)
  {
    hide Field.XorGroup;
    var half0, half1 := PlaceMessages(f, s, sent);
    msgs := SelectMessages(f, ee, received, half0, half1);
    forall i | 0 <= i < |msgs|
      ensures msgs[i] == s.Message(i, ee[i])
    {
      Unmask(f, received[i], s.Message(i, ee[i]));
    }
  }

  lemma Unmask<T(!new)>(f: Field<T>, m: T, x: T)
    requires f.XorGroup()
    ensures f.Add(m, f.Add(x, m)) == x
  {
    f.Comm(x, m);
    f.XorMove(m, x);
  }

  /** What an ideal transfer hands to the chooser. */
  function Chosen<T>(sent: seq<(T, T)>, choices: seq<bool>): (r: seq<T>)
    requires |sent| == |choices|
    ensures |r| == |sent| && forall i :: 0 <= i < |r| ==> r[i] == if choices[i] then sent[i].1 else sent[i].0
  {
    seq(|sent|, i requires 0 <= i < |sent| => if choices[i] then sent[i].1 else sent[i].0)
  }

  /** One of the random values drawn for bin i. */
  ghost predicate DrawnFor<T>(bins: seq<Bin>, draws: seq<T>, i: nat, x: T)
    requires i < |bins|
  {
    exists k :: DrawsBefore(bins, i) <= k < DrawsBefore(bins, i) + Draws(bins[i]) && k < |draws| && x == draws[k]
  }

  /** Equality test and transfer together: from a filled bin the receiver gets the
      sender's identifier exactly if the two values of the bin are equal; all
      else it gets is random. */
  method MatchBins<T(!new)>(f: Field<T>, bitLength: nat, eles: seq<seq<bool>>, datas: seq<seq<bool>>, x0: OtOutputs, x1: OtOutputs,
                            bins: seq<Bin>, ids: seq<T>, draws: seq<T>, sent: seq<(T, T)>) returns (msgs: seq<T>)
    requires f.XorGroup() && bitLength >= 1 && |eles| == |datas| == |bins| == |sent| && OfLength(eles, bitLength) && OfLength(datas, bitLength)
    requires |eles| * bitLength < TwoTo64() && Exchanged(x0, x1, |eles| * bitLength)
    requires DrawsBefore(bins, |bins|) <= |draws| && forall i :: 0 <= i < |bins| && bins[i].Holds? ==> bins[i].idx < |ids|
    ensures |msgs| == |bins|
    ensures forall i :: 0 <= i < |bins| ==>
      if bins[i].Holds? && eles[i] == datas[i] then msgs[i] == ids[bins[i].idx] else DrawnFor(bins, draws, i, msgs[i])
  {
    hide Field.XorGroup, TwoTo64, OfLength, Exchanged, DrawsBefore, SentFor;
    var ee0, ee1 := BatchPeqt(bitLength, eles, datas, x0, x1);
    var s := Offer(bins, ids, ee1, draws);
    msgs := Transfer(f, s, sent, ee0, Chosen(sent, ee0));
    forall i | 0 <= i < |bins|
      ensures if bins[i].Holds? && eles[i] == datas[i] then msgs[i] == ids[bins[i].idx] else DrawnFor(bins, draws, i, msgs[i])
    {
      DrawsFit(bins, i, |bins|);
      assert eles[i] == datas[i] <==> ee0[i] != ee1[i];
      ghost var k := DrawsBefore(bins, i) + if bins[i].Empty? && ee0[i] then 1 else 0;
      assert !(bins[i].Holds? && eles[i] == datas[i]) ==> msgs[i] == draws[k];
    }
  }
}
