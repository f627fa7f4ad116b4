/** Shared multiplication triples of bits, and their computation from oblivious
    transfers. */
module BeaverTriples {
  import opened BinaryNumbers

  const OT_STEP: nat := 0x100_0000

  /** One party's shares of the triples, and the position of the next one. */
  class Triples {
    const nTriples: nat
    const a: array<bool>
    const b: array<bool>
    const c: array<bool>
    var curTriple: nat

    constructor (n: nat)
      ensures nTriples == n && Sized() && curTriple == 0
      ensures fresh(a) && fresh(b) && fresh(c)
    {
      nTriples := n;
      a := new bool[n](_ => false);
      b := new bool[n](_ => false);
      c := new bool[n](_ => false);
      curTriple := 0;
    }

    predicate Sized() {
      a.Length == b.Length == c.Length == nTriples && a != b && b != c && a != c
    }

    function CurA(): bool
      requires curTriple < a.Length
      reads this, a
    {
      a[curTriple]
    }

    function CurB(): bool
      requires curTriple < b.Length
      reads this, b
    {
      b[curTriple]
    }

    function CurC(): bool
      requires curTriple < c.Length
      reads this, c
    {
      c[curTriple]
    }

    /** Moves the u64 position by a signed offset. */
    method Move(offset: int)
      modifies this`curTriple
      ensures curTriple == U64(old(curTriple) + offset)
    {
      curTriple := U64(curTriple + offset);
    }

    /** The shares from this party's OT outputs: the message pairs it sent, its
        choices, and the messages it received. */
    method Gen(sent: seq<(bool, bool)>, choices: seq<bool>, received: seq<bool>)
      requires Sized() && |sent| == |choices| == |received| == nTriples
      modifies a, b, c
      ensures forall k :: 0 <= k < nTriples ==> a[k] == (sent[k].0 != sent[k].1)
      ensures forall k :: 0 <= k < nTriples ==> b[k] == choices[k]
      ensures forall k :: 0 <= k < nTriples ==> c[k] == ((sent[k].0 != (a[k] && choices[k])) != received[k])
    {
      var j := 0;
      while j < nTriples
        invariant forall k :: 0 <= k < j && k < nTriples ==> a[k] == (sent[k].0 != sent[k].1)
        invariant forall k :: 0 <= k < j && k < nTriples ==> b[k] == choices[k]
        invariant forall k :: 0 <= k < j && k < nTriples ==> c[k] == ((sent[k].0 != (a[k] && choices[k])) != received[k])
      {
        var curStep := if OT_STEP < nTriples - j then OT_STEP else nTriples - j;
        for i := 0 to curStep
          invariant forall k :: 0 <= k < j ==> b[k] == choices[k]
          invariant forall k :: 0 <= k < j + i ==> a[k] == (sent[k].0 != sent[k].1)
          invariant forall k :: 0 <= k < j + i ==> c[k] == ((sent[k].0 != (a[k] && choices[k])) != received[k])
        {
          var x := sent[j + i].0 != sent[j + i].1;
          a[j + i] := x;
          var z := (sent[j + i].0 != (x && choices[j + i])) != received[j + i];
          c[j + i] := z;
        }
        for i := 0 to curStep
          invariant forall k :: 0 <= k < j + i ==> b[k] == choices[k]
          modifies b
        {
          b[j + i] := choices[j + i];
        }
        j := j + OT_STEP;
      }
    }

    /** The shares as values. */
    ghost function View(): (s: Shares)
      requires Sized()
      reads a, b, c
      ensures s.Sized(nTriples)
    {
      Shares(a[..], b[..], c[..])
    }
  }

  datatype Shares = Shares(a: seq<bool>, b: seq<bool>, c: seq<bool>)
  {
    ghost predicate Sized(n: nat) { |a| == |b| == |c| == n }
  }

  /** The two parties' k-th shares add up to a product. */
  ghost predicate Beaver(s0: Shares, s1: Shares, k: nat)
    requires k < |s0.a| && s0.Sized(|s0.a|) && s1.Sized(|s0.a|)
  {
    ((s0.a[k] != s1.a[k]) && (s0.b[k] != s1.b[k])) == (s0.c[k] != s1.c[k])
  }

  /** Each message received is the one chosen of the pair sent. */
  ghost predicate Transferred(sent: seq<(bool, bool)>, choices: seq<bool>, received: seq<bool>) {
    |sent| == |choices| == |received|
    && forall k :: 0 <= k < |sent| ==> received[k] == if choices[k] then sent[k].1 else sent[k].0
  }

  /** Shares computed from the OT outputs of one party. */
  ghost predicate Generated(s: Shares, sent: seq<(bool, bool)>, choices: seq<bool>, received: seq<bool>) {
    && |sent| == |choices| == |received| && s.Sized(|sent|)
    && forall k :: 0 <= k < |sent| ==>
      s.a[k] == (sent[k].0 != sent[k].1) && s.b[k] == choices[k] && s.c[k] == ((sent[k].0 != (s.a[k] && choices[k])) != received[k])
  }

  /** Transfers in both directions give shares of products. */
  lemma TransfersGiveTriples(s0: Shares, s1: Shares, sent0: seq<(bool, bool)>, choices0: seq<bool>, received0: seq<bool>,
                             sent1: seq<(bool, bool)>, choices1: seq<bool>, received1: seq<bool>)
    requires Generated(s0, sent0, choices0, received0) && Generated(s1, sent1, choices1, received1)
    requires Transferred(sent0, choices1, received1) && Transferred(sent1, choices0, received0)
    ensures forall k :: 0 <= k < |sent0| ==> Beaver(s0, s1, k)
  {
  }
}
