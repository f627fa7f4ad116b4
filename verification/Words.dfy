/** A u64 as its 64 bits, most significant bit first, and a band packed into u64s. */
module Words {

  type Word = w: seq<bool> | |w| == 64 witness seq(64, _ => false)

  function Zeros(n: nat): (r: seq<bool>)
    ensures |r| == n && forall i :: 0 <= i < n ==> !r[i]
  {
    seq(n, _ => false)
  }

  function ShiftLeft(w: Word, k: nat): Word
    requires k <= 64
  {
    w[k..] + Zeros(k)
  }

  function ShiftRight(w: Word, k: nat): Word
    requires k <= 64
  {
    Zeros(k) + w[..64 - k]
  }

  function Or(a: Word, b: Word): Word {
    seq(64, i requires 0 <= i < 64 => a[i] || b[i])
  }

  function Xor(a: Word, b: Word): Word {
    seq(64, i requires 0 <= i < 64 => a[i] != b[i])
  }

  /** The word without its most significant bit: w & 0x7FFF'FFFF'FFFF'FFFF. */
  function ClearTop(w: Word): Word {
    [false] + w[1..]
  }

  predicate IsZero(w: Word) {
    forall i :: 0 <= i < 64 ==> !w[i]
  }

  /** Bit i of the packed band; the band is zero behind its last word. */
  predicate BitAt(ws: seq<Word>, i: nat) {
    i / 64 < |ws| && ws[i / 64][i % 64]
  }

  /** The number of leading zero bits at or behind position i. */
  function FirstOneFrom(ws: seq<Word>, i: nat): (z: nat)
    requires i <= 64 * |ws|
    ensures i <= z <= 64 * |ws|
    ensures forall k :: i <= k < z ==> !BitAt(ws, k)
    ensures z < 64 * |ws| ==> BitAt(ws, z)
    decreases 64 * |ws| - i
  {
    if i == 64 * |ws| || BitAt(ws, i) then i else FirstOneFrom(ws, i + 1)
  }

  /** The number of leading zero bits of the whole band. */
  function FirstOne(ws: seq<Word>): nat { FirstOneFrom(ws, 0) }

  lemma FirstOneIs(ws: seq<Word>, z: nat)
    requires BitAt(ws, z) && forall k :: 0 <= k < z ==> !BitAt(ws, k)
    ensures FirstOne(ws) == z
  {
    assert z / 64 < |ws|;
  }

  /** ws, moved z bits to the front. */
  ghost predicate Shifted(ws: seq<Word>, ws': seq<Word>, z: nat) {
    |ws'| == |ws| && forall i: nat :: BitAt(ws', i) == BitAt(ws, i + z)
  }

  lemma BitOfWord(ws: seq<Word>, q: nat, b: nat)
    requires b < 64
    ensures BitAt(ws, 64 * q + b) == (q < |ws| && ws[q][b])
  {
    assert (64 * q + b) / 64 == q && (64 * q + b) % 64 == b;
  }

  /** What one step of the cross-word shift writes. */
  lemma CrossWordBit(hi: Word, lo: Word, k: nat, b: nat)
    requires 0 < k < 64 && b < 64
    ensures Or(ShiftLeft(hi, k), ShiftRight(lo, 64 - k))[b] == if b + k < 64 then hi[b + k] else lo[b + k - 64]
  {
  }
}
