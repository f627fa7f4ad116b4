/** Rows of equal length, stored one after the other. */
module Layout {

  /** Where row i of rows of the given length starts. */
  function Row(i: nat, len: nat): nat {
    if i == 0 then 0 else Row(i - 1, len) + len
  }

  lemma {:induction false} RowIsProduct(i: nat, len: nat)
    ensures Row(i, len) == i * len
  {
    if i > 0 {
      RowIsProduct(i - 1, len);
      assert i * len == (i - 1) * len + len;
    }
  }

  lemma RowCommutes(a: nat, b: nat)
    ensures Row(a, b) == Row(b, a)
  {
    RowIsProduct(a, b);
    RowIsProduct(b, a);
  }

  lemma RowFits(i: nat, n: nat, len: nat)
    requires i < n
    ensures Row(i, len) + len == Row(i + 1, len) <= Row(n, len)
  {
    RowMono(i + 1, n, len);
  }

  lemma {:induction false} RowMono(i: nat, n: nat, len: nat)
    requires i <= n
    ensures Row(i, len) <= Row(n, len)
  {
    if i < n {
      RowMono(i, n - 1, len);
    }
  }

  lemma RowStart(len: nat)
    ensures Row(0, len) == 0
  {
  }

  lemma {:induction false} RowSum(i: nat, a: nat, b: nat)
    ensures Row(i, a + b) == Row(i, a) + Row(i, b)
  {
    if i > 0 {
      RowSum(i - 1, a, b);
    }
  }

  lemma {:induction false} RowOne(n: nat)
    ensures Row(n, 1) == n && Row(n, 0) == 0
  {
    if n > 0 {
      RowOne(n - 1);
    }
  }
}
