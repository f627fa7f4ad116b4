/** Division of unsigned numbers, by repeated subtraction. */
module Division {
  import opened BinaryNumbers
  import opened Layout

  /** n / d */
  function Quotient(n: nat, d: nat): nat
    requires d > 0
  {
    if n < d then 0 else Quotient(n - d, d) + 1
  }

  /** n % d */
  function Remainder(n: nat, d: nat): (r: nat)
    requires d > 0
    ensures r < d && r <= n
  {
    if n < d then n else Remainder(n - d, d)
  }

  lemma {:induction false} AreDivision(n: nat, d: nat)
    requires d > 0
    ensures Quotient(n, d) == n / d && Remainder(n, d) == n % d
  {
    if n < d {
      DivModUnique(n, 0, d, n);
    } else {
      AreDivision(n - d, d);
      DivMod(n - d, d);
      DivModUnique(n, Quotient(n - d, d) + 1, d, Remainder(n, d));
    }
  }

  lemma {:induction false} QuotientMono(a: nat, b: nat, d: nat)
    requires a <= b && d > 0
    ensures Quotient(a, d) <= Quotient(b, d)
  {
    if a >= d {
      QuotientMono(a - d, b - d, d);
    }
  }

  lemma {:induction false} QuotientOfRow(q: nat, d: nat)
    requires d > 0
    ensures Quotient(Row(q, d), d) == q
  {
    if q > 0 {
      QuotientOfRow(q - 1, d);
    }
  }

  lemma {:induction false} QuotientBelow(n: nat, d: nat)
    requires d > 0
    ensures Quotient(n, d) <= n && (d >= 2 && n > 0 ==> Quotient(n, d) < n)
  {
    if n >= d {
      QuotientBelow(n - d, d);
    }
  }

  /** Numbers of one residue class are d apart. */
  lemma {:induction false} SameResidue(b: nat, c: nat, d: nat)
    requires d > 0 && Remainder(b, d) == Remainder(c, d) && c != b
    ensures c < b + d <==> c < b
  {
    if b >= d && c >= d {
      SameResidue(b - d, c - d, d);
    }
  }
}
