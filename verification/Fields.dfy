/** Blocks, GF(2^128) and the scalar field, as a record of operations with laws. */
module Fields {

  /** The operations the repository uses on a value type: a block under XOR and
      gf128Mul, a scalar of the prime field, or a vector of blocks under XOR.
      Each law is stated at a point (`AssocAt` and so on), so that a proof
      brings in exactly the instances it names. */
  datatype Field<!T(!new)> = Field(zero: T, one: T, plus: (T, T) -> T, times: (T, T) -> T, negate: T -> T)
  {
    function Add(a: T, b: T): T { plus(a, b) }

    function Mul(a: T, b: T): T { times(a, b) }

    function Neg(a: T): T { negate(a) }

    function Sub(a: T, b: T): T { Add(a, Neg(b)) }

    ghost predicate AddAssocAt(a: T, b: T, c: T) { Add(Add(a, b), c) == Add(a, Add(b, c)) }

    ghost predicate AddCommAt(a: T, b: T) { Add(a, b) == Add(b, a) }

    ghost predicate AddZeroAt(a: T) { Add(zero, a) == a }

    ghost predicate AddNegAt(a: T) { Add(a, Neg(a)) == zero }

    ghost predicate MulAssocAt(a: T, b: T, c: T) { Mul(Mul(a, b), c) == Mul(a, Mul(b, c)) }

    ghost predicate MulCommAt(a: T, b: T) { Mul(a, b) == Mul(b, a) }

    ghost predicate MulOneAt(a: T) { Mul(one, a) == a }

    ghost predicate DistribAt(a: T, b: T, c: T) { Mul(a, Add(b, c)) == Add(Mul(a, b), Mul(a, c)) }

    ghost predicate NoZeroDivisorAt(a: T, b: T) { Mul(a, b) == zero ==> a == zero || b == zero }

    /** An abelian group under Add. */
    ghost predicate Group() {
      && (forall a, b, c :: AddAssocAt(a, b, c))
      && (forall a, b :: AddCommAt(a, b))
      && (forall a :: AddZeroAt(a))
      && (forall a :: AddNegAt(a))
    }

    /** Add is its own inverse, as XOR is. */
    ghost predicate XorGroup() {
      && Group()
      && (forall a :: Neg(a) == a)
    }

    /** A commutative ring with a unit and no zero divisors. */
    ghost predicate Domain() {
      && Group()
      && (forall a, b, c :: MulAssocAt(a, b, c))
      && (forall a, b :: MulCommAt(a, b))
      && (forall a :: MulOneAt(a))
      && (forall a, b, c :: DistribAt(a, b, c))
      && (forall a, b :: NoZeroDivisorAt(a, b))
      && zero != one
    }

    lemma Assoc(a: T, b: T, c: T)
      requires Group()
      ensures Add(Add(a, b), c) == Add(a, Add(b, c))
    {
      assert AddAssocAt(a, b, c);
    }

    lemma Comm(a: T, b: T)
      requires Group()
      ensures Add(a, b) == Add(b, a)
    {
      assert AddCommAt(a, b);
    }

    lemma Zero(a: T)
      requires Group()
      ensures Add(zero, a) == a && Add(a, zero) == a
    {
      assert AddZeroAt(a);
      assert AddCommAt(a, zero);
    }

    lemma Inverse(a: T)
      requires Group()
      ensures Add(a, Neg(a)) == zero && Add(Neg(a), a) == zero
    {
      assert AddNegAt(a);
      assert AddCommAt(a, Neg(a));
    }

    /** (a + b) + (c + d) == (a + c) + (b + d) */
    lemma Shuffle(a: T, b: T, c: T, d: T)
      requires Group()
      ensures Add(Add(a, b), Add(c, d)) == Add(Add(a, c), Add(b, d))
    {
      Assoc(a, b, Add(c, d));
      Assoc(b, c, d);
      Comm(b, c);
      Assoc(c, b, d);
      Assoc(a, c, Add(b, d));
    }

    /** (a + b) + c == (a + c) + b */
    lemma SwapRight(a: T, b: T, c: T)
      requires Group()
      ensures Add(Add(a, b), c) == Add(Add(a, c), b)
    {
      Assoc(a, b, c);
      Comm(b, c);
      Assoc(a, c, b);
    }

    lemma CancelLeft(a: T, b: T, c: T)
      requires Group() && Add(a, b) == Add(a, c)
      ensures b == c
    {
      Assoc(Neg(a), a, b);
      Assoc(Neg(a), a, c);
      Inverse(a);
      Zero(b);
      Zero(c);
    }

    /** In an XOR group a summand moves freely across an equation. */
    lemma XorMove(a: T, b: T)
      requires XorGroup()
      ensures Add(a, a) == zero && Add(a, Add(a, b)) == b && Add(Add(a, b), b) == a
    {
      Inverse(a);
      Inverse(b);
      Assoc(a, a, b);
      Assoc(a, b, b);
      Zero(a);
      Zero(b);
    }

    lemma MAssoc(a: T, b: T, c: T)
      requires Domain()
      ensures Mul(Mul(a, b), c) == Mul(a, Mul(b, c))
    {
      assert MulAssocAt(a, b, c);
    }

    lemma MComm(a: T, b: T)
      requires Domain()
      ensures Mul(a, b) == Mul(b, a)
    {
      assert MulCommAt(a, b);
    }

    lemma One(a: T)
      requires Domain()
      ensures Mul(one, a) == a && Mul(a, one) == a
    {
      assert MulOneAt(a);
      assert MulCommAt(a, one);
    }

    lemma Distrib(a: T, b: T, c: T)
      requires Domain()
      ensures Mul(a, Add(b, c)) == Add(Mul(a, b), Mul(a, c))
      ensures Mul(Add(b, c), a) == Add(Mul(b, a), Mul(c, a))
    {
      assert DistribAt(a, b, c);
      assert MulCommAt(a, Add(b, c)) && MulCommAt(a, b) && MulCommAt(a, c);
    }

    lemma MulZero(a: T)
      requires Domain()
      ensures Mul(a, zero) == zero && Mul(zero, a) == zero
    {
      Distrib(a, zero, zero);
      Zero(zero);
      Zero(Mul(a, zero));
      CancelLeft(Mul(a, zero), Mul(a, zero), zero);
      MComm(a, zero);
    }

    lemma MulCancel(c: T, a: T, b: T)
      requires Domain() && c != zero && Mul(c, a) == Mul(c, b)
      ensures a == b
    {
      var d := Add(a, Neg(b));
      Distrib(c, a, Neg(b));
      Distrib(c, b, Neg(b));
      Inverse(b);
      MulZero(c);
      assert NoZeroDivisorAt(c, d);
      Comm(a, Neg(b));
      Comm(b, Neg(b));
      CancelLeft(Neg(b), a, b);
    }
  }

  /** The two-element field, the smallest instance of the laws above: they can be
      met. */
  function Bits(): Field<bool> {
    Field(false, true, (a, b) => a != b, (a, b) => a && b, a => a)
  }

  lemma BitsAreAField()
    ensures Bits().XorGroup() && Bits().Domain()
  {
  }
}
