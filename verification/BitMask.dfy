/**
32-bit masks and the sets of bit positions they stand for.
 */
module BitMask {

  type Mask = bv32

  function And(m: Mask, x: Mask): Mask { m & x }

  function Or(m: Mask, x: Mask): Mask { m | x }

  function Clear(m: Mask, x: Mask): Mask { m & !x }

  /** The mask with only bit `i`. */
  function Bit(i: nat): Mask
    requires i < 32
  {
    (1 as bv32) << i
  }

  predicate Has(m: Mask, i: nat)
    requires i < 32
  {
    And(m, Bit(i)) != 0
  }

  /** The positions of the bits that are set. */
  function Positions(m: Mask): (s: set<nat>)
    ensures forall i :: i in s <==> 0 <= i < 32 && Has(m, i)
  {
    set i: nat | i < 32 && Has(m, i)
  }

  lemma HasBit(i: nat, j: nat)
    requires i < 32 && j < 32
    ensures Has(Bit(i), j) <==> i == j
  {}

  lemma BitIsNotZero(i: nat)
    requires i < 32
    ensures Bit(i) != 0
  {}

  /** A single bit meets a mask in nothing or in itself. */
  predicate SingleBit(b: Mask) {
    b & (b - 1) == 0
  }

  lemma BitIsSingle(i: nat)
    requires i < 32
    ensures SingleBit(Bit(i))
  {}

  lemma SingleBitMeets(m: Mask, b: Mask)
    requires SingleBit(b)
    ensures And(m, b) == 0 || And(m, b) == b
  {}

  lemma OrMeets(m: Mask, x: Mask, b: Mask)
    ensures And(m, b) == 0 && And(x, b) == 0 ==> And(Or(m, x), b) == 0
    ensures And(m, b) == b || And(x, b) == b ==> And(Or(m, x), b) == b
  {
    hide And, Or;
    OrDistributes(m, x, b);
    AndAbsorbed(m, b);
    AndAbsorbed(x, b);
  }

  lemma OrDistributes(m: Mask, x: Mask, b: Mask)
    ensures And(Or(m, x), b) == Or(And(m, b), And(x, b))
  {}

  lemma AndAbsorbed(m: Mask, b: Mask)
    ensures Or(And(m, b), b) == b && Or(b, And(m, b)) == b
    ensures Or(0, 0) == 0
  {}

  lemma AndMeets(m: Mask, x: Mask, b: Mask)
    ensures And(m, b) == 0 || And(x, b) == 0 ==> And(And(m, x), b) == 0
    ensures And(m, b) == b && And(x, b) == b ==> And(And(m, x), b) == b
  {}

  lemma ClearMeets(m: Mask, x: Mask, b: Mask)
    ensures And(m, b) == 0 || And(x, b) == b ==> And(Clear(m, x), b) == 0
    ensures And(m, b) == b && And(x, b) == 0 ==> And(Clear(m, x), b) == b
  {}

  lemma HasOperations(m: Mask, x: Mask, j: nat)
    requires j < 32
    ensures Has(Or(m, x), j) <==> Has(m, j) || Has(x, j)
    ensures Has(And(m, x), j) <==> Has(m, j) && Has(x, j)
    ensures Has(Clear(m, x), j) <==> Has(m, j) && !Has(x, j)
  {
    hide Bit, And, Or, Clear, SingleBit;
    BitIsNotZero(j);
    BitIsSingle(j);
    SingleBitMeets(m, Bit(j));
    SingleBitMeets(x, Bit(j));
    OrMeets(m, x, Bit(j));
    AndMeets(m, x, Bit(j));
    ClearMeets(m, x, Bit(j));
  }

  lemma PositionsOfBit(i: nat)
    requires i < 32
    ensures Positions(Bit(i)) == {i}
  {
    hide Has, Bit;
    forall j: nat | j < 32 ensures Has(Bit(i), j) <==> i == j {
      HasBit(i, j);
    }
  }

  /** The operations on masks are those on sets. */
  lemma PositionsOfOperations(m: Mask, x: Mask)
    ensures Positions(Or(m, x)) == Positions(m) + Positions(x)
    ensures Positions(And(m, x)) == Positions(m) * Positions(x)
    ensures Positions(Clear(m, x)) == Positions(m) - Positions(x)
  {
    hide Has, And, Or, Clear;
    forall j: nat | j < 32 ensures Has(Or(m, x), j) <==> Has(m, j) || Has(x, j) { HasOperations(m, x, j); }
    forall j: nat | j < 32 ensures Has(And(m, x), j) <==> Has(m, j) && Has(x, j) { HasOperations(m, x, j); }
    forall j: nat | j < 32 ensures Has(Clear(m, x), j) <==> Has(m, j) && !Has(x, j) { HasOperations(m, x, j); }
  }

  /** The bits below `i`. */
  function Below(i: nat): Mask
    requires i <= 32
  {
    if i == 0 then 0 else Or(Below(i - 1), Bit(i - 1))
  }

  /** The number with `i` low bits set. */
  function Ones(i: nat): Mask
    requires i <= 32
  {
    if i < 32 then Bit(i) - 1 else 0xFFFF_FFFF
  }

  lemma BelowStep(i: nat)
    requires i < 32
    ensures Or(Ones(i), Bit(i)) == Ones(i + 1)
  {}

  lemma NoOnes()
    ensures Ones(0) == 0
  {}

  lemma {:induction false} BelowIsAllOnes(i: nat)
    requires i <= 32
    ensures Below(i) == Ones(i)
  {
    hide Bit, Or, Ones;
    if i > 0 {
      BelowIsAllOnes(i - 1);
      BelowStep(i - 1);
    } else {
      NoOnes();
    }
  }

  lemma AndOfOr(m: Mask, a: Mask, b: Mask)
    ensures And(m, a) == 0 && And(m, b) == 0 ==> And(m, Or(a, b)) == 0
    ensures And(m, 0) == 0
  {}

  lemma {:induction false} NoneBelow(m: Mask, i: nat)
    requires i <= 32
    requires forall j: nat :: j < i ==> !Has(m, j)
    ensures And(m, Below(i)) == 0
  {
    hide Bit, And, Or;
    if i > 0 {
      NoneBelow(m, i - 1);
      assert !Has(m, i - 1);
      AndOfOr(m, Below(i - 1), Bit(i - 1));
    } else {
      AndOfOr(m, 0, 0);
    }
  }

  lemma AllOnes(m: Mask)
    ensures And(m, 0xFFFF_FFFF) == m
  {}

  lemma ZeroHasNone(m: Mask, i: nat)
    requires i < 32 && m == 0
    ensures !Has(m, i)
  {}

  /** A mask is zero exactly when it has no bit. */
  lemma ZeroIsEmpty(m: Mask)
    ensures m == 0 <==> Positions(m) == {}
  {
    hide Has, And;
    if Positions(m) == {} {
      assert forall j: nat :: j < 32 && Has(m, j) ==> j in Positions(m);
      NoneBelow(m, 32);
      BelowIsAllOnes(32);
      AllOnes(m);
    } else {
      var j :| j in Positions(m);
      if m == 0 { ZeroHasNone(m, j); }
    }
  }

  lemma BothClear(m: Mask, x: Mask)
    requires Clear(m, x) == 0 && Clear(x, m) == 0
    ensures m == x
  {
    assert m ^ x == Clear(m, x) | Clear(x, m);
    XorIsZero(m, x);
  }

  lemma XorIsZero(m: Mask, x: Mask)
    requires m ^ x == 0
    ensures m == x
  {}

  /** Masks with the same bits are equal. */
  lemma SamePositions(m: Mask, x: Mask)
    requires Positions(m) == Positions(x)
    ensures m == x
  {
    hide Clear;
    PositionsOfOperations(m, x);
    PositionsOfOperations(x, m);
    ZeroIsEmpty(Clear(m, x));
    ZeroIsEmpty(Clear(x, m));
    BothClear(m, x);
  }
}
