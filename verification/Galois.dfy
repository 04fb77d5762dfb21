/** Arithmetic of GF(2^8), the Rijndael field with reduction polynomial 0x11b. */
module Galois {

  /** Field addition (and subtraction): XOR. */
  function Add(a: bv8, b: bv8): bv8 { a ^ b }

  /** Multiplication by x, reduced modulo x^8 + x^4 + x^3 + x + 1. */
  function Double(a: bv8): bv8 { (a << 1) ^ (0x1b & (0 - (a >> 7))) }

  /** `a` if the low bit of `b` is set, zero otherwise. */
  function Select(a: bv8, b: bv8): bv8 { a & (0 - (b & 1)) }

  function Half(b: bv8): bv8 { b >> 1 }

  /** The lowest n bits of `b`, read as a polynomial in `Double`, applied to `a`. */
  function Product(a: bv8, b: bv8, n: nat): bv8
    decreases n
  {
    if n == 0 then 0 else Add(Select(a, b), Product(Double(a), Half(b), n - 1))
  }

  function Mul(a: bv8, b: bv8): bv8 { Product(a, b, 8) }

  lemma AddAssociates(a: bv8, b: bv8, c: bv8)
    ensures Add(Add(a, b), c) == Add(a, Add(b, c))
  {}

  lemma AddUnits(a: bv8)
    ensures Add(a, a) == 0 && Add(a, 0) == a && Add(0, a) == a
  {}

  lemma AddCommutes(a: bv8, b: bv8)
    ensures Add(a, b) == Add(b, a)
  {}

  lemma AddCancels(a: bv8, b: bv8)
    ensures Add(a, b) == 0 <==> a == b
  {}

  lemma AddLaws(a: bv8, b: bv8, c: bv8)
    ensures Add(a, b) == Add(b, a)
    ensures Add(Add(a, b), c) == Add(a, Add(b, c))
    ensures Add(a, a) == 0 && Add(a, 0) == a && Add(0, a) == a
    ensures Add(a, Add(a, b)) == b
    ensures Add(a, b) == 0 <==> a == b
  {
    hide Add;
    AddCommutes(a, b);
    AddAssociates(a, b, c);
    AddAssociates(a, a, b);
    AddUnits(a);
    AddUnits(b);
    AddCancels(a, b);
  }

  lemma AddInterchange(a: bv8, b: bv8, c: bv8, d: bv8)
    ensures Add(Add(a, b), Add(c, d)) == Add(Add(a, c), Add(b, d))
  {
    hide Add;
    AddLaws(a, b, Add(c, d));
    AddLaws(b, c, d);
    AddLaws(c, b, d);
    AddLaws(a, c, Add(b, d));
  }

  lemma DoubleAdd(a: bv8, b: bv8)
    ensures Double(Add(a, b)) == Add(Double(a), Double(b))
  {}

  lemma SelectAdd(a: bv8, b: bv8, c: bv8)
    ensures Select(Add(a, b), c) == Add(Select(a, c), Select(b, c))
  {
    SelectCases(a, c);
    SelectCases(b, c);
    SelectCases(Add(a, b), c);
    hide Add, Select;
    AddLaws(a, b, 0);
    AddLaws(0, 0, 0);
  }

  lemma SelectByAdd(a: bv8, b: bv8, c: bv8)
    ensures Select(a, Add(b, c)) == Add(Select(a, b), Select(a, c))
  {}

  lemma HalfAdd(b: bv8, c: bv8)
    ensures Half(Add(b, c)) == Add(Half(b), Half(c))
  {}

  /** Every step of the multiplication loop is linear over GF(2). */
  lemma StepsAreLinear(a: bv8, b: bv8, c: bv8)
    ensures Double(Add(a, b)) == Add(Double(a), Double(b))
    ensures Select(Add(a, b), c) == Add(Select(a, c), Select(b, c))
    ensures Select(a, Add(b, c)) == Add(Select(a, b), Select(a, c))
    ensures Half(Add(b, c)) == Add(Half(b), Half(c))
    ensures Double(Select(a, b)) == Select(Double(a), b)
    ensures Double(0) == 0
  {
    DoubleAdd(a, b);
    SelectAdd(a, b, c);
    SelectByAdd(a, b, c);
    HalfAdd(b, c);
    hide Add, Half;
  }

  lemma SelectCases(a: bv8, b: bv8)
    ensures Select(a, b) == if b & 1 == 1 then a else 0
  {
    assert b & 1 == 0 || b & 1 == 1;
  }

  lemma {:induction false} ProductLeft(a: bv8, b: bv8, c: bv8, n: nat)
    ensures Product(Add(a, b), c, n) == Add(Product(a, c, n), Product(b, c, n))
    decreases n
  {
    hide Add, Double, Select, Half;
    if n == 0 {
      AddLaws(0, 0, 0);
    } else {
      StepsAreLinear(a, b, c);
      ProductLeft(Double(a), Double(b), Half(c), n - 1);
      AddInterchange(Select(a, c), Select(b, c), Product(Double(a), Half(c), n - 1),
          Product(Double(b), Half(c), n - 1));
    }
  }

  lemma {:induction false} ProductRight(a: bv8, b: bv8, c: bv8, n: nat)
    ensures Product(a, Add(b, c), n) == Add(Product(a, b, n), Product(a, c, n))
    decreases n
  {
    hide Add, Double, Select, Half;
    if n == 0 {
      AddLaws(0, 0, 0);
    } else {
      StepsAreLinear(a, b, c);
      ProductRight(Double(a), Half(b), Half(c), n - 1);
      AddInterchange(Select(a, b), Select(a, c), Product(Double(a), Half(b), n - 1),
          Product(Double(a), Half(c), n - 1));
    }
  }

  lemma {:induction false} ProductDouble(a: bv8, b: bv8, n: nat)
    ensures Product(Double(a), b, n) == Double(Product(a, b, n))
    decreases n
  {
    hide Add, Double, Select, Half;
    StepsAreLinear(a, b, 0);
    if n > 0 {
      ProductDouble(Double(a), Half(b), n - 1);
      StepsAreLinear(Select(a, b), Product(Double(a), Half(b), n - 1), 0);
    }
  }

  /** The operators "multiply by a" and "multiply by b" commute. */
  lemma {:induction false} ProductsCommute(c: bv8, a: bv8, b: bv8, n: nat)
    ensures Product(Mul(c, b), a, n) == Mul(Product(c, a, n), b)
    decreases n
  {
    hide Add, Double, Select, Half;
    Zero(b);
    if n > 0 {
      ProductsCommute(Double(c), Half(a), b, n - 1);
      ProductDouble(c, b, 8);
      ProductLeft(Select(c, a), Product(Double(c), Half(a), n - 1), b, 8);
      SelectMul(c, a, b);
    }
  }

  lemma {:induction false} ProductZero(b: bv8, n: nat)
    ensures Product(0, b, n) == 0 && Product(b, 0, n) == 0
    decreases n
  {
    if n > 0 {
      ProductZero(Half(b), n - 1);
      ProductZero(Double(b), n - 1);
    }
  }

  lemma Zero(b: bv8)
    ensures Mul(0, b) == 0 && Mul(b, 0) == 0
  {
    ProductZero(b, 8);
  }

  lemma SelectMul(c: bv8, a: bv8, b: bv8)
    ensures Mul(Select(c, a), b) == Select(Mul(c, b), a)
    ensures Mul(b, Select(c, a)) == Select(Mul(b, c), a)
  {
    hide Mul;
    Zero(b);
  }

  lemma OneRight(a: bv8)
    ensures Mul(a, 1) == a
  {
    assert Half(1) == 0;
    ProductZero(Double(a), 7);
  }

  lemma OneLeft(a: bv8)
    ensures Mul(1, a) == a
  {
    calc {
      Mul(1, a);
      Add(Select(1, a), Add(Select(2, Half(a)), Product(4, Half(Half(a)), 6)));
      Add(Select(1, a), Add(Select(2, a >> 1), Add(Select(4, a >> 2), Add(Select(8, a >> 3), Product(16, a >> 4, 4)))));
    }
  }

  lemma MulCommutes(a: bv8, b: bv8)
    ensures Mul(a, b) == Mul(b, a)
  {
    hide Mul;
    OneLeft(a);
    OneLeft(b);
    assert Product(Mul(1, b), a, 8) == Mul(Product(1, a, 8), b) by { ProductsCommute(1, a, b, 8); }
    MulIs(b, a);
    MulIs(1, a);
  }

  lemma MulIs(a: bv8, b: bv8)
    ensures Mul(a, b) == Product(a, b, 8)
  {}

  lemma MulAssociates(a: bv8, b: bv8, c: bv8)
    ensures Mul(Mul(a, b), c) == Mul(a, Mul(b, c))
  {
    hide Mul;
    assert Mul(Mul(b, a), c) == Mul(Mul(b, c), a) by {
      ProductsCommute(b, c, a, 8);
      MulIs(Mul(b, a), c);
      MulIs(b, c);
    }
    MulCommutes(a, b);
    MulCommutes(Mul(b, c), a);
  }

  lemma MulDistributes(a: bv8, b: bv8, c: bv8)
    ensures Mul(a, Add(b, c)) == Add(Mul(a, b), Mul(a, c))
    ensures Mul(Add(a, b), c) == Add(Mul(a, c), Mul(b, c))
  {
    hide Add, Product;
    ProductRight(a, b, c, 8);
    ProductLeft(a, b, c, 8);
  }

  lemma TimesTwo(a: bv8)
    ensures Mul(a, 2) == Double(a)
  {
    hide Double;
    assert Half(2) == 1 && Half(1) == 0 && Select(a, 2) == 0;
    ProductZero(Double(Double(a)), 6);
  }

  /** The field is that of section 4.2 of FIPS 197: doubling shifts left, and reduces what overflows by
      x^8 + x^4 + x^3 + x + 1. */
  lemma Rijndael(a: bv8)
    ensures Mul(a, 2) == (a << 1) ^ (if a >= 0x80 then 0x1b else 0)
  {
    TimesTwo(a);
    hide Mul;
  }

  function Square(a: bv8): bv8 { Mul(a, a) }

  /** a^(2^n), by n squarings. */
  function Frobenius(a: bv8, n: nat): bv8 {
    if n == 0 then a else Square(Frobenius(a, n - 1))
  }

  /** Squaring spreads the bits of `a`: bit k contributes x^(2k). */
  function Spread(a: bv8): bv8 {
    Select(0x01, a) ^ Select(0x04, a >> 1) ^ Select(0x10, a >> 2) ^ Select(0x40, a >> 3)
    ^ Select(0x1b, a >> 4) ^ Select(0x6c, a >> 5) ^ Select(0xab, a >> 6) ^ Select(0x9a, a >> 7)
  }

  lemma SquareSpreads(a: bv8)
    ensures Square(a) == Spread(a)
  {
    calc {
      Mul(a, a);
      Add(Select(a, a), Add(Select(Double(a), Half(a)), Product(Double(Double(a)), Half(Half(a)), 6)));
    }
  }

  lemma FrobeniusTwo()
    ensures Frobenius(2, 8) == 2
  {
    hide Mul;
    SquareSpreads(0x02);
    SquareSpreads(0x04);
    SquareSpreads(0x10);
    SquareSpreads(0x1b);
    SquareSpreads(0x5e);
    SquareSpreads(0xe4);
    SquareSpreads(0x4d);
    SquareSpreads(0xfa);
    assert Frobenius(2, 4) == 0x5e;
  }

  lemma {:induction false} FrobeniusAdd(a: bv8, b: bv8, n: nat)
    ensures Frobenius(Add(a, b), n) == Add(Frobenius(a, n), Frobenius(b, n))
  {
    hide Add, Mul;
    if n > 0 {
      FrobeniusAdd(a, b, n - 1);
      var p, q := Frobenius(a, n - 1), Frobenius(b, n - 1);
      MulDistributes(Add(p, q), p, q);
      MulDistributes(p, q, p);
      MulDistributes(p, q, q);
      MulCommutes(p, q);
      AddInterchange(Mul(p, p), Mul(p, q), Mul(p, q), Mul(q, q));
      AddLaws(Mul(p, p), Mul(p, q), Mul(p, q));
      AddLaws(Mul(p, q), Mul(q, q), 0);
      AddLaws(Mul(p, p), Mul(p, q), Add(Mul(p, q), Mul(q, q)));
    }
  }

  lemma {:induction false} FrobeniusMul(a: bv8, b: bv8, n: nat)
    ensures Frobenius(Mul(a, b), n) == Mul(Frobenius(a, n), Frobenius(b, n))
  {
    hide Mul;
    if n > 0 {
      FrobeniusMul(a, b, n - 1);
      MulInterchange(Frobenius(a, n - 1), Frobenius(b, n - 1), Frobenius(a, n - 1), Frobenius(b, n - 1));
    }
  }

  lemma MulInterchange(a: bv8, b: bv8, c: bv8, d: bv8)
    ensures Mul(Mul(a, b), Mul(c, d)) == Mul(Mul(a, c), Mul(b, d))
  {
    hide Mul;
    MulAssociates(a, b, Mul(c, d));
    MulAssociates(b, c, d);
    MulCommutes(b, c);
    MulAssociates(c, b, d);
    MulAssociates(a, c, Mul(b, d));
  }

  lemma {:induction false} FrobeniusZero(n: nat)
    ensures Frobenius(0, n) == 0
  {
    if n > 0 {
      FrobeniusZero(n - 1);
      Zero(0);
    }
  }

  /** If eight squarings fix c, they fix every polynomial in x applied to c. */
  lemma {:induction false} FrobeniusFixes(c: bv8, b: bv8, n: nat)
    requires Frobenius(c, 8) == c
    ensures Frobenius(Product(c, b, n), 8) == Product(c, b, n)
    decreases n
  {
    hide Add, Mul, Double, Select, Half, Frobenius;
    FrobeniusZero(8);
    if n > 0 {
      TimesTwo(c);
      FrobeniusTwo();
      FrobeniusMul(c, 2, 8);
      FrobeniusFixes(Double(c), Half(b), n - 1);
      SelectCases(c, b);
      FrobeniusAdd(Select(c, b), Product(Double(c), Half(b), n - 1), 8);
    }
  }

  /** a^256 == a for every field element. */
  lemma FrobeniusIdentity(a: bv8)
    ensures Frobenius(a, 8) == a
  {
    hide Mul;
    assert Frobenius(1, 8) == 1 by { FrobeniusOne(8); }
    FrobeniusFixes(1, a, 8);
    MulIs(1, a);
    OneLeft(a);
  }

  lemma {:induction false} FrobeniusOne(n: nat)
    ensures Frobenius(1, n) == 1
  {
    if n > 0 {
      FrobeniusOne(n - 1);
      OneLeft(1);
    }
  }

  lemma IdempotentIsBit(a: bv8)
    requires Square(a) == a
    ensures a == 0 || a == 1
  {
    SquareSpreads(a);
    hide Mul;
  }

  function Pow(a: bv8, n: nat): bv8 {
    if n == 0 then 1 else Mul(a, Pow(a, n - 1))
  }

  lemma {:induction false} PowAdd(a: bv8, m: nat, n: nat)
    ensures Pow(a, m + n) == Mul(Pow(a, m), Pow(a, n))
    decreases m
  {
    hide Mul;
    if m == 0 {
      OneLeft(Pow(a, n));
    } else {
      PowAdd(a, m - 1, n);
      MulAssociates(a, Pow(a, m - 1), Pow(a, n));
    }
  }

  lemma {:induction false} PowOfSquare(a: bv8, n: nat)
    ensures Pow(Square(a), n) == Pow(a, 2 * n)
  {
    hide Mul;
    if n > 0 {
      PowOfSquare(a, n - 1);
      assert Pow(a, 2 * n) == Mul(a, Mul(a, Pow(a, 2 * n - 2)));
      MulAssociates(a, a, Pow(a, 2 * n - 2));
    }
  }

  lemma {:induction false} PowFrobenius(a: bv8, n: nat, e: nat)
    requires e == Exp2(n)
    ensures Pow(a, e) == Frobenius(a, n)
  {
    hide Mul;
    if n == 0 {
      OneRight(a);
    } else {
      PowFrobenius(a, n - 1, Exp2(n - 1));
      PowAdd(a, Exp2(n - 1), Exp2(n - 1));
    }
  }

  function Exp2(n: nat): nat { if n == 0 then 1 else 2 * Exp2(n - 1) }

  /** The multiplicative inverse, as the power the source computes. */
  function Inverse(a: bv8): bv8 { Pow(a, 254) }

  lemma InverseIsInverse(a: bv8)
    requires a != 0
    ensures Mul(a, Inverse(a)) == 1
  {
    hide Mul, Frobenius;
    var n := Pow(a, 255);
    assert Pow(a, 256) == a by {
      assert Exp2(4) == 16 && Exp2(8) == 256;
      PowFrobenius(a, 8, 256);
      FrobeniusIdentity(a);
    }
    assert Pow(a, 510) == n by {
      PowAdd(a, 256, 254);
    }
    PowAdd(a, 255, 255);
    IdempotentIsBit(n);
    Zero(a);
  }

  lemma InverseOfZero()
    ensures Inverse(0) == 0
  {
    Zero(Pow(0, 253));
  }

  lemma LoopStep(p: bv8, a: bv8, b: bv8)
    ensures p ^ (a & (0 - (b & 1))) == Add(p, Select(a, b))
    ensures (a << 1) ^ (0x1b & (0 - (a >> 7))) == Double(a)
    ensures b >> 1 == Half(b)
  {}

  /** gfMul: the branch-free Russian-peasant loop. */
  method GfMul(a0: bv8, b0: bv8) returns (p: bv8)
    ensures p == Mul(a0, b0)
  {
    hide Add, Double, Select, Half;
    var a, b := a0, b0;
    p := 0;
    var i := 0;
    AddLaws(Product(a, b, 8), 0, 0);
    while i < 8
      invariant 0 <= i <= 8
      invariant Add(p, Product(a, b, 8 - i)) == Mul(a0, b0)
    {
      LoopStep(p, a, b);
      AddLaws(p, Select(a, b), Product(Double(a), Half(b), 7 - i));
      p := p ^ (a & (0 - (b & 1)));
      var hi := 0 - (a >> 7);
      a := a << 1;
      a := a ^ (0x1b & hi);
      b := b >> 1;
      i := i + 1;
    }
    AddLaws(p, 0, 0);
  }

  /** gfInverse: square-and-multiply with the fixed exponent 254. */
  method GfInverse(a: bv8) returns (result: bv8)
    ensures result == Inverse(a)
    ensures a != 0 ==> Mul(a, result) == 1
    ensures a == 0 ==> result == 0
  {
    hide Mul;
    result := 1;
    var b := a;
    var exp: nat := 254;
    OneLeft(Pow(b, exp));
    while exp > 0
      invariant Mul(result, Pow(b, exp)) == Inverse(a)
    {
      PowOfSquare(b, exp / 2);
      if exp % 2 == 1 {
        assert Pow(b, exp) == Mul(b, Pow(b, exp - 1));
        MulAssociates(result, b, Pow(b, exp - 1));
        result := GfMul(result, b);
      }
      b := GfMul(b, b);
      exp := exp / 2;
    }
    OneRight(result);
    if a != 0 { InverseIsInverse(a); } else { InverseOfZero(); }
  }
}
