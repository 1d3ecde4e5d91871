/** The field with 32 elements that the NXT address code computes in: the two tables of
    `NxtAddress` (js/jay.ext.js:10), the multiplication built from them, and the proof that this
    multiplication is polynomial multiplication modulo x^5 + x^2 + 1 and obeys the field laws.
    Addition is bitwise exclusive or. */
module Gf32 {

  /** Powers of the generator: the antilogarithm table `v`. */
  function Exp(i: nat): bv5
    requires i < 32
  {
    if i < 16
    then [1, 2, 4, 8, 16, 5, 10, 20, 13, 26, 17, 7, 14, 28, 29, 31][i]
    else [27, 19, 3, 6, 12, 24, 21, 15, 30, 25, 23, 11, 22, 9, 18, 1][i - 16]
  }

  /** Discrete logarithms: the table `c`. Entry 0 is a filler that is never used. */
  function Log(a: bv5): nat
  {
    var i := a as nat;
    if i < 16
    then [0, 0, 1, 18, 2, 5, 19, 11, 3, 29, 6, 27, 20, 8, 12, 23][i]
    else [4, 10, 30, 17, 7, 22, 28, 26, 21, 25, 9, 16, 13, 14, 24, 15][i - 16]
  }

  /** Addition: the operator `^` of the source. */
  function Add(a: bv5, b: bv5): bv5
  {
    a ^ b
  }

  /** Table multiplication: function `t` of the source. */
  function Mul(a: bv5, b: bv5): (r: bv5)
  {
    if a == 0 || b == 0 then 0 else Exp((Log(a) + Log(b)) % 31)
  }

  // ----- the additive group -----

  lemma AddRegroup(a: bv5, b: bv5, c: bv5, d: bv5)
    ensures Add(Add(a, b), Add(c, d)) == Add(Add(a, c), Add(b, d))
  {
  }

  lemma AddAssociates(a: bv5, b: bv5, c: bv5)
    ensures Add(Add(a, b), c) == Add(a, Add(b, c))
  {
  }

  lemma AddCommutes(a: bv5, b: bv5)
    ensures Add(a, b) == Add(b, a)
  {
  }

  lemma AddZero(a: bv5, b: bv5)
    ensures Add(a, 0) == a && Add(0, a) == a
    ensures Add(a, b) == 0 <==> a == b
  {
  }

  // ----- reference definition: polynomials over GF(2) modulo x^5 + x^2 + 1 -----

  /** Multiplication by x. */
  function Double(a: bv5): bv5
  {
    if a & 16 != 0 then (a << 1) ^ 5 else a << 1
  }

  /** Schoolbook carry-less multiplication: one shifted copy of `a` for every bit of `b`. */
  function PolyMul(a: bv5, b: bv5): bv5
  {
    var p1 := Add(Term(b, 1, a), Term(b, 2, Double(a)));
    var p2 := Add(p1, Term(b, 4, Double(Double(a))));
    var p3 := Add(p2, Term(b, 8, Double(Double(Double(a)))));
    Add(p3, Term(b, 16, Double(Double(Double(Double(a))))))
  }

  function Term(b: bv5, bit: bv5, shifted: bv5): bv5
  {
    if b & bit != 0 then shifted else 0
  }

  lemma ExpStep(i: nat)
    requires i < 31
    ensures Exp(i + 1) == Double(Exp(i)) && Exp(i) != 0
  {
    if i < 16 {
      assert i in {0, 1, 2, 3, 4, 5, 6, 7, 8, 9, 10, 11, 12, 13, 14, 15};
    } else {
      assert i in {16, 17, 18, 19, 20, 21, 22, 23, 24, 25, 26, 27, 28, 29, 30};
    }
  }

  lemma ExpEnds()
    ensures Exp(0) == 1 && Exp(31) == 1
  {
  }

  lemma LogInverseLow(a: bv5)
    requires 1 <= a <= 10
    ensures Log(a) < 31 && Exp(Log(a)) == a
  {
    assert a in {1, 2, 3, 4, 5, 6, 7, 8, 9, 10};
  }

  lemma LogInverseMid(a: bv5)
    requires 11 <= a <= 20
    ensures Log(a) < 31 && Exp(Log(a)) == a
  {
    assert a in {11, 12, 13, 14, 15, 16, 17, 18, 19, 20};
  }

  lemma LogInverseHigh(a: bv5)
    requires 21 <= a <= 31
    ensures Log(a) < 31 && Exp(Log(a)) == a
  {
    assert a in {21, 22, 23, 24, 25, 26, 27, 28, 29, 30, 31};
  }

  lemma LogInverse(a: bv5)
    requires a != 0
    ensures Log(a) < 31 && Exp(Log(a)) == a
  {
    hide Exp, Log;
    if a <= 10 {
      LogInverseLow(a);
    } else if a <= 20 {
      LogInverseMid(a);
    } else {
      LogInverseHigh(a);
    }
  }

  lemma LogOfExp(i: nat)
    requires i < 31
    ensures Log(Exp(i)) == i
  {
    if i < 16 {
      assert i in {0, 1, 2, 3, 4, 5, 6, 7, 8, 9, 10, 11, 12, 13, 14, 15};
    } else {
      assert i in {16, 17, 18, 19, 20, 21, 22, 23, 24, 25, 26, 27, 28, 29, 30};
    }
  }

  // ----- the table product in terms of exponents -----

  lemma MulOfPowers(i: nat, j: nat)
    requires i < 31 && j < 31
    ensures Mul(Exp(i), Exp(j)) == Exp((i + j) % 31)
  {
    hide Exp, Log;
    ExpStep(i);
    ExpStep(j);
    LogOfExp(i);
    LogOfExp(j);
  }

  lemma MulCommutes(a: bv5, b: bv5)
    ensures Mul(a, b) == Mul(b, a)
  {
    hide Exp, Log;
  }

  lemma MulAssociates(a: bv5, b: bv5, c: bv5)
    ensures Mul(Mul(a, b), c) == Mul(a, Mul(b, c))
  {
    hide Exp, Log;
    if a != 0 && b != 0 && c != 0 {
      var i, j, k := Log(a), Log(b), Log(c);
      LogInverse(a);
      LogInverse(b);
      LogInverse(c);
      MulOfPowers(i, j);
      MulOfPowers(j, k);
      MulOfPowers((i + j) % 31, k);
      MulOfPowers(i, (j + k) % 31);
      ExponentsAssociate(i, j, k);
    }
  }

  lemma ExponentsAssociate(i: nat, j: nat, k: nat)
    requires i < 31 && j < 31 && k < 31
    ensures ((i + j) % 31 + k) % 31 == (i + (j + k) % 31) % 31
  {
  }

  lemma MulOne(a: bv5)
    ensures Mul(1, a) == a && Mul(a, 1) == a
  {
    hide Exp, Log;
    if a != 0 {
      LogInverse(a);
      ExpEnds();
      MulOfPowers(0, Log(a));
      MulOfPowers(Log(a), 0);
    }
  }

  /** No zero divisors. */
  lemma MulNonzero(a: bv5, b: bv5)
    ensures Mul(a, b) == 0 <==> a == 0 || b == 0
  {
    hide Exp, Log;
    if a != 0 && b != 0 {
      ExpStep((Log(a) + Log(b)) % 31);
    }
  }

  // ----- the table product is the polynomial product -----

  lemma PolyMulDouble(a: bv5, b: bv5)
    ensures PolyMul(a, Double(b)) == Double(PolyMul(a, b))
  {
  }

  lemma PolyDistributes(a: bv5, b: bv5, c: bv5)
    ensures PolyMul(c, Add(a, b)) == Add(PolyMul(c, a), PolyMul(c, b))
  {
    hide Double, Term, Add;
    var c1 := Double(c);
    var c2 := Double(c1);
    var c3 := Double(c2);
    var c4 := Double(c3);
    TermIsLinear(a, b, 1, c);
    TermIsLinear(a, b, 2, c1);
    TermIsLinear(a, b, 4, c2);
    TermIsLinear(a, b, 8, c3);
    TermIsLinear(a, b, 16, c4);
    var a0, b0 := Term(a, 1, c), Term(b, 1, c);
    var a1, b1 := Add(a0, Term(a, 2, c1)), Add(b0, Term(b, 2, c1));
    var a2, b2 := Add(a1, Term(a, 4, c2)), Add(b1, Term(b, 4, c2));
    var a3, b3 := Add(a2, Term(a, 8, c3)), Add(b2, Term(b, 8, c3));
    AddRegroup(a0, b0, Term(a, 2, c1), Term(b, 2, c1));
    AddRegroup(a1, b1, Term(a, 4, c2), Term(b, 4, c2));
    AddRegroup(a2, b2, Term(a, 8, c3), Term(b, 8, c3));
    AddRegroup(a3, b3, Term(a, 16, c4), Term(b, 16, c4));
  }

  lemma TermIsLinear(a: bv5, b: bv5, bit: bv5, x: bv5)
    requires bit == 1 || bit == 2 || bit == 4 || bit == 8 || bit == 16
    ensures Term(Add(a, b), bit, x) == Add(Term(a, bit, x), Term(b, bit, x))
  {
  }

  lemma {:induction false} PolyMulOfPowers(a: bv5, j: nat)
    requires j < 31
    ensures PolyMul(a, Exp(j)) == Mul(a, Exp(j))
  {
    hide Exp, Log, PolyMul;
    ExpEnds();
    if j == 0 {
      assert PolyMul(a, 1) == a by { PolyMulByOne(a); }
      MulOne(a);
    } else {
      PolyMulOfPowers(a, j - 1);
      PolyMulDouble(a, Exp(j - 1));
      ExpStep(j - 1);
      MulDouble(a, Exp(j - 1));
    }
  }

  lemma PolyMulByOne(a: bv5)
    ensures PolyMul(a, 1) == a
  {
  }

  lemma MulDouble(a: bv5, b: bv5)
    ensures Mul(a, Double(b)) == Double(Mul(a, b))
  {
    hide Exp, Log, Mul, Double;
    MulZero(a, b);
    if a != 0 && b != 0 {
      var i, j := Log(a), Log(b);
      LogInverse(a);
      LogInverse(b);
      DoublePower(j);
      DoublePower((i + j) % 31);
      MulOfPowers(i, (j + 1) % 31);
      MulOfPowers(i, j);
      ShiftExponent(i, j);
    }
  }

  lemma MulZero(a: bv5, b: bv5)
    ensures Double(0) == 0 && (a == 0 || b == 0 ==> Mul(a, b) == 0) && (a == 0 ==> Mul(a, Double(b)) == 0)
    ensures Mul(a, 0) == 0
  {
  }

  lemma ShiftExponent(i: nat, j: nat)
    ensures (i + (j + 1) % 31) % 31 == ((i + j) % 31 + 1) % 31
  {
  }

  lemma DoublePower(j: nat)
    requires j < 31
    ensures Double(Exp(j)) == Exp((j + 1) % 31)
  {
    hide Exp;
    ExpStep(j);
    ExpEnds();
  }

  /** The table product is the polynomial product modulo x^5 + x^2 + 1, for every pair. */
  lemma TableIsPolynomialProduct(a: bv5, b: bv5)
    ensures Mul(a, b) == PolyMul(a, b)
  {
    hide Exp, Log;
    if b != 0 {
      LogInverse(b);
      PolyMulOfPowers(a, Log(b));
    }
  }

  lemma MulDistributes(a: bv5, b: bv5, c: bv5)
    ensures Mul(Add(a, b), c) == Add(Mul(a, c), Mul(b, c))
    ensures Mul(c, Add(a, b)) == Add(Mul(c, a), Mul(c, b))
  {
    hide Add, Mul, PolyMul;
    PolyDistributes(a, b, c);
    TableIsPolynomialProduct(c, Add(a, b));
    TableIsPolynomialProduct(c, a);
    TableIsPolynomialProduct(c, b);
    MulCommutes(Add(a, b), c);
    MulCommutes(a, c);
    MulCommutes(b, c);
  }
}
