/** The Reed-Solomon code behind NXT addresses (js/jay.ext.js:10): syndromes, the shift-register
    encoder, and the two facts the address format exists for: every encoded word passes the check,
    and two words that pass it differ in at least five symbols. */
module NxtCode {
  import opened Gf32

  const WORD_LENGTH := 17
  const MESSAGE_LENGTH := 13

  /** Exponent at which `ok` weighs symbol `i`: the code has 31 positions, of which 13..26 are skipped. */
  function Position(i: nat): (f: nat)
    requires i < WORD_LENGTH
    ensures f < 31
  {
    if i < MESSAGE_LENGTH then i else i + 14
  }

  function Locator(i: nat): bv5
    requires i < WORD_LENGTH
  {
    Exp(Position(i))
  }

  function Power(x: bv5, e: nat): bv5
  {
    if e == 0 then 1 else Mul(x, Power(x, e - 1))
  }

  /** The e-th syndrome of a (prefix of a) word: the sum of w[i] * Locator(i)^e. */
  function Syndrome(w: seq<bv5>, e: nat): bv5
    requires |w| <= WORD_LENGTH
  {
    if w == [] then 0 else
      var last := |w| - 1;
      Add(Syndrome(w[..last], e), Mul(w[last], Power(Locator(last), e)))
  }

  /** What `ok` decides: four zero syndromes. */
  ghost predicate IsCodeword(w: seq<bv5>)
  {
    |w| == WORD_LENGTH && forall e :: 1 <= e <= 4 ==> Syndrome(w, e) == 0
  }

  /** Number of nonzero symbols. */
  function Weight(w: seq<bv5>): nat
  {
    if w == [] then 0 else
      Weight(w[..|w| - 1]) + if w[|w| - 1] == 0 then 0 else 1
  }

  function Difference(a: seq<bv5>, b: seq<bv5>): (d: seq<bv5>)
    requires |a| == |b|
    ensures |d| == |a|
  {
    seq(|a|, i requires 0 <= i < |a| => Add(a[i], b[i]))
  }

  /** Number of places in which two words differ. */
  function Distance(a: seq<bv5>, b: seq<bv5>): nat
    requires |a| == |b|
  {
    if a == [] then 0 else
      Distance(a[..|a| - 1], b[..|b| - 1]) + if a[|a| - 1] == b[|b| - 1] then 0 else 1
  }

  // ----- powers of the locators -----

  lemma ModStep(i: nat, e: nat)
    requires e > 0
    ensures (i + i * (e - 1) % 31) % 31 == i * e % 31
  {
    var k := i * (e - 1);
    assert i * e == i + k;
    ModOfSum(i, k);
  }

  lemma ModOfSum(i: nat, k: nat)
    ensures (i + k % 31) % 31 == (i + k) % 31
  {
  }

  lemma {:induction false} PowerOfExp(i: nat, e: nat)
    requires i < 31
    ensures Power(Exp(i), e) == Exp(i * e % 31)
  {
    hide Exp, Mul;
    if e == 0 {
      ExpEnds();
    } else {
      PowerOfExp(i, e - 1);
      MulOfPowers(i, i * (e - 1) % 31);
      ModStep(i, e);
    }
  }

  /** x_i^e read the other way round: the e-th power of the generator, raised to the position. */
  lemma PowerSwaps(i: nat, e: nat)
    requires i < WORD_LENGTH && e < 31
    ensures Power(Locator(i), e) == Power(Exp(e), Position(i))
  {
    hide Exp;
    PowerOfExp(Position(i), e);
    PowerOfExp(e, Position(i));
    assert Position(i) * e == e * Position(i);
  }

  lemma LocatorsDiffer(i: nat, k: nat)
    requires i < WORD_LENGTH && k < WORD_LENGTH
    ensures Add(Locator(i), Locator(k)) == 0 <==> i == k
  {
    hide Exp, Log, Add;
    LogOfExp(Position(i));
    LogOfExp(Position(k));
    AddZero(Locator(i), Locator(k));
  }

  // ----- minimum distance -----

  /** Multiplies every symbol by (its locator + a): wipes the symbol located at `a`, no other. */
  function Scale(w: seq<bv5>, a: bv5): (r: seq<bv5>)
    requires |w| <= WORD_LENGTH
    ensures |r| == |w|
  {
    seq(|w|, i requires 0 <= i < |w| => Mul(w[i], Add(Locator(i), a)))
  }

  lemma TermOfScale(x: bv5, l: bv5, a: bv5, p: bv5)
    ensures Mul(Mul(x, Add(l, a)), p) == Add(Mul(x, Mul(l, p)), Mul(a, Mul(x, p)))
  {
    hide Add, Mul;
    calc {
      Mul(Mul(x, Add(l, a)), p);
    ==  { MulAssociates(x, Add(l, a), p); }
      Mul(x, Mul(Add(l, a), p));
    ==  { MulDistributes(l, a, p); }
      Mul(x, Add(Mul(l, p), Mul(a, p)));
    ==  { MulDistributes(Mul(l, p), Mul(a, p), x); }
      Add(Mul(x, Mul(l, p)), Mul(x, Mul(a, p)));
    ==  { MulAssociates(x, a, p); MulCommutes(x, a); MulAssociates(a, x, p); }
      Add(Mul(x, Mul(l, p)), Mul(a, Mul(x, p)));
    }
  }

  /** Scaling by (locator + a) turns two neighbouring syndromes into one. */
  lemma {:induction false} SyndromeOfScale(w: seq<bv5>, a: bv5, e: nat)
    requires |w| <= WORD_LENGTH
    ensures Syndrome(Scale(w, a), e) == Add(Syndrome(w, e + 1), Mul(a, Syndrome(w, e)))
  {
    hide Add, Mul, Locator;
    if w == [] {
      MulNonzero(a, 0);
      AddZero(0, 0);
    } else {
      var last := |w| - 1;
      var init := w[..last];
      var l, p := Locator(last), Power(Locator(last), e);
      assert Scale(w, a)[..last] == Scale(init, a);
      SyndromeOfScale(init, a, e);
      TermOfScale(w[last], l, a, p);
      AddRegroup(Syndrome(init, e + 1), Mul(a, Syndrome(init, e)),
                 Mul(w[last], Mul(l, p)), Mul(a, Mul(w[last], p)));
      MulDistributes(Syndrome(init, e), Mul(w[last], p), a);
    }
  }

  lemma {:induction false} WeightOfScale(w: seq<bv5>, k: nat)
    requires |w| <= WORD_LENGTH && k < WORD_LENGTH
    ensures Weight(Scale(w, Locator(k))) == Weight(w) - if k < |w| && w[k] != 0 then 1 else 0
  {
    hide Add, Mul, Locator;
    if w != [] {
      var last := |w| - 1;
      assert Scale(w, Locator(k))[..last] == Scale(w[..last], Locator(k));
      WeightOfScale(w[..last], k);
      LocatorsDiffer(last, k);
      MulNonzero(w[last], Add(Locator(last), Locator(k)));
    }
  }

  lemma {:induction false} WeightZero(w: seq<bv5>)
    ensures Weight(w) == 0 <==> forall i :: 0 <= i < |w| ==> w[i] == 0
  {
    if w != [] {
      WeightZero(w[..|w| - 1]);
    }
  }

  lemma {:induction false} SyndromeOfZero(w: seq<bv5>, e: nat)
    requires |w| <= WORD_LENGTH && forall i :: 0 <= i < |w| ==> w[i] == 0
    ensures Syndrome(w, e) == 0
  {
    hide Add, Mul, Locator;
    if w != [] {
      SyndromeOfZero(w[..|w| - 1], e);
      MulNonzero(0, Power(Locator(|w| - 1), e));
      AddZero(0, 0);
    }
  }

  lemma {:induction false} SyndromeOfSingle(w: seq<bv5>, k: nat)
    requires k < |w| <= WORD_LENGTH && forall i :: 0 <= i < |w| && i != k ==> w[i] == 0
    ensures Syndrome(w, 1) == Mul(w[k], Locator(k))
  {
    hide Add, Mul, Locator;
    var last := |w| - 1;
    var p := Power(Locator(last), 1);
    assert p == Locator(last) by {
      assert Power(Locator(last), 0) == 1;
      MulOne(Locator(last));
    }
    if k == last {
      SyndromeOfZero(w[..last], 1);
    } else {
      SyndromeOfSingle(w[..last], k);
      MulNonzero(0, p);
    }
    AddZero(Mul(w[k], Locator(k)), 0);
  }

  lemma LocatorNonzero(k: nat)
    requires k < WORD_LENGTH
    ensures Locator(k) != 0
  {
    hide Exp;
    ExpStep(Position(k));
  }

  /** A word of weight at most m whose syndromes 1..m all vanish is the zero word. */
  lemma {:induction false} LowWeightVanishes(w: seq<bv5>, m: nat)
    requires |w| <= WORD_LENGTH && Weight(w) <= m
    requires forall e :: 1 <= e <= m ==> Syndrome(w, e) == 0
    ensures forall i :: 0 <= i < |w| ==> w[i] == 0
    decreases m
  {
    hide Add, Mul, Locator;
    WeightZero(w);
    if k: nat :| k < |w| && w[k] != 0 {
      var a := Locator(k);
      var v := Scale(w, a);
      WeightOfScale(w, k);
      forall e | 1 <= e <= m - 1
        ensures Syndrome(v, e) == 0
      {
        SyndromeOfScale(w, a, e);
        MulNonzero(a, 0);
        AddZero(0, 0);
      }
      LowWeightVanishes(v, m - 1);
      forall i | 0 <= i < |w| && i != k
        ensures w[i] == 0
      {
        assert v[i] == 0;
        MulNonzero(w[i], Add(Locator(i), a));
        LocatorsDiffer(i, k);
      }
      SyndromeOfSingle(w, k);
      LocatorNonzero(k);
      MulNonzero(w[k], a);
      assert false;
    }
  }

  lemma {:induction false} SyndromeOfDifference(a: seq<bv5>, b: seq<bv5>, e: nat)
    requires |a| == |b| <= WORD_LENGTH
    ensures Syndrome(Difference(a, b), e) == Add(Syndrome(a, e), Syndrome(b, e))
  {
    hide Add, Mul, Locator;
    if a == [] {
      AddZero(0, 0);
    } else {
      var last := |a| - 1;
      var p := Power(Locator(last), e);
      assert Difference(a, b)[..last] == Difference(a[..last], b[..last]);
      SyndromeOfDifference(a[..last], b[..last], e);
      MulDistributes(a[last], b[last], p);
      AddRegroup(Syndrome(a[..last], e), Syndrome(b[..last], e), Mul(a[last], p), Mul(b[last], p));
    }
  }

  lemma {:induction false} WeightOfDifference(a: seq<bv5>, b: seq<bv5>)
    requires |a| == |b|
    ensures Weight(Difference(a, b)) == Distance(a, b)
  {
    hide Add;
    if a != [] {
      var last := |a| - 1;
      assert Difference(a, b)[..last] == Difference(a[..last], b[..last]);
      WeightOfDifference(a[..last], b[..last]);
      AddZero(a[last], b[last]);
    }
  }

  /** Minimum distance: two accepted words are equal or differ in at least five symbols. */
  lemma MinimumDistance(a: seq<bv5>, b: seq<bv5>)
    requires IsCodeword(a) && IsCodeword(b)
    ensures a == b || Distance(a, b) >= 5
  {
    hide Add, Syndrome;
    if Distance(a, b) <= 4 {
      var d := Difference(a, b);
      forall e | 1 <= e <= 4
        ensures Syndrome(d, e) == 0
      {
        SyndromeOfDifference(a, b, e);
        AddZero(0, 0);
      }
      WeightOfDifference(a, b);
      LowWeightVanishes(d, 4);
      forall i | 0 <= i < |a|
        ensures a[i] == b[i]
      {
        assert d[i] == 0;
        AddZero(a[i], b[i]);
      }
    }
  }

  lemma {:induction false} DistanceOfEdit(a: seq<bv5>, b: seq<bv5>, i: nat, j: nat)
    requires |a| == |b| && i < |a| && j < |a|
    requires forall k :: 0 <= k < |a| && k != i && k != j ==> a[k] == b[k]
    ensures Distance(a, b) <= 2
  {
    if i == |a| - 1 || j == |a| - 1 {
      var init, init' := a[..|a| - 1], b[..|a| - 1];
      if i < |a| - 1 {
        DistanceOfSingleEdit(init, init', i);
      } else if j < |a| - 1 {
        DistanceOfSingleEdit(init, init', j);
      } else {
        DistanceOfEqual(init);
        assert init == init';
      }
    } else {
      DistanceOfEdit(a[..|a| - 1], b[..|a| - 1], i, j);
    }
  }

  lemma {:induction false} DistanceOfSingleEdit(a: seq<bv5>, b: seq<bv5>, i: nat)
    requires |a| == |b| && i < |a|
    requires forall k :: 0 <= k < |a| && k != i ==> a[k] == b[k]
    ensures Distance(a, b) <= 1
  {
    if i == |a| - 1 {
      assert a[..i] == b[..i];
      DistanceOfEqual(a[..i]);
    } else {
      DistanceOfSingleEdit(a[..|a| - 1], b[..|a| - 1], i);
    }
  }

  lemma {:induction false} DistanceOfEqual(a: seq<bv5>)
    ensures Distance(a, a) == 0
  {
    if a != [] {
      DistanceOfEqual(a[..|a| - 1]);
    }
  }

  /** Exchanging two unequal symbols of an accepted word, at any two places, is always noticed. */
  lemma SwapIsDetected(a: seq<bv5>, i: nat, j: nat)
    requires IsCodeword(a) && i < |a| && j < |a| && a[i] != a[j]
    ensures !IsCodeword(a[i := a[j]][j := a[i]])
  {
    var b := a[i := a[j]][j := a[i]];
    if IsCodeword(b) {
      assert b[i] == a[j];
      DistanceOfEdit(a, b, i, j);
      MinimumDistance(a, b);
    }
  }

  // ----- the encoder -----

  /** The four cells of the encoder's shift register. */
  datatype Register = Register(r0: bv5, r1: bv5, r2: bv5, r3: bv5)

  /** One turn of the loop in function `i`, for the message symbol `x`. */
  function Shift(r: Register, x: bv5): Register
  {
    var f := Add(x, r.r3);
    Register(Mul(17, f), Add(r.r0, Mul(9, f)), Add(r.r1, Mul(6, f)), Add(r.r2, Mul(30, f)))
  }

  /** The register after the symbols 12, 11, ..., k. */
  function Run(u: seq<bv5>, k: nat): Register
    requires k <= MESSAGE_LENGTH <= |u|
    decreases MESSAGE_LENGTH - k
  {
    if k == MESSAGE_LENGTH then Register(0, 0, 0, 0) else Shift(Run(u, k + 1), u[k])
  }

  /** A message with its four parity symbols. */
  function Encode(m: seq<bv5>): (w: seq<bv5>)
    requires |m| == MESSAGE_LENGTH
    ensures |w| == WORD_LENGTH && w[..MESSAGE_LENGTH] == m
  {
    var r := Run(m, 0);
    m + [r.r0, r.r1, r.r2, r.r3]
  }

  /** a is a root of x^4 + 30x^3 + 6x^2 + 9x + 17, the polynomial wired into the encoder. */
  predicate IsRoot(a: bv5)
  {
    Power(a, 4) == Horner(17, 9, 6, 30, a)
  }

  function Horner(c0: bv5, c1: bv5, c2: bv5, c3: bv5, a: bv5): bv5
  {
    Add(c0, Mul(a, Add(c1, Mul(a, Add(c2, Mul(a, c3))))))
  }

  function RegisterValue(r: Register, a: bv5): bv5
  {
    Horner(r.r0, r.r1, r.r2, r.r3, a)
  }

  /** The polynomial with coefficients u[k], u[k+1], ..., u[12], evaluated at a. */
  function MessageValue(u: seq<bv5>, a: bv5, k: nat): bv5
    requires k <= MESSAGE_LENGTH <= |u|
    decreases MESSAGE_LENGTH - k
  {
    if k == MESSAGE_LENGTH then 0 else Add(u[k], Mul(a, MessageValue(u, a, k + 1)))
  }

  lemma HornerAdds(c0: bv5, c1: bv5, c2: bv5, c3: bv5, d0: bv5, d1: bv5, d2: bv5, d3: bv5, a: bv5)
    ensures Horner(Add(c0, d0), Add(c1, d1), Add(c2, d2), Add(c3, d3), a)
         == Add(Horner(c0, c1, c2, c3, a), Horner(d0, d1, d2, d3, a))
  {
    hide Add, Mul;
    var c', d' := Mul(a, c3), Mul(a, d3);
    MulDistributes(c3, d3, a);
    AddRegroup(c2, d2, c', d');
    var c'', d'' := Add(c2, c'), Add(d2, d');
    MulDistributes(c'', d'', a);
    AddRegroup(c1, d1, Mul(a, c''), Mul(a, d''));
    var e, f := Add(c1, Mul(a, c'')), Add(d1, Mul(a, d''));
    MulDistributes(e, f, a);
    AddRegroup(c0, d0, Mul(a, e), Mul(a, f));
  }

  lemma FactorOut(c: bv5, x: bv5, f: bv5, a: bv5)
    ensures Add(Mul(c, f), Mul(a, Mul(x, f))) == Mul(Add(c, Mul(a, x)), f)
  {
    hide Add, Mul;
    MulDistributes(c, Mul(a, x), f);
    MulAssociates(a, x, f);
  }

  lemma HornerScales(c0: bv5, c1: bv5, c2: bv5, c3: bv5, f: bv5, a: bv5)
    ensures Horner(Mul(c0, f), Mul(c1, f), Mul(c2, f), Mul(c3, f), a)
         == Mul(Horner(c0, c1, c2, c3, a), f)
  {
    hide Add, Mul;
    FactorOut(c2, c3, f, a);
    FactorOut(c1, Add(c2, Mul(a, c3)), f, a);
    FactorOut(c0, Add(c1, Mul(a, Add(c2, Mul(a, c3)))), f, a);
  }

  lemma PowerFour(a: bv5, x: bv5)
    ensures Mul(a, Mul(a, Mul(a, Mul(a, x)))) == Mul(Power(a, 4), x)
  {
    hide Mul;
    var p2 := Power(a, 2);
    assert Power(a, 1) == Mul(a, Power(a, 0)) == a by { MulOne(a); }
    assert p2 == Mul(a, a);
    var p3 := Power(a, 3);
    assert p3 == Mul(a, p2);
    assert Power(a, 4) == Mul(a, p3);
    MulAssociates(a, a, x);
    MulAssociates(a, p2, x);
    MulAssociates(a, p3, x);
  }

  /** Shifting the register up one cell multiplies it by a, except for the cell that falls out. */
  lemma HornerShifts(r: Register, a: bv5)
    ensures Horner(0, r.r0, r.r1, r.r2, a) == Add(Mul(a, RegisterValue(r, a)), Mul(Power(a, 4), r.r3))
  {
    hide Add, Mul, Power;
    var top := Mul(a, r.r3);
    var low := Horner(r.r0, r.r1, r.r2, 0, a);
    MulNonzero(a, 0);
    AddZero(r.r2, 0);
    AddZero(Mul(a, low), 0);
    AddZero(r.r0, 0);
    AddZero(r.r1, 0);
    AddZero(0, 0);
    AddZero(r.r3, 0);
    // RegisterValue == low + a^3 r3
    HornerAdds(r.r0, r.r1, r.r2, 0, 0, 0, 0, r.r3, a);
    var cube := Mul(a, Mul(a, Mul(a, r.r3)));
    AddZero(Mul(a, r.r3), 0);
    AddZero(Mul(a, Mul(a, r.r3)), 0);
    AddZero(cube, 0);
    assert RegisterValue(r, a) == Add(low, cube);
    MulDistributes(low, cube, a);
    PowerFour(a, r.r3);
    var q := Mul(Power(a, 4), r.r3);
    AddAssociates(Mul(a, low), q, q);
    AddZero(q, q);
  }

  lemma {:induction false} ShiftInvariant(r: Register, x: bv5, a: bv5)
    requires IsRoot(a)
    ensures RegisterValue(Shift(r, x), a) == Add(Mul(a, RegisterValue(r, a)), Mul(Power(a, 4), x))
  {
    hide Add, Mul, Power, Horner;
    var f := Add(x, r.r3);
    var p := Power(a, 4);
    HornerAdds(0, r.r0, r.r1, r.r2, Mul(17, f), Mul(9, f), Mul(6, f), Mul(30, f), a);
    AddZero(Mul(17, f), 0);
    HornerScales(17, 9, 6, 30, f, a);
    HornerShifts(r, a);
    var s := Mul(a, RegisterValue(r, a));
    MulDistributes(x, r.r3, p);
    var px, pr := Mul(p, x), Mul(p, r.r3);
    assert RegisterValue(Shift(r, x), a) == Add(Add(s, pr), Add(px, pr));
    AddRegroup(s, pr, px, pr);
    AddZero(pr, pr);
    AddZero(Add(s, px), 0);
  }

  /** The loop invariant of the encoder: the register holds x^4 times the message so far. */
  lemma {:induction false} RunInvariant(u: seq<bv5>, a: bv5, k: nat)
    requires k <= MESSAGE_LENGTH <= |u| && IsRoot(a)
    ensures RegisterValue(Run(u, k), a) == Mul(Power(a, 4), MessageValue(u, a, k))
    decreases MESSAGE_LENGTH - k
  {
    hide Add, Mul, Power, Shift;
    var p := Power(a, 4);
    if k == MESSAGE_LENGTH {
      MulNonzero(a, 0);
      AddZero(0, 0);
      MulNonzero(p, 0);
    } else {
      RunInvariant(u, a, k + 1);
      ShiftInvariant(Run(u, k + 1), u[k], a);
      var m := MessageValue(u, a, k + 1);
      MulAssociates(a, p, m);
      MulCommutes(a, p);
      MulAssociates(p, a, m);
      AddCommutes(Mul(p, Mul(a, m)), Mul(p, u[k]));
      MulDistributes(u[k], Mul(a, m), p);
    }
  }

  lemma ExpValues()
    ensures Exp(1) == 2 && Exp(2) == 4 && Exp(3) == 8 && Exp(4) == 16
  {
  }

  lemma RootFromProducts(a: bv5, p2: bv5, p3: bv5, p4: bv5, x1: bv5, x2: bv5, x3: bv5)
    requires PolyMul(a, a) == p2 && PolyMul(a, p2) == p3 && PolyMul(a, p3) == p4
    requires PolyMul(a, 30) == x1 && PolyMul(a, Add(6, x1)) == x2 && PolyMul(a, Add(9, x2)) == x3
    requires Add(17, x3) == p4
    ensures IsRoot(a)
  {
    hide Add, Mul, PolyMul;
    TableIsPolynomialProduct(a, a);
    TableIsPolynomialProduct(a, p2);
    TableIsPolynomialProduct(a, p3);
    TableIsPolynomialProduct(a, 30);
    TableIsPolynomialProduct(a, Add(6, x1));
    TableIsPolynomialProduct(a, Add(9, x2));
    assert Power(a, 0) == 1;
    MulOne(a);
    assert Power(a, 1) == a;
    assert Power(a, 2) == p2;
    assert Power(a, 3) == p3;
  }

  /** The generator polynomial vanishes at the four points at which `ok` checks a word. */
  lemma RootsOfGenerator(e: nat)
    requires 1 <= e <= 4
    ensures IsRoot(Exp(e))
  {
    hide Exp, Mul, IsRoot;
    ExpValues();
    match e
    case 1 => RootFromProducts(2, 4, 8, 16, 25, 27, 1);
    case 2 => RootFromProducts(4, 16, 10, 13, 23, 14, 28);
    case 3 => RootFromProducts(8, 10, 26, 14, 11, 7, 31);
    case 4 => RootFromProducts(16, 13, 14, 27, 22, 13, 10);
  }

  // ----- encoded words are codewords -----

  /** The first 13 terms of a syndrome are the message polynomial. */
  lemma {:induction false} SyndromeOfMessage(w: seq<bv5>, e: nat, k: nat)
    requires k <= MESSAGE_LENGTH <= |w| && 1 <= e <= 4
    ensures Add(Syndrome(w[..k], e), Mul(Power(Exp(e), k), MessageValue(w, Exp(e), k)))
         == MessageValue(w, Exp(e), 0)
  {
    hide Add, Mul, Exp;
    var a := Exp(e);
    if k == 0 {
      assert Power(a, 0) == 1;
      MulOne(MessageValue(w, a, 0));
      AddZero(MessageValue(w, a, 0), 0);
    } else {
      var i := k - 1;
      SyndromeOfMessage(w, e, i);
      PowerSwaps(i, e);
      var p, m := Power(a, i), MessageValue(w, a, k);
      assert w[..k][..i] == w[..i];
      MulDistributes(w[i], Mul(a, m), p);
      MulCommutes(w[i], p);
      MulAssociates(p, a, m);
      MulCommutes(p, a);
      assert Power(a, k) == Mul(a, p);
      AddAssociates(Syndrome(w[..i], e), Mul(w[i], p), Mul(Power(a, k), m));
    }
  }

  lemma PowerSucc(a: bv5, n: nat, x: bv5)
    ensures Mul(x, Power(a, n + 1)) == Mul(Power(a, n), Mul(a, x))
  {
    hide Mul;
    var p := Power(a, n);
    MulCommutes(x, Power(a, n + 1));
    MulCommutes(a, p);
    MulAssociates(p, a, x);
  }

  /** The last four terms of a syndrome are x^27 times the parity polynomial. */
  lemma SyndromeOfParity(w: seq<bv5>, e: nat)
    requires |w| == WORD_LENGTH && 1 <= e <= 4
    ensures Syndrome(w, e)
         == Add(Syndrome(w[..MESSAGE_LENGTH], e),
                Mul(Power(Exp(e), 27), Horner(w[13], w[14], w[15], w[16], Exp(e))))
  {
    hide Add, Mul, Exp, Power, Locator;
    var a := Exp(e);
    PowerSwaps(13, e);
    PowerSwaps(14, e);
    PowerSwaps(15, e);
    PowerSwaps(16, e);
    var p := Power(a, 27);
    var s13 := Syndrome(w[..13], e);
    var s14 := Add(s13, Mul(w[13], Power(a, 27)));
    var s15 := Add(s14, Mul(w[14], Power(a, 28)));
    var s16 := Add(s15, Mul(w[15], Power(a, 29)));
    assert w[..14][..13] == w[..13] && Syndrome(w[..14], e) == s14;
    assert w[..15][..14] == w[..14] && Syndrome(w[..15], e) == s15;
    assert w[..16][..15] == w[..15] && Syndrome(w[..16], e) == s16;
    assert Syndrome(w, e) == Add(s16, Mul(w[16], Power(a, 30)));
    ParityTerms(s13, w[13], w[14], w[15], w[16], a, p);
    MulCommutes(w[13], p);
    PowerSucc(a, 27, w[14]);
    PowerSucc(a, 28, w[15]);
    PowerSucc(a, 27, Mul(a, w[15]));
    MulCommutes(Mul(a, w[15]), Power(a, 28));
    PowerSucc(a, 29, w[16]);
    PowerSucc(a, 28, Mul(a, w[16]));
    MulCommutes(Mul(a, w[16]), Power(a, 29));
    PowerSucc(a, 27, Mul(a, Mul(a, w[16])));
    MulCommutes(Mul(a, Mul(a, w[16])), Power(a, 28));
  }

  lemma ParityTerms(s: bv5, c0: bv5, c1: bv5, c2: bv5, c3: bv5, a: bv5, p: bv5)
    ensures Add(Add(Add(Add(s, Mul(p, c0)), Mul(p, Mul(a, c1))), Mul(p, Mul(a, Mul(a, c2)))),
                Mul(p, Mul(a, Mul(a, Mul(a, c3)))))
         == Add(s, Mul(p, Horner(c0, c1, c2, c3, a)))
  {
    hide Add, Mul;
    var t1, t2, t3 := Mul(a, c1), Mul(a, Mul(a, c2)), Mul(a, Mul(a, Mul(a, c3)));
    MulDistributes(c2, Mul(a, c3), a);
    MulDistributes(c1, Mul(a, Add(c2, Mul(a, c3))), a);
    MulDistributes(Mul(a, c2), Mul(a, Mul(a, c3)), a);
    assert Horner(c0, c1, c2, c3, a) == Add(c0, Add(t1, Add(t2, t3)));
    MulDistributes(c0, Add(t1, Add(t2, t3)), p);
    MulDistributes(t1, Add(t2, t3), p);
    MulDistributes(t2, t3, p);
    var q0, q1, q2, q3 := Mul(p, c0), Mul(p, t1), Mul(p, t2), Mul(p, t3);
    AddAssociates(s, q0, q1);
    AddAssociates(s, Add(q0, q1), q2);
    AddAssociates(s, Add(Add(q0, q1), q2), q3);
    AddAssociates(q0, q1, q2);
    AddAssociates(q0, Add(q1, q2), q3);
    AddAssociates(q1, q2, q3);
  }

  lemma PowersWrap(e: nat, x: bv5)
    requires 1 <= e <= 4
    ensures Mul(Power(Exp(e), 27), Mul(Power(Exp(e), 4), x)) == x
  {
    hide Exp, Mul, Power;
    PowerOfExp(e, 27);
    PowerOfExp(e, 4);
    MulOfPowers(e * 27 % 31, e * 4 % 31);
    assert (e * 27 % 31 + e * 4 % 31) % 31 == 0;
    ExpEnds();
    MulAssociates(Power(Exp(e), 27), Power(Exp(e), 4), x);
    MulOne(x);
  }

  /** Whatever the message, the encoder's word has all four syndromes zero. */
  lemma EncodeIsCodeword(m: seq<bv5>)
    requires |m| == MESSAGE_LENGTH
    ensures IsCodeword(Encode(m))
  {
    hide Add, Mul, Exp, Power, Syndrome, Horner, IsRoot;
    var w := Encode(m);
    forall e | 1 <= e <= 4
      ensures Syndrome(w, e) == 0
    {
      var a := Exp(e);
      var v := MessageValue(m, a, 0);
      SyndromeOfParity(w, e);
      RootsOfGenerator(e);
      RunInvariant(m, a, 0);
      PowersWrap(e, v);
      SyndromeOfMessage(m, e, MESSAGE_LENGTH);
      assert m[..MESSAGE_LENGTH] == m;
      MulNonzero(Power(a, MESSAGE_LENGTH), 0);
      AddZero(Syndrome(m, e), 0);
      AddZero(v, v);
    }
  }

  lemma {:induction false} DistanceOfSuffix(a: seq<bv5>, b: seq<bv5>, n: nat)
    requires |a| == |b| && n <= |a| && a[..n] == b[..n]
    ensures Distance(a, b) <= |a| - n
  {
    if |a| == n {
      assert a == a[..n] && b == b[..n];
      DistanceOfEqual(a);
    } else {
      var last := |a| - 1;
      assert a[..last][..n] == a[..n] && b[..last][..n] == b[..n];
      DistanceOfSuffix(a[..last], b[..last], n);
    }
  }

  /** The check accepts a word exactly when its last four symbols are the ones the encoder computes. */
  lemma CodewordIffEncoded(w: seq<bv5>)
    requires |w| == WORD_LENGTH
    ensures IsCodeword(w) <==> w == Encode(w[..MESSAGE_LENGTH])
  {
    hide IsCodeword;
    var c := Encode(w[..MESSAGE_LENGTH]);
    EncodeIsCodeword(w[..MESSAGE_LENGTH]);
    if IsCodeword(w) {
      DistanceOfSuffix(w, c, MESSAGE_LENGTH);
      MinimumDistance(w, c);
    }
  }
}
