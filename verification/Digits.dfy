/** Positional notation: big-endian digit sequences, their values, and the in-place long division
    with which js/jay.ext.js:10 changes the base of an account number. */
module Digits {
  import opened Common

  predicate AreDigits(base: nat, ds: seq<nat>)
  {
    forall i :: 0 <= i < |ds| ==> ds[i] < base
  }

  /** The number written by `ds`, most significant digit first. */
  function Value(base: nat, ds: seq<nat>): nat
  {
    if ds == [] then 0 else Value(base, ds[..|ds| - 1]) * base + ds[|ds| - 1]
  }

  /** The digits of n without leading zeros; none at all for 0. */
  function ToDigits(base: nat, n: nat): (ds: seq<nat>)
    requires base >= 2
  {
    if n == 0 then [] else
      DivShrinks(n, base);
      ToDigits(base, n / base) + [n % base]
  }

  lemma DivShrinks(n: nat, base: nat)
    requires base >= 2 && n > 0
    ensures n / base < n
  {
    var q := n / base;
    if q >= n {
      assert base * q >= 2 * q by { MulMono(2, base, q); }
    }
  }

  lemma MulMono(a: nat, b: nat, c: nat)
    requires a <= b
    ensures a * c <= b * c
  {
  }

  /** Division with remainder is unique. */
  lemma DivModUnique(q: nat, d: nat, r: nat)
    requires r < d
    ensures (q * d + r) / d == q && (q * d + r) % d == r
  {
    var n := q * d + r;
    var q', r' := n / d, n % d;
    assert q' * d + r' == n;
    if q' < q {
      MulMono(q' + 1, q, d);
    } else if q' > q {
      MulMono(q + 1, q', d);
    }
  }

  /** Appending a digit: the inverse of splitting one off. */
  lemma PushDigit(base: nat, n: nat, d: nat)
    requires base >= 2 && d < base
    ensures ToDigits(base, n * base + d) == if n == 0 && d == 0 then [] else ToDigits(base, n) + [d]
  {
    DivModUnique(n, base, d);
    if n != 0 {
      MulMono(1, base, n);
    }
  }

  lemma AppendDigit(base: nat, ds: seq<nat>, d: nat)
    ensures Value(base, ds + [d]) == Value(base, ds) * base + d
  {
    assert (ds + [d])[..|ds|] == ds;
  }

  lemma {:induction false} ToDigitsProperties(base: nat, n: nat)
    requires base >= 2
    ensures AreDigits(base, ToDigits(base, n))
    ensures Value(base, ToDigits(base, n)) == n
    ensures n > 0 ==> ToDigits(base, n) != [] && ToDigits(base, n)[0] != 0
  {
    if n != 0 {
      DivShrinks(n, base);
      DivMod(n, base);
      ToDigitsProperties(base, n / base);
      SplitOff(base, n);
    }
  }

  /** From the digits of the quotient to those of the number. */
  lemma SplitOff(base: nat, n: nat)
    requires base >= 2 && n > 0 && n == n / base * base + n % base && n % base < base
    requires AreDigits(base, ToDigits(base, n / base)) && Value(base, ToDigits(base, n / base)) == n / base
    requires n / base > 0 ==> ToDigits(base, n / base) != [] && ToDigits(base, n / base)[0] != 0
    ensures AreDigits(base, ToDigits(base, n)) && Value(base, ToDigits(base, n)) == n
    ensures ToDigits(base, n) != [] && ToDigits(base, n)[0] != 0
  {
    hide ToDigits, Value;
    var q, r := n / base, n % base;
    var ds := ToDigits(base, q);
    LastDigit(base, n);
    AppendDigit(base, ds, r);
    NoDigitsIffZero(base, q);
  }

  lemma LastDigit(base: nat, n: nat)
    requires base >= 2 && n > 0
    ensures ToDigits(base, n) == ToDigits(base, n / base) + [n % base]
  {
  }

  /** Digit sequences without leading zeros are in bijection with the numbers. */
  lemma {:induction false} ToDigitsOfValue(base: nat, ds: seq<nat>)
    requires base >= 2 && AreDigits(base, ds)
    requires ds == [] || ds[0] != 0
    ensures ToDigits(base, Value(base, ds)) == ds
  {
    hide ToDigits;
    if ds == [] {
      NoDigitsIffZero(base, 0);
    } else {
      var init, d := ds[..|ds| - 1], ds[|ds| - 1];
      ToDigitsOfValue(base, init);
      NoDigitsIffZero(base, Value(base, init));
      PushDigit(base, Value(base, init), d);
      assert ds == init + [d];
    }
  }

  function Zeros(n: nat): (z: seq<nat>)
    ensures |z| == n && forall i :: 0 <= i < n ==> z[i] == 0
  {
    seq(n, _ => 0)
  }

  lemma {:induction false} LeadingZeros(base: nat, n: nat, ds: seq<nat>)
    ensures Value(base, Zeros(n) + ds) == Value(base, ds)
  {
    var all := Zeros(n) + ds;
    if ds != [] {
      assert all[..|all| - 1] == Zeros(n) + ds[..|ds| - 1];
      LeadingZeros(base, n, ds[..|ds| - 1]);
    } else if n > 0 {
      assert all[..|all| - 1] == Zeros(n - 1) + ds;
      LeadingZeros(base, n - 1, ds);
    }
  }

  lemma BoundStep(v: nat, p: nat, base: nat, d: nat)
    requires v < p && d < base
    ensures v * base + d < base * p
  {
    MulMono(v + 1, p, base);
  }

  lemma {:induction false} ValueBound(base: nat, ds: seq<nat>)
    requires base >= 2 && AreDigits(base, ds)
    ensures Value(base, ds) < Pow(base, |ds|)
  {
    if ds != [] {
      var init := ds[..|ds| - 1];
      ValueBound(base, init);
      BoundStep(Value(base, init), Pow(base, |init|), base, ds[|ds| - 1]);
    }
  }

  /** A number below base^k has at most k digits. */
  lemma {:induction false} DigitCount(base: nat, n: nat, k: nat)
    requires base >= 2 && n < Pow(base, k)
    ensures |ToDigits(base, n)| <= k
    decreases k
  {
    if n > 0 {
      var q := n / base;
      if q >= Pow(base, k - 1) {
        MulMono(Pow(base, k - 1), q, base);
        assert false;
      }
      DigitCount(base, q, k - 1);
    }
  }

  // ----- single digits -----

  /** The i-th digit of n, counted from the lowest. */
  function DigitAt(base: nat, n: nat, i: nat): (d: nat)
    requires base >= 2
    ensures d < base
  {
    PowPositive(base, i);
    n / Pow(base, i) % base
  }

  lemma LowestDigit(base: nat, n: nat)
    requires base >= 2
    ensures DigitAt(base, n, 0) == n % base
  {
    assert Pow(base, 0) == 1;
  }

  lemma NextDigit(base: nat, n: nat, i: nat)
    requires base >= 2 && i > 0
    ensures DigitAt(base, n, i) == DigitAt(base, n / base, i - 1)
  {
    PowPositive(base, i - 1);
    DivTwice(n, base, Pow(base, i - 1));
  }

  lemma DivTwice(n: nat, d: nat, p: nat)
    requires d > 0 && p > 0
    ensures d * p > 0 && n / d / p == n / (d * p)
  {
    var q := n / d;
    DivMod(n, d);
    DivMod(q, p);
    TwoDivisions(q / p, p, q % p, d, n % d);
  }

  lemma DivMod(n: nat, d: nat)
    requires d > 0
    ensures n == n / d * d + n % d && n % d < d
  {
  }

  lemma TwoDivisions(a: nat, p: nat, b: nat, d: nat, r: nat)
    requires b < p && r < d
    ensures d * p > 0 && ((a * p + b) * d + r) / (d * p) == a
  {
    Nested(a, p, b, d, r);
    InnerRest(b, p, d, r);
    DivModUnique(a, d * p, b * d + r);
  }

  lemma InnerRest(b: nat, p: nat, d: nat, r: nat)
    requires b < p && r < d
    ensures b * d + r < d * p
  {
    MulMono(b + 1, p, d);
  }

  lemma Nested(a: nat, p: nat, b: nat, d: nat, r: nat)
    ensures (a * p + b) * d + r == a * (d * p) + (b * d + r)
  {
    assert (a * p + b) * d == a * p * d + b * d;
    assert a * p * d == a * (d * p);
  }

  /** The digits of the notation without leading zeros, one by one. */
  lemma {:induction false} ToDigitsAt(base: nat, n: nat, i: nat)
    requires base >= 2
    ensures var ds := ToDigits(base, n);
            DigitAt(base, n, i) == if i < |ds| then ds[|ds| - 1 - i] else 0
    decreases i
  {
    hide DigitAt;
    if i == 0 {
      LowestDigit(base, n);
    } else {
      NextDigit(base, n, i);
      if n > 0 {
        DivShrinks(n, base);
      }
      ToDigitsAt(base, n / base, i - 1);
    }
  }

  function Reverse<T>(s: seq<T>): (r: seq<T>)
    ensures |r| == |s| && forall i :: 0 <= i < |s| ==> r[i] == s[|s| - 1 - i]
  {
    seq(|s|, i requires 0 <= i < |s| => s[|s| - 1 - i])
  }

  // ----- long division -----

  /** Bringing down the next digit `x` of the dividend. */
  lemma BringDown(base: nat, divisor: nat, v: nat, x: nat)
    requires base >= 2 && divisor >= 2 && x < base
    ensures var a := base * (v % divisor) + x;
            && (v * base + x) / divisor == v / divisor * base + a / divisor
            && (v * base + x) % divisor == a % divisor
            && a / divisor < base
  {
    var q, r := v / divisor, v % divisor;
    var a := base * r + x;
    var q', r' := a / divisor, a % divisor;
    QuotientIsDigit(base, divisor, r, x);
    assert q * divisor + r == v;
    assert q' * divisor + r' == a;
    Regroup(base, divisor, q, r, x, q', r');
  }

  lemma QuotientIsDigit(base: nat, divisor: nat, r: nat, x: nat)
    requires r < divisor && x < base
    ensures (base * r + x) / divisor < base
  {
    var a := base * r + x;
    var q := a / divisor;
    if q >= base {
      MulMono(base, q, divisor);
      MulMono(r + 1, divisor, base);
    }
  }

  lemma Regroup(base: nat, divisor: nat, q: nat, r: nat, x: nat, q': nat, r': nat)
    requires base * r + x == q' * divisor + r' && r' < divisor
    ensures ((q * divisor + r) * base + x) / divisor == q * base + q'
    ensures ((q * divisor + r) * base + x) % divisor == r'
  {
    Distribute(q, divisor, r, base);
    SumOfMultiples(q * base, q', divisor);
    DivModUnique(q * base + q', divisor, r');
  }

  lemma Distribute(q: nat, d: nat, r: nat, base: nat)
    ensures (q * d + r) * base == (q * base) * d + base * r
  {
    assert (q * d + r) * base == q * d * base + r * base;
    assert q * d * base == q * base * d;
  }

  lemma SumOfMultiples(a: nat, b: nat, d: nat)
    ensures a * d + b * d == (a + b) * d
  {
  }

  /** What one turn of the division loop does to the quotient and the remainder. */
  lemma DivisionStep(base: nat, divisor: nat, v: nat, x: nat)
    requires base >= 2 && divisor >= 2 && x < base
    ensures var a := base * (v % divisor) + x;
            var quotient := ToDigits(base, v / divisor);
            && ToDigits(base, (v * base + x) / divisor)
               == (if a >= divisor then quotient + [a / divisor]
                   else if |quotient| > 0 then quotient + [0] else quotient)
            && (v * base + x) % divisor == if a >= divisor then a % divisor else a
  {
    hide ToDigits;
    var a := base * (v % divisor) + x;
    BringDown(base, divisor, v, x);
    PushDigit(base, v / divisor, a / divisor);
    SmallDiv(a, divisor);
    NoDigitsIffZero(base, v / divisor);
  }

  lemma NoDigitsIffZero(base: nat, v: nat)
    requires base >= 2
    ensures ToDigits(base, v) == [] <==> v == 0
  {
  }

  /** One pass of the long division: the first `n` cells of `t` hold a number in the given base and
      are overwritten, in place, by its quotient without leading zeros; `size` is the quotient's
      length. The two inner loops of the source are this one with (10, 32) and (32, 10). */
  method LongDivide(t: array<nat>, n: nat, base: nat, divisor: nat) returns (size: nat, rem: nat)
    requires n <= t.Length && base >= 2 && divisor >= 2
    requires AreDigits(base, t[..n])
    modifies t
    ensures size <= n
    ensures t[..size] == ToDigits(base, old(Value(base, t[..n])) / divisor)
    ensures rem == old(Value(base, t[..n])) % divisor
  {
    hide Value, ToDigits;
    ghost var was := t[..n];
    ghost var v := 0;
    var a, s := 0, 0;
    DivModUnique(0, divisor, 0);
    EmptyNumber(base);
    for o := 0 to n
      invariant s <= o
      invariant t[o..n] == was[o..]
      invariant v == Value(base, was[..o])
      invariant t[..s] == ToDigits(base, v / divisor)
      invariant a == v % divisor
    {
      assert t[o] == t[o..n][0] == was[o];
      assert was[..o + 1] == was[..o] + [was[o]];
      AppendDigit(base, was[..o], was[o]);
      DivisionStep(base, divisor, v, was[o]);
      a := base * a + t[o];
      v := v * base + was[o];
      if a >= divisor {
        t[s] := a / divisor;
        a := a % divisor;
        s := s + 1;
      } else if s > 0 {
        t[s] := 0;
        s := s + 1;
      }
      assert t[o + 1..n] == was[o + 1..];
    }
    assert was[..n] == was;
    size, rem := s, a;
  }

  lemma EmptyNumber(base: nat)
    requires base >= 2
    ensures Value(base, []) == 0 && ToDigits(base, 0) == []
  {
  }

  lemma SmallDiv(a: nat, d: nat)
    requires d >= 1
    ensures a < d ==> a / d == 0 && a % d == a
    ensures a >= d ==> a / d > 0
  {
    if a < d {
      DivModUnique(0, d, a);
    } else {
      assert a == a / d * d + a % d;
    }
  }

  /** The digits of n as the source's do-while loops produce them: 0 still has one digit. */
  function Numeral(base: nat, n: nat): seq<nat>
    requires base >= 2
  {
    if n == 0 then [0] else ToDigits(base, n)
  }

  lemma NumeralProperties(base: nat, n: nat)
    requires base >= 2
    ensures AreDigits(base, Numeral(base, n)) && Value(base, Numeral(base, n)) == n
  {
    ToDigitsProperties(base, n);
    AppendDigit(base, [], 0);
  }

  lemma ReverseAppend<T>(s: seq<T>, x: T)
    ensures Reverse(s + [x]) == [x] + Reverse(s)
  {
  }

  lemma NumeralStep(base: nat, n: nat)
    requires base >= 2
    ensures Numeral(base, n) == ToDigits(base, n / base) + [n % base]
  {
    if n == 0 {
      DivModUnique(0, base, 0);
    }
  }

  /** The digits in base `to` of the number that the first `n` cells of `t` write in base `from`,
      least significant digit first: repeated division until the quotient has no digits left. */
  method ChangeBase(t: array<nat>, n: nat, from: nat, to: nat) returns (e: seq<nat>)
    requires n <= t.Length && from >= 2 && to >= 2
    requires AreDigits(from, t[..n])
    modifies t
    ensures Reverse(e) == old(Numeral(to, Value(from, t[..n])))
  {
    hide Value, ToDigits, Numeral, AreDigits;
    ghost var number := Value(from, t[..n]);
    ghost var v: nat := number;
    var size: nat, more := n, true;
    e := [];
    while more
      invariant size <= n
      invariant more ==> AreDigits(from, t[..size]) && v == Value(from, t[..size])
      invariant e == [] ==> more && v == number
      invariant e != [] ==> Numeral(to, number) == ToDigits(to, v) + Reverse(e) && (more <==> v > 0)
      invariant !more ==> v == 0
      decreases if more then v + 1 else 0
    {
      NumeralStep(to, v);
      NoDigitsIffZero(from, v / to);
      ToDigitsProperties(from, v / to);
      SmallDiv(v, to);
      var s, a := LongDivide(t, size, from, to);
      ReverseAppend(e, a);
      if v > 0 {
        DivShrinks(v, to);
        NumeralOfPositive(to, v);
        assert e != [] ==> Numeral(to, number) == ToDigits(to, v / to) + [a] + Reverse(e);
      }
      size, e := s, e + [a];
      v := v / to;
      more := s != 0;
    }
    EmptyNumber(to);
    assert [] + Reverse(e) == Reverse(e);
  }

  lemma NumeralOfPositive(base: nat, n: nat)
    requires base >= 2 && n > 0
    ensures Numeral(base, n) == ToDigits(base, n)
  {
  }
}
