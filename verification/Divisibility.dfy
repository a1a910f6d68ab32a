/** Divisibility of polynomials, greatest common divisors and fractions in lowest terms. */
module Divisibility {
  import opened Arith
  import opened Polynomials

  ghost predicate IsProduct(a: Coefs, d: Coefs, q: Coefs) { Mul(d, q) == a }

  /** d divides a: a is trimmed and a multiple of d. */
  ghost predicate Divides(d: Coefs, a: Coefs) { exists q: Coefs :: IsProduct(a, d, q) }

  ghost predicate CommonDivisor(d: Coefs, a: Coefs, b: Coefs) { Divides(d, a) && Divides(d, b) }

  ghost predicate IsCombination(g: Coefs, a: Coefs, b: Coefs, u: Coefs, v: Coefs) { g == Add(Mul(a, u), Mul(b, v)) }

  /** g is a sum of multiples of a and b. */
  ghost predicate Combination(g: Coefs, a: Coefs, b: Coefs) {
    exists u: Coefs, v: Coefs :: IsCombination(g, a, b, u, v)
  }

  ghost predicate IsGcd(g: Coefs, a: Coefs, b: Coefs) { CommonDivisor(g, a, b) && Combination(g, a, b) }

  predicate Monic(p: Coefs) { p != [] && p[|p| - 1] == 1.0 }

  /** Nothing but constants divides both. */
  ghost predicate Coprime(a: Coefs, b: Coefs) { Combination([1.0], a, b) }

  // ---- Divisors ----

  lemma {:induction false} DividesItself(a: Coefs)
    requires Trimmed(a)
    ensures Divides(a, a) && Divides(a, [])
  {
    MulOne(a);
    NormTrimmed(a);
    MulZero(a);
    assert IsProduct(a, a, [1.0]) && IsProduct([], a, []);
  }

  lemma {:induction false} DividesMultiple(d: Coefs, a: Coefs, c: Coefs)
    requires Divides(d, a)
    ensures Divides(d, Mul(a, c))
  {
    hide Mul;
    var q: Coefs :| IsProduct(a, d, q);
    MulAssociates(d, q, c);
    assert IsProduct(Mul(a, c), d, Mul(q, c));
  }

  lemma {:induction false} DividesSum(d: Coefs, a: Coefs, b: Coefs, r: Coefs)
    requires CommonDivisor(d, a, b) && Trimmed(r) && forall i :: Coef(r, i) == Coef(a, i) + Coef(b, i)
    ensures Divides(d, r)
  {
    hide Mul, Add;
    var p: Coefs :| IsProduct(a, d, p);
    var q: Coefs :| IsProduct(b, d, q);
    MulAddRight(d, p, q, Add(p, q));
    SumOfCoefs(a, b, r);
    assert IsProduct(r, d, Add(p, q));
  }

  /** A greatest common divisor is divisible by every common divisor. */
  lemma {:induction false} GcdIsGreatest(g: Coefs, a: Coefs, b: Coefs, d: Coefs)
    requires Combination(g, a, b) && CommonDivisor(d, a, b)
    ensures Divides(d, g)
  {
    hide Mul, Add;
    var u: Coefs, v: Coefs :| IsCombination(g, a, b, u, v);
    DividesMultiple(d, a, u);
    DividesMultiple(d, b, v);
    DividesSum(d, Mul(a, u), Mul(b, v), g);
  }

  /** A divisor of something other than zero is not larger. */
  lemma {:induction false} DivisorSize(d: Coefs, a: Coefs)
    requires Trimmed(d) && Divides(d, a) && a != []
    ensures d != [] && |d| <= |a|
  {
    hide Mul;
    var q: Coefs :| IsProduct(a, d, q);
    MulEmpty(q);
    MulSameRight(d, q, Norm(q));
    if Norm(q) == [] {
      MulZero(d);
    }
    ProductSize(d, Norm(q));
  }

  // ---- Exact division ----

  /** What the division loop keeps: the dividend is b times the quotient so far plus what is left. */
  ghost predicate Divided(a: Coefs, b: Coefs, q: Coefs, rest: Coefs) {
    forall i :: Coef(a, i) == Coef(Mul(b, q), i) + Coef(rest, i)
  }

  lemma {:induction false} MulMonomial(b: Coefs, m: Coefs, c: real, s: nat)
    requires forall i :: Coef(m, i) == if i == s then c else 0.0
    ensures forall k :: Coef(Mul(b, m), k) == Times(c, Coef(b, k - s))
    decreases s
  {
    hide Norm, Mul, Scale, Shift, Tail, Times;
    if s == 0 {
      MulSameRight(b, m, [c]);
      MulConstant(b, c);
    } else {
      hide *;
      var n := Tail(m);
      forall i ensures Coef(n, i) == if i == s - 1 then c else 0.0 {
        assert Coef(n, i) == if i < 0 then 0.0 else Coef(m, i + 1);
      }
      MulMonomial(b, n, c, s - 1);
      forall i ensures Coef(m, i) == Coef(Shift(n), i) {
        assert Coef(Shift(n), i) == Coef(n, i - 1);
      }
      MulSameRight(b, m, Shift(n));
      MulShiftRight(b, n);
      forall k ensures Coef(Mul(b, m), k) == Times(c, Coef(b, k - s)) {
        assert Coef(Shift(Mul(b, n)), k) == Coef(Mul(b, n), k - 1);
      }
    }
  }

  /** A product, row by row: one more coefficient of the left factor. */
  lemma {:induction false} MulNextRow(a: Coefs, b: Coefs, i: nat)
    requires i < |a|
    ensures forall k :: Coef(Mul(a[..i + 1], b), k) == Coef(Mul(a[..i], b), k) + Times(a[i], Coef(b, k - i))
  {
    var m := seq(i + 1, j => if j == i then a[i] else 0.0);
    hide Norm, Mul, Times;
    MulAddLeft(a[..i], m, a[..i + 1], b);
    MulCommutes(m, b);
    MulMonomial(b, m, a[i], i);
  }

  /** The sum over the first n coefficients of a that contribute to coefficient k of the product. */
  function Convolution(a: Coefs, b: Coefs, n: nat, k: int): real
    requires n <= |a|
  {
    if n == 0 then 0.0 else Convolution(a, b, n - 1, k) + Times(a[n - 1], Coef(b, k - (n - 1)))
  }

  lemma {:induction false} MulIsConvolution(a: Coefs, b: Coefs, n: nat, k: int)
    requires n <= |a|
    ensures Coef(Mul(a[..n], b), k) == Convolution(a, b, n, k)
  {
    hide Mul, Times;
    if n == 0 {
      MulEmpty(b);
    } else {
      MulIsConvolution(a, b, n - 1, k);
      MulNextRow(a, b, n - 1);
    }
  }

  /** One pass of the outer division loop. */
  lemma {:induction false} DivisionStep(a: Coefs, b: Coefs, q: Coefs, rest: Coefs, c: real, s: nat, rest': Coefs)
    requires Divided(a, b, q, rest) && s < |q| && q[s] == 0.0
    requires forall k :: Coef(rest', k) == Coef(rest, k) - Times(c, Coef(b, k - s))
    ensures Divided(a, b, q[s := c], rest')
  {
    hide Mul, Times, Add, Trimmed;
    var m := seq(s + 1, i => if i == s then c else 0.0);
    MulMonomial(b, m, c, s);
    MulAddRight(b, q, m, q[s := c]);
    hide Coef;
  }

  /** With a small rest, the quotient is exact if and only if there is one. */
  lemma {:induction false} RestDecides(a: Coefs, b: Coefs, q: Coefs, rest: Coefs)
    requires Divided(a, b, q, rest) && Trimmed(a) && Trimmed(b) && Trimmed(rest) && |rest| < |b|
    ensures rest == [] <==> Divides(b, a)
    ensures rest == [] ==> Mul(b, q) == a
  {
    hide Mul, Sub;
    if rest == [] {
      SameCoefs(a, Mul(b, q));
      assert IsProduct(a, b, q);
    } else if Divides(b, a) {
      var p: Coefs :| IsProduct(a, b, p);
      MulSub(b, p, q);
      SameCoefs(rest, Mul(b, Sub(p, q)));
      MulZero(b);
      ProductSize(b, Sub(p, q));
      assert false;
    }
  }

  // ---- The gcd loop ----

  /** The pairs (a, b) and (a0, b0) have the same combinations and common divisors, as far as the loop needs. */
  ghost predicate Follows(a: Coefs, b: Coefs, a0: Coefs, b0: Coefs) {
    && Combination(a, a0, b0) && Combination(b, a0, b0)
    && forall d :: CommonDivisor(d, a, b) ==> CommonDivisor(d, a0, b0)
  }

  lemma {:induction false} FollowsItself(a: Coefs, b: Coefs)
    requires Trimmed(a) && Trimmed(b)
    ensures Follows(a, b, a, b)
  {
    hide Mul, Add;
    MulOne(a);
    MulOne(b);
    MulZero(a);
    MulZero(b);
    AddZero(a);
    AddZero(b);
    NormTrimmed(a);
    NormTrimmed(b);
    assert IsCombination(a, a, b, [1.0], []) && IsCombination(b, a, b, [], [1.0]);
  }

  lemma {:induction false} CombinationMultiple(g: Coefs, a: Coefs, b: Coefs, c: Coefs)
    requires Combination(g, a, b)
    ensures Combination(Mul(g, c), a, b)
  {
    hide Mul, Add;
    var u: Coefs, v: Coefs :| IsCombination(g, a, b, u, v);
    MulAddLeft(Mul(a, u), Mul(b, v), g, c);
    MulAssociates(a, u, c);
    MulAssociates(b, v, c);
    assert IsCombination(Mul(g, c), a, b, Mul(u, c), Mul(v, c));
  }

  lemma {:induction false} CombinationDifference(g: Coefs, h: Coefs, a: Coefs, b: Coefs)
    requires Combination(g, a, b) && Combination(h, a, b)
    ensures Combination(Sub(g, h), a, b)
  {
    hide Mul, Add, Sub;
    var u: Coefs, v: Coefs :| IsCombination(g, a, b, u, v);
    var x: Coefs, y: Coefs :| IsCombination(h, a, b, x, y);
    MulSub(a, u, x);
    MulSub(b, v, y);
    SameCoefs(Sub(g, h), Add(Mul(a, Sub(u, x)), Mul(b, Sub(v, y))));
    assert IsCombination(Sub(g, h), a, b, Sub(u, x), Sub(v, y));
  }

  /** Making b monic. */
  lemma {:induction false} FollowsScaled(a: Coefs, b: Coefs, a0: Coefs, b0: Coefs, x: real)
    requires Follows(a, b, a0, b0) && Trimmed(b) && x != 0.0
    ensures Follows(a, Scale(x, b), a0, b0)
  {
    hide Mul, Scale;
    var m := Scale(x, b);
    MulConstant(b, x);
    CombinationMultiple(b, a0, b0, [x]);
    MulConstant(m, 1.0 / x);
    forall i ensures Coef(b, i) == Coef(Scale(1.0 / x, m), i) {
      assert Coef(m, i) == x * Coef(b, i);
      ScaleBack(x, Coef(b, i));
    }
    SameCoefs(b, Scale(1.0 / x, m));
    forall d | CommonDivisor(d, a, m) ensures CommonDivisor(d, a0, b0) {
      DividesMultiple(d, m, [1.0 / x]);
      assert CommonDivisor(d, a, b);
    }
  }

  lemma {:induction false} ScaleBack(x: real, y: real)
    requires x != 0.0
    ensures Times(1.0 / x, Times(x, y)) == y
  {
    assert (1.0 / x) * (x * y) == ((1.0 / x) * x) * y;
  }

  /** Subtracting a multiple of b from a, and swapping the two. */
  lemma {:induction false} FollowsStep(a: Coefs, b: Coefs, c: Coefs, a0: Coefs, b0: Coefs)
    requires Follows(a, b, a0, b0) && Trimmed(a)
    ensures Follows(b, Sub(a, Mul(b, c)), a0, b0)
  {
    hide Mul, Sub;
    var r := Sub(a, Mul(b, c));
    CombinationMultiple(b, a0, b0, c);
    CombinationDifference(a, Mul(b, c), a0, b0);
    forall d | CommonDivisor(d, b, r) ensures CommonDivisor(d, a0, b0) {
      DividesMultiple(d, b, c);
      DividesSum(d, r, Mul(b, c), a);
      assert CommonDivisor(d, a, b);
    }
  }

  lemma {:induction false} FollowsEnd(a: Coefs, a0: Coefs, b0: Coefs)
    requires Follows(a, [], a0, b0) && Trimmed(a)
    ensures IsGcd(a, a0, b0)
  {
    DividesItself(a);
    assert CommonDivisor(a, a, []);
  }

  /** The multiple of a monic b by the top coefficients of a has the size and the top coefficient of a. */
  lemma {:induction false} TopCancels(a: Coefs, b: Coefs, c: Coefs)
    requires Monic(b) && |a| >= |b| && c == a[|b| - 1..]
    ensures |Sub(a, Mul(b, c))| < |a|
  {
    hide Mul, Sub;
    var r := Sub(a, Mul(b, c));
    ProductTop(b, c, |a| - 1);
    ProductTop(b, c, |r| - 1);
    assert Coef(r, |a| - 1) == 0.0;
    assert Coef(r, |r| - 1) == Coef(a, |r| - 1) - Coef(Mul(b, c), |r| - 1);
  }

  // ---- Lowest terms ----

  lemma {:induction false} CoprimeMeaning(a: Coefs, b: Coefs, d: Coefs)
    requires Coprime(a, b) && Trimmed(d) && CommonDivisor(d, a, b)
    ensures |d| == 1
  {
    GcdIsGreatest([1.0], a, b, d);
    DivisorSize(d, [1.0]);
  }

  /** What is left after dividing by a greatest common divisor is coprime. */
  lemma {:induction false} CofactorsCoprime(g: Coefs, a: Coefs, b: Coefs, p: Coefs, q: Coefs)
    requires Trimmed(g) && g != [] && Combination(g, a, b) && Mul(g, p) == a && Mul(g, q) == b
    ensures Coprime(p, q)
  {
    hide Mul, Add;
    var u: Coefs, v: Coefs :| IsCombination(g, a, b, u, v);
    var one := Add(Mul(p, u), Mul(q, v));
    MulAddRight(g, Mul(p, u), Mul(q, v), one);
    MulAssociates(g, p, u);
    MulAssociates(g, q, v);
    MulOne(g);
    NormTrimmed(g);
    Cancel(g, one, [1.0]);
    NormTrimmed(one);
    NormTrimmed([1.0]);
    assert IsCombination([1.0], p, q, u, v);
  }

  lemma {:induction false} CoprimeDividesFactor(n: Coefs, d: Coefs, m: Coefs, e: Coefs)
    requires Coprime(n, d) && Trimmed(e) && Mul(n, e) == Mul(m, d)
    ensures Divides(d, e)
  {
    hide Mul, Add;
    var u: Coefs, v: Coefs :| IsCombination([1.0], n, d, u, v);
    MulAddRight(e, Mul(n, u), Mul(d, v), [1.0]);
    MulOne(e);
    NormTrimmed(e);
    assert Divides(d, Mul(e, Mul(n, u))) by {
      MulAssociates(e, n, u);
      MulCommutes(e, n);
      MulCommutes(m, d);
      assert IsProduct(Mul(m, d), d, m);
      DividesMultiple(d, Mul(m, d), u);
    }
    assert Divides(d, Mul(e, Mul(d, v))) by {
      MulCommutes(e, Mul(d, v));
      MulAssociates(d, v, e);
      assert IsProduct(Mul(e, Mul(d, v)), d, Mul(v, e));
    }
    DividesSum(d, Mul(e, Mul(n, u)), Mul(e, Mul(d, v)), e);
  }

  lemma {:induction false} MonicDivideEachOther(d: Coefs, e: Coefs)
    requires Monic(d) && Monic(e) && Divides(d, e) && Divides(e, d)
    ensures d == e
  {
    hide Mul;
    DivisorSize(d, e);
    DivisorSize(e, d);
    var q: Coefs :| IsProduct(e, d, q);
    MulSameRight(d, q, Norm(q));
    MulZero(d);
    ProductSize(d, Norm(q));
    Commutes(1.0, Norm(q)[0], 0.0);
    assert Norm(q) == [1.0];
    MulOne(d);
    NormTrimmed(d);
  }

  /** Two fractions in lowest terms with monic denominators are equal as values only if they are identical. */
  lemma {:induction false} LowestTermsUnique(n: Coefs, d: Coefs, m: Coefs, e: Coefs)
    requires Trimmed(n) && Trimmed(m) && Monic(d) && Monic(e)
    requires Coprime(n, d) && Coprime(m, e) && Mul(n, e) == Mul(m, d)
    ensures n == m && d == e
  {
    hide Mul;
    CoprimeDividesFactor(n, d, m, e);
    CoprimeDividesFactor(m, e, n, d);
    MonicDivideEachOther(d, e);
    MulCommutes(n, d);
    MulCommutes(m, d);
    Cancel(d, n, m);
    NormTrimmed(n);
    NormTrimmed(m);
  }

  /** Dividing both parts by a greatest common divisor and by a constant reduces the fraction and keeps its value. */
  lemma {:induction false} LowestTerms(g: Coefs, a: Coefs, b: Coefs, p: Coefs, q: Coefs, x: real)
    requires Trimmed(g) && g != [] && Combination(g, Norm(a), b) && Mul(g, p) == Norm(a) && Mul(g, q) == b && x != 0.0
    ensures Coprime(Scale(x, p), Scale(x, q))
    ensures Mul(Scale(x, p), b) == Mul(a, Scale(x, q))
  {
    hide Mul, Norm, Scale;
    CofactorsCoprime(g, Norm(a), b, p, q);
    CoprimeScaled(p, q, x);
    MulSameLeft(a, Norm(a), Scale(x, q));
    calc {
      Mul(Scale(x, p), Mul(g, q));
      { MulCommutes(Scale(x, p), Mul(g, q)); MulScaleRight(Mul(g, q), x, p); }
      Scale(x, Mul(Mul(g, q), p));
      { MulAssociates(g, q, p); MulCommutes(q, p); MulAssociates(g, p, q); }
      Scale(x, Mul(Mul(g, p), q));
      { MulScaleRight(Mul(g, p), x, q); }
      Mul(Mul(g, p), Scale(x, q));
    }
  }

  lemma {:induction false} CoprimeScaled(p: Coefs, q: Coefs, x: real)
    requires Coprime(p, q) && x != 0.0
    ensures Coprime(Scale(x, p), Scale(x, q))
  {
    hide Mul, Add, Scale;
    var u: Coefs, v: Coefs :| IsCombination([1.0], p, q, u, v);
    var y := 1.0 / x;
    ScaledFactors(p, u, x);
    ScaledFactors(q, v, x);
    assert IsCombination([1.0], Scale(x, p), Scale(x, q), Scale(y, u), Scale(y, v));
  }

  lemma {:induction false} ScaledFactors(p: Coefs, u: Coefs, x: real)
    requires x != 0.0
    ensures Mul(Scale(x, p), Scale(1.0 / x, u)) == Mul(p, u)
  {
    hide Mul, Scale;
    var y := 1.0 / x;
    MulScaleRight(Scale(x, p), y, u);
    MulCommutes(Scale(x, p), u);
    MulScaleRight(u, x, p);
    MulCommutes(u, p);
    var m := Mul(p, u);
    forall i ensures Coef(Scale(y, Scale(x, m)), i) == Coef(m, i) {
      ScaleBack(x, Coef(m, i));
    }
    SameCoefs(Scale(y, Scale(x, m)), m);
  }

  /** n' / d' is n / d in lowest terms. */
  ghost predicate IsReduction(n: Coefs, d: Coefs, n': Coefs, d': Coefs) {
    Trimmed(n') && Monic(d') && Coprime(n', d') && Mul(n', d) == Mul(n, d')
  }

  /** Fractions of the same value have the same representation once reduced. */
  lemma {:induction false} ReductionIsCanonical(n: Coefs, d: Coefs, m: Coefs, e: Coefs, n': Coefs, d': Coefs, m': Coefs,
          e': Coefs)
    requires Trimmed(d) && d != [] && Trimmed(e) && e != [] && Mul(n, e) == Mul(m, d)
    requires IsReduction(n, d, n', d') && IsReduction(m, e, m', e')
    ensures n' == m' && d' == e'
  {
    assert Mul(n', e') == Mul(m', d') by {
      hide Mul, Trimmed, Monic, Coprime;
      SameValue(n, d, m, e, n', d', m', e');
      CancelProduct(d, e, Mul(n', e'), Mul(m', d'));
    }
    hide Mul, Trimmed, Monic, Coprime;
    LowestTermsUnique(n', d', m', e');
  }

  lemma {:induction false} CancelProduct(d: Coefs, e: Coefs, x: Coefs, y: Coefs)
    requires Trimmed(d) && d != [] && Trimmed(e) && e != [] && Trimmed(x) && Trimmed(y)
    requires Mul(Mul(d, e), x) == Mul(Mul(d, e), y)
    ensures x == y
  {
    hide Mul, Norm;
    ProductSize(d, e);
    Cancel(Mul(d, e), x, y);
    NormTrimmed(x);
    NormTrimmed(y);
  }

  lemma {:induction false} SameValue(n: Coefs, d: Coefs, m: Coefs, e: Coefs, n': Coefs, d': Coefs, m': Coefs, e': Coefs)
    requires Mul(n, e) == Mul(m, d) && Mul(n', d) == Mul(n, d') && Mul(m', e) == Mul(m, e')
    ensures Mul(Mul(d, e), Mul(n', e')) == Mul(Mul(d, e), Mul(m', d'))
  {
    hide *;
    Rewritten(n, d, e, n', d', e');
    RewrittenSwapped(m, e, d, m', e', d');
  }

  /** If n' / d' is n / d, then n' e' (d e) == n e d' e'. */
  lemma {:induction false} Rewritten(n: Coefs, d: Coefs, e: Coefs, n': Coefs, d': Coefs, e': Coefs)
    requires Mul(n', d) == Mul(n, d')
    ensures Mul(Mul(d, e), Mul(n', e')) == Mul(Mul(n, e), Mul(d', e'))
  {
    hide *;
    FourFactors(d, e, n', e');
    ThreeFactors(n, d', e, e');
  }

  lemma {:induction false} RewrittenSwapped(n: Coefs, d: Coefs, e: Coefs, n': Coefs, d': Coefs, e': Coefs)
    requires Mul(n', d) == Mul(n, d')
    ensures Mul(Mul(e, d), Mul(n', e')) == Mul(Mul(n, e), Mul(e', d'))
  {
    hide *;
    Rewritten(n, d, e, n', d', e');
    MulCommutes(d, e);
    MulCommutes(d', e');
  }

  lemma {:induction false} ThreeFactors(a: Coefs, b: Coefs, c: Coefs, d: Coefs)
    ensures Mul(Mul(a, b), Mul(c, d)) == Mul(Mul(a, c), Mul(b, d))
  {
    hide Mul;
    MulAssociates(a, b, Mul(c, d));
    MulAssociates(b, c, d);
    MulCommutes(b, c);
    MulAssociates(c, b, d);
    MulAssociates(a, c, Mul(b, d));
  }

  lemma {:induction false} FourFactors(a: Coefs, b: Coefs, c: Coefs, d: Coefs)
    ensures Mul(Mul(a, b), Mul(c, d)) == Mul(Mul(c, a), Mul(b, d))
  {
    hide Mul;
    ThreeFactors(a, b, c, d);
    MulCommutes(a, c);
  }
}
