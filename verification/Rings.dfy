/** Commutative rings given by their operations, and the finite sums the transform is about. */
module Rings {

  datatype Ring<!T> = Ring(zero: T, one: T, add: (T, T) -> T, sub: (T, T) -> T, mul: (T, T) -> T) {

    function Neg(a: T): T { sub(zero, a) }

    function Pow(e: T, k: nat): T {
      if k == 0 then one else mul(e, Pow(e, k - 1))
    }

    /** n copies of a added up. */
    function Times(n: nat, a: T): T {
      if n == 0 then zero else add(Times(n - 1, a), a)
    }

    /** The polynomial with coefficients s at the point x. */
    function Eval(s: seq<T>, x: T): T {
      if s == [] then zero else add(s[0], mul(x, Eval(s[1..], x)))
    }

    /** The same value as a plain sum of the first n terms s[j]·x^j. */
    function SumOfTerms(s: seq<T>, x: T, n: nat): T
      requires n <= |s|
    {
      if n == 0 then zero else add(SumOfTerms(s, x, n - 1), mul(s[n - 1], Pow(x, n - 1)))
    }
  }

  ghost predicate IsRing<T(!new)>(r: Ring<T>) {
    && (forall a, b :: r.add(a, b) == r.add(b, a))
    && (forall a, b, c :: r.add(r.add(a, b), c) == r.add(a, r.add(b, c)))
    && (forall a :: r.add(r.zero, a) == a)
    && (forall a, b :: r.add(r.sub(a, b), b) == a)
    && (forall a, b :: r.mul(a, b) == r.mul(b, a))
    && (forall a, b, c :: r.mul(r.mul(a, b), c) == r.mul(a, r.mul(b, c)))
    && (forall a :: r.mul(r.one, a) == a)
    && (forall a, b, c :: r.mul(a, r.add(b, c)) == r.add(r.mul(a, b), r.mul(a, c)))
  }

  // ---- The laws, one instance at a time ----

  lemma {:induction false} AddLaws<T(!new)>(r: Ring<T>, a: T, b: T, c: T)
    requires IsRing(r)
    ensures r.add(a, b) == r.add(b, a)
    ensures r.add(r.add(a, b), c) == r.add(a, r.add(b, c))
    ensures r.add(r.zero, a) == a == r.add(a, r.zero)
    ensures r.add(r.sub(a, b), b) == a
  {
  }

  lemma {:induction false} MulLaws<T(!new)>(r: Ring<T>, a: T, b: T, c: T)
    requires IsRing(r)
    ensures r.mul(a, b) == r.mul(b, a)
    ensures r.mul(r.mul(a, b), c) == r.mul(a, r.mul(b, c))
    ensures r.mul(r.one, a) == a == r.mul(a, r.one)
    ensures r.mul(a, r.add(b, c)) == r.add(r.mul(a, b), r.mul(a, c))
    ensures r.mul(r.add(b, c), a) == r.add(r.mul(b, a), r.mul(c, a))
  {
  }

  lemma {:induction false} AddFour<T(!new)>(r: Ring<T>, a: T, b: T, c: T, d: T)
    requires IsRing(r)
    ensures r.add(r.add(a, b), r.add(c, d)) == r.add(r.add(a, c), r.add(b, d))
  {
    hide IsRing;
    AddLaws(r, a, b, r.add(c, d));
    AddLaws(r, b, c, d);
    AddLaws(r, c, b, d);
    AddLaws(r, a, c, r.add(b, d));
  }

  lemma {:induction false} Cancel<T(!new)>(r: Ring<T>, a: T, b: T, c: T)
    requires IsRing(r) && r.add(a, c) == r.add(b, c)
    ensures a == b
  {
    hide IsRing;
    var n := r.Neg(c);
    AddLaws(r, r.zero, c, n);
    AddLaws(r, c, n, c);
    AddLaws(r, a, c, n);
    AddLaws(r, b, c, n);
  }

  lemma {:induction false} SubIsAddNeg<T(!new)>(r: Ring<T>, a: T, b: T)
    requires IsRing(r)
    ensures r.sub(a, b) == r.add(a, r.Neg(b))
    ensures r.add(b, r.Neg(b)) == r.zero
  {
    hide IsRing;
    AddLaws(r, a, b, b);
    AddLaws(r, r.zero, b, b);
    AddLaws(r, a, r.Neg(b), b);
    AddLaws(r, b, r.Neg(b), b);
    Cancel(r, r.sub(a, b), r.add(a, r.Neg(b)), b);
  }

  lemma {:induction false} MulZero<T(!new)>(r: Ring<T>, a: T)
    requires IsRing(r)
    ensures r.mul(a, r.zero) == r.zero == r.mul(r.zero, a)
  {
    hide IsRing;
    var z := r.mul(a, r.zero);
    AddLaws(r, r.zero, r.zero, r.zero);
    MulLaws(r, a, r.zero, r.zero);
    AddLaws(r, z, z, z);
    Cancel(r, z, r.zero, z);
  }

  lemma {:induction false} MulNeg<T(!new)>(r: Ring<T>, a: T, b: T)
    requires IsRing(r)
    ensures r.mul(a, r.Neg(b)) == r.Neg(r.mul(a, b)) == r.mul(r.Neg(b), a)
  {
    hide IsRing;
    SubIsAddNeg(r, b, b);
    SubIsAddNeg(r, b, r.mul(a, b));
    MulLaws(r, a, b, r.Neg(b));
    MulLaws(r, a, r.Neg(b), b);
    MulZero(r, a);
    AddLaws(r, r.mul(a, b), r.mul(a, r.Neg(b)), r.zero);
    AddLaws(r, r.mul(a, b), r.Neg(r.mul(a, b)), r.zero);
    Cancel(r, r.mul(a, r.Neg(b)), r.Neg(r.mul(a, b)), r.mul(a, b));
  }

  /** A product with -1 is a negation. */
  lemma {:induction false} MulMinusOne<T(!new)>(r: Ring<T>, a: T)
    requires IsRing(r)
    ensures r.mul(a, r.Neg(r.one)) == r.Neg(a) == r.mul(r.Neg(r.one), a)
  {
    hide IsRing;
    MulNeg(r, a, r.one);
    MulLaws(r, a, r.one, r.one);
  }

  lemma {:induction false} NegNeg<T(!new)>(r: Ring<T>, a: T)
    requires IsRing(r)
    ensures r.Neg(r.Neg(a)) == a
  {
    hide IsRing;
    SubIsAddNeg(r, a, a);
    SubIsAddNeg(r, a, r.Neg(a));
    AddLaws(r, r.Neg(r.Neg(a)), r.Neg(a), a);
    Cancel(r, r.Neg(r.Neg(a)), a, r.Neg(a));
  }

  lemma {:induction false} NegAdd<T(!new)>(r: Ring<T>, a: T, b: T)
    requires IsRing(r)
    ensures r.Neg(r.add(a, b)) == r.add(r.Neg(a), r.Neg(b))
  {
    hide IsRing;
    MulMinusOne(r, a);
    MulMinusOne(r, b);
    MulMinusOne(r, r.add(a, b));
    MulLaws(r, r.Neg(r.one), a, b);
  }

  // ---- Powers ----

  lemma {:induction false} PowAdd<T(!new)>(r: Ring<T>, e: T, a: nat, b: nat)
    requires IsRing(r)
    ensures r.Pow(e, a + b) == r.mul(r.Pow(e, a), r.Pow(e, b))
  {
    hide IsRing;
    if a == 0 {
      MulLaws(r, r.Pow(e, b), e, e);
    } else {
      PowAdd(r, e, a - 1, b);
      MulLaws(r, e, r.Pow(e, a - 1), r.Pow(e, b));
    }
  }

  lemma {:induction false} PowMul<T(!new)>(r: Ring<T>, e: T, a: nat, b: nat)
    requires IsRing(r)
    ensures r.Pow(e, a * b) == r.Pow(r.Pow(e, a), b)
  {
    hide IsRing;
    if b == 0 {
    } else {
      PowMul(r, e, a, b - 1);
      assert a * b == a + a * (b - 1);
      PowAdd(r, e, a, a * (b - 1));
    }
  }

  lemma {:induction false} PowOfProduct<T(!new)>(r: Ring<T>, a: T, b: T, k: nat)
    requires IsRing(r)
    ensures r.Pow(r.mul(a, b), k) == r.mul(r.Pow(a, k), r.Pow(b, k))
  {
    hide IsRing;
    if k == 0 {
      MulLaws(r, r.one, r.one, r.one);
    } else {
      PowOfProduct(r, a, b, k - 1);
      MulFour(r, a, b, r.Pow(a, k - 1), r.Pow(b, k - 1));
    }
  }

  lemma {:induction false} MulFour<T(!new)>(r: Ring<T>, a: T, b: T, c: T, d: T)
    requires IsRing(r)
    ensures r.mul(r.mul(a, b), r.mul(c, d)) == r.mul(r.mul(a, c), r.mul(b, d))
  {
    hide IsRing;
    MulLaws(r, a, b, r.mul(c, d));
    MulLaws(r, b, c, d);
    MulLaws(r, c, b, d);
    MulLaws(r, a, c, r.mul(b, d));
  }

  lemma {:induction false} PowOne<T(!new)>(r: Ring<T>, k: nat)
    requires IsRing(r)
    ensures r.Pow(r.one, k) == r.one
  {
    hide IsRing;
    if k > 0 {
      PowOne(r, k - 1);
      MulLaws(r, r.one, r.one, r.one);
    }
  }

  // ---- Evaluation ----

  lemma {:induction false} EvalAppend<T(!new)>(r: Ring<T>, s: seq<T>, t: seq<T>, x: T)
    requires IsRing(r)
    ensures r.Eval(s + t, x) == r.add(r.Eval(s, x), r.mul(r.Pow(x, |s|), r.Eval(t, x)))
  {
    hide IsRing;
    var v := r.Eval(t, x);
    if s == [] {
      assert s + t == t;
      MulLaws(r, v, v, v);
      AddLaws(r, v, v, v);
    } else {
      assert (s + t)[1..] == s[1..] + t;
      EvalAppend(r, s[1..], t, x);
      var p := r.Pow(x, |s| - 1);
      MulLaws(r, x, r.Eval(s[1..], x), r.mul(p, v));
      MulLaws(r, x, p, v);
      AddLaws(r, s[0], r.mul(x, r.Eval(s[1..], x)), r.mul(r.Pow(x, |s|), v));
    }
  }

  lemma {:induction false} EvalSingle<T(!new)>(r: Ring<T>, a: T, x: T)
    requires IsRing(r)
    ensures r.Eval([a], x) == a
  {
    hide IsRing;
    assert [a][1..] == [];
    MulZero(r, x);
    AddLaws(r, a, a, a);
  }

  /** Eval is the sum of all terms s[j]·x^j. */
  lemma {:induction false} EvalIsSum<T(!new)>(r: Ring<T>, s: seq<T>, x: T)
    requires IsRing(r)
    ensures r.Eval(s, x) == r.SumOfTerms(s, x, |s|)
  {
    hide IsRing;
    if s != [] {
      var n := |s| - 1;
      EvalIsSum(r, s[..n], x);
      assert s == s[..n] + [s[n]];
      EvalAppend(r, s[..n], [s[n]], x);
      SumPrefix(r, s, x, n, n);
      EvalSingle(r, s[n], x);
      MulLaws(r, r.Pow(x, n), s[n], s[n]);
    }
  }

  lemma {:induction false} SumPrefix<T>(r: Ring<T>, s: seq<T>, x: T, n: nat, m: nat)
    requires m <= n <= |s|
    ensures r.SumOfTerms(s[..n], x, m) == r.SumOfTerms(s, x, m)
  {
    if m > 0 {
      SumPrefix(r, s, x, n, m - 1);
    }
  }

  function Even<T>(s: seq<T>): (t: seq<T>)
    ensures |t| == (|s| + 1) / 2
    ensures forall j :: 0 <= j < |t| ==> t[j] == s[2 * j]
  {
    seq((|s| + 1) / 2, j requires 0 <= j < (|s| + 1) / 2 => s[2 * j])
  }

  function Odd<T>(s: seq<T>): (t: seq<T>)
    ensures |t| == |s| / 2
    ensures forall j :: 0 <= j < |t| ==> t[j] == s[2 * j + 1]
  {
    seq(|s| / 2, j requires 0 <= j < |s| / 2 => s[2 * j + 1])
  }

  /** The butterfly identity: s(x) = even(x²) + x·odd(x²). */
  lemma {:induction false} EvenOdd<T(!new)>(r: Ring<T>, s: seq<T>, x: T)
    requires IsRing(r) && |s| % 2 == 0
    ensures r.Eval(s, x) == r.add(r.Eval(Even(s), r.mul(x, x)), r.mul(x, r.Eval(Odd(s), r.mul(x, x))))
  {
    hide IsRing;
    var y := r.mul(x, x);
    if s == [] {
      MulZero(r, x);
      AddLaws(r, r.zero, r.zero, r.zero);
    } else {
      var t := s[2..];
      EvenOdd(r, t, x);
      assert Even(s)[1..] == Even(t) && Odd(s)[1..] == Odd(t);
      assert s[1..][1..] == t;
      var E, O := r.Eval(Even(t), y), r.Eval(Odd(t), y);
      // a + x(b + x(E + xO)) = (a + x²E) + x(b + x²O)
      Shuffle(r, s[0], s[1], x, E, O);
    }
  }

  lemma {:induction false} Shuffle<T(!new)>(r: Ring<T>, a: T, b: T, x: T, E: T, O: T)
    requires IsRing(r)
    ensures r.add(a, r.mul(x, r.add(b, r.mul(x, r.add(E, r.mul(x, O)))))) ==
            r.add(r.add(a, r.mul(r.mul(x, x), E)), r.mul(x, r.add(b, r.mul(r.mul(x, x), O))))
  {
    hide IsRing;
    var y := r.mul(x, x);
    MulLaws(r, x, E, r.mul(x, O));                   // x(E + xO) = xE + x(xO)
    MulLaws(r, x, x, O);
    MulLaws(r, x, b, r.add(r.mul(x, E), r.mul(y, O)));
    MulLaws(r, x, r.mul(x, E), r.mul(y, O));
    MulLaws(r, x, x, E);
    MulLaws(r, x, b, r.mul(y, O));
    var xb, yE, xyO := r.mul(x, b), r.mul(y, E), r.mul(x, r.mul(y, O));
    AddLaws(r, xb, yE, xyO);
    AddLaws(r, yE, xb, xyO);
    AddLaws(r, a, yE, r.add(xb, xyO));
  }
}
