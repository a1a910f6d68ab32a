/** Polynomials over an exact field as sequences of coefficients, lowest degree first, and their algebra. */
module Polynomials {
  import opened Arith

  type Coefs = seq<real>

  function Coef(p: Coefs, i: int): real {
    if 0 <= i < |p| then p[i] else 0.0
  }

  /** No zero on top: what trim establishes. */
  predicate Trimmed(p: Coefs) {
    p == [] || p[|p| - 1] != 0.0
  }

  /** The trimmed prefix of p: only zeros are dropped. */
  function Norm(p: Coefs): (r: Coefs)
    ensures Trimmed(r) && r <= p && forall i {:trigger Coef(r, i)} :: Coef(r, i) == Coef(p, i)
  {
    if Trimmed(p) then p else Norm(p[..|p| - 1])
  }

  /** A trimmed sequence is determined by its coefficients. */
  lemma {:induction false} SameCoefs(p: Coefs, q: Coefs)
    requires Trimmed(p) && Trimmed(q) && forall i :: Coef(p, i) == Coef(q, i)
    ensures p == q
  {
    assert Coef(p, |p| - 1) == Coef(q, |p| - 1) && Coef(q, |q| - 1) == Coef(p, |q| - 1);
    forall i | 0 <= i < |p| ensures p[i] == q[i] {
      assert Coef(p, i) == Coef(q, i);
    }
  }

  /** Multiplication of coefficients, as a function so that proofs can use its laws one at a time. */
  function Times(x: real, y: real): real { x * y }

  lemma {:induction false} Distributes(x: real, y: real, z: real)
    ensures Times(x, y + z) == Times(x, y) + Times(x, z) && Times(y + z, x) == Times(y, x) + Times(z, x)
  {
  }

  // ---- Operations ----

  function Add(a: Coefs, b: Coefs): (r: Coefs)
    ensures Trimmed(r) && forall i {:trigger Coef(r, i)} :: Coef(r, i) == Coef(a, i) + Coef(b, i)
  {
    Norm(seq(Max(|a|, |b|), i => Coef(a, i) + Coef(b, i)))
  }

  function Sub(a: Coefs, b: Coefs): (r: Coefs)
    ensures Trimmed(r) && forall i {:trigger Coef(r, i)} :: Coef(r, i) == Coef(a, i) - Coef(b, i)
  {
    Norm(seq(Max(|a|, |b|), i => Coef(a, i) - Coef(b, i)))
  }

  function Scale(x: real, p: Coefs): (r: Coefs)
    ensures Trimmed(r) && forall i {:trigger Coef(r, i)} :: Coef(r, i) == Times(x, Coef(p, i))
  {
    Norm(seq(|p|, i => Times(x, Coef(p, i))))
  }

  /** Multiplication by the indeterminate. */
  function Shift(p: Coefs): (r: Coefs)
    ensures Trimmed(r) && forall i {:trigger Coef(r, i)} :: Coef(r, i) == Coef(p, i - 1)
  {
    Norm([0.0] + p)
  }

  function Mul(a: Coefs, b: Coefs): (r: Coefs)
    ensures Trimmed(r)
  {
    if a == [] then [] else Add(Scale(a[0], b), Shift(Mul(a[1..], b)))
  }

  function Tail(p: Coefs): (r: Coefs)
    ensures |r| == if p == [] then 0 else |p| - 1
    ensures forall i {:trigger Coef(r, i)} :: Coef(r, i) == if i < 0 then 0.0 else Coef(p, i + 1)
  {
    if p == [] then [] else p[1..]
  }

  lemma {:induction false} MulCoef(a: Coefs, b: Coefs, k: int)
    ensures Coef(Mul(a, b), k) == Times(Coef(a, 0), Coef(b, k)) + Coef(Mul(Tail(a), b), k - 1)
  {
    hide Norm, Add, Scale, Shift;
    if a != [] {
      assert Mul(a, b) == Add(Scale(a[0], b), Shift(Mul(a[1..], b)));
      hide Mul;
      assert Coef(Scale(a[0], b), k) == Times(a[0], Coef(b, k));
      assert Coef(Shift(Mul(a[1..], b)), k) == Coef(Mul(a[1..], b), k - 1);
    }
  }

  // ---- Laws ----

  /** The empty sequence is zero. */
  lemma {:induction false} MulEmpty(b: Coefs)
    ensures Mul([], b) == []
  {
  }

  lemma {:induction false} AddEmpty()
    ensures Add([], []) == []
  {
    SumOfCoefs([], [], []);
  }

  lemma {:induction false} SumOfCoefs(p: Coefs, q: Coefs, r: Coefs)
    requires Trimmed(r) && forall i {:trigger Coef(r, i)} :: Coef(r, i) == Coef(p, i) + Coef(q, i)
    ensures r == Add(p, q)
  {
    hide *;
    SameCoefs(r, Add(p, q));
  }

  lemma {:induction false} MulAddRight(a: Coefs, p: Coefs, q: Coefs, r: Coefs)
    requires forall i :: Coef(r, i) == Coef(p, i) + Coef(q, i)
    ensures Mul(a, r) == Add(Mul(a, p), Mul(a, q))
    decreases |a|
  {
    hide *;
    if a == [] {
      AddEmpty();
      MulEmpty(p);
      MulEmpty(q);
      MulEmpty(r);
    } else {
      MulAddRight(Tail(a), p, q, r);
      forall k {:trigger Coef(Mul(a, r), k)} ensures Coef(Mul(a, r), k) == Coef(Mul(a, p), k) + Coef(Mul(a, q), k) {
        MulCoef(a, r, k);
        MulCoef(a, p, k);
        MulCoef(a, q, k);
        Distributes(Coef(a, 0), Coef(p, k), Coef(q, k));
      }
      SumOfCoefs(Mul(a, p), Mul(a, q), Mul(a, r));
    }
  }

  lemma {:induction false} MulAddLeft(p: Coefs, q: Coefs, r: Coefs, c: Coefs)
    requires forall i :: Coef(r, i) == Coef(p, i) + Coef(q, i)
    ensures Mul(r, c) == Add(Mul(p, c), Mul(q, c))
    decreases |p| + |q| + |r|
  {
    hide *;
    if p == [] && q == [] && r == [] {
      AddEmpty();
      MulEmpty(c);
    } else {
      MulAddLeft(Tail(p), Tail(q), Tail(r), c);
      forall k {:trigger Coef(Mul(r, c), k)} ensures Coef(Mul(r, c), k) == Coef(Mul(p, c), k) + Coef(Mul(q, c), k) {
        MulCoef(r, c, k);
        MulCoef(p, c, k);
        MulCoef(q, c, k);
        Distributes(Coef(c, k), Coef(p, 0), Coef(q, 0));
      }
      SumOfCoefs(Mul(p, c), Mul(q, c), Mul(r, c));
    }
  }

  lemma {:induction false} Commutes(x: real, y: real, z: real)
    ensures Times(x, y) == Times(y, x) && Times(x, Times(y, z)) == Times(y, Times(x, z))
    ensures Times(Times(x, y), z) == Times(x, Times(y, z))
    ensures Times(x, 0.0) == 0.0 && Times(x, 1.0) == x
  {
    assert x * (y * z) == y * (x * z) == (x * y) * z;
  }

  lemma {:induction false} NoZeroDivisors(x: real, y: real)
    requires x != 0.0 && y != 0.0
    ensures Times(x, y) != 0.0
  {
  }

  // Multiplication by the same coefficients gives the same product.

  lemma {:induction false} AddZero(p: Coefs)
    ensures Add(p, []) == Add([], p) == Norm(p)
  {
    hide Norm, Add;
    SumOfCoefs(p, [], Norm(p));
    SumOfCoefs([], p, Norm(p));
  }

  lemma {:induction false} NormTrimmed(p: Coefs)
    requires Trimmed(p)
    ensures Norm(p) == p
  {
  }

  lemma {:induction false} MulSameLeft(p: Coefs, r: Coefs, c: Coefs)
    requires forall i :: Coef(p, i) == Coef(r, i)
    ensures Mul(p, c) == Mul(r, c)
  {
    hide Norm, Add, Mul;
    MulAddLeft(p, [], r, c);
    MulEmpty(c);
    AddZero(Mul(p, c));
    NormTrimmed(Mul(p, c));
  }

  lemma {:induction false} MulZero(a: Coefs)
    ensures Mul(a, []) == []
  {
    hide Norm, Add, Mul;
    MulAddRight(a, [], [], []);
    forall k ensures Coef(Mul(a, []), k) == Coef([], k) {
      assert Coef(Mul(a, []), k) == Coef(Mul(a, []), k) + Coef(Mul(a, []), k);
    }
    SameCoefs(Mul(a, []), []);
  }

  lemma {:induction false} MulSameRight(a: Coefs, p: Coefs, r: Coefs)
    requires forall i :: Coef(p, i) == Coef(r, i)
    ensures Mul(a, p) == Mul(a, r)
  {
    hide Norm, Add, Mul;
    MulAddRight(a, p, [], r);
    MulZero(a);
    AddZero(Mul(a, p));
    NormTrimmed(Mul(a, p));
  }

  lemma {:induction false} ScaleOfCoefs(x: real, p: Coefs, r: Coefs)
    requires Trimmed(r) && forall i {:trigger Coef(r, i)} :: Coef(r, i) == Times(x, Coef(p, i))
    ensures r == Scale(x, p)
  {
    hide *;
    SameCoefs(r, Scale(x, p));
  }

  lemma {:induction false} ShiftOfCoefs(p: Coefs, r: Coefs)
    requires Trimmed(r) && forall i {:trigger Coef(r, i)} :: Coef(r, i) == Coef(p, i - 1)
    ensures r == Shift(p)
  {
    hide *;
    SameCoefs(r, Shift(p));
  }

  lemma {:induction false} ScaleEmpty(x: real)
    ensures Scale(x, []) == []
  {
  }

  lemma {:induction false} ShiftEmpty()
    ensures Shift([]) == []
  {
    hide Norm, Shift;
    SameCoefs(Shift([]), []);
  }

  lemma {:induction false} MulScaleRight(a: Coefs, x: real, p: Coefs)
    ensures Mul(a, Scale(x, p)) == Scale(x, Mul(a, p))
    decreases |a|
  {
    hide *;
    var r := Scale(x, p);
    if a == [] {
      MulEmpty(p);
      MulEmpty(r);
      ScaleEmpty(x);
    } else {
      MulScaleRight(Tail(a), x, p);
      forall k {:trigger Coef(Mul(a, r), k)} ensures Coef(Mul(a, r), k) == Times(x, Coef(Mul(a, p), k)) {
        MulCoef(a, r, k);
        MulCoef(a, p, k);
        Commutes(Coef(a, 0), x, Coef(p, k));
        Distributes(x, Times(Coef(a, 0), Coef(p, k)), Coef(Mul(Tail(a), p), k - 1));
      }
      ScaleOfCoefs(x, Mul(a, p), Mul(a, r));
    }
  }

  lemma {:induction false} MulShiftRight(a: Coefs, p: Coefs)
    ensures Mul(a, Shift(p)) == Shift(Mul(a, p))
    decreases |a|
  {
    hide *;
    var r := Shift(p);
    if a == [] {
      MulEmpty(p);
      MulEmpty(r);
      ShiftEmpty();
    } else {
      MulShiftRight(Tail(a), p);
      forall k {:trigger Coef(Mul(a, r), k)} ensures Coef(Mul(a, r), k) == Coef(Mul(a, p), k - 1) {
        MulCoef(a, r, k);
        MulCoef(a, p, k - 1);
      }
      ShiftOfCoefs(Mul(a, p), Mul(a, r));
    }
  }

  /** A constant, as a polynomial that is not necessarily trimmed. */
  lemma {:induction false} MulConstant(a: Coefs, x: real)
    ensures Mul(a, [x]) == Scale(x, a)
    decreases |a|
  {
    if a == [] {
      MulEmpty([x]);
      ScaleEmpty(x);
    } else {
      hide Norm, Add, Scale, Shift, Mul, Times, Trimmed;
      MulConstant(Tail(a), x);
      forall k {:trigger Coef(Mul(a, [x]), k)} ensures Coef(Mul(a, [x]), k) == Times(x, Coef(a, k)) {
        MulCoef(a, [x], k);
        Commutes(Coef(a, 0), x, 0.0);
        Commutes(x, 0.0, 0.0);
        if k == 0 {
          assert Coef(Scale(x, Tail(a)), -1) == 0.0;
        }
      }
      ScaleOfCoefs(x, a, Mul(a, [x]));
    }
  }

  lemma {:induction false} MulOne(a: Coefs)
    ensures Mul(a, [1.0]) == Norm(a)
  {
    hide *;
    MulConstant(a, 1.0);
    forall k {:trigger Coef(Norm(a), k)} ensures Coef(Norm(a), k) == Times(1.0, Coef(a, k)) {
      Commutes(1.0, Coef(a, k), 0.0);
      Commutes(Coef(a, k), 1.0, 0.0);
    }
    ScaleOfCoefs(1.0, a, Norm(a));
  }

  /** Both sides of a product, taken apart at the constant term. */
  lemma {:induction false} MulUnfold(a: Coefs, b: Coefs)
    requires a != []
    ensures Mul(a, b) == Add(Scale(a[0], b), Shift(Mul(a[1..], b)))
  {
  }

  lemma {:induction false} ConsIsSum(a: Coefs, i: int)
    requires a != []
    ensures Coef(a, i) == Coef([a[0]], i) + Coef(Shift(a[1..]), i)
  {
    hide Shift;
    assert Coef(Shift(a[1..]), i) == Coef(a[1..], i - 1);
  }

  lemma {:induction false} MulCommutes(a: Coefs, b: Coefs)
    ensures Mul(a, b) == Mul(b, a)
    decreases |a|
  {
    hide *;
    if a == [] {
      MulZero(b);
      MulEmpty(b);
    } else {
      MulUnfold(a, b);
      MulCommutes(a[1..], b);
      MulConstant(b, a[0]);
      MulShiftRight(b, a[1..]);
      forall i ensures Coef(a, i) == Coef([a[0]], i) + Coef(Shift(a[1..]), i) {
        ConsIsSum(a, i);
      }
      MulAddRight(b, [a[0]], Shift(a[1..]), a);
    }
  }

  lemma {:induction false} MulAssociates(a: Coefs, b: Coefs, c: Coefs)
    ensures Mul(Mul(a, b), c) == Mul(a, Mul(b, c))
    decreases |a|
  {
    hide *;
    if a == [] {
      MulEmpty(b);
      MulEmpty(c);
      MulEmpty(Mul(b, c));
    } else {
      var first, rest := Scale(a[0], b), Shift(Mul(a[1..], b));
      MulUnfold(a, b);
      MulUnfold(a, Mul(b, c));
      MulAddLeft(first, rest, Mul(a, b), c);
      MulAssociates(a[1..], b, c);
      assert Mul(first, c) == Scale(a[0], Mul(b, c)) by {
        MulCommutes(first, c);
        MulScaleRight(c, a[0], b);
        MulCommutes(c, b);
      }
      assert Mul(rest, c) == Shift(Mul(Mul(a[1..], b), c)) by {
        MulCommutes(rest, c);
        MulShiftRight(c, Mul(a[1..], b));
        MulCommutes(c, Mul(a[1..], b));
      }
    }
  }

  lemma {:induction false} MulSub(d: Coefs, p: Coefs, q: Coefs)
    ensures Mul(d, Sub(p, q)) == Sub(Mul(d, p), Mul(d, q))
  {
    hide *;
    MulAddRight(d, Sub(p, q), q, p);
    forall k ensures Coef(Mul(d, Sub(p, q)), k) == Coef(Sub(Mul(d, p), Mul(d, q)), k) {
      assert Coef(Mul(d, p), k) == Coef(Mul(d, Sub(p, q)), k) + Coef(Mul(d, q), k);
    }
    SameCoefs(Mul(d, Sub(p, q)), Sub(Mul(d, p), Mul(d, q)));
  }

  // ---- Degrees ----

  lemma {:induction false} ProductTop(a: Coefs, b: Coefs, k: int)
    requires a != [] && b != []
    ensures k > |a| + |b| - 2 ==> Coef(Mul(a, b), k) == 0.0
    ensures k == |a| + |b| - 2 ==> Coef(Mul(a, b), k) == Times(a[|a| - 1], b[|b| - 1])
    decreases |a|
  {
    MulCoef(a, b, k);
    MulEmpty(b);
    hide Norm, Add, Scale, Shift, Mul, Times, Trimmed;
    Commutes(a[0], 0.0, 0.0);
    if |a| > 1 {
      ProductTop(Tail(a), b, k - 1);
      assert Tail(a)[|a| - 2] == a[|a| - 1];
    } else {
      assert Tail(a) == [];
    }
  }

  lemma {:induction false} ProductSize(a: Coefs, b: Coefs)
    requires Trimmed(a) && Trimmed(b) && a != [] && b != []
    ensures |Mul(a, b)| == |a| + |b| - 1
    ensures Mul(a, b)[|a| + |b| - 2] == Times(a[|a| - 1], b[|b| - 1]) != 0.0
  {
    hide Mul, Times;
    var r := Mul(a, b);
    ProductTop(a, b, |a| + |b| - 2);
    ProductTop(a, b, |r| - 1);
    NoZeroDivisors(a[|a| - 1], b[|b| - 1]);
  }

  lemma {:induction false} Cancel(b: Coefs, p: Coefs, q: Coefs)
    requires Trimmed(b) && b != [] && Mul(b, p) == Mul(b, q)
    ensures Norm(p) == Norm(q)
  {
    hide Norm, Add, Sub, Mul;
    var d := Sub(p, q);
    MulSub(b, p, q);
    SameCoefs(Sub(Mul(b, p), Mul(b, q)), []);
    if d != [] {
      ProductSize(b, d);
      assert false;
    }
    forall i ensures Coef(Norm(p), i) == Coef(Norm(q), i) {
      assert Coef(d, i) == 0.0;
    }
    SameCoefs(Norm(p), Norm(q));
  }
}
