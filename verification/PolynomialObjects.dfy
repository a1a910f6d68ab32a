/** The polynomial and rational objects: vectors of coefficients that the operators update in place. */
module PolynomialObjects {
  import opened Arith
  import opened Polynomials
  import opened Divisibility

  datatype Division = Quotient(value: Polynomial) | AssertionFailed

  class Polynomial {
    var data: Coefs

    constructor (data: Coefs)
      ensures this.data == data
    {
      this.data := data;
    }

    method Trim()
      modifies this
      ensures data == Norm(old(data))
    {
      while data != [] && data[|data| - 1] == 0.0
        invariant Norm(data) == Norm(old(data))
        decreases |data|
      {
        data := data[..|data| - 1];
      }
    }

    method AddAssign(o: Polynomial)
      modifies this
      ensures data == Add(old(data), old(o.data))
    {
      Extend(|o.data|);
      ghost var start := data;
      for i := 0 to |o.data|
        invariant |data| == |start| && |o.data| == |old(o.data)| <= |data|
        invariant forall j :: 0 <= j < i ==> data[j] == start[j] + Coef(old(o.data), j)
        invariant forall j :: i <= j < |data| ==> data[j] == start[j]
        invariant o != this ==> o.data == old(o.data)
      {
        assert o.data[i] == Coef(old(o.data), i);
        data := data[i := data[i] + o.data[i]];
      }
      ghost var sum := data;
      Trim();
      SumOfCoefs(old(data), old(o.data), data);
    }

    method SubAssign(o: Polynomial)
      modifies this
      ensures data == Sub(old(data), old(o.data))
    {
      Extend(|o.data|);
      ghost var start := data;
      for i := 0 to |o.data|
        invariant |data| == |start| && |o.data| == |old(o.data)| <= |data|
        invariant forall j :: 0 <= j < i ==> data[j] == start[j] - Coef(old(o.data), j)
        invariant forall j :: i <= j < |data| ==> data[j] == start[j]
        invariant o != this ==> o.data == old(o.data)
      {
        assert o.data[i] == Coef(old(o.data), i);
        data := data[i := data[i] - o.data[i]];
      }
      Trim();
      SameCoefs(data, Sub(old(data), old(o.data)));
    }

    /** The loop that appends zeros up to the size of the other operand. */
    method Extend(size: nat)
      modifies this
      ensures |data| == Max(|old(data)|, size)
      ensures forall i :: Coef(data, i) == Coef(old(data), i)
    {
      while |data| < size
        invariant |data| == |old(data)| || |old(data)| < |data| <= size
        invariant forall i :: Coef(data, i) == Coef(old(data), i)
        decreases size - |data|
      {
        data := data + [0.0];
      }
    }

    method MulAssign(o: Polynomial)
      modifies this
      ensures data == Mul(old(data), old(o.data))
    {
      var product := Multiply(this, o);
      data := product.data;
    }

    method DivideByScalar(coef: real)
      requires coef != 0.0
      modifies this
      ensures data == Scale(1.0 / coef, old(data))
    {
      for i := 0 to |data|
        invariant |data| == |old(data)|
        invariant forall j :: 0 <= j < i ==> data[j] == Times(1.0 / coef, old(data)[j])
        invariant forall j :: i <= j < |data| ==> data[j] == old(data)[j]
      {
        Reciprocal(data[i], coef);
        data := data[i := data[i] / coef];
      }
      Trim();
      ScaleOfCoefs(1.0 / coef, old(data), data);
    }
  }

  lemma {:induction false} Reciprocal(x: real, y: real)
    requires y != 0.0
    ensures x / y == Times(1.0 / y, x)
  {
  }

  method Plus(a: Polynomial, b: Polynomial) returns (sum: Polynomial)
    ensures fresh(sum) && sum.data == Add(a.data, b.data)
  {
    sum := new Polynomial(a.data);
    sum.AddAssign(b);
  }

  method Minus(a: Polynomial, b: Polynomial) returns (difference: Polynomial)
    ensures fresh(difference) && difference.data == Sub(a.data, b.data)
  {
    difference := new Polynomial(a.data);
    difference.SubAssign(b);
  }

  method Multiply(a: Polynomial, b: Polynomial) returns (product: Polynomial)
    ensures fresh(product) && product.data == Mul(a.data, b.data)
  {
    hide Mul, Norm, Times, Add;
    if a.data == [] || b.data == [] {
      product := new Polynomial([]);
      MulEmpty(b.data);
      MulZero(a.data);
      return;
    }
    product := new Polynomial(seq(|a.data| + |b.data| - 1, _ => 0.0));
    MulEmpty(b.data);
    for i := 0 to |a.data|
      invariant fresh(product) && |product.data| == |a.data| + |b.data| - 1
      invariant forall k :: Coef(product.data, k) == Coef(Mul(a.data[..i], b.data), k)
    {
      ghost var before := product.data;
      for j := 0 to |b.data|
        invariant fresh(product) && |product.data| == |before|
        invariant forall k ::
          Coef(product.data, k) ==
          Coef(before, k) + if 0 <= k - i < j then Times(a.data[i], Coef(b.data, k - i)) else 0.0
      {
        product.data := product.data[i + j := product.data[i + j] + Times(a.data[i], b.data[j])];
      }
      Commutes(a.data[i], 0.0, 0.0);
      MulNextRow(a.data, b.data, i);
    }
    assert a.data[..|a.data|] == a.data;
    product.Trim();
    SameCoefs(product.data, Mul(a.data, b.data));
  }

  /** What the exact division promises: it fails its assertion if and only if a is not smaller than b and not a
      multiple. */
  ghost predicate DivisionMeaning(result: Division, a: Coefs, b: Coefs)
    reads if result.Quotient? then {result.value} else {}
  {
    if |a| < |b| then result.Quotient? && result.value.data == []
    else
      && (result.Quotient? <==> Divides(b, Norm(a)))
      && (result.Quotient? ==> Mul(b, result.value.data) == Norm(a))
  }

  method Divide(dividend: Polynomial, b: Polynomial) returns (result: Division)
    requires b.data != [] && Trimmed(b.data)
    ensures result.Quotient? ==> fresh(result.value)
    ensures DivisionMeaning(result, dividend.data, b.data)
    ensures result.Quotient? && Trimmed(dividend.data) ==> Trimmed(result.value.data)
  {
    hide Mul, Norm;
    if |dividend.data| < |b.data| {
      var zero := new Polynomial([]);
      result := Quotient(zero);
      return;
    }
    var a := new Polynomial(dividend.data);
    var res := new Polynomial(seq(|a.data| - |b.data| + 1, _ => 0.0));
    MulZero(b.data);
    MulSameRight(b.data, [], res.data);
    var i := |a.data| - 1;
    while i + 1 >= |b.data|
      invariant fresh(a) && fresh(res) && |res.data| == |dividend.data| - |b.data| + 1
      invariant |b.data| - 2 <= i < |dividend.data| && |a.data| <= i + 1
      invariant if i == |dividend.data| - 1 then a.data == dividend.data else Trimmed(a.data)
      invariant forall j :: 0 <= j <= i - |b.data| + 1 ==> res.data[j] == 0.0
      invariant Divided(dividend.data, b.data, res.data, a.data)
      invariant i < |dividend.data| - 1 && Trimmed(dividend.data) ==> Trimmed(res.data)
    {
      if |a.data| > i {
        EliminateTop(dividend, a, b, res, i);
      }
      i := i - 1;
    }
    RestDecides(Norm(dividend.data), b.data, res.data, a.data);
    if a.data != [] {
      return AssertionFailed;
    }
    result := Quotient(res);
  }

  /** The body of the division loop. */
  method EliminateTop(ghost dividend: Polynomial, a: Polynomial, b: Polynomial, res: Polynomial, i: nat)
    requires b.data != [] && Trimmed(b.data) && a != b && a != res && b != res && a != dividend && res != dividend
    requires |a.data| == i + 1 >= |b.data| && i - |b.data| + 1 < |res.data| && res.data[i - |b.data| + 1] == 0.0
    requires Divided(dividend.data, b.data, res.data, a.data)
    modifies a, res
    ensures |a.data| <= i && Trimmed(a.data)
    ensures Divided(dividend.data, b.data, res.data, a.data)
    ensures res.data == old(res.data)[i - |b.data| + 1 := old(a.data)[i] / b.data[|b.data| - 1]]
  {
    hide Mul, Norm;
    var s := i - |b.data| + 1;
    var coef := a.data[i] / b.data[|b.data| - 1];
    res.data := res.data[s := coef];
    for j := 0 to |b.data|
      invariant |a.data| == i + 1 && res.data == old(res.data)[s := coef]
      invariant forall k ::
        Coef(a.data, k) == Coef(old(a.data), k) - if 0 <= k - s < j then Times(coef, Coef(b.data, k - s)) else 0.0
    {
      a.data := a.data[s + j := a.data[s + j] - Times(coef, b.data[j])];
    }
    DivisionStep(dividend.data, b.data, old(res.data), old(a.data), coef, s, a.data);
    assert Coef(a.data, i) == 0.0;
    ghost var full := a.data;
    assert Divided(dividend.data, b.data, res.data, full);
    a.Trim();
    forall k ensures Coef(a.data, k) == Coef(full, k) {}
    assert Coef(full, |a.data| - 1) == Coef(a.data, |a.data| - 1);
  }

  /** The loop that copies the coefficients of a from the degree of b up. */
  method TopCoefficients(a: Polynomial, b: Polynomial) returns (c: Polynomial)
    requires b.data != []
    ensures fresh(c) && c.data == if |a.data| < |b.data| then [] else a.data[|b.data| - 1..]
  {
    c := new Polynomial([]);
    var i := |b.data| - 1;
    while i < |a.data|
      invariant fresh(c) && |b.data| - 1 <= i && (i <= |a.data| || i == |b.data| - 1)
      invariant c.data == if |a.data| < |b.data| then [] else a.data[|b.data| - 1..i]
    {
      c.data := c.data + [a.data[i]];
      i := i + 1;
    }
  }

  /** The body of the gcd loop before the swap: b becomes monic, and a loses b times its own top coefficients. */
  method Reduce(a: Polynomial, b: Polynomial, ghost a0: Coefs, ghost b0: Coefs)
    requires a != b && Trimmed(b.data) && b.data != [] && Follows(Norm(a.data), b.data, a0, b0)
    modifies a, b
    ensures Monic(b.data) && |b.data| == |old(b.data)| && Trimmed(a.data)
    ensures if |old(a.data)| < |b.data| then |a.data| <= |old(a.data)| else |a.data| < |old(a.data)|
    ensures Follows(b.data, a.data, a0, b0)
  {
    hide Mul, Norm, Sub, Scale;
    ghost var top := b.data[|b.data| - 1];
    ghost var x := 1.0 / top;
    FollowsScaled(Norm(a.data), b.data, a0, b0, x);
    ScaleMonic(b.data);
    b.DivideByScalar(b.data[|b.data| - 1]);
    var c := TopCoefficients(a, b);
    ReduceStep(a.data, b.data, c.data, a0, b0);
    var product := Multiply(b, c);
    a.SubAssign(product);
  }

  lemma {:induction false} ReduceStep(a: Coefs, b: Coefs, c: Coefs, a0: Coefs, b0: Coefs)
    requires Monic(b) && Follows(Norm(a), b, a0, b0) && c == if |a| < |b| then [] else a[|b| - 1..]
    ensures var r := Sub(a, Mul(b, c));
            && Follows(b, r, a0, b0) && Trimmed(r)
            && if |a| < |b| then |r| <= |a| else |r| < |a|
  {
    hide Mul, Norm, Sub, Follows;
    FollowsStep(Norm(a), b, c, a0, b0);
    SameCoefs(Sub(Norm(a), Mul(b, c)), Sub(a, Mul(b, c)));
    if |a| >= |b| {
      TopCancels(a, b, c);
    } else {
      MulZero(b);
      NotLonger(a, Sub(a, []));
    }
  }

  lemma {:induction false} ScaleMonic(b: Coefs)
    requires Trimmed(b) && b != []
    ensures var m := Scale(1.0 / b[|b| - 1], b); Monic(m) && |m| == |b|
  {
    var top := b[|b| - 1];
    var m := Scale(1.0 / top, b);
    hide Scale;
    assert Coef(m, |b| - 1) == 1.0 / top * top == 1.0;
    assert Coef(m, |m| - 1) == Times(1.0 / top, Coef(b, |m| - 1));
  }

  lemma {:induction false} NotLonger(a: Coefs, r: Coefs)
    requires Trimmed(r) && forall i :: Coef(r, i) == Coef(a, i)
    ensures |r| <= |a|
  {
    assert Coef(r, |r| - 1) == Coef(a, |r| - 1);
  }

  method Gcd(a0: Polynomial, b0: Polynomial) returns (g: Polynomial)
    requires Trimmed(b0.data)
    ensures fresh(g) && IsGcd(Norm(g.data), Norm(a0.data), b0.data)
    ensures a0.data != [] && b0.data != [] ==> Monic(g.data)
    ensures a0.data == [] ==> g.data == b0.data
    ensures b0.data == [] ==> g.data == a0.data
  {
    hide Mul, Norm, Sub, Scale;
    var a := new Polynomial(a0.data);
    var b := new Polynomial(b0.data);
    NormTrimmed(b.data);
    FollowsItself(Norm(a.data), b.data);
    if a.data == [] {
      assert Norm([]) == [] by { NormTrimmed([]); }
      DividesItself(b.data);
      return b;
    }
    while b.data != []
      invariant fresh(a) && fresh(b) && a != b
      invariant a.data != [] && Trimmed(b.data)
      invariant (a.data == a0.data && b.data == b0.data) || (b0.data != [] && Monic(a.data))
      invariant Follows(Norm(a.data), b.data, Norm(a0.data), b0.data)
      decreases |a.data| + |b.data|, if |a.data| < |b.data| then 1 else 0
    {
      Reduce(a, b, Norm(a0.data), b0.data);
      a, b := b, a;
      NormTrimmed(a.data);
    }
    FollowsEnd(Norm(a.data), Norm(a0.data), b0.data);
    g := a;
  }

  /** An exact division by a divisor succeeds, also where the size test answers zero. */
  lemma {:induction false} DivisionSucceeds(result: Division, a: Coefs, b: Coefs)
    requires DivisionMeaning(result, a, b) && Divides(b, Norm(a)) && Trimmed(b) && b != []
    ensures result.Quotient? && Mul(b, result.value.data) == Norm(a)
  {
    hide Mul, Norm;
    if |a| < |b| {
      if Norm(a) != [] {
        DivisorSize(b, Norm(a));
      }
      MulZero(b);
    }
  }

  /** When the assertion fires, and when the quotient is silently wrong: the size test comes before any division. */
  lemma {:induction false} DivisionOutcome(result: Division, a: Coefs, b: Coefs)
    requires DivisionMeaning(result, a, b) && Trimmed(b) && b != []
    ensures result.AssertionFailed? <==> |a| >= |b| && !Divides(b, Norm(a))
    ensures result.Quotient? && Mul(b, result.value.data) != Norm(a) <==> |a| < |b| && Norm(a) != []
  {
    hide Mul, Norm;
    MulZero(b);
  }

  /** Dividing 1 by x answers zero and fails no assertion. */
  lemma {:induction false} SilentZeroExample(result: Division)
    requires DivisionMeaning(result, [1.0], [0.0, 1.0])
    ensures result.Quotient? && result.value.data == [] && Mul([0.0, 1.0], []) != Norm([1.0])
  {
    hide Mul;
    MulZero([0.0, 1.0]);
    NormTrimmed([1.0]);
  }

  /** Lowest terms: a common divisor is a constant. */
  ghost predicate OnlyConstantsDivide(a: Coefs, b: Coefs) {
    forall d: Coefs :: Trimmed(d) && CommonDivisor(d, a, b) ==> |d| == 1
  }

  lemma {:induction false} LowestMeaning(a: Coefs, b: Coefs, n: Coefs, d: Coefs)
    requires IsReduction(a, b, n, d)
    ensures OnlyConstantsDivide(n, d)
  {
    forall e: Coefs | Trimmed(e) && CommonDivisor(e, n, d)
      ensures |e| == 1
    {
      CoprimeMeaning(n, d, e);
    }
  }

  class Rational {
    const numerator: Polynomial
    const denominator: Polynomial

    ghost predicate Valid()
      reads this, numerator, denominator
    {
      numerator != denominator
    }

    constructor (numerator: Coefs, denominator: Coefs)
      requires denominator != [] && Trimmed(denominator)
      ensures fresh(this.numerator) && fresh(this.denominator) && Valid()
      ensures IsReduction(numerator, denominator, this.numerator.data, this.denominator.data)
      ensures OnlyConstantsDivide(this.numerator.data, this.denominator.data)
    {
      var n := new Polynomial(numerator);
      var d := new Polynomial(denominator);
      this.numerator := n;
      this.denominator := d;
      new;
      Trim();
    }

    /** No assertion of the exact divisions fires, and the value is kept as a cross product. */
    method Trim()
      requires Valid() && denominator.data != [] && Trimmed(denominator.data)
      modifies numerator, denominator
      ensures IsReduction(old(numerator.data), old(denominator.data), numerator.data, denominator.data)
      ensures OnlyConstantsDivide(numerator.data, denominator.data)
    {
      hide Mul, Norm, Scale;
      var g := Gcd(numerator, denominator);
      ghost var a, b := numerator.data, denominator.data;
      NormTrimmed(b);
      NormTrimmed(g.data);
      DivisorSize(g.data, b);
      var n := Divide(numerator, g);
      DivisionSucceeds(n, a, g.data);
      numerator.data := n.value.data;
      var d := Divide(denominator, g);
      DivisionSucceeds(d, b, g.data);
      denominator.data := d.value.data;
      ghost var p, q := numerator.data, denominator.data;
      MulZero(g.data);
      var coef := denominator.data[|denominator.data| - 1];
      numerator.DivideByScalar(coef);
      denominator.DivideByScalar(coef);
      ScaleMonic(q);
      LowestTerms(g.data, a, b, p, q, 1.0 / coef);
      LowestMeaning(a, b, numerator.data, denominator.data);
    }
  }
}
