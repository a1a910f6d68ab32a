/** Transforming twice, the second time with the inverse root, multiplies every entry by the length. */
module FftInverse {
  import opened Arith
  import opened Rings
  import opened GrayCode
  import opened Fft

  /** The transform with every sum written as a polynomial value. */
  function Freq<T>(r: Ring<T>, s: seq<T>, e: T): (t: seq<T>)
    ensures |t| == |s|
  {
    seq(|s|, i requires 0 <= i => r.Eval(s, r.Pow(e, i)))
  }

  lemma {:induction false} FreqIsDft<T(!new)>(r: Ring<T>, s: seq<T>, e: T)
    requires IsRing(r)
    ensures Freq(r, s, e) == Dft(r, s, e)
  {
    hide IsRing;
    forall i: nat | i < |s|
      ensures Freq(r, s, e)[i] == Dft(r, s, e)[i]
    {
      EvalIsSum(r, s, r.Pow(e, i));
    }
  }

  /** lo + c·hi, entry by entry. */
  function Comb<T>(r: Ring<T>, lo: seq<T>, hi: seq<T>, c: T): (t: seq<T>)
    requires |lo| == |hi|
    ensures |t| == |lo| && forall j :: 0 <= j < |t| ==> t[j] == r.add(lo[j], r.mul(c, hi[j]))
  {
    seq(|lo|, j requires 0 <= j < |lo| => r.add(lo[j], r.mul(c, hi[j])))
  }

  /** s[j]·e^j, entry by entry. */
  function Twist<T>(r: Ring<T>, s: seq<T>, e: T): (t: seq<T>)
    ensures |t| == |s| && forall j :: 0 <= j < |t| ==> t[j] == r.mul(r.Pow(e, j), s[j])
  {
    seq(|s|, j requires 0 <= j < |s| => r.mul(r.Pow(e, j), s[j]))
  }

  function Scale<T>(r: Ring<T>, c: T, s: seq<T>): (t: seq<T>)
    ensures |t| == |s| && forall j :: 0 <= j < |t| ==> t[j] == r.mul(c, s[j])
  {
    seq(|s|, j requires 0 <= j < |s| => r.mul(c, s[j]))
  }

  lemma {:induction false} EvalComb<T(!new)>(r: Ring<T>, lo: seq<T>, hi: seq<T>, c: T, x: T)
    requires IsRing(r) && |lo| == |hi|
    ensures r.Eval(Comb(r, lo, hi, c), x) == r.add(r.Eval(lo, x), r.mul(c, r.Eval(hi, x)))
  {
    hide IsRing;
    if lo == [] {
      MulZero(r, c);
      AddLaws(r, r.zero, r.zero, r.zero);
    } else {
      var L, H := r.Eval(lo[1..], x), r.Eval(hi[1..], x);
      assert Comb(r, lo, hi, c)[1..] == Comb(r, lo[1..], hi[1..], c);
      EvalComb(r, lo[1..], hi[1..], c, x);
      MulLaws(r, x, L, r.mul(c, H));
      MulLaws(r, c, hi[0], r.mul(x, H));
      MulLaws(r, x, c, H);
      MulLaws(r, c, x, H);
      AddFour(r, lo[0], r.mul(c, hi[0]), r.mul(x, L), r.mul(c, r.mul(x, H)));
    }
  }

  lemma {:induction false} EvalScale<T(!new)>(r: Ring<T>, c: T, s: seq<T>, x: T)
    requires IsRing(r)
    ensures r.Eval(Scale(r, c, s), x) == r.mul(c, r.Eval(s, x))
  {
    hide IsRing;
    if s == [] {
      MulZero(r, c);
    } else {
      var S := r.Eval(s[1..], x);
      assert Scale(r, c, s)[1..] == Scale(r, c, s[1..]);
      EvalScale(r, c, s[1..], x);
      MulLaws(r, x, c, S);
      MulLaws(r, c, x, S);
      MulLaws(r, c, s[0], r.mul(x, S));
    }
  }

  /** s(e·y) is the twisted polynomial at y. */
  lemma {:induction false} EvalTwist<T(!new)>(r: Ring<T>, s: seq<T>, e: T, y: T)
    requires IsRing(r)
    ensures r.Eval(s, r.mul(e, y)) == r.Eval(Twist(r, s, e), y)
  {
    hide IsRing;
    if s != [] {
      var t := Twist(r, s[1..], e);
      EvalTwist(r, s[1..], e, y);
      forall j | 0 <= j < |t|
        ensures Twist(r, s, e)[1..][j] == Scale(r, e, t)[j]
      {
        MulLaws(r, e, r.Pow(e, j), s[j + 1]);
      }
      assert Twist(r, s, e)[1..] == Scale(r, e, t);
      EvalScale(r, e, t, y);
      var V := r.Eval(t, y);
      MulLaws(r, y, e, V);
      MulLaws(r, e, y, V);
      MulLaws(r, s[0], s[0], s[0]);
    }
  }

  // ---- Powers of the two roots ----

  lemma {:induction false} MinusOnePow<T(!new)>(r: Ring<T>, j: nat)
    requires IsRing(r)
    ensures r.Pow(r.Neg(r.one), 2 * j) == r.one && r.Pow(r.Neg(r.one), 2 * j + 1) == r.Neg(r.one)
  {
    hide IsRing;
    var m := r.Neg(r.one);
    if j > 0 {
      MinusOnePow(r, j - 1);
      MulMinusOne(r, m);
      NegNeg(r, r.one);
    }
    MulLaws(r, m, m, m);
    assert r.Pow(m, 2 * j + 1) == r.mul(m, r.Pow(m, 2 * j));
  }

  /** Facts about one halving step: h = 2^(k-1), e^h = -1, e^(2h) = 1, and the same for the inverse. */
  lemma {:induction false} InverseRoot<T(!new)>(r: Ring<T>, e: T, e': T, k: nat)
    requires IsRing(r) && 0 < k && Root(r, e, k) && r.mul(e, e') == r.one
    ensures Root(r, e', k)
    ensures r.Pow(e, Pow2(k)) == r.one == r.Pow(e', Pow2(k))
  {
    hide IsRing;
    var h := Pow2(k - 1);
    PowOfProduct(r, e, e', h);
    PowOne(r, h);
    MulMinusOne(r, r.Pow(e', h));
    NegNeg(r, r.Pow(e', h));
    MinusOnePow(r, 1);
    assert r.Pow(r.Neg(r.one), 2) == r.mul(r.Neg(r.one), r.mul(r.Neg(r.one), r.one));
    MulLaws(r, r.Neg(r.one), r.one, r.one);
    PowAdd(r, e, h, h);
    PowAdd(r, e', h, h);
  }

  lemma {:induction false} SquareRoot<T(!new)>(r: Ring<T>, e: T, e': T, k: nat)
    requires IsRing(r) && 0 < k && Root(r, e, k) && r.mul(e, e') == r.one
    ensures Root(r, r.mul(e, e), k - 1) && r.mul(r.mul(e, e), r.mul(e', e')) == r.one
  {
    hide IsRing;
    MulFour(r, e, e, e', e');
    MulLaws(r, r.one, r.one, r.one);
    if k > 1 {
      SquarePow(r, e, Pow2(k - 2));
    }
  }

  lemma {:induction false} SquarePow<T(!new)>(r: Ring<T>, e: T, j: nat)
    requires IsRing(r)
    ensures r.Pow(r.mul(e, e), j) == r.Pow(e, 2 * j)
  {
    hide IsRing;
    PowOfProduct(r, e, e, j);
    PowAdd(r, e, j, j);
  }

  // ---- Splitting the transform by the parity of the frequency ----

  /** The folded halves: sums feed the even frequencies, twisted differences the odd ones. */
  function Sums<T>(r: Ring<T>, s: seq<T>, h: nat): (t: seq<T>)
    requires |s| == 2 * h
    ensures |t| == h && forall j :: 0 <= j < h ==> t[j] == r.add(s[j], r.mul(r.one, s[h + j]))
  {
    Comb(r, s[..h], s[h..], r.one)
  }

  function Differences<T>(r: Ring<T>, s: seq<T>, e: T, h: nat): (t: seq<T>)
    requires |s| == 2 * h
    ensures |t| == h
    ensures forall j :: 0 <= j < h ==> t[j] == r.mul(r.Pow(e, j), r.add(s[j], r.mul(r.Neg(r.one), s[h + j])))
  {
    Twist(r, Comb(r, s[..h], s[h..], r.Neg(r.one)), e)
  }

  /** e^(i·h) at frequency i, where h is half the length: 1 for even i, -1 for odd i. */
  lemma {:induction false} HalfPower<T(!new)>(r: Ring<T>, e: T, k: nat, i: nat)
    requires IsRing(r) && 0 < k && Root(r, e, k)
    ensures r.Pow(r.Pow(e, i), Pow2(k - 1)) == if i % 2 == 0 then r.one else r.Neg(r.one)
  {
    hide IsRing;
    var h := Pow2(k - 1);
    PowMul(r, e, i, h);
    assert i * h == h * i;
    PowMul(r, e, h, i);
    MinusOnePow(r, i / 2);
  }

  lemma {:induction false} EvenFreqAt<T(!new)>(r: Ring<T>, s: seq<T>, e: T, h: nat, j: nat)
    requires IsRing(r) && |s| == 2 * h && r.Pow(r.Pow(e, 2 * j), h) == r.one
    ensures r.Eval(s, r.Pow(e, 2 * j)) == r.Eval(Sums(r, s, h), r.Pow(r.mul(e, e), j))
  {
    hide IsRing;
    var lo, hi := s[..h], s[h..];
    assert s == lo + hi;
    SquarePow(r, e, j);
    EvalAppend(r, lo, hi, r.Pow(e, 2 * j));
    EvalComb(r, lo, hi, r.one, r.Pow(e, 2 * j));
  }

  lemma {:induction false} OddFreqAt<T(!new)>(r: Ring<T>, s: seq<T>, e: T, h: nat, j: nat)
    requires IsRing(r) && |s| == 2 * h && r.Pow(r.Pow(e, 2 * j + 1), h) == r.Neg(r.one)
    ensures r.Eval(s, r.Pow(e, 2 * j + 1)) == r.Eval(Differences(r, s, e, h), r.Pow(r.mul(e, e), j))
  {
    hide IsRing;
    var lo, hi := s[..h], s[h..];
    assert s == lo + hi;
    SquarePow(r, e, j);
    EvalAppend(r, lo, hi, r.Pow(e, 2 * j + 1));
    EvalComb(r, lo, hi, r.Neg(r.one), r.Pow(e, 2 * j + 1));
    EvalTwist(r, Comb(r, lo, hi, r.Neg(r.one)), e, r.Pow(e, 2 * j));
  }

  lemma {:induction false} FreqHalves<T(!new)>(r: Ring<T>, s: seq<T>, e: T, k: nat, h: nat)
    requires IsRing(r) && 0 < k && Root(r, e, k) && h == Pow2(k - 1) && |s| == 2 * h
    ensures Even(Freq(r, s, e)) == Freq(r, Sums(r, s, h), r.mul(e, e))
    ensures Odd(Freq(r, s, e)) == Freq(r, Differences(r, s, e, h), r.mul(e, e))
  {
    hide IsRing, Root, Pow2;
    var f := Freq(r, s, e);
    forall j: nat | j < h
      ensures Even(f)[j] == Freq(r, Sums(r, s, h), r.mul(e, e))[j]
      ensures Odd(f)[j] == Freq(r, Differences(r, s, e, h), r.mul(e, e))[j]
    {
      HalfPower(r, e, k, 2 * j);
      HalfPower(r, e, k, 2 * j + 1);
      EvenFreqAt(r, s, e, h, j);
      OddFreqAt(r, s, e, h, j);
      assert f[2 * j] == r.Eval(s, r.Pow(e, 2 * j)) && f[2 * j + 1] == r.Eval(s, r.Pow(e, 2 * j + 1));
    }
  }

  // ---- Multiples ----

  lemma {:induction false} TimesAdd<T(!new)>(r: Ring<T>, n: nat, a: T, b: T)
    requires IsRing(r)
    ensures r.add(r.Times(n, a), r.Times(n, b)) == r.Times(n, r.add(a, b))
  {
    hide IsRing;
    AddLaws(r, r.zero, r.zero, r.zero);
    if n > 0 {
      TimesAdd(r, n - 1, a, b);
      AddFour(r, r.Times(n - 1, a), a, r.Times(n - 1, b), b);
    }
  }

  lemma {:induction false} TimesMul<T(!new)>(r: Ring<T>, n: nat, c: T, a: T)
    requires IsRing(r)
    ensures r.mul(c, r.Times(n, a)) == r.Times(n, r.mul(c, a))
  {
    hide IsRing;
    MulZero(r, c);
    if n > 0 {
      TimesMul(r, n - 1, c, a);
      MulLaws(r, c, r.Times(n - 1, a), a);
    }
  }

  lemma {:induction false} TimesTwice<T(!new)>(r: Ring<T>, n: nat, a: T)
    requires IsRing(r)
    ensures r.Times(n, r.add(a, a)) == r.Times(2 * n, a)
  {
    hide IsRing;
    if n > 0 {
      TimesTwice(r, n - 1, a);
      AddLaws(r, r.Times(2 * n - 2, a), a, a);
    }
  }

  // ---- The inversion theorem ----

  /** The two halves put back together, at index i of the low or of the high half. */
  lemma {:induction false} Recombine<T(!new)>(r: Ring<T>, h: nat, lo: T, hi: T)
    requires IsRing(r)
    ensures var sum, dif := r.add(lo, r.mul(r.one, hi)), r.add(lo, r.mul(r.Neg(r.one), hi));
            r.add(r.Times(h, sum), r.Times(h, dif)) == r.Times(2 * h, lo) &&
            r.add(r.Times(h, sum), r.Times(h, r.Neg(dif))) == r.Times(2 * h, hi)
  {
    hide IsRing;
    MulLaws(r, hi, hi, hi);
    MulMinusOne(r, hi);
    var sum, dif := r.add(lo, hi), r.add(lo, r.Neg(hi));
    TimesAdd(r, h, sum, dif);
    TimesAdd(r, h, sum, r.Neg(dif));
    SubIsAddNeg(r, hi, hi);
    SubIsAddNeg(r, lo, lo);
    AddFour(r, lo, hi, lo, r.Neg(hi));
    AddLaws(r, r.add(lo, lo), lo, lo);
    NegAdd(r, lo, r.Neg(hi));
    NegNeg(r, hi);
    AddFour(r, lo, hi, r.Neg(lo), hi);
    AddLaws(r, r.add(hi, hi), hi, hi);
    TimesTwice(r, h, lo);
    TimesTwice(r, h, hi);
  }

  /** Undoing the twist at index i of either half. */
  lemma {:induction false} Untwist<T(!new)>(r: Ring<T>, e: T, e': T, k: nat, i: nat, d: T)
    requires IsRing(r) && 0 < k && Root(r, e, k) && r.mul(e, e') == r.one
    ensures r.mul(r.Pow(e', i), r.mul(r.Pow(e, i), d)) == d
    ensures r.mul(r.Pow(e', i + Pow2(k - 1)), r.mul(r.Pow(e, i), d)) == r.Neg(d)
  {
    hide IsRing;
    var p, p' := r.Pow(e, i), r.Pow(e', i);
    PowOfProduct(r, e, e', i);
    PowOne(r, i);
    MulLaws(r, p', p, d);
    MulLaws(r, d, d, d);
    InverseRoot(r, e, e', k);
    PowAdd(r, e', i, Pow2(k - 1));
    MulMinusOne(r, p');
    MulNeg(r, r.mul(p, d), p');
    MulLaws(r, p', r.mul(p, d), d);
  }

  lemma {:induction false} InverseAt<T(!new)>(r: Ring<T>, s: seq<T>, e: T, e': T, k: nat, i: nat)
    requires IsRing(r) && Root(r, e, k) && r.mul(e, e') == r.one && |s| == Pow2(k) && i < Pow2(k)
    ensures r.Eval(Freq(r, s, e), r.Pow(e', i)) == r.Times(Pow2(k), s[i])
    decreases k
  {
    hide IsRing;
    if k == 0 {
      assert s == [s[0]] && Freq(r, s, e) == [r.Eval(s, r.Pow(e, 0))];
      EvalSingle(r, s[0], r.Pow(e, 0));
      EvalSingle(r, r.Eval(s, r.Pow(e, 0)), r.Pow(e', i));
      AddLaws(r, s[0], s[0], s[0]);
    } else {
      var h := Pow2(k - 1);
      var j := if i < h then i else i - h;
      var e2, e2' := r.mul(e, e), r.mul(e', e');
      SquareRoot(r, e, e', k);
      InverseAt(r, Sums(r, s, h), e2, e2', k - 1, j);
      InverseAt(r, Differences(r, s, e, h), e2, e2', k - 1, j);
      InverseStep(r, s, e, e', k, h, i, j);
    }
  }

  lemma {:induction false} InverseStep<T(!new)>(r: Ring<T>, s: seq<T>, e: T, e': T, k: nat, h: nat, i: nat, j: nat)
    requires IsRing(r) && 0 < k && Root(r, e, k) && r.mul(e, e') == r.one
    requires h == Pow2(k - 1) && |s| == 2 * h && i < 2 * h && j == if i < h then i else i - h
    requires r.Eval(Freq(r, Sums(r, s, h), r.mul(e, e)), r.Pow(r.mul(e', e'), j)) == r.Times(h, Sums(r, s, h)[j])
    requires r.Eval(Freq(r, Differences(r, s, e, h), r.mul(e, e)), r.Pow(r.mul(e', e'), j)) ==
             r.Times(h, Differences(r, s, e, h)[j])
    ensures r.Eval(Freq(r, s, e), r.Pow(e', i)) == r.Times(2 * h, s[i])
  {
    hide IsRing, Root, Pow2, Freq, Sums, Differences;
    var x := r.Pow(e', i);
    EvenOdd(r, Freq(r, s, e), x);
    FreqHalves(r, s, e, k, h);
    PointOfHalf(r, e, e', k, i, j);
    var dif := r.add(s[j], r.mul(r.Neg(r.one), s[h + j]));
    TimesMul(r, h, x, Differences(r, s, e, h)[j]);
    Untwist(r, e, e', k, j, dif);
    Recombine(r, h, s[j], s[h + j]);
  }

  /** Squaring the evaluation point lands on the same point of the half-size transform from both halves. */
  lemma {:induction false} PointOfHalf<T(!new)>(r: Ring<T>, e: T, e': T, k: nat, i: nat, j: nat)
    requires IsRing(r) && 0 < k && Root(r, e, k) && r.mul(e, e') == r.one
    requires j == i || i == j + Pow2(k - 1)
    ensures r.mul(r.Pow(e', i), r.Pow(e', i)) == r.Pow(r.mul(e', e'), j)
  {
    hide IsRing;
    PowAdd(r, e', i, i);
    SquarePow(r, e', j);
    if i != j {
      InverseRoot(r, e, e', k);
      PowAdd(r, e', 2 * j, Pow2(k));
      MulLaws(r, r.Pow(e', 2 * j), e, e);
    }
  }

  /** Transforming with e and then with its inverse multiplies every entry by the length. */
  lemma {:induction false} InverseTransform<T(!new)>(r: Ring<T>, s: seq<T>, e: T, e': T, k: nat)
    requires IsRing(r) && Root(r, e, k) && r.mul(e, e') == r.one && |s| == Pow2(k)
    ensures Root(r, e', k)
    ensures Dft(r, Dft(r, s, e), e') == seq(|s|, i requires 0 <= i < |s| => r.Times(|s|, s[i]))
  {
    hide IsRing;
    if k > 0 {
      InverseRoot(r, e, e', k);
    }
    FreqIsDft(r, s, e);
    FreqIsDft(r, Freq(r, s, e), e');
    forall i: nat | i < |s|
      ensures Freq(r, Freq(r, s, e), e')[i] == r.Times(|s|, s[i])
    {
      InverseAt(r, s, e, e', k, i);
    }
  }

  /** The two calls in a row, on arrays. */
  method RoundTrip<T(!new)>(r: Ring<T>, input: array<T>, middle: array<T>, output: array<T>, len: nat, e: T, e': T,
          ghost k: nat)
    returns (ok: bool)
    requires IsRing(r) && Root(r, e, k) && r.mul(e, e') == r.one
    requires input != middle && middle != output && input != output
    requires input.Length == middle.Length == output.Length == len == Pow2(k)
    modifies middle, output
    ensures ok <==> k <= 30
    ensures ok ==> forall i :: 0 <= i < len ==> output[i] == r.Times(len, input[i])
  {
    hide IsRing;
    ghost var s := input[..];
    InverseTransform(r, s, e, e', k);
    var outcome := Fft.Fft(r, input, middle, len, e, k);
    if !outcome.Transformed? {
      return false;
    }
    outcome := Fft.Fft(r, middle, output, len, e', k);
    ok := true;
    assert output[..] == Dft(r, Dft(r, s, e), e');
  }
}
