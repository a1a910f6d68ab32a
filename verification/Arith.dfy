/** Powers of two, minimum and maximum, and the few facts about products and quotients that the proofs use. */
module Arith {

  function Min(a: nat, b: nat): nat { if b < a then b else a }

  function Max(a: nat, b: nat): nat { if a < b then b else a }

  function Pow2(k: nat): (p: nat)
    ensures p >= 1
  {
    if k == 0 then 1 else 2 * Pow2(k - 1)
  }

  lemma {:induction false} Pow2Add(a: nat, b: nat)
    ensures Pow2(a + b) == Pow2(a) * Pow2(b)
  {
    if a > 0 {
      Pow2Add(a - 1, b);
    }
  }

  lemma {:induction false} Pow2Step(m: nat)
    requires 0 < m
    ensures Pow2(m) == 2 * Pow2(m - 1)
  {
  }

  lemma {:induction false} Pow2Monotonic(a: nat, b: nat)
    requires a <= b
    ensures Pow2(a) <= Pow2(b)
  {
    if a < b {
      Pow2Monotonic(a, b - 1);
    }
  }

  lemma {:induction false} Pow2Of30()
    ensures Pow2(30) == 0x4000_0000
  {
    assert Pow2(10) == 1024;
    Pow2Add(10, 10);
    Pow2Add(10, 20);
  }

  lemma {:induction false} MulAtMost(a: nat, b: nat, c: nat)
    requires a <= b
    ensures a * c <= b * c
  {
    assert b * c == a * c + (b - a) * c;
  }

  lemma {:induction false} QuotientUnique(n: nat, d: nat, q: nat, r: nat)
    requires d > 0 && n == q * d + r && r < d
    ensures n / d == q && n % d == r
  {
    var p := n / d;
    assert n == p * d + n % d && (p + 1) * d == p * d + d && (q + 1) * d == q * d + d;
    if p < q {
      MulAtMost(p + 1, q, d);
    } else if q < p {
      MulAtMost(q + 1, p, d);
    }
  }

  lemma {:induction false} DivExact(a: nat, b: nat)
    requires 0 < b
    ensures a * b / b == a && (0 < a ==> b <= a * b)
  {
    QuotientUnique(a * b, b, a, 0);
    if 0 < a {
      MulAtMost(1, a, b);
    }
  }

  lemma {:induction false} Pow2Quotient(h: nat, e: nat)
    requires e <= h
    ensures Pow2(h) / Pow2(e) == Pow2(h - e)
  {
    Pow2Add(h - e, e);
    DivExact(Pow2(h - e), Pow2(e));
  }

  /** std::bit_floor, and its exponent. */
  function BitFloor(i: nat): nat
    requires i > 0
  {
    if i == 1 then 1 else 2 * BitFloor(i / 2)
  }

  function FloorLog(i: nat): nat
    requires i > 0
  {
    if i == 1 then 0 else 1 + FloorLog(i / 2)
  }

  lemma {:induction false} BitFloorIsPower(i: nat)
    requires i > 0
    ensures BitFloor(i) == Pow2(FloorLog(i)) <= i < Pow2(FloorLog(i) + 1)
  {
    if i > 1 {
      BitFloorIsPower(i / 2);
    }
  }

  lemma {:induction false} FloorLogBounds(i: nat, h: nat)
    requires 0 < i
    ensures i < Pow2(h) ==> FloorLog(i) < h
    ensures Pow2(h) <= i < Pow2(h + 1) ==> FloorLog(i) == h
  {
    if i > 1 && h > 0 {
      FloorLogBounds(i / 2, h - 1);
    }
  }

  /** Multiples of a power of two. */
  ghost predicate Aligned(lo: nat, k: nat) { lo % Pow2(k) == 0 }

  lemma {:induction false} AlignedHalf(lo: nat, k: nat)
    requires k > 0
    ensures Aligned(lo, k) <==> lo % 2 == 0 && Aligned(lo / 2, k - 1)
  {
    var d := Pow2(k - 1);
    var q := lo / 2 / d;
    var r := lo / 2 % d;
    assert lo / 2 == q * d + r;
    assert q * (2 * d) == 2 * (q * d);
    QuotientUnique(lo, 2 * d, q, 2 * r + lo % 2);
  }

  lemma {:induction false} AlignedCoarser(lo: nat, k: nat)
    requires Aligned(lo, k + 1)
    ensures Aligned(lo, k) && Aligned(lo + Pow2(k), k)
  {
    var d := Pow2(k);
    var q := lo / (2 * d);
    assert lo == q * (2 * d) == 2 * q * d;
    QuotientUnique(lo, d, 2 * q, 0);
    QuotientUnique(lo + d, d, 2 * q + 1, 0);
  }

  /** The aligned places of one level are a whole run apart. */
  lemma {:induction false} AlignedApart(a: nat, b: nat, k: nat)
    requires Aligned(a, k) && Aligned(b, k) && a < b
    ensures a + Pow2(k) <= b
  {
    var d := Pow2(k);
    var p, q := a / d, b / d;
    assert a == p * d && b == q * d;
    if p + 1 <= q {
      MulAtMost(p + 1, q, d);
    } else {
      MulAtMost(q, p, d);
    }
  }

  lemma {:induction false} AlignedNext(lo: nat, k: nat)
    requires Aligned(lo, k)
    ensures Aligned(lo + Pow2(k), k)
  {
    var d := Pow2(k);
    QuotientUnique(lo + d, d, lo / d + 1, 0);
  }

  lemma {:induction false} SumRemainder(a: nat, b: nat, d: nat)
    requires d > 0 && a % d == 0
    ensures (a + b) % d == b % d
  {
    var p, q := a / d, b / d;
    assert (p + q) * d == p * d + q * d;
    QuotientUnique(a + b, d, p + q, b % d);
  }

  lemma {:induction false} AlignedSum(a: nat, b: nat, g: nat)
    requires Aligned(a, g)
    ensures Aligned(a + b, g) <==> Aligned(b, g)
  {
    SumRemainder(a, b, Pow2(g));
  }
}
