/** The Gray-code walk and the bit reversal that it drives. */
module GrayCode {
  import opened Arith

  /** C++'s `^` on unsigned values, low bit first. */
  function Xor(a: nat, b: nat): nat
    decreases a + b
  {
    if a == 0 && b == 0 then 0 else 2 * Xor(a / 2, b / 2) + (a + b) % 2
  }

  /** std::countr_zero of a non-zero value. */
  function CountrZero(x: nat): nat
    requires x > 0
  {
    if x % 2 == 1 then 0 else 1 + CountrZero(x / 2)
  }

  /** `a >> b`. */
  function ShiftRight(a: nat, b: nat): nat {
    if b == 0 then a else ShiftRight(a / 2, b - 1)
  }

  /** The x-th Gray code. */
  function Gray(x: nat): nat {
    if x == 0 then 0 else 2 * Gray(x / 2) + (x + x / 2) % 2
  }

  /** Its inverse. */
  function UnGray(g: nat): nat {
    if g == 0 then 0 else 2 * UnGray(g / 2) + (g + UnGray(g / 2)) % 2
  }

  /** The k low bits of x in reverse order. */
  function Rev(k: nat, x: nat): nat {
    if k == 0 then 0 else (if x % 2 == 1 then Pow2(k - 1) else 0) + Rev(k - 1, x / 2)
  }

  lemma {:induction false} CountrZeroBound(k: nat, x: nat)
    requires 0 < x < Pow2(k)
    ensures CountrZero(x) < k
  {
    if x % 2 == 0 {
      CountrZeroBound(k - 1, x / 2);
    }
  }

  lemma {:induction false} ShiftPow2(k: nat, b: nat)
    requires b <= k
    ensures ShiftRight(Pow2(k), b) == Pow2(k - b)
  {
    if b > 0 {
      ShiftPow2(k - 1, b - 1);
    }
  }

  // ---- One step of the walk toggles one bit ----

  /** The low bit of a step. */
  lemma {:induction false} GrayLow(x: nat)
    requires x > 0
    ensures Xor(Gray(x - 1), Pow2(CountrZero(x))) % 2 == Gray(x) % 2
  {
    hide Gray, Xor;
    LowestBit(x);
    hide *;
    var b := Pow2(CountrZero(x));
    XorHalf(Gray(x - 1), b);
    GrayHalf(x);
    GrayHalf(x - 1);
    StepParity(x, Gray(x - 1), b);
  }

  lemma {:induction false} LowestBit(x: nat)
    requires x > 0
    ensures Pow2(CountrZero(x)) % 2 == x % 2
  {
  }

  lemma {:induction false} ParitySum(a: nat, b: nat)
    ensures (a + b) % 2 == if a % 2 == b % 2 then 0 else 1
  {
  }

  lemma {:induction false} StepParity(x: nat, g: nat, b: nat)
    requires x > 0 && b % 2 == x % 2 && g % 2 == (x - 1 + (x - 1) / 2) % 2
    ensures (g + b) % 2 == (x + x / 2) % 2
  {
    var h := x / 2;
    ParitySum(g, b);
    ParitySum(x, h);
    ParitySum(x - 1, (x - 1) / 2);
    if x % 2 == 1 {
      assert (x - 1) / 2 == h && (x - 1) % 2 == 0;
    } else {
      assert (x - 1) / 2 == h - 1 && (x - 1) % 2 == 1;
      ParitySum(h - 1, 1);
    }
  }

  lemma {:induction false} GrayStep(x: nat)
    requires x > 0
    ensures Gray(x) == Xor(Gray(x - 1), Pow2(CountrZero(x)))
  {
    var b := Pow2(CountrZero(x));
    GrayHalf(x);
    GrayHalf(x - 1);
    XorHalf(Gray(x - 1), b);
    GrayLow(x);
    if x % 2 == 1 {
      assert b / 2 == 0;
      hide *;
      assert (x - 1) / 2 == x / 2;
      XorZero(Gray(x / 2));
      SameHalves(Gray(x), Xor(Gray(x - 1), b));
    } else {
      assert b / 2 == Pow2(CountrZero(x / 2));
      hide *;
      GrayStep(x / 2);
      assert (x - 1) / 2 == x / 2 - 1;
      SameHalves(Gray(x), Xor(Gray(x - 1), b));
    }
  }

  lemma {:induction false} SameHalves(a: nat, b: nat)
    requires a / 2 == b / 2 && a % 2 == b % 2
    ensures a == b
  {
  }

  lemma {:induction false} GrayHalf(x: nat)
    ensures Gray(x) / 2 == Gray(x / 2) && Gray(x) % 2 == (x + x / 2) % 2
  {
  }

  lemma {:induction false} XorHalf(a: nat, b: nat)
    ensures Xor(a, b) / 2 == Xor(a / 2, b / 2) && Xor(a, b) % 2 == (a + b) % 2
  {
  }

  lemma {:induction false} XorZero(a: nat)
    ensures Xor(a, 0) == a
  {
    if a > 0 {
      XorZero(a / 2);
    }
  }

  lemma {:induction false} RevStep(k: nat, g: nat, b: nat)
    requires b < k && g < Pow2(k)
    ensures Rev(k, Xor(g, Pow2(b))) == Xor(Rev(k, g), Pow2(k - 1 - b))
  {
    hide Xor;
    var top, low := if g % 2 == 1 then Pow2(k - 1) else 0, Rev(k - 1, g / 2);
    var g' := Xor(g, Pow2(b));
    RevBound(k - 1, g / 2);
    XorHalf(g, Pow2(b));
    assert Rev(k, g) == top + low;
    assert Rev(k, g') == (if g' % 2 == 1 then Pow2(k - 1) else 0) + Rev(k - 1, g' / 2);
    if b == 0 {
      assert Pow2(b) == 1;
      hide *;
      XorZero(g / 2);
      XorTop(k - 1, top, low);
    } else {
      Pow2Step(b);
      assert g / 2 < Pow2(k - 1);
      hide *;
      RevStep(k - 1, g / 2, b - 1);
      XorBelow(k - 1, top, low, k - 1 - b);
    }
  }

  lemma {:induction false} RevBound(k: nat, x: nat)
    ensures Rev(k, x) < Pow2(k)
  {
    if k > 0 {
      RevBound(k - 1, x / 2);
    }
  }

  lemma {:induction false} XorTop(k: nat, top: nat, y: nat)
    requires (top == 0 || top == Pow2(k)) && y < Pow2(k)
    ensures Xor(top + y, Pow2(k)) == Pow2(k) - top + y
  {
    hide Xor;
    XorHalf(top + y, Pow2(k));
    if k == 0 {
      XorZero(0);
    } else {
      XorTop(k - 1, top / 2, y / 2);
      assert (top + y) / 2 == top / 2 + y / 2;
    }
  }

  lemma {:induction false} XorBelow(k: nat, top: nat, y: nat, c: nat)
    requires (top == 0 || top == Pow2(k)) && y < Pow2(k) && c < k
    ensures Xor(top + y, Pow2(c)) == top + Xor(y, Pow2(c))
  {
    hide Xor;
    XorHalf(top + y, Pow2(c));
    XorHalf(y, Pow2(c));
    assert (top + y) / 2 == top / 2 + y / 2;
    if c == 0 {
      XorZero(y / 2);
      XorZero(top / 2 + y / 2);
    } else {
      XorBelow(k - 1, top / 2, y / 2, c - 1);
    }
  }

  // ---- The walk visits every index once ----

  lemma {:induction false} GrayBound(k: nat, x: nat)
    requires x < Pow2(k)
    ensures Gray(x) < Pow2(k)
  {
    if x > 0 {
      GrayBound(k - 1, x / 2);
    }
  }

  lemma {:induction false} GrayInjective(x: nat, y: nat)
    requires Gray(x) == Gray(y)
    ensures x == y
    decreases x + y
  {
    hide *;
    GrayHalf(x);
    GrayHalf(y);
    if x > 0 || y > 0 {
      GrayInjective(x / 2, y / 2);
      SameParity(x, y, x / 2);
    }
  }

  lemma {:induction false} SameParity(x: nat, y: nat, h: nat)
    requires x / 2 == y / 2 && (x + h) % 2 == (y + h) % 2
    ensures x == y
  {
  }

  lemma {:induction false} GrayOnto(k: nat, g: nat)
    requires g < Pow2(k)
    ensures Gray(UnGray(g)) == g && UnGray(g) < Pow2(k)
  {
    if g > 0 {
      GrayOnto(k - 1, g / 2);
      var u := UnGray(g / 2);
      assert UnGray(g) == 2 * u + (g + u) % 2;
      Pow2Step(k);
      hide *;
      OntoParity(g, u, UnGray(g));
      GrayHalf(UnGray(g));
      SameHalves(Gray(UnGray(g)), g);
    }
  }

  lemma {:induction false} OntoParity(g: nat, u: nat, v: nat)
    requires v == 2 * u + (g + u) % 2
    ensures v / 2 == u && (v + u) % 2 == g % 2
  {
  }

  lemma {:induction false} RevHigh(k: nat, top: nat, y: nat)
    requires (top == 0 || top == Pow2(k)) && y < Pow2(k)
    ensures Rev(k + 1, top + y) == 2 * Rev(k, y) + (if top == 0 then 0 else 1)
  {
    if k > 0 {
      assert (top + y) / 2 == top / 2 + y / 2 && (top + y) % 2 == y % 2;
      RevHigh(k - 1, top / 2, y / 2);
    }
  }

  /** Reversing twice changes nothing. */
  lemma {:induction false} RevRev(k: nat, x: nat)
    requires x < Pow2(k)
    ensures Rev(k, Rev(k, x)) == x
  {
    if k > 0 {
      RevBound(k - 1, x / 2);
      RevHigh(k - 1, if x % 2 == 1 then Pow2(k - 1) else 0, Rev(k - 1, x / 2));
      RevRev(k - 1, x / 2);
    }
  }

  /** Step x of the walk lands on a cell that no earlier step wrote. */
  lemma {:induction false} WalkIsFresh(k: nat, x: nat, y: nat)
    requires x < Pow2(k) && y < Pow2(k) && Rev(k, Gray(x)) == Rev(k, Gray(y))
    ensures x == y
  {
    GrayBound(k, x);
    GrayBound(k, y);
    RevRev(k, Gray(x));
    RevRev(k, Gray(y));
    GrayInjective(x, y);
  }

  /** Every cell is written by some step, with the bit-reversed entry. */
  lemma {:induction false} WalkCovers(k: nat, i: nat)
    requires i < Pow2(k)
    ensures UnGray(Rev(k, i)) < Pow2(k) && Gray(UnGray(Rev(k, i))) == Rev(k, i) && Rev(k, Rev(k, i)) == i
  {
    RevBound(k, i);
    GrayOnto(k, Rev(k, i));
    RevRev(k, i);
  }

  /** Toggling bit k of a value whose last set bit it is clears it. */
  lemma {:induction false} XorSibling(lo: nat, k: nat)
    requires Aligned(lo, k + 1)
    ensures Xor(lo + Pow2(k), Pow2(k)) == lo
  {
    var d := Pow2(k);
    XorHalf(lo + d, d);
    AlignedHalf(lo, k + 1);
    hide Xor;
    if k == 0 {
      XorZero(lo / 2);
    } else {
      XorSibling(lo / 2, k - 1);
      var e := Pow2(k - 1);
      hide Pow2;
      hide Aligned;
      assert d == 2 * e by { Pow2Step(k); }
      assert (lo + d) / 2 == lo / 2 + e && d / 2 == e && (lo + d + d) % 2 == 0;
    }
  }
}
