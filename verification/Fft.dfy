/** The in-place radix-2 Fourier transform over any commutative ring. */
module Fft {
  import opened Arith
  import opened Rings
  import opened GrayCode

  /** out[i] = Σ_j in[j]·e^(j·i) */
  function Dft<T>(r: Ring<T>, s: seq<T>, e: T): (t: seq<T>)
    ensures |t| == |s|
  {
    seq(|s|, i requires 0 <= i => r.SumOfTerms(s, r.Pow(e, i), |s|))
  }

  /** e is a principal 2^k-th root of unity in the sense the algorithm needs: e^(len/2) = -1. */
  ghost predicate Root<T>(r: Ring<T>, e: T, k: nat) {
    k == 0 || r.Pow(e, Pow2(k - 1)) == r.Neg(r.one)
  }

  // ---- What each cell holds between two butterfly levels ----

  /** The entries that feed block `off` when 2^m blocks are left. */
  function Block<T>(s: seq<T>, m: nat, off: nat): seq<T> {
    if m == 0 then s
    else if off % 2 == 0 then Even(Block(s, m - 1, off / 2))
    else Odd(Block(s, m - 1, off / 2))
  }

  lemma {:induction false} BlockSize<T>(s: seq<T>, k: nat, m: nat, off: nat)
    requires |s| == Pow2(k) && m <= k
    ensures |Block(s, m, off)| == Pow2(k - m)
  {
    if m > 0 {
      BlockSize(s, k, m - 1, off / 2);
    }
  }

  /** Entry j of a block is the input entry at the reversed block number plus j strides. */
  lemma {:induction false} BlockEntry<T>(s: seq<T>, k: nat, m: nat, off: nat, j: nat)
    requires |s| == Pow2(k) && m <= k && off < Pow2(m) && j < Pow2(k - m)
    ensures |Block(s, m, off)| == Pow2(k - m) && Rev(m, off) + j * Pow2(m) < |s|
    ensures Block(s, m, off)[j] == s[Rev(m, off) + j * Pow2(m)]
  {
    BlockSize(s, k, m, off);
    if m > 0 {
      BlockEntry(s, k, m - 1, off / 2, 2 * j + off % 2);
      StrideStep(m, j, off % 2);
    }
  }

  lemma {:induction false} StrideStep(m: nat, j: nat, bit: nat)
    requires 0 < m && bit < 2
    ensures (2 * j + bit) * Pow2(m - 1) == j * Pow2(m) + (if bit == 1 then Pow2(m - 1) else 0)
  {
    var p := Pow2(m - 1);
    if bit == 0 {
      assert (2 * j) * p == j * (2 * p);
    } else {
      assert (2 * j + 1) * p == j * (2 * p) + p;
    }
  }

  function Cell<T>(r: Ring<T>, s: seq<T>, e: T, m: nat, off: nat, i: nat): T {
    r.Eval(Block(s, m, off), r.Pow(e, Pow2(m) * i))
  }

  function At(off: nat, size: nat, i: nat): nat { off * size + i }

  /** `blocks` blocks of `size` cells, each holding its values of level m. */
  ghost predicate AtLevel<T>(r: Ring<T>, s: seq<T>, e: T, m: nat, blocks: nat, size: nat, t: seq<T>) {
    forall off: nat, i: nat {:trigger Cell(r, s, e, m, off, i)} :: off < blocks && i < size ==>
      At(off, size, i) < |t| && t[At(off, size, i)] == Cell(r, s, e, m, off, i)
  }

  lemma {:induction false} AtBound(off: nat, blocks: nat, size: nat, i: nat)
    requires off < blocks && i < size
    ensures At(off, size, i) < blocks * size
  {
    assert (off + 1) * size <= blocks * size by {
      assert (blocks - (off + 1)) * size >= 0;
    }
  }

  /** The bit-reversed input is the state before the first level. */
  lemma {:induction false} ReversedIsLevel<T(!new)>(r: Ring<T>, s: seq<T>, e: T, k: nat, t: seq<T>)
    requires IsRing(r) && |s| == |t| == Pow2(k)
    requires forall i :: 0 <= i < |t| ==> Rev(k, i) < |s| && t[i] == s[Rev(k, i)]
    ensures AtLevel(r, s, e, k, Pow2(k), 1, t)
  {
    hide IsRing;
    forall off: nat, i: nat | off < Pow2(k) && i < 1
      ensures At(off, 1, i) < |t| && t[At(off, 1, i)] == Cell(r, s, e, k, off, i)
    {
      BlockEntry(s, k, k, off, 0);
      assert Rev(k, off) + 0 * Pow2(k) == Rev(k, off);
      var b := Block(s, k, off);
      assert b == [b[0]];
      EvalSingle(r, b[0], r.Pow(e, Pow2(k) * i));
    }
  }

  /** After the last level every cell holds its transform value. */
  lemma {:induction false} LastLevelIsDft<T(!new)>(r: Ring<T>, s: seq<T>, e: T, t: seq<T>)
    requires IsRing(r) && |s| == |t| && AtLevel(r, s, e, 0, 1, |s|, t)
    ensures t == Dft(r, s, e)
  {
    hide IsRing;
    forall i: nat | i < |t|
      ensures t[i] == Dft(r, s, e)[i]
    {
      assert At(0, |s|, i) == i && Pow2(0) * i == i;
      assert t[At(0, |s|, i)] == Cell(r, s, e, 0, 0, i);
      EvalIsSum(r, s, r.Pow(e, i));
    }
  }

  lemma {:induction false} Twice(m: nat, i: nat)
    requires 0 < m
    ensures Pow2(m) * i == Pow2(m - 1) * i + Pow2(m - 1) * i
  {
  }

  lemma {:induction false} BlockHalves<T>(s: seq<T>, k: nat, m: nat, off: nat)
    requires |s| == Pow2(k) && 0 < m <= k
    ensures Block(s, m, 2 * off) == Even(Block(s, m - 1, off)) && Block(s, m, 2 * off + 1) == Odd(Block(s, m - 1, off))
    ensures |Block(s, m - 1, off)| % 2 == 0
  {
    BlockSize(s, k, m - 1, off);
    assert (2 * off) / 2 == off && (2 * off + 1) / 2 == off;
  }

  lemma {:induction false} Square<T(!new)>(r: Ring<T>, e: T, m: nat, i: nat)
    requires IsRing(r) && 0 < m
    ensures var x := r.Pow(e, Pow2(m - 1) * i); r.mul(x, x) == r.Pow(e, Pow2(m) * i)
  {
    hide IsRing, Pow2;
    Twice(m, i);
    PowAdd(r, e, Pow2(m - 1) * i, Pow2(m - 1) * i);
  }

  /** Half a block further on, the twiddle factor changes sign. */
  lemma {:induction false} HalfTurn<T(!new)>(r: Ring<T>, e: T, k: nat, m: nat, i: nat)
    requires IsRing(r) && Root(r, e, k) && 0 < m <= k
    ensures r.Pow(e, Pow2(m - 1) * (i + Pow2(k - m))) == r.Neg(r.Pow(e, Pow2(m - 1) * i))
  {
    hide IsRing;
    Pow2Add(m - 1, k - m);
    assert Pow2(m - 1) * (i + Pow2(k - m)) == Pow2(m - 1) * i + Pow2(k - 1);
    PowAdd(r, e, Pow2(m - 1) * i, Pow2(k - 1));
    MulMinusOne(r, r.Pow(e, Pow2(m - 1) * i));
  }

  /** Evaluation at x and at -x from the even and odd parts at x². */
  lemma {:induction false} PlusMinus<T(!new)>(r: Ring<T>, b: seq<T>, x: T)
    requires IsRing(r) && |b| % 2 == 0
    ensures var u, v := r.Eval(Even(b), r.mul(x, x)), r.mul(r.Eval(Odd(b), r.mul(x, x)), x);
            r.Eval(b, x) == r.add(u, v) && r.Eval(b, r.Neg(x)) == r.sub(u, v)
  {
    hide IsRing;
    var odd := r.Eval(Odd(b), r.mul(x, x));
    EvenOdd(r, b, x);
    MulLaws(r, x, odd, odd);
    MulNeg(r, x, x);
    MulNeg(r, r.Neg(x), x);
    NegNeg(r, r.mul(x, x));
    EvenOdd(r, b, r.Neg(x));
    MulNeg(r, odd, x);
    MulLaws(r, r.Neg(x), odd, odd);
    SubIsAddNeg(r, r.Eval(Even(b), r.mul(x, x)), r.mul(odd, x));
  }

  /** The butterfly: a block's two halves from the even and the odd block below it. */
  lemma {:induction false} Butterfly<T(!new)>(r: Ring<T>, s: seq<T>, e: T, k: nat, m: nat, off: nat, i: nat)
    requires IsRing(r) && Root(r, e, k) && |s| == Pow2(k) && 0 < m <= k && off < Pow2(m - 1) && i < Pow2(k - m)
    ensures var x := Cell(r, s, e, m, 2 * off, i);
            var y := r.mul(Cell(r, s, e, m, 2 * off + 1, i), r.Pow(e, Pow2(m - 1) * i));
            Cell(r, s, e, m - 1, off, i) == r.add(x, y) &&
            Cell(r, s, e, m - 1, off, i + Pow2(k - m)) == r.sub(x, y)
  {
    hide IsRing;
    hide Pow2, Block;
    BlockHalves(s, k, m, off);
    Square(r, e, m, i);
    HalfTurn(r, e, k, m, i);
    PlusMinus(r, Block(s, m - 1, off), r.Pow(e, Pow2(m - 1) * i));
  }

  /** Midway through the level from m to m - 1: the first `off` blocks are done, the rest is still t. */
  ghost predicate LevelUpTo<T>(r: Ring<T>, s: seq<T>, e: T, m: nat, off: nat, size: nat, t: seq<T>, u: seq<T>)
    requires 0 < m
  {
    && |u| == |t|
    && AtLevel(r, s, e, m - 1, off, size, u)
    && (forall j :: At(off, size, 0) <= j < |t| ==> u[j] == t[j])
  }

  /** u' is u after the butterflies of the block that starts at `base`. */
  ghost predicate BlockCombined<T>(r: Ring<T>, e: T, m: nat, base: nat, half: nat, u: seq<T>, u': seq<T>)
    requires 0 < m
  {
    && |u'| == |u| && base + 2 * half <= |u|
    && (forall j :: 0 <= j < |u| && !(base <= j < base + 2 * half) ==> u'[j] == u[j])
    && (forall i: nat {:trigger PairCombined(r, e, Pow2(m - 1), base, half, u, u', i)} ::
      i < half ==> PairCombined(r, e, Pow2(m - 1), base, half, u, u', i))
  }

  ghost predicate PairCombined<T>(r: Ring<T>, e: T, delta: nat, base: nat, half: nat, u: seq<T>, u': seq<T>, i: nat) {
    var p, q, w := base + i, base + i + half, r.Pow(e, delta * i);
    && p < |u| == |u'| && q < |u|
    && u'[p] == r.add(u[p], r.mul(u[q], w))
    && u'[q] == r.sub(u[p], r.mul(u[q], w))
  }

  lemma {:induction false} BlockDone<T(!new)>(r: Ring<T>, s: seq<T>, e: T, k: nat, m: nat, half: nat, off: nat,
          t: seq<T>, u: seq<T>, u': seq<T>)
    requires IsRing(r) && Root(r, e, k) && |s| == Pow2(k) && 0 < m <= k && half == Pow2(k - m) && off < Pow2(m - 1)
    requires AtLevel(r, s, e, m, Pow2(m), half, t) && LevelUpTo(r, s, e, m, off, 2 * half, t, u)
    requires BlockCombined(r, e, m, At(off, 2 * half, 0), half, u, u')
    ensures LevelUpTo(r, s, e, m, off + 1, 2 * half, t, u')
  {
    hide IsRing, Cell, Pow2;
    var base := At(off, 2 * half, 0);
    assert At(off + 1, 2 * half, 0) == base + 2 * half;
    forall o: nat, i: nat | o < off + 1 && i < 2 * half
      ensures At(o, 2 * half, i) < |u'| && u'[At(o, 2 * half, i)] == Cell(r, s, e, m - 1, o, i)
    {
      if o < off {
        AtBound(o, off, 2 * half, i);
        assert u[At(o, 2 * half, i)] == Cell(r, s, e, m - 1, o, i);
      } else {
        BlockCell(r, s, e, k, m, half, off, t, u, u', if i < half then i else i - half);
      }
    }
  }

  lemma {:induction false} BlockCell<T(!new)>(r: Ring<T>, s: seq<T>, e: T, k: nat, m: nat, half: nat, off: nat,
          t: seq<T>, u: seq<T>, u': seq<T>, i: nat)
    requires IsRing(r) && Root(r, e, k) && |s| == Pow2(k) && 0 < m <= k && half == Pow2(k - m) && off < Pow2(m - 1)
    requires AtLevel(r, s, e, m, Pow2(m), half, t) && LevelUpTo(r, s, e, m, off, 2 * half, t, u)
    requires BlockCombined(r, e, m, At(off, 2 * half, 0), half, u, u')
    requires i < half
    ensures At(off, 2 * half, i + half) < |u'|
    ensures u'[At(off, 2 * half, i)] == Cell(r, s, e, m - 1, off, i)
    ensures u'[At(off, 2 * half, i + half)] == Cell(r, s, e, m - 1, off, i + half)
  {
    hide IsRing, Cell, Pow2;
    Pow2Step(m);
    Butterfly(r, s, e, k, m, off, i);
    AtHalves(off, half, i);
    assert t[At(2 * off, half, i)] == Cell(r, s, e, m, 2 * off, i);
    assert t[At(2 * off + 1, half, i)] == Cell(r, s, e, m, 2 * off + 1, i);
    var base := At(off, 2 * half, 0);
    assert PairCombined(r, e, Pow2(m - 1), base, half, u, u', i);
  }

  lemma {:induction false} AtHalves(off: nat, half: nat, i: nat)
    ensures At(2 * off, half, i) == At(off, 2 * half, i) == At(off, 2 * half, 0) + i
    ensures At(2 * off + 1, half, i) == At(off, 2 * half, i + half) == At(off, 2 * half, 0) + i + half
  {
    assert (2 * off) * half == off * (2 * half);
    assert (2 * off + 1) * half == off * (2 * half) + half;
  }

  /** The sizes of the level from m to m - 1. */
  lemma {:induction false} LevelSizes(k: nat, m: nat)
    requires 0 < m <= k
    ensures Pow2(k) / (2 * Pow2(k - m)) == Pow2(m - 1) && Pow2(m - 1) * (2 * Pow2(k - m)) == Pow2(k)
    ensures Pow2(k - (m - 1)) == 2 * Pow2(k - m) <= Pow2(k)
  {
    var size := 2 * Pow2(k - m);
    Pow2Step(k - m + 1);
    Pow2Add(m - 1, k - m + 1);
    DivExact(Pow2(m - 1), size);
  }

  // ---- The algorithm ----

  /** 32-bit unsigned arithmetic. */
  function U32(x: nat): nat { x % 0x1_0000_0000 }

  /** Doubling the level size 2^j reaches the next level without wrapping, for every level of a length up to 2^30. */
  lemma {:induction false} DoublingStops(k: nat, j: nat)
    requires j <= k <= 30
    ensures U32(2 * Pow2(j)) == 2 * Pow2(j)
  {
    Pow2Monotonic(j, 30);
    Pow2Of30();
  }

  /** At length 2^31 the next level size wraps to 0: the loop test holds again and len / 0 would follow. */
  lemma {:induction false} DoublingWraps()
    ensures var len := Pow2(31); U32(2 * len) == 0 && U32(2 * len) <= len
  {
    Pow2Of30();
  }

  /** The level size at the start of turn i of the level loop. */
  function LevelSize(i: nat): nat {
    if i == 0 then 4 else U32(2 * LevelSize(i - 1))
  }

  lemma {:induction false} LevelSizeMeaning(i: nat)
    ensures LevelSize(i) == if i <= 29 then Pow2(i + 2) else 0
  {
    Pow2Of30();
    if i > 0 {
      LevelSizeMeaning(i - 1);
      if i <= 29 {
        Pow2Monotonic(i + 2, 31);
      }
    }
  }

  /** The level size ever passes the length, which ends the loop, exactly for lengths up to 2^30. */
  lemma {:induction false} LevelLoopEnds(k: nat)
    ensures (exists i: nat :: LevelSize(i) > Pow2(k)) <==> k <= 30
  {
    Pow2Of30();
    if k <= 30 {
      LevelSizeMeaning(29);
      Pow2Monotonic(k, 30);
    } else {
      Pow2Monotonic(31, k);
      forall i: nat ensures LevelSize(i) <= Pow2(k) {
        LevelSizeMeaning(i);
        if i <= 29 {
          Pow2Monotonic(i + 2, 31);
        }
      }
    }
  }

  /** The index of the first walk at turn i. */
  function WalkIndex(i: nat): nat { U32(1 + i) }

  /** The 32-bit index ever reaches the length, which ends the first walk, exactly for lengths below 2^32. */
  lemma {:induction false} WalkEnds(k: nat)
    ensures (exists i: nat :: WalkIndex(i) == Pow2(k)) <==> k <= 31
  {
    Lengths(k);
    if k <= 31 {
      assert WalkIndex(Pow2(k) - 1) == Pow2(k);
    }
  }

  /** Before the walk could begin again it shifts by the 32 trailing zeros of 0, which is undefined. */
  lemma {:induction false} WalkWraps()
    ensures WalkIndex(0xFFFF_FFFF) == 0 && forall i: nat :: i < 0xFFFF_FFFF ==> WalkIndex(i) != 0
  {
  }

  lemma {:induction false} Lengths(k: nat)
    ensures Pow2(k) >= 0x1_0000_0000 <==> k >= 32
  {
    Pow2Of30();
    if k >= 32 {
      Pow2Monotonic(32, k);
    } else {
      Pow2Monotonic(k, 31);
    }
  }

  /** The cells that the walk has written before step idx. */
  ghost predicate Placed<T>(output: seq<T>, input: seq<T>, k: nat, idx: nat) {
    && |output| == |input| == Pow2(k)
    && forall j: nat {:trigger Gray(j)} :: j < idx ==> PlacedAt(output, input, k, Gray(j))
  }

  ghost predicate PlacedAt<T>(output: seq<T>, input: seq<T>, k: nat, g: nat) {
    g < |input| && Rev(k, g) < |output| && output[Rev(k, g)] == input[g]
  }

  lemma {:induction false} PlaceNext<T>(output: seq<T>, input: seq<T>, k: nat, idx: nat)
    requires Placed(output, input, k, idx) && idx < Pow2(k)
    ensures Gray(idx) < |input| && Rev(k, Gray(idx)) < |output|
    ensures Placed(output[Rev(k, Gray(idx)) := input[Gray(idx)]], input, k, idx + 1)
  {
    GrayBound(k, idx);
    RevBound(k, Gray(idx));
    FreshPlace(k, idx);
    hide Rev, Gray, Pow2;
    var next := output[Rev(k, Gray(idx)) := input[Gray(idx)]];
    forall j: nat {:trigger Gray(j)} | j < idx + 1
      ensures PlacedAt(next, input, k, Gray(j))
    {
      assert j < idx ==> PlacedAt(output, input, k, Gray(j));
    }
  }

  lemma {:induction false} AllPlaced<T>(output: seq<T>, input: seq<T>, k: nat)
    requires Placed(output, input, k, Pow2(k))
    ensures forall i: nat :: i < Pow2(k) ==> Rev(k, i) < Pow2(k) && output[i] == input[Rev(k, i)]
  {
    forall i: nat | i < Pow2(k)
      ensures Rev(k, i) < Pow2(k) && output[i] == input[Rev(k, i)]
    {
      WalkCovers(k, i);
      assert PlacedAt(output, input, k, Gray(UnGray(Rev(k, i))));
    }
  }

  /** What the walk keeps before turn idx; the second index is only exact where the length fits 32 bits. */
  ghost predicate Walking<T>(output: seq<T>, input: seq<T>, k: nat, idx: nat, inidx: nat, outidx: nat) {
    && |output| == |input| == Pow2(k) && 0 < idx < 0x1_0000_0000 && inidx == Gray(idx - 1) && outidx < 0x1_0000_0000
    && (k <= 31 ==> idx <= |input| && outidx == Rev(k, inidx) && Placed(output, input, k, idx))
  }

  /** The index into the input after a turn. */
  lemma {:induction false} TurnInput(idx: nat, inidx: nat)
    requires 0 < idx < 0x1_0000_0000 && inidx == Gray(idx - 1)
    ensures Xor(inidx, Pow2(CountrZero(idx))) == Gray(idx) < 0x1_0000_0000
  {
    Pow2Of30();
    hide Xor, Gray, CountrZero;
    GrayToggle(idx);
    GrayBound(32, idx);
  }

  /** The index into the output, and the write, where the length fits 32 bits. */
  lemma {:induction false} TurnOutput<T>(output: seq<T>, input: seq<T>, k: nat, idx: nat, outidx: nat)
    requires k <= 31 && 0 < idx < Pow2(k) && Placed(output, input, k, idx) && outidx == Rev(k, Gray(idx - 1))
    ensures U32(Xor(outidx, ShiftRight(Pow2(k) / 2, CountrZero(idx)))) == Rev(k, Gray(idx)) < |output|
    ensures Gray(idx) < |input| && Placed(output[Rev(k, Gray(idx)) := input[Gray(idx)]], input, k, idx + 1)
    ensures Pow2(k) < 0x1_0000_0000
  {
    hide *;
    Lengths(k);
    PlacedSize(output, input, k, idx);
    WalkStep(k, idx);
    PlaceNext(output, input, k, idx);
    FitsU32(Rev(k, Gray(idx)));
  }

  lemma {:induction false} PlacedSize<T>(output: seq<T>, input: seq<T>, k: nat, idx: nat)
    requires Placed(output, input, k, idx)
    ensures |output| == |input| == Pow2(k)
  {
  }

  lemma {:induction false} FitsU32(x: nat)
    ensures x < 0x1_0000_0000 ==> U32(x) == x
  {
  }

  /** Where a turn leads, on the sequences. */
  lemma {:induction false} WalkTurn<T>(output: seq<T>, input: seq<T>, k: nat, idx: nat, inidx: nat, outidx: nat)
    requires Walking(output, input, k, idx, inidx, outidx) && idx != Pow2(k)
    ensures var bd := CountrZero(idx);
            var in', out' := Xor(inidx, Pow2(bd)), U32(Xor(outidx, ShiftRight(Pow2(k) / 2, bd)));
            && in' < |input| && out' < |output|
            && (idx + 1 < 0x1_0000_0000 ==> Walking(output[out' := input[in']], input, k, idx + 1, in', out'))
            && (idx + 1 == 0x1_0000_0000 ==> k >= 32)
  {
    Lengths(k);
    hide Xor, Gray, Rev, ShiftRight, CountrZero, Placed, Pow2;
    TurnInput(idx, inidx);
    if k <= 31 {
      TurnOutput(output, input, k, idx, outidx);
    }
  }

  lemma {:induction false} GrayToggle(idx: nat)
    requires 0 < idx
    ensures Xor(Gray(idx - 1), Pow2(CountrZero(idx))) == Gray(idx)
  {
    hide *;
    GrayStep(idx);
  }

  /**
   * The Gray-code walk. For lengths below 2^32 it writes every cell of `output` once, with the bit-reversed entry of
   * `input`; beyond, its 32-bit index wraps to 0 and the shift by its trailing zeros is undefined.
   */
  method BitReverse<T>(input: array<T>, output: array<T>, len: nat, ghost k: nat) returns (ok: bool)
    requires input != output && input.Length == output.Length == len == Pow2(k)
    modifies output
    ensures ok <==> k <= 31
    ensures ok ==> forall i :: 0 <= i < len ==> Rev(k, i) < len && output[i] == input[Rev(k, i)]
  {
    WalkStart(input[0], output[..], input[..], k);
    output[0] := input[0];
    ok := Walk(input, output, len, k);
    if ok {
      AllPlaced(output[..], input[..], k);
    }
  }

  method Walk<T>(input: array<T>, output: array<T>, len: nat, ghost k: nat) returns (ok: bool)
    requires input != output && input.Length == output.Length == len == Pow2(k)
    requires Walking(output[..], input[..], k, 1, 0, 0)
    modifies output
    ensures ok <==> k <= 31
    ensures ok ==> Placed(output[..], input[..], k, len)
  {
    hide *;
    var idx: nat, inidx: nat, outidx: nat := 1, 0, 0;
    while idx != len
      invariant idx != 0 ==> Walking(output[..], input[..], k, idx, inidx, outidx)
      invariant idx < 0x1_0000_0000 && (idx == 0 ==> k >= 32)
      decreases if idx == 0 then 0 else 0x1_0000_0000 - idx
    {
      if idx == 0 {
        return false;
      }
      var bd := CountrZero(idx);
      WalkTurn(output[..], input[..], k, idx, inidx, outidx);
      inidx := Xor(inidx, Pow2(bd));
      outidx := U32(Xor(outidx, ShiftRight(len / 2, bd)));
      ghost var before := output[..];
      output[outidx] := input[inidx];
      assert output[..] == before[outidx := input[inidx]];
      NextIndex(idx);
      idx := U32(idx + 1);
    }
    WalkDone(output[..], input[..], k, idx, inidx, outidx);
    return true;
  }

  lemma {:induction false} NextIndex(idx: nat)
    requires idx < 0x1_0000_0000
    ensures U32(idx + 1) == if idx + 1 == 0x1_0000_0000 then 0 else idx + 1
  {
  }

  lemma {:induction false} WalkDone<T>(output: seq<T>, input: seq<T>, k: nat, idx: nat, inidx: nat, outidx: nat)
    requires idx == Pow2(k) && (idx != 0 ==> Walking(output, input, k, idx, inidx, outidx))
    ensures k <= 31 && Placed(output, input, k, Pow2(k))
  {
    Lengths(k);
    hide Placed;
  }

  lemma {:induction false} WalkStart<T>(x: T, output: seq<T>, input: seq<T>, k: nat)
    requires |output| == |input| == Pow2(k) && input[0] == x
    ensures Walking(output[0 := x], input, k, 1, 0, 0)
  {
    RevZero(k);
  }

  /** What one toggle of each index amounts to. */
  lemma {:induction false} WalkStep(k: nat, idx: nat)
    requires 0 < idx < Pow2(k)
    ensures Xor(Gray(idx - 1), Pow2(CountrZero(idx))) == Gray(idx)
    ensures Xor(Rev(k, Gray(idx - 1)), ShiftRight(Pow2(k) / 2, CountrZero(idx))) == Rev(k, Gray(idx))
  {
    var bd := CountrZero(idx);
    CountrZeroBound(k, idx);
    GrayBound(k, idx - 1);
    Pow2Step(k);
    hide *;
    GrayStep(idx);
    RevStep(k, Gray(idx - 1), bd);
    ShiftPow2(k - 1, bd);
  }

  lemma {:induction false} FreshPlace(k: nat, idx: nat)
    requires idx < Pow2(k)
    ensures forall j: nat :: j < idx ==> Rev(k, Gray(j)) != Rev(k, Gray(idx))
  {
    forall j: nat | j < idx
      ensures Rev(k, Gray(j)) != Rev(k, Gray(idx))
    {
      hide Rev, Gray;
      if Rev(k, Gray(j)) == Rev(k, Gray(idx)) {
        WalkIsFresh(k, j, idx);
      }
    }
  }

  lemma {:induction false} RevZero(k: nat)
    ensures Rev(k, 0) == 0
  {
    if k > 0 {
      RevZero(k - 1);
    }
  }

  /** One block of one level: base .. base + 2·half. */
  method Combine<T>(r: Ring<T>, output: array<T>, base: nat, half: nat, es: array<T>, delta: nat, ghost e: T,
          ghost m: nat)
    requires base + 2 * half <= output.Length && es != output && 0 < m && delta == Pow2(m - 1)
    requires forall i :: 0 <= i < half ==> 0 <= delta * i < es.Length && es[delta * i] == r.Pow(e, delta * i)
    modifies output
    ensures BlockCombined(r, e, m, base, half, old(output[..]), output[..])
  {
    ghost var u := output[..];
    CombinesNone(r, e, delta, base, half, u);
    hide *;
    for idx := 0 to half
      invariant PairsDone(r, e, delta, base, half, u, output[..], idx)
    {
      ghost var v := output[..];
      var x := output[base + idx];
      var y := r.mul(output[base + idx + half], es[delta * idx]);
      output[base + idx] := r.add(x, y);
      output[base + idx + half] := r.sub(x, y);
      PairDone(r, e, delta, base, half, u, v, output[..], idx, es[delta * idx]);
    }
    CombinesAll(r, e, m, delta, base, half, u, output[..]);
  }

  /** The first idx pairs of a block are combined, and nothing else is written. */
  ghost predicate PairsDone<T>(r: Ring<T>, e: T, delta: nat, base: nat, half: nat, u: seq<T>, v: seq<T>, idx: nat) {
    && base + 2 * half <= |u| == |v| && idx <= half
    && (forall j :: 0 <= j < |u| && !(base <= j < base + idx) && !(base + half <= j < base + half + idx) ==>
      v[j] == u[j])
    && (forall i: nat {:trigger PairCombined(r, e, delta, base, half, u, v, i)} ::
      i < idx ==> PairCombined(r, e, delta, base, half, u, v, i))
  }

  lemma {:induction false} CombinesNone<T>(r: Ring<T>, e: T, delta: nat, base: nat, half: nat, u: seq<T>)
    requires base + 2 * half <= |u|
    ensures PairsDone(r, e, delta, base, half, u, u, 0)
  {
  }

  lemma {:induction false} CombinesAll<T>(r: Ring<T>, e: T, m: nat, delta: nat, base: nat, half: nat, u: seq<T>,
          v: seq<T>)
    requires 0 < m && delta == Pow2(m - 1) && PairsDone(r, e, delta, base, half, u, v, half)
    ensures BlockCombined(r, e, m, base, half, u, v)
  {
    hide PairCombined, Pow2;
  }

  lemma {:induction false} PairDone<T>(r: Ring<T>, e: T, delta: nat, base: nat, half: nat, u: seq<T>, v: seq<T>,
          v': seq<T>, idx: nat, w: T)
    requires idx < half && PairsDone(r, e, delta, base, half, u, v, idx) && w == r.Pow(e, delta * idx)
    requires base + 2 * half <= |v|
    requires var y := r.mul(v[base + idx + half], w);
             v' == v[base + idx := r.add(v[base + idx], y)][base + idx + half := r.sub(v[base + idx], y)]
    ensures PairsDone(r, e, delta, base, half, u, v', idx + 1)
  {
    PairFromCells(r, e, delta, base, half, u, v', idx, w);
    forall i: nat {:trigger PairCombined(r, e, delta, base, half, u, v', i)} | i < idx + 1
      ensures PairCombined(r, e, delta, base, half, u, v', i)
    {
      if i < idx {
        assert PairCombined(r, e, delta, base, half, u, v, i);
      }
    }
  }

  lemma {:induction false} PairFromCells<T>(r: Ring<T>, e: T, delta: nat, base: nat, half: nat, u: seq<T>, u': seq<T>,
          i: nat, w: T)
    requires i < half && base + 2 * half <= |u| == |u'| && w == r.Pow(e, delta * i)
    requires u'[base + i] == r.add(u[base + i], r.mul(u[base + i + half], w))
    requires u'[base + i + half] == r.sub(u[base + i], r.mul(u[base + i + half], w))
    ensures PairCombined(r, e, delta, base, half, u, u', i)
  {
  }

  /** The first level, where the twiddle factor is 1 and the source does not multiply. */
  method FirstLevel<T(!new)>(r: Ring<T>, output: array<T>, len: nat, ghost s: seq<T>, ghost e: T, ghost k: nat)
    requires IsRing(r) && Root(r, e, k) && 0 < k && |s| == output.Length == len == Pow2(k)
    requires AtLevel(r, s, e, k, len, 1, output[..])
    modifies output
    ensures AtLevel(r, s, e, k - 1, Pow2(k - 1), 2, output[..])
  {
    hide IsRing, AtLevel;
    ghost var t := output[..];
    var currLen := 2;
    StartLevel(r, s, e, k, 2, t);
    for off := 0 to len / currLen
      invariant LevelUpTo(r, s, e, k, off, 2, t, output[..])
    {
      ghost var u := output[..];
      var x := output[off * currLen];
      var y := output[off * currLen + currLen / 2];
      output[off * currLen] := r.add(x, y);
      output[off * currLen + currLen / 2] := r.sub(x, y);
      MulLaws(r, y, y, y);
      assert PairCombined(r, e, Pow2(k - 1), off * 2, 1, u, output[..], 0);
      BlockDone(r, s, e, k, k, 1, off, t, u, output[..]);
    }
  }

  lemma {:induction false} StartLevel<T>(r: Ring<T>, s: seq<T>, e: T, m: nat, size: nat, t: seq<T>)
    requires 0 < m
    ensures LevelUpTo(r, s, e, m, 0, size, t, t)
  {
  }

  lemma {:induction false} EndLevel<T>(r: Ring<T>, s: seq<T>, e: T, m: nat, off: nat, size: nat, t: seq<T>, u: seq<T>)
    requires 0 < m && LevelUpTo(r, s, e, m, off, size, t, u)
    ensures AtLevel(r, s, e, m - 1, off, size, u)
  {
  }

  method Powers<T>(r: Ring<T>, len: nat, e: T) returns (es: array<T>)
    requires 0 < len
    ensures fresh(es) && es.Length == len && forall i :: 0 <= i < len ==> es[i] == r.Pow(e, i)
  {
    es := new T[len](_ => r.zero);
    es[0] := r.one;
    for idx := 1 to len
      invariant forall i :: 0 <= i < idx ==> es[i] == r.Pow(e, i)
    {
      es[idx] := r.mul(e, es[idx - 1]);
    }
  }

  /** One later level, block by block. */
  method Level<T(!new)>(r: Ring<T>, output: array<T>, len: nat, currLen: nat, es: array<T>,
                        ghost s: seq<T>, ghost e: T, ghost k: nat, ghost m: nat)
    requires IsRing(r) && Root(r, e, k) && 0 < m <= k && |s| == output.Length == es.Length == len == Pow2(k)
    requires es != output && currLen == 2 * Pow2(k - m)
    requires forall i :: 0 <= i < len ==> es[i] == r.Pow(e, i)
    requires AtLevel(r, s, e, m, Pow2(m), Pow2(k - m), output[..])
    modifies output
    ensures AtLevel(r, s, e, m - 1, Pow2(m - 1), currLen, output[..])
  {
    hide IsRing, AtLevel, Pow2, LevelUpTo, BlockCombined;
    ghost var t := output[..];
    LevelSizes(k, m);
    var delta := len / currLen;
    StartLevel(r, s, e, m, currLen, t);
    for off := 0 to len / currLen
      invariant LevelUpTo(r, s, e, m, off, currLen, t, output[..])
      invariant forall i :: 0 <= i < len ==> es[i] == r.Pow(e, i)
    {
      ghost var u := output[..];
      LevelIndices(delta, currLen / 2, off);
      Combine(r, output, off * currLen, currLen / 2, es, delta, e, m);
      BlockDone(r, s, e, k, m, currLen / 2, off, t, u, output[..]);
    }
    EndLevel(r, s, e, m, delta, currLen, t, output[..]);
  }

  lemma {:induction false} LevelIndices(delta: nat, half: nat, off: nat)
    requires off < delta
    ensures off * (2 * half) + 2 * half <= delta * (2 * half)
    ensures forall i :: 0 <= i < half ==> 0 <= delta * i < delta * (2 * half)
    ensures At(off, 2 * half, 0) == off * (2 * half)
  {
    MulAtMost(off + 1, delta, 2 * half);
    forall i | 0 <= i < half
      ensures 0 <= delta * i < delta * (2 * half)
    {
      MulAtMost(i + 1, 2 * half, delta);
    }
  }

  /** How a call ends: with the transform, in a division by a level size of zero, or in a shift by 32. */
  datatype Outcome = Transformed | DivisionByZero | UndefinedShift

  /**
   * The transform, for every power of two. The index of the first walk and the level size are 32-bit: the index wraps
   * to 0 before it reaches a length of 2^32 or more (WalkEnds), and the level size wraps to 0 before it passes a length
   * of 2^31 (LevelLoopEnds).
   */
  method Fft<T(!new)>(r: Ring<T>, input: array<T>, output: array<T>, len: nat, e: T, ghost k: nat)
    returns (outcome: Outcome)
    requires IsRing(r) && Root(r, e, k)
    requires input != output && input.Length == output.Length == len == Pow2(k)
    modifies output
    ensures outcome == if k <= 30 then Transformed else if k == 31 then DivisionByZero else UndefinedShift
    ensures outcome == Transformed ==> output[..] == Dft(r, input[..], e)
  {
    hide IsRing, AtLevel;
    ghost var s := input[..];
    var walked := BitReverse(input, output, len, k);
    if !walked {
      return UndefinedShift;
    }
    ReversedIsLevel(r, s, e, k, output[..]);
    ghost var m := k;
    if 2 <= len {
      FirstLevel(r, output, len, s, e, k);
      m := k - 1;
    }
    var es := Powers(r, len, e);
    outcome := Levels(r, output, len, es, s, e, k, m);
    if outcome == Transformed {
      LastLevelIsDft(r, s, e, output[..]);
    }
  }

  /** The level size when 2^m blocks are left, as the 32-bit variable has it. */
  ghost function SizeNow(k: nat, m: nat): nat
    requires m <= k
  {
    if k == 0 then 4 else if k == 31 && m == 0 then 0 else 2 * Pow2(k - m)
  }

  ghost predicate ArePowers<T>(r: Ring<T>, es: seq<T>, e: T) {
    forall i :: 0 <= i < |es| ==> es[i] == r.Pow(e, i)
  }

  /** One turn of the loop over the levels. */
  method OneLevel<T(!new)>(r: Ring<T>, output: array<T>, len: nat, currLen: nat, es: array<T>, ghost s: seq<T>,
          ghost e: T, ghost k: nat, ghost m: nat)
    returns (next: nat)
    requires IsRing(r) && Root(r, e, k) && output != es && es.Length == output.Length == len == |s| == Pow2(k)
    requires m <= k <= 31 && (k == 0 ==> m == 0) && (k > 0 ==> m < k) && currLen == SizeNow(k, m) && 0 < currLen <= len
    requires AtLevel(r, s, e, m, Pow2(m), Pow2(k - m), output[..]) && ArePowers(r, es[..], e)
    modifies output
    ensures 0 < m && next == SizeNow(k, m - 1) && AtLevel(r, s, e, m - 1, Pow2(m - 1), Pow2(k - (m - 1)), output[..])
  {
    LevelTurn(k, m);
    hide IsRing, AtLevel, Root, SizeNow, U32, Pow2;
    Level(r, output, len, currLen, es, s, e, k, m);
    next := U32(currLen * 2);
  }

  /** The loop over the levels, from the second on. */
  method Levels<T(!new)>(r: Ring<T>, output: array<T>, len: nat, es: array<T>, ghost s: seq<T>, ghost e: T,
          ghost k: nat, ghost m0: nat)
    returns (outcome: Outcome)
    requires IsRing(r) && Root(r, e, k) && output != es && es.Length == output.Length == len == |s| == Pow2(k)
    requires k <= 31 && m0 == (if k == 0 then 0 else k - 1) && AtLevel(r, s, e, m0, Pow2(m0), Pow2(k - m0), output[..])
    requires ArePowers(r, es[..], e)
    modifies output
    ensures outcome == if k <= 30 then Transformed else DivisionByZero
    ensures outcome == Transformed ==> AtLevel(r, s, e, 0, 1, len, output[..])
  {
    hide *;
    ghost var m: nat := m0;
    var currLen := 4;
    FirstSize(k, m);
    while currLen <= len
      invariant m <= m0 <= k && (k == 0 || m0 < k)
      invariant AtLevel(r, s, e, m, Pow2(m), Pow2(k - m), output[..]) && ArePowers(r, es[..], e)
      invariant currLen == SizeNow(k, m)
      decreases m
    {
      if currLen == 0 {
        ZeroSize(k, m);
        return DivisionByZero;
      }
      currLen := OneLevel(r, output, len, currLen, es, s, e, k, m);
      m := m - 1;
    }
    LastSize(k, m);
    return Transformed;
  }

  lemma {:induction false} FirstSize(k: nat, m: nat)
    requires m == (if k == 0 then 0 else k - 1)
    ensures SizeNow(k, m) == 4
  {
    assert k > 0 ==> Pow2(k - m) == 2 * Pow2(0);
  }

  lemma {:induction false} ZeroSize(k: nat, m: nat)
    requires m <= k && SizeNow(k, m) == 0
    ensures k == 31
  {
  }

  /** The sizes in one turn of the loop. */
  lemma {:induction false} LevelTurn(k: nat, m: nat)
    requires m <= k <= 31 && (k == 0 ==> m == 0) && (k > 0 ==> m < k) && 0 < SizeNow(k, m) <= Pow2(k)
    ensures 0 < m && SizeNow(k, m) == 2 * Pow2(k - m) == Pow2(k - (m - 1))
    ensures U32(SizeNow(k, m) * 2) == SizeNow(k, m - 1)
  {
    Pow2Step(k - m + 1);
    NextSize(k, k - m + 1);
  }

  lemma {:induction false} NextSize(k: nat, j: nat)
    requires 1 <= j <= k <= 31
    ensures U32(2 * Pow2(j)) == if j == 31 then 0 else 2 * Pow2(j)
  {
    if j == 31 {
      Pow2Of30();
    } else {
      DoublingStops(30, j);
    }
  }

  lemma {:induction false} LastSize(k: nat, m: nat)
    requires m <= k <= 31 && (k == 0 ==> m == 0) && (k > 0 ==> m < k) && SizeNow(k, m) > Pow2(k)
    ensures m == 0 && k <= 30 && Pow2(m) == 1 && Pow2(k - m) == Pow2(k)
  {
    if m > 0 {
      LevelSizes(k, m);
    }
  }
}
