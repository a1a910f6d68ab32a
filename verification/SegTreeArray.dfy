/** The allocator on its heap-ordered array, proved equal to the tree operations. */
module SegTreeArray {
  import opened Arith
  import opened SegTreeOrders
  import opened SegTreeSpec

  /** Node i heads a perfect subtree of height h inside an array of that size. */
  ghost predicate Fits(size: nat, i: nat, h: nat)
    decreases h
  {
    1 <= i < size && (h > 0 ==> 2 * i + 1 < size && Fits(size, 2 * i, h - 1) && Fits(size, 2 * i + 1, h - 1))
  }

  ghost function Abs(d: seq<Node>, i: nat, h: nat): (t: Tree)
    requires Fits(|d|, i, h)
    ensures Perfect(t, h) && t.n == d[i]
    decreases h
  {
    if h == 0 then Leaf(d[i]) else Branch(d[i], Abs(d, 2 * i, h - 1), Abs(d, 2 * i + 1, h - 1))
  }

  /** Index j lies in the subtree of node i. */
  ghost predicate Under(j: nat, i: nat)
    decreases j
  {
    j == i || (j > i && Under(j / 2, i))
  }

  lemma {:induction false} UnderChild(j: nat, i: nat)
    requires i > 0
    ensures Under(j, 2 * i) ==> Under(j, i) && j != i && !Under(j, 2 * i + 1)
    ensures Under(j, 2 * i + 1) ==> Under(j, i) && j != i
    decreases j
  {
    if j > 2 * i + 1 {
      UnderChild(j / 2, i);
    } else if j == 2 * i + 1 {
      assert !Under(i, 2 * i);
    }
  }

  lemma {:induction false} AbsFrame(d: seq<Node>, e: seq<Node>, i: nat, h: nat)
    requires |d| == |e| && Fits(|d|, i, h)
    requires forall j: nat :: j < |d| && Under(j, i) ==> d[j] == e[j]
    ensures Abs(d, i, h) == Abs(e, i, h)
    decreases h
  {
    assert Under(i, i);
    if h > 0 {
      forall j: nat | j < |d| && (Under(j, 2 * i) || Under(j, 2 * i + 1))
        ensures d[j] == e[j]
      {
        UnderChild(j, i);
      }
      AbsFrame(d, e, 2 * i, h - 1);
      AbsFrame(d, e, 2 * i + 1, h - 1);
    }
  }

  /** Index j lies at most h levels below node i. */
  ghost predicate Deep(j: nat, i: nat, h: nat)
    decreases h
  {
    j == i || (h > 0 && (Deep(j, 2 * i, h - 1) || Deep(j, 2 * i + 1, h - 1)))
  }

  lemma {:induction false} DeepChild(j: nat, i: nat, h: nat)
    requires Deep(j, i, h)
    ensures Deep(2 * j, i, h + 1) && Deep(2 * j + 1, i, h + 1)
    decreases h
  {
    if j != i {
      if Deep(j, 2 * i, h - 1) {
        DeepChild(j, 2 * i, h - 1);
      } else {
        DeepChild(j, 2 * i + 1, h - 1);
      }
    } else {
      assert Deep(2 * j, 2 * i, h) && Deep(2 * j + 1, 2 * i + 1, h);
    }
  }

  lemma {:induction false} RootCovers(j: nat, h: nat)
    requires 1 <= j < Pow2(h + 1)
    ensures Deep(j, 1, h)
  {
    if j > 1 {
      RootCovers(j / 2, h - 1);
      DeepChild(j / 2, 1, h - 1);
    }
  }

  /** Two arrays with the same tree agree on every index of it. */
  lemma {:induction false} AbsDetermines(d: seq<Node>, e: seq<Node>, i: nat, h: nat, j: nat)
    requires |d| == |e| && Fits(|d|, i, h) && Abs(d, i, h) == Abs(e, i, h) && Deep(j, i, h)
    ensures j < |d| && d[j] == e[j]
    decreases h
  {
    if j != i {
      if Deep(j, 2 * i, h - 1) {
        AbsDetermines(d, e, 2 * i, h - 1, j);
      } else {
        AbsDetermines(d, e, 2 * i + 1, h - 1, j);
      }
    }
  }

  lemma {:induction false} SameArray(d: seq<Node>, e: seq<Node>, h: nat)
    requires |d| == |e| == Pow2(h + 1) && Fits(|d|, 1, h) && Abs(d, 1, h) == Abs(e, 1, h) && d[0] == e[0]
    ensures d == e
  {
    forall j: nat | j < |d|
      ensures d[j] == e[j]
    {
      if j > 0 {
        RootCovers(j, h);
        AbsDetermines(d, e, 1, h, j);
      }
    }
  }

  lemma {:induction false} FitsRoot(size: nat, i: nat, h: nat)
    requires 1 <= i && (i + 1) * Pow2(h) <= size
    ensures Fits(size, i, h)
    decreases h
  {
    assert (i + 1) * Pow2(h) >= i + 1;
    if h > 0 {
      assert (2 * i + 2) * Pow2(h - 1) == (i + 1) * Pow2(h);
      assert (2 * i + 1) * Pow2(h - 1) <= (2 * i + 2) * Pow2(h - 1);
      FitsRoot(size, 2 * i, h - 1);
      FitsRoot(size, 2 * i + 1, h - 1);
    }
  }

  /** No summary exceeds the number of cells, so that none wraps around in its 32 bits. */
  ghost predicate SummariesFit(d: seq<Node>, len: nat) {
    forall j: nat :: 1 <= j < |d| ==> d[j].leftFree <= d[j].maxFree <= len
  }

  lemma {:induction false} DeepBounds(d: seq<Node>, i: nat, g: nat, j: nat)
    requires Fits(|d|, i, g) && Coherent(Abs(d, i, g), g) && Deep(j, i, g)
    ensures j < |d| && d[j].leftFree <= d[j].maxFree <= Pow2(g)
    decreases g
  {
    if j == i {
      CoherentBounds(Abs(d, i, g), g);
    } else if Deep(j, 2 * i, g - 1) {
      DeepBounds(d, 2 * i, g - 1, j);
    } else {
      DeepBounds(d, 2 * i + 1, g - 1, j);
    }
  }

  lemma {:induction false} CoherentSummariesFit(d: seq<Node>, h: nat)
    requires |d| == 2 * Pow2(h) && Fits(|d|, 1, h) && Coherent(Abs(d, 1, h), h)
    ensures SummariesFit(d, Pow2(h))
  {
    assert |d| == Pow2(h + 1);
    hide Fits, Coherent, Abs, Pow2;
    forall j: nat | 1 <= j < |d|
      ensures d[j].leftFree <= d[j].maxFree <= Pow2(h)
    {
      RootCovers(j, h);
      DeepBounds(d, 1, h, j);
    }
  }

  // ---- The operations on the whole array, in the order in which they write ----

  function Rebuilt(d: seq<Node>, i: nat, len: nat): seq<Node>
    requires 2 * i + 1 < |d|
  {
    d[i := Rebuild(len, d[2 * i], d[2 * i + 1])]
  }

  function Refreshed(d: seq<Node>, i: nat, len: nat): seq<Node>
    decreases i
  {
    if i == 0 || |d| <= 2 * i + 1 then d else Refreshed(Rebuilt(d, i, len), i / 2, 2 * len)
  }

  function Modified(d: seq<Node>, kind: bool, i: nat, h: nat, n: nat): (d': seq<Node>)
    requires Fits(|d|, i, h)
    ensures |d'| == |d|
    decreases h
  {
    if h == 0 then if n > 0 then d[i := Whole(kind, 1)] else d
    else
      var half := Pow2(h - 1);
      var d' := if n >= half then Modified(d[2 * i := Whole(kind, half)], kind, 2 * i + 1, h - 1, n - half)
                else Modified(d, kind, 2 * i, h - 1, n);
      Rebuilt(d', i, Pow2(h))
  }

  function TakenAt(d: seq<Node>, i: nat, h: nat, n: nat): (d': seq<Node>)
    requires Fits(|d|, i, h)
    ensures |d'| == |d|
    decreases h
  {
    if d[i].leftFree >= n || h == 0 then Modified(d, false, i, h, n)
    else Rebuilt(TakenAt(d, if d[2 * i].maxFree >= n then 2 * i else 2 * i + 1, h - 1, n), i, Pow2(h))
  }

  function GivenAt(d: seq<Node>, i: nat, h: nat, n: nat, loc: nat): (d': seq<Node>)
    requires Fits(|d|, i, h)
    ensures |d'| == |d|
    decreases h
  {
    if loc == 0 || h == 0 then Modified(d, true, i, h, n)
    else Rebuilt(if loc >= Pow2(h - 1) then GivenAt(d, 2 * i + 1, h - 1, n, loc - Pow2(h - 1))
                 else GivenAt(d, 2 * i, h - 1, n, loc), i, Pow2(h))
  }

  /** Only the subtree of i is written. */
  ghost predicate OnlyUnder(d: seq<Node>, d': seq<Node>, i: nat) {
    |d'| == |d| && forall j: nat :: j < |d| && !Under(j, i) ==> d'[j] == d[j]
  }

  lemma {:induction false} ChildIsUnder(d: seq<Node>, d': seq<Node>, i: nat, right: bool, n: Node)
    requires 0 < i < |d| && OnlyUnder(d, d', if right then 2 * i + 1 else 2 * i)
    ensures OnlyUnder(d, d'[i := n], i)
    ensures forall j: nat :: j < |d| && (Under(j, 2 * i) || Under(j, 2 * i + 1)) ==> d'[j] == d'[i := n][j]
    ensures forall j: nat :: j < |d| && Under(j, if right then 2 * i else 2 * i + 1) ==> d[j] == d'[j]
  {
    forall j: nat | j < |d|
      ensures Under(j, 2 * i) ==> Under(j, i) && j != i && !Under(j, 2 * i + 1)
      ensures Under(j, 2 * i + 1) ==> Under(j, i) && j != i
    {
      UnderChild(j, i);
    }
    assert Under(i, i);
    hide Under;
  }

  /** A write below one child, then the rebuild of the parent, on the array and on the tree. */
  lemma {:induction false} StepUp(d: seq<Node>, d': seq<Node>, i: nat, h: nat, right: bool, len: nat)
    requires h > 0 && Fits(|d|, i, h) && OnlyUnder(d, d', if right then 2 * i + 1 else 2 * i)
    ensures OnlyUnder(d, Rebuilt(d', i, len), i)
    ensures var l, r := if right then Abs(d, 2 * i, h - 1) else Abs(d', 2 * i, h - 1),
                        if right then Abs(d', 2 * i + 1, h - 1) else Abs(d, 2 * i + 1, h - 1);
            Abs(Rebuilt(d', i, len), i, h) == Branch(Rebuild(len, l.n, r.n), l, r)
  {
    var e := Rebuilt(d', i, len);
    ChildIsUnder(d, d', i, right, e[i]);
    hide Under, Pow2, OnlyUnder, Rebuild;
    AbsFrame(d', e, 2 * i, h - 1);
    AbsFrame(d', e, 2 * i + 1, h - 1);
    AbsFrame(d, d', if right then 2 * i else 2 * i + 1, h - 1);
  }

  lemma {:induction false} ModifiedIsModify(d: seq<Node>, kind: bool, i: nat, h: nat, n: nat)
    requires Fits(|d|, i, h)
    ensures OnlyUnder(d, Modified(d, kind, i, h, n), i)
    ensures Abs(Modified(d, kind, i, h, n), i, h) == Modify(Abs(d, i, h), kind, h, n)
    decreases h
  {
    if h == 0 {
      assert Under(i, i);
    } else if n >= Pow2(h - 1) {
      ModifiedRight(d, kind, i, h, n);
    } else {
      ModifiedIsModify(d, kind, 2 * i, h - 1, n);
      StepUp(d, Modified(d, kind, 2 * i, h - 1, n), i, h, false, Pow2(h));
      hide OnlyUnder, Under;
    }
  }

  lemma {:induction false} ModifiedRight(d: seq<Node>, kind: bool, i: nat, h: nat, n: nat)
    requires Fits(|d|, i, h) && h > 0 && n >= Pow2(h - 1)
    ensures OnlyUnder(d, Modified(d, kind, i, h, n), i)
    ensures Abs(Modified(d, kind, i, h, n), i, h) == Modify(Abs(d, i, h), kind, h, n)
    decreases h, 0
  {
    hide *;
    FitsHalves(|d|, i, h);
    var m := d[2 * i := Whole(kind, Pow2(h - 1))];
    MarkLeft(d, kind, i, h);
    var e := Modified(m, kind, 2 * i + 1, h - 1, n - Pow2(h - 1));
    ModifiedIsModify(m, kind, 2 * i + 1, h - 1, n - Pow2(h - 1));
    StepUp(m, e, i, h, true, Pow2(h));
    RightStep(d, kind, i, h, n);
    OnlyUnderTwice(d, m, Rebuilt(e, i, Pow2(h)), i);
  }

  lemma {:induction false} FitsHalves(size: nat, i: nat, h: nat)
    requires Fits(size, i, h) && h > 0
    ensures 0 < i && 2 * i + 1 < size && Fits(size, 2 * i, h - 1) && Fits(size, 2 * i + 1, h - 1)
  {
  }

  lemma {:induction false} OnlyUnderTwice(d: seq<Node>, m: seq<Node>, e: seq<Node>, i: nat)
    requires OnlyUnder(d, m, i) && OnlyUnder(m, e, i)
    ensures OnlyUnder(d, e, i)
  {
  }

  /** Marking more than the left half, on the array and on the tree. */
  lemma {:induction false} RightStep(d: seq<Node>, kind: bool, i: nat, h: nat, n: nat)
    requires Fits(|d|, i, h) && h > 0 && n >= Pow2(h - 1) && 2 * i + 1 < |d| && Fits(|d|, 2 * i, h - 1)
    requires Fits(|d|, 2 * i + 1, h - 1)
    ensures Modified(d, kind, i, h, n) ==
            Rebuilt(Modified(d[2 * i := Whole(kind, Pow2(h - 1))], kind, 2 * i + 1, h - 1, n - Pow2(h - 1)), i, Pow2(h))
    ensures var l := Stamp(Abs(d, 2 * i, h - 1), h - 1, Whole(kind, Pow2(h - 1)));
            var r := Modify(Abs(d, 2 * i + 1, h - 1), kind, h - 1, n - Pow2(h - 1));
            Modify(Abs(d, i, h), kind, h, n) == Branch(Rebuild(Pow2(h), l.n, r.n), l, r)
  {
  }

  lemma {:induction false} MarkLeft(d: seq<Node>, kind: bool, i: nat, h: nat)
    requires h > 0 && Fits(|d|, i, h)
    ensures var m := d[2 * i := Whole(kind, Pow2(h - 1))];
            && OnlyUnder(d, m, i)
            && Abs(m, 2 * i, h - 1) == Stamp(Abs(d, 2 * i, h - 1), h - 1, Whole(kind, Pow2(h - 1)))
            && Abs(m, 2 * i + 1, h - 1) == Abs(d, 2 * i + 1, h - 1)
  {
    var m := d[2 * i := Whole(kind, Pow2(h - 1))];
    assert Under(2 * i, 2 * i);
    UnderChild(2 * i, i);
    AbsFrame(d, m, 2 * i + 1, h - 1);
    if h > 1 {
      forall j: nat | Under(j, 4 * i) || Under(j, 4 * i + 1)
        ensures j != 2 * i
      {
        UnderChild(j, 2 * i);
      }
      AbsFrame(d, m, 4 * i, h - 2);
      AbsFrame(d, m, 4 * i + 1, h - 2);
    }
  }

  lemma {:induction false} TakenIsTake(d: seq<Node>, i: nat, h: nat, n: nat)
    requires Fits(|d|, i, h)
    ensures OnlyUnder(d, TakenAt(d, i, h, n), i)
    ensures Abs(TakenAt(d, i, h, n), i, h) == Take(Abs(d, i, h), h, n).0
    decreases h
  {
    if d[i].leftFree >= n || h == 0 {
      ModifiedIsModify(d, false, i, h, n);
    } else {
      var right := d[2 * i].maxFree < n;
      var c := if right then 2 * i + 1 else 2 * i;
      TakenIsTake(d, c, h - 1, n);
      StepUp(d, TakenAt(d, c, h - 1, n), i, h, right, Pow2(h));
    }
  }

  lemma {:induction false} GivenIsGive(d: seq<Node>, i: nat, h: nat, n: nat, loc: nat)
    requires Fits(|d|, i, h)
    ensures OnlyUnder(d, GivenAt(d, i, h, n, loc), i)
    ensures Abs(GivenAt(d, i, h, n, loc), i, h) == Give(Abs(d, i, h), h, n, loc)
    decreases h
  {
    if loc == 0 || h == 0 {
      ModifiedIsModify(d, true, i, h, n);
    } else {
      var right := loc >= Pow2(h - 1);
      var c, rest := if right then 2 * i + 1 else 2 * i, if right then loc - Pow2(h - 1) else loc;
      GivenIsGive(d, c, h - 1, n, rest);
      StepUp(d, GivenAt(d, c, h - 1, n, rest), i, h, right, Pow2(h));
    }
  }

  // ---- The allocator object ----

  const FAILURE: nat := 0xFFFF_FFFF

  /** std::bit_ceil, as an exponent. */
  function CeilLog(n: nat): nat {
    if n <= 1 then 0 else 1 + CeilLog((n + 1) / 2)
  }

  lemma {:induction false} CeilLogFits(n: nat, k: nat)
    requires n <= Pow2(k)
    ensures n <= Pow2(CeilLog(n)) && CeilLog(n) <= k
  {
    if n > 1 {
      CeilLogFits((n + 1) / 2, k - 1);
    }
  }

  /** The array of an untouched allocator. */
  ghost predicate AllWhole(d: seq<Node>, h: nat, from: nat) {
    forall j: nat {:trigger WholeAt(d, h, j)} :: 0 < from <= j < |d| ==> WholeAt(d, h, j)
  }

  ghost predicate WholeAt(d: seq<Node>, h: nat, j: nat) {
    0 < j < |d| && FloorLog(j) <= h && d[j] == Whole(true, Pow2(h - FloorLog(j)))
  }

  lemma {:induction false} WholeParent(g: nat)
    requires g > 0
    ensures Rebuild(Pow2(g), Whole(true, Pow2(g - 1)), Whole(true, Pow2(g - 1))) == Whole(true, Pow2(g))
  {
  }

  lemma {:induction false} WholeNode(d: seq<Node>, h: nat, i: nat)
    requires |d| == 2 * Pow2(h) && 0 < i < Pow2(h) && AllWhole(d, h, i + 1)
    ensures BitFloor(i) > 0 && FloorLog(i) < h
    ensures Rebuild(Pow2(h) / BitFloor(i), d[2 * i], d[2 * i + 1]) == Whole(true, Pow2(h - FloorLog(i)))
    ensures AllWhole(d[i := Whole(true, Pow2(h - FloorLog(i)))], h, i)
  {
    FloorLogBounds(i, h);
    BitFloorIsPower(i);
    Pow2Quotient(h, FloorLog(i));
    WholeParent(h - FloorLog(i));
    assert FloorLog(2 * i) == FloorLog(2 * i + 1) == FloorLog(i) + 1;
    assert WholeAt(d, h, 2 * i) && WholeAt(d, h, 2 * i + 1);
    hide Pow2, FloorLog, BitFloor, Rebuild;
    AllWholeStep(d, h, i);
  }

  lemma {:induction false} AllWholeStep(d: seq<Node>, h: nat, i: nat)
    requires 0 < i < |d| && FloorLog(i) <= h && AllWhole(d, h, i + 1)
    ensures AllWhole(d[i := Whole(true, Pow2(h - FloorLog(i)))], h, i)
  {
    var d' := d[i := Whole(true, Pow2(h - FloorLog(i)))];
    forall j: nat {:trigger WholeAt(d', h, j)} | 0 < i <= j < |d'|
      ensures WholeAt(d', h, j)
    {
      assert j > i ==> WholeAt(d, h, j);
    }
  }

  lemma {:induction false} AllWholeIsPristine(d: seq<Node>, h: nat, i: nat, g: nat)
    requires Fits(|d|, i, g) && AllWhole(d, h, 1) && FloorLog(i) + g == h
    ensures Abs(d, i, g) == Pristine(g)
    decreases g
  {
    assert WholeAt(d, h, i);
    if g > 0 {
      AllWholeIsPristine(d, h, 2 * i, g - 1);
      AllWholeIsPristine(d, h, 2 * i + 1, g - 1);
    }
  }

  ghost function TreesOf(past: seq<seq<Node>>, now: seq<Node>, h: nat): (trees: seq<Tree>)
    requires Fits(|now|, 1, h) && forall i :: 0 <= i < |past| ==> |past[i]| == |now|
    ensures |trees| == |past| + 1
  {
    seq(|past| + 1, i requires 0 <= i < |past| + 1 => Abs(if i < |past| then past[i] else now, 1, h))
  }

  ghost predicate Consistent(past: seq<seq<Node>>, now: seq<Node>, live: seq<Block>, h: nat) {
    && Fits(|now|, 1, h) && |now| == Pow2(h + 1)
    && (forall i :: 0 <= i < |past| ==> |past[i]| == |now| && past[i][0] == now[0])
    && Chain(h, TreesOf(past, now, h), live)
  }

  lemma {:induction false} AfterTake(past: seq<seq<Node>>, now: seq<Node>, live: seq<Block>, h: nat, n: nat)
    requires Consistent(past, now, live, h) && 0 < n <= now[1].maxFree
    ensures Consistent(past + [now], TakenAt(now, 1, h, n), live + [Block(Take(Abs(now, 1, h), h, n).1, n)], h)
  {
    TakenIsTake(now, 1, h, n);
    var now' := TakenAt(now, 1, h, n);
    var live' := live + [Block(Take(Abs(now, 1, h), h, n).1, n)];
    var trees, trees' := TreesOf(past, now, h), TreesOf(past + [now], now', h);
    assert now'[0] == now[0] by {
      assert !Under(0, 1);
    }
    forall i | 0 <= i < |live'|
      ensures Taken(h, trees'[i], live'[i], trees'[i + 1])
    {
      if i < |live| {
        assert Taken(h, trees[i], live[i], trees[i + 1]);
      }
    }
  }

  lemma {:induction false} AfterGive(past: seq<seq<Node>>, now: seq<Node>, live: seq<Block>, h: nat)
    requires Consistent(past, now, live, h) && live != []
    ensures |past| == |live|
    ensures var last, b := |live| - 1, live[|live| - 1];
            && GivenAt(now, 1, h, b.n, b.loc) == past[last]
            && Consistent(past[..last], past[last], live[..last], h)
  {
    var last, b := |live| - 1, live[|live| - 1];
    var trees, before := TreesOf(past, now, h), past[last];
    assert Taken(h, trees[last], b, trees[last + 1]);
    var trees' := TreesOf(past[..last], before, h);
    assert trees' == trees[..last + 1];
    assert Chain(h, trees', live[..last]);
    ChainMeaning(h, trees', live[..last]);
    GiveUndoesTake(trees[last], h, b.n);
    GivenIsGive(now, 1, h, b.n, b.loc);
    assert !Under(0, 1);
    SameArray(GivenAt(now, 1, h, b.n, b.loc), before, h);
  }

  /** The two halves of an interval of length 2^g, as the source computes their bounds. */
  lemma {:induction false} Halving(lo: nat, hi: nat, g: nat)
    requires hi + 1 == lo + Pow2(g)
    ensures lo == hi <==> g == 0
    ensures g > 0 ==>
      (lo + hi) / 2 + 1 == lo + Pow2(g - 1) && (hi - lo + 1) / 2 == Pow2(g - 1) && Pow2(g) == 2 * Pow2(g - 1)
  {
  }

  /** One turn of the marking loop, seen from the result it is heading for. */
  lemma {:induction false} ModifiedStep(d: seq<Node>, kind: bool, i: nat, g: nat, n: nat)
    requires g > 0 && Fits(|d|, i, g)
    ensures 2 * i + 1 < |d| && Fits(|d|, 2 * i, g - 1) && Fits(|d|, 2 * i + 1, g - 1)
    ensures var goal := Refreshed(Modified(d, kind, i, g, n), i / 2, 2 * Pow2(g));
            if n >= Pow2(g - 1)
            then var d' := d[2 * i := Whole(kind, Pow2(g - 1))];
                 var m := Modified(d', kind, 2 * i + 1, g - 1, n - Pow2(g - 1));
                 goal == Refreshed(m, (2 * i + 1) / 2, 2 * Pow2(g - 1))
            else goal == Refreshed(Modified(d, kind, 2 * i, g - 1, n), 2 * i / 2, 2 * Pow2(g - 1))
  {
    var half := Pow2(g - 1);
    var m := if n >= half then Modified(d[2 * i := Whole(kind, half)], kind, 2 * i + 1, g - 1, n - half)
      else Modified(d, kind, 2 * i, g - 1, n);
    assert Modified(d, kind, i, g, n) == Rebuilt(m, i, Pow2(g));
    RefreshStep(m, i, g);
    hide Modified, Rebuilt, Refreshed, Pow2;
  }

  /** The refresh from a node on begins with that node. */
  lemma {:induction false} RefreshStep(d: seq<Node>, i: nat, g: nat)
    requires g > 0 && 0 < i && 2 * i + 1 < |d|
    ensures (2 * i + 1) / 2 == 2 * i / 2 == i
    ensures Refreshed(d, i, 2 * Pow2(g - 1)) == Refreshed(Rebuilt(d, i, Pow2(g)), i / 2, 2 * Pow2(g))
  {
    Pow2Step(g);
  }

  lemma {:induction false} RefreshedNext(d: seq<Node>, i: nat, len: nat)
    requires 0 < i && 2 * i + 1 < |d|
    ensures Refreshed(d, i, len) == Refreshed(Rebuilt(d, i, len), i / 2, len * 2)
  {
  }

  lemma {:induction false} RefreshedDone(d: seq<Node>, len: nat)
    ensures Refreshed(d, 0, len) == d
  {
  }

  lemma {:induction false} RefreshedEnd(d: seq<Node>, len: nat)
    ensures Refreshed(d, 1 / 2, len) == d
  {
  }

  lemma {:induction false} ModifiedEnd(d: seq<Node>, kind: bool, i: nat, n: nat, g: nat)
    requires Fits(|d|, i, g) && g == 0 && |d| % 2 == 0
    ensures 2 * (i / 2) + 1 < |d|
    ensures Refreshed(Modified(d, kind, i, g, n), i / 2, 2 * Pow2(g)) ==
            Refreshed(if n != 0 then d[i := Whole(kind, 1)] else d, i / 2, 2)
  {
  }

  class SegmentTree {
    const LENGTH: nat
    const data: array<Node>
    ghost const h: nat
    ghost var live: seq<Block>
    ghost var past: seq<seq<Node>>

    ghost predicate Shape()
      reads this
    {
      h <= 31 && LENGTH == Pow2(h) && data.Length == 2 * LENGTH && Fits(data.Length, 1, h)
    }

    /** What every call keeps, whatever the calls before it. */
    ghost predicate Sound()
      reads this, data
    {
      Shape() && Coherent(Abs(data[..], 1, h), h)
    }

    /** Moreover the live blocks carry their marks, lie apart, and cover exactly the used cells. */
    ghost predicate Right()
      reads this, data
    {
      Sound() && Faithful(h, Memory(Abs(data[..], 1, h), live))
    }

    /** Or even: the live blocks were taken in this order, and later ones were given back. */
    ghost predicate Valid()
      reads this, data
    {
      Sound() && Consistent(past, data[..], live, h)
    }

    /** Everything free; the cells between leafCount and LENGTH as well. */
    constructor (leafCount: nat)
      requires leafCount <= Pow2(31)
      ensures Valid() && fresh(data) && live == [] && h == CeilLog(leafCount) && LENGTH == Pow2(h)
      ensures leafCount <= LENGTH
      ensures Abs(data[..], 1, h) == Pristine(h)
    {
      hide AllWhole, CeilLog, Consistent, Pow2, Fits, Coherent, Abs, Pristine;
      CeilLogFits(leafCount, 31);
      LENGTH := Pow2(CeilLog(leafCount));
      data := new Node[2 * Pow2(CeilLog(leafCount))](_ => Node(0, 0));
      h := CeilLog(leafCount);
      live, past := [], [];
      new;
      FreeLeaves(leafCount);
      BuildUp();
      FitsRoot(data.Length, 1, h);
      AllWholeIsPristine(data[..], h, 1, h);
      PristineIsConsistent(data[..], h);
    }

    method BuildUp()
      requires LENGTH == Pow2(h) && data.Length == 2 * LENGTH && AllWhole(data[..], h, LENGTH)
      modifies data
      ensures AllWhole(data[..], h, 1)
    {
      hide AllWhole;
      var idx: nat := LENGTH - 1;
      while idx != 0
        invariant idx < LENGTH && AllWhole(data[..], h, idx + 1)
      {
        BuildNode(idx);
        idx := idx - 1;
      }
    }

    method BuildNode(idx: nat)
      requires LENGTH == Pow2(h) && data.Length == 2 * LENGTH && 0 < idx < LENGTH && AllWhole(data[..], h, idx + 1)
      modifies data
      ensures AllWhole(data[..], h, idx)
    {
      hide *;
      ghost var d := data[..];
      WholeNode(d, h, idx);
      var node := Rebuild(LENGTH / BitFloor(idx), data[idx * 2], data[idx * 2 + 1]);
      data[idx] := node;
      assert data[..] == d[idx := node];
    }

    method FreeLeaves(leafCount: nat)
      requires LENGTH == Pow2(h) && data.Length == 2 * LENGTH && leafCount <= LENGTH
      modifies data
      ensures AllWhole(data[..], h, LENGTH)
    {
      for idx := 0 to leafCount
        invariant forall j :: LENGTH <= j < idx + LENGTH ==> data[j] == Node(1, 1)
      {
        data[idx + LENGTH] := Node(1, 1);
      }
      for idx := leafCount to LENGTH
        invariant forall j :: LENGTH <= j < idx + LENGTH ==> data[j] == Node(1, 1)
      {
        data[idx + LENGTH] := Node(1, 1);
      }
      forall j: nat | LENGTH <= j < data.Length
        ensures FloorLog(j) == h
      {
        FloorLogBounds(j, h);
      }
    }

    method RefreshUpwards(idx0: nat, len0: nat)
      requires 2 * idx0 + 1 < data.Length
      modifies data
      ensures data[..] == Refreshed(old(data[..]), idx0, len0)
    {
      hide Refreshed, Rebuild;
      var idx: nat, len: nat := idx0, len0;
      while idx != 0
        invariant 2 * idx + 1 < data.Length
        invariant Refreshed(data[..], idx, len) == Refreshed(old(data[..]), idx0, len0)
      {
        ghost var d := data[..];
        RefreshedNext(d, idx, len);
        data[idx] := Rebuild(len, data[idx * 2], data[idx * 2 + 1]);
        assert data[..] == Rebuilt(d, idx, len);
        idx := idx / 2;
        len := len * 2;
      }
      RefreshedDone(data[..], len);
    }

    method ModifyFrom(kind: bool, idx0: nat, lo0: nat, hi0: nat, leftlen0: nat, ghost h0: nat)
      requires data.Length % 2 == 0 && Fits(data.Length, idx0, h0) && hi0 + 1 == lo0 + Pow2(h0)
      modifies data
      ensures data[..] == Refreshed(Modified(old(data[..]), kind, idx0, h0, leftlen0), idx0 / 2, 2 * Pow2(h0))
    {
      hide Refreshed, Modified, Pow2;
      var idx: nat, lo: nat, hi: nat, leftlen: nat := idx0, lo0, hi0, leftlen0;
      ghost var g: nat := h0;
      while lo != hi
        invariant Fits(data.Length, idx, g) && hi + 1 == lo + Pow2(g)
        invariant Refreshed(Modified(data[..], kind, idx, g, leftlen), idx / 2, 2 * Pow2(g)) ==
                  Refreshed(Modified(old(data[..]), kind, idx0, h0, leftlen0), idx0 / 2, 2 * Pow2(h0))
        decreases g
      {
        ghost var d := data[..];
        Halving(lo, hi, g);
        ModifiedStep(d, kind, idx, g, leftlen);
        if leftlen >= (hi - lo + 1) / 2 {
          data[idx * 2] := Whole(kind, (hi - lo + 1) / 2);
          assert data[..] == d[2 * idx := Whole(kind, Pow2(g - 1))];
          idx := idx * 2 + 1;
          lo := (lo + hi) / 2 + 1;
          leftlen := leftlen - (hi - lo + 1);
        } else {
          idx := idx * 2;
          hi := (lo + hi) / 2;
        }
        g := g - 1;
      }
      ghost var d := data[..];
      Halving(lo, hi, g);
      ModifiedEnd(d, kind, idx, leftlen, g);
      if leftlen != 0 {
        data[idx] := Whole(kind, 1);
      }
      RefreshUpwards(idx / 2, 2);
    }

    /** The descent of `take` to the node that is marked, once it is known that some interval fits. */
    method Descend(reqlen: nat) returns (idx: nat, lo: nat, hi: nat, ghost g: nat)
      requires 0 < LENGTH == Pow2(h) && Searching(data[..], h, reqlen, 1, h, 0)
      ensures Fits(data.Length, 1, h) && Fits(data.Length, idx, g) && hi + 1 == lo + Pow2(g)
      ensures Refreshed(Modified(data[..], false, idx, g, reqlen), idx / 2, 2 * Pow2(g)) ==
        TakenAt(data[..], 1, h, reqlen)
      ensures lo == Take(Abs(data[..], 1, h), h, reqlen).1
    {
      hide *;
      idx, lo, hi, g := 1, 0, LENGTH - 1, h;
      while true
        invariant Searching(data[..], h, reqlen, idx, g, lo) && hi + 1 == lo + Pow2(g)
        decreases g
      {
        SearchInside(data[..], h, reqlen, idx, g, lo);
        if data[idx].leftFree >= reqlen {
          return;
        }
        Halving(lo, hi, g);
        SearchTurn(data[..], h, reqlen, idx, g, lo);
        if data[idx * 2].maxFree >= reqlen {
          idx := idx * 2;
          hi := (lo + hi) / 2;
        } else {
          idx := idx * 2 + 1;
          lo := (lo + hi) / 2 + 1;
        }
        g := g - 1;
      }
    }

    method Search(reqlen: nat) returns (loc: nat)
      requires Sound() && reqlen <= data[1].maxFree
      modifies data
      ensures data[..] == TakenAt(old(data[..]), 1, h, reqlen)
      ensures loc == Take(old(Abs(data[..], 1, h)), h, reqlen).1
    {
      SearchStart(data[..], h, reqlen);
      hide Refreshed, TakenAt, Take, Coherent, Fits, Pow2, Abs, Searching;
      var idx, lo, hi, g := Descend(reqlen);
      ModifyFrom(false, idx, lo, hi, reqlen, g);
      return lo;
    }

    /**
     * Any request in any state. When the cells are right, it fails exactly when no aligned interval starts with enough
     * free cells, and the cells stay right exactly when its walk meets no other mark, as it never does in stack order.
     * A request for nothing then changes nothing exactly when TakeNothing says so.
     */
    method TakeBlock(reqlen: nat) returns (loc: nat)
      requires Sound()
      modifies this, data
      ensures Sound() && SummariesFit(data[..], LENGTH) && (loc == FAILURE <==> old(data[1].maxFree) < reqlen)
      ensures if loc == FAILURE then data[..] == old(data[..])
              else loc < LENGTH && (Abs(data[..], 1, h), loc) == Take(old(Abs(data[..], 1, h)), h, reqlen)
      ensures if loc == FAILURE || reqlen == 0 then live == old(live) && past == old(past)
              else live == old(live) + [Block(loc, reqlen)] && past == old(past) + [old(data[..])]
      ensures old(Right()) && reqlen > 0 ==>
        (loc == FAILURE <==> !AlignedFit(old(Abs(data[..], 1, h)), h, reqlen, 0, h))
      ensures old(Right()) && reqlen > 0 && loc != FAILURE ==> FirstOffer(old(Abs(data[..], 1, h)), h, reqlen, loc)
      ensures old(Right()) && reqlen > 0 && loc != FAILURE ==>
                (Right() <==> !TakeTailMarked(old(Abs(data[..], 1, h)), h, reqlen))
      ensures old(Right()) && reqlen == 0 ==> (data[..] == old(data[..]) <==> !SpineMarked(old(Abs(data[..], 1, h)), h))
      ensures old(Valid()) ==> old(Right())
      ensures old(Valid()) && reqlen > 0 ==> Valid()
    {
      hide TakenAt, Take, Coherent, AlignedFit, FirstOffer, Consistent, SpineMarked, SummariesFit, Faithful,
        TakeTailMarked, Abs, Fits, Pow2;
      ghost var d := data[..];
      TakeOutcome(d, live, h, reqlen);
      TakeInOrder(past, d, live, h, reqlen);
      CoherentSummariesFit(d, h);
      if data[1].maxFree < reqlen {
        return FAILURE;
      }
      LocIsNoFailure(h, Take(Abs(d, 1, h), h, reqlen).1);
      loc := Search(reqlen);
      CoherentSummariesFit(data[..], h);
      if reqlen > 0 {
        past, live := past + [d], live + [Block(loc, reqlen)];
      }
    }

    /** The walk of `give` to the node whose interval starts at `loc0`, and the marking from there. */
    method WalkAndFree(reqlen: nat, loc0: nat)
      requires Shape() && loc0 < LENGTH
      modifies data
      ensures data[..] == GivenAt(old(data[..]), 1, h, reqlen, loc0)
    {
      hide Refreshed, GivenAt, Fits, Pow2, Abs;
      ghost var d := data[..];
      var idx: nat, lo: nat, hi: nat, loc: nat := 1, 0, LENGTH - 1, loc0;
      ghost var g: nat := h;
      RefreshedEnd(GivenAt(d, 1, h, reqlen, loc0), 2 * Pow2(h));
      while loc != 0
        invariant Fits(|d|, idx, g) && hi + 1 == lo + Pow2(g) && loc < Pow2(g) && data[..] == d
        invariant Refreshed(GivenAt(d, idx, g, reqlen, loc), idx / 2, 2 * Pow2(g)) == GivenAt(d, 1, h, reqlen, loc0)
        decreases g
      {
        GivenStep(d, idx, g, reqlen, loc);
        Halving(lo, hi, g);
        if loc >= (hi - lo + 1) / 2 {
          loc := loc - (hi - lo + 1) / 2;
          idx := idx * 2 + 1;
          lo := (hi + lo) / 2 + 1;
        } else {
          idx := idx * 2;
          hi := (hi + lo) / 2;
        }
        g := g - 1;
      }
      GiveHere(d, idx, g, reqlen);
      ModifyFrom(true, idx, lo, hi, reqlen, g);
    }

    /**
     * Any give in any state; for a place beyond the tree the walk never ends (WalkReturns). When the cells are right, a
     * live block frees exactly its cells, and the cells stay right, exactly when its walk meets no other mark. The most
     * recently taken block leaves the array exactly as it was before that block was taken.
     */
    method GiveBlock(reqlen: nat, loc: nat) returns (ended: bool)
      requires Sound()
      modifies this, data
      ensures Sound() && SummariesFit(data[..], LENGTH) && (ended <==> loc < LENGTH)
      ensures if !ended then data[..] == old(data[..]) && live == old(live) && past == old(past)
              else && Abs(data[..], 1, h) == Give(old(Abs(data[..], 1, h)), h, reqlen, loc)
                   && live == Without(old(live), Block(loc, reqlen))
      ensures old(Right()) && Block(loc, reqlen) in old(live) ==>
                && ended
                && (Right() <==> !BlockTailMarked(old(Abs(data[..], 1, h)), h, reqlen, loc))
      ensures old(Right()) && Block(loc, reqlen) in old(live) ==>
                (FreesExactly(old(Abs(data[..], 1, h)), Abs(data[..], 1, h), h, reqlen, loc) <==>
                 !BlockTailMarked(old(Abs(data[..], 1, h)), h, reqlen, loc))
      ensures old(Valid()) ==> old(Right())
      ensures ended && old(Valid()) && IsLast(old(live), Block(loc, reqlen)) ==>
                Valid() && |old(past)| == |old(live)| && past == old(past)[..|live|] && data[..] == old(past)[|live|]
    {
      hide GivenAt, Give, Coherent, Consistent, FreesExactly, BlockTailMarked, SummariesFit, Faithful, Abs, Fits, Pow2,
        Without;
      ghost var d, b := data[..], Block(loc, reqlen);
      CoherentSummariesFit(d, h);
      GiveOutcome(d, live, h, b);
      GiveInOrder(past, d, live, h, b);
      if loc >= LENGTH {
        return false;
      }
      WalkAndFree(reqlen, loc);
      CoherentSummariesFit(data[..], h);
      if IsLast(live, b) && |past| == |live| {
        past := past[..|live| - 1];
      }
      live := Without(live, b);
      return true;
    }
  }

  // ---- When the walk of a give ends ----

  /** The place that is left after i turns of the walk over [lo, hi]. */
  ghost function WalkLoc(lo: nat, hi: nat, loc: nat, i: nat): nat
    requires lo <= hi + 1
    decreases i
  {
    if i == 0 || loc == 0 then loc
    else
      var half := (hi - lo + 1) / 2;
      if loc >= half then WalkLoc((hi + lo) / 2 + 1, hi, loc - half, i - 1) else WalkLoc(lo, (hi + lo) / 2, loc, i - 1)
  }

  lemma {:induction false} WalkInside(lo: nat, hi: nat, g: nat, loc: nat)
    requires hi + 1 == lo + Pow2(g) && loc < Pow2(g)
    ensures WalkLoc(lo, hi, loc, g) == 0
    decreases g
  {
    if g > 0 {
      Halving(lo, hi, g);
      if loc >= Pow2(g - 1) {
        WalkInside((hi + lo) / 2 + 1, hi, g - 1, loc - Pow2(g - 1));
      } else {
        WalkInside(lo, (hi + lo) / 2, g - 1, loc);
      }
    }
  }

  /** Behind its interval the walk turns on the spot. */
  lemma {:induction false} WalkBehind(hi: nat, loc: nat, i: nat)
    ensures WalkLoc(hi + 1, hi, loc, i) == loc
  {
    if i > 0 && loc > 0 {
      WalkBehind(hi, loc, i - 1);
    }
  }

  lemma {:induction false} WalkBeyond(lo: nat, hi: nat, g: nat, loc: nat, i: nat)
    requires hi + 1 == lo + Pow2(g) && loc >= Pow2(g)
    ensures WalkLoc(lo, hi, loc, i) > 0
    decreases i
  {
    if i > 0 {
      Halving(lo, hi, g);
      if g == 0 {
        WalkBehind(hi, loc, i - 1);
      } else {
        WalkBeyond((hi + lo) / 2 + 1, hi, g - 1, loc - Pow2(g - 1), i - 1);
      }
    }
  }

  ghost predicate EndsAfter(h: nat, loc: nat, i: nat) {
    WalkLoc(0, Pow2(h) - 1, loc, i) == 0
  }

  /** The walk of `give` ends exactly for places inside the tree. */
  lemma {:induction false} WalkReturns(h: nat, loc: nat)
    ensures (exists i: nat :: EndsAfter(h, loc, i)) <==> loc < Pow2(h)
  {
    if loc < Pow2(h) {
      WalkInside(0, Pow2(h) - 1, h, loc);
      assert EndsAfter(h, loc, h);
    } else {
      forall i: nat
        ensures !EndsAfter(h, loc, i)
      {
        WalkBeyond(0, Pow2(h) - 1, h, loc, i);
      }
    }
  }

  ghost predicate IsLast(live: seq<Block>, b: Block) {
    live != [] && live[|live| - 1] == b
  }

  /** The blocks without the last occurrence of b. */
  ghost function Without(live: seq<Block>, b: Block): (rest: seq<Block>)
    ensures IsLast(live, b) ==> rest == live[..|live| - 1]
  {
    if live == [] then []
    else if live[|live| - 1] == b then live[..|live| - 1]
    else Without(live[..|live| - 1], b) + [live[|live| - 1]]
  }

  lemma {:induction false} PristineIsConsistent(d: seq<Node>, h: nat)
    requires |d| == 2 * Pow2(h) && Fits(|d|, 1, h) && Abs(d, 1, h) == Pristine(h)
    ensures Consistent([], d, [], h) && Coherent(Abs(d, 1, h), h)
  {
    SaneIsCoherent(Pristine(h), h);
  }

  lemma {:induction false} ConsistentIsFaithful(past: seq<seq<Node>>, d: seq<Node>, live: seq<Block>, h: nat)
    requires Consistent(past, d, live, h)
    ensures Faithful(h, Memory(Abs(d, 1, h), live))
  {
    ChainIsFaithful(h, TreesOf(past, d, h), live);
  }

  /** What a take does to the array, on the tree. */
  lemma {:induction false} TakeOutcome(d: seq<Node>, live: seq<Block>, h: nat, n: nat)
    requires |d| == 2 * Pow2(h) && Fits(|d|, 1, h) && Coherent(Abs(d, 1, h), h)
    ensures 1 < |d|
    ensures n <= d[1].maxFree ==>
              && Abs(TakenAt(d, 1, h, n), 1, h) == Take(Abs(d, 1, h), h, n).0 && Take(Abs(d, 1, h), h, n).1 < Pow2(h)
              && Coherent(Abs(TakenAt(d, 1, h, n), 1, h), h)
    ensures Faithful(h, Memory(Abs(d, 1, h), live)) && n > 0 ==>
              && (n <= d[1].maxFree <==> AlignedFit(Abs(d, 1, h), h, n, 0, h))
              && (n <= d[1].maxFree ==>
                    var (t, loc) := Take(Abs(d, 1, h), h, n);
                    Faithful(h, Memory(t, live + [Block(loc, n)])) <==> !TakeTailMarked(Abs(d, 1, h), h, n))
    ensures Faithful(h, Memory(Abs(d, 1, h), live)) && 0 < n <= d[1].maxFree ==>
      FirstOffer(Abs(d, 1, h), h, n, Take(Abs(d, 1, h), h, n).1)
    ensures Faithful(h, Memory(Abs(d, 1, h), live)) && n == 0 ==>
      (TakenAt(d, 1, h, 0) == d <==> !SpineMarked(Abs(d, 1, h), h))
  {
    var t := Abs(d, 1, h);
    if n <= d[1].maxFree {
      TakenIsTake(d, 1, h, n);
      TakeKeepsCoherent(t, h, n);
    }
    if Faithful(h, Memory(t, live)) {
      if n > 0 {
        MaxFreeMeaning(t, h, n);
        if n <= d[1].maxFree {
          GrabFaithful(h, Memory(t, live), n);
          TakeIsLeftmost(t, h, n);
        }
      } else {
        TakenNothing(d, h);
      }
    }
  }

  lemma {:induction false} TakeInOrder(past: seq<seq<Node>>, d: seq<Node>, live: seq<Block>, h: nat, n: nat)
    requires |d| == 2 * Pow2(h) && Fits(|d|, 1, h)
    ensures Consistent(past, d, live, h) ==> Faithful(h, Memory(Abs(d, 1, h), live))
    ensures Consistent(past, d, live, h) && 0 < n <= d[1].maxFree ==>
              Consistent(past + [d], TakenAt(d, 1, h, n), live + [Block(Take(Abs(d, 1, h), h, n).1, n)], h)
  {
    hide Consistent, Faithful, TakenAt, Take;
    if Consistent(past, d, live, h) {
      ConsistentIsFaithful(past, d, live, h);
      if 0 < n <= d[1].maxFree {
        AfterTake(past, d, live, h, n);
      }
    }
  }

  lemma {:induction false} TakenNothing(d: seq<Node>, h: nat)
    requires |d| == Pow2(h + 1) && Fits(|d|, 1, h) && Sane(Abs(d, 1, h), h)
    ensures TakenAt(d, 1, h, 0) == d <==> !SpineMarked(Abs(d, 1, h), h)
  {
    var t, d' := Abs(d, 1, h), TakenAt(d, 1, h, 0);
    TakeNothing(t, h);
    TakenIsTake(d, 1, h, 0);
    assert Take(t, h, 0) == (Modify(t, false, h, 0), 0);
    assert d'[0] == d[0] by {
      assert !Under(0, 1);
    }
    if Abs(d', 1, h) == t {
      SameArray(d', d, h);
    }
  }

  /** Which of the live blocks is taken out. */
  lemma {:induction false} WithoutIsAt(live: seq<Block>, b: Block) returns (i: nat)
    requires b in live
    ensures i < |live| && live[i] == b && Without(live, b) == WithoutAt(live, i)
  {
    i := |live| - 1;
    if live[i] == b {
      assert live[i + 1..] == [];
    } else {
      var last := i;
      i := WithoutIsAt(live[..last], b);
      assert WithoutAt(live, i) == WithoutAt(live[..last], i) + [live[last]];
    }
  }

  /** What a give does to the array, on the tree. */
  lemma {:induction false} GiveOutcome(d: seq<Node>, live: seq<Block>, h: nat, b: Block)
    requires |d| == 2 * Pow2(h) && Fits(|d|, 1, h) && Coherent(Abs(d, 1, h), h)
    ensures Abs(GivenAt(d, 1, h, b.n, b.loc), 1, h) == Give(Abs(d, 1, h), h, b.n, b.loc)
    ensures Coherent(Give(Abs(d, 1, h), h, b.n, b.loc), h)
    ensures Faithful(h, Memory(Abs(d, 1, h), live)) && b in live ==>
              && b.loc < Pow2(h)
              && (FreesExactly(Abs(d, 1, h), Give(Abs(d, 1, h), h, b.n, b.loc), h, b.n, b.loc) <==>
                  !BlockTailMarked(Abs(d, 1, h), h, b.n, b.loc))
              && (Faithful(h, Memory(Give(Abs(d, 1, h), h, b.n, b.loc), Without(live, b))) <==>
                  !BlockTailMarked(Abs(d, 1, h), h, b.n, b.loc))
  {
    GivenIsGive(d, 1, h, b.n, b.loc);
    GiveKeepsCoherent(Abs(d, 1, h), h, b.n, b.loc);
    if Faithful(h, Memory(Abs(d, 1, h), live)) && b in live {
      LiveBlockFrees(d, live, h, b);
    }
  }

  lemma {:induction false} LiveBlockFrees(d: seq<Node>, live: seq<Block>, h: nat, b: Block)
    requires Fits(|d|, 1, h) && Faithful(h, Memory(Abs(d, 1, h), live)) && b in live
    ensures b.loc < Pow2(h)
    ensures FreesExactly(Abs(d, 1, h), Give(Abs(d, 1, h), h, b.n, b.loc), h, b.n, b.loc) <==>
            !BlockTailMarked(Abs(d, 1, h), h, b.n, b.loc)
    ensures Faithful(h, Memory(Give(Abs(d, 1, h), h, b.n, b.loc), Without(live, b))) <==>
            !BlockTailMarked(Abs(d, 1, h), h, b.n, b.loc)
  {
    var t := Abs(d, 1, h);
    var i := WithoutIsAt(live, b);
    assert Marks(h, t, b);
    InsideBound(h, b.n, b.loc);
    GiveIsExact(t, h, b.n, b.loc);
    FreeFaithful(h, Memory(t, live), i);
  }

  lemma {:induction false} GiveInOrder(past: seq<seq<Node>>, d: seq<Node>, live: seq<Block>, h: nat, b: Block)
    requires |d| == 2 * Pow2(h) && Fits(|d|, 1, h)
    ensures Consistent(past, d, live, h) ==> Faithful(h, Memory(Abs(d, 1, h), live))
    ensures Consistent(past, d, live, h) && IsLast(live, b) ==>
              && |past| == |live| && GivenAt(d, 1, h, b.n, b.loc) == past[|live| - 1]
              && Consistent(past[..|live| - 1], past[|live| - 1], live[..|live| - 1], h)
  {
    hide Consistent, Faithful, GivenAt;
    if Consistent(past, d, live, h) {
      ConsistentIsFaithful(past, d, live, h);
      if IsLast(live, b) {
        AfterGive(past, d, live, h);
      }
    }
  }

  lemma {:induction false} LocIsNoFailure(h: nat, loc: nat)
    requires h <= 31 && loc < Pow2(h)
    ensures loc != FAILURE
  {
    Pow2Monotonic(h, 31);
    Pow2Of30();
  }

  /** What the search keeps: node idx fits, and taking there leads to the result for the whole tree. */
  ghost predicate Searching(d: seq<Node>, h: nat, n: nat, idx: nat, g: nat, lo: nat) {
    && Fits(|d|, 1, h) && Fits(|d|, idx, g) && Coherent(Abs(d, idx, g), g) && d[idx].maxFree >= n
    && Refreshed(TakenAt(d, idx, g, n), idx / 2, 2 * Pow2(g)) == TakenAt(d, 1, h, n)
    && lo + Take(Abs(d, idx, g), g, n).1 == Take(Abs(d, 1, h), h, n).1
  }

  lemma {:induction false} SearchStart(d: seq<Node>, h: nat, n: nat)
    requires Fits(|d|, 1, h) && Coherent(Abs(d, 1, h), h) && d[1].maxFree >= n
    ensures Searching(d, h, n, 1, h, 0)
  {
    RefreshedEnd(TakenAt(d, 1, h, n), 2 * Pow2(h));
    hide Refreshed, TakenAt, Take, Coherent, Pow2;
  }

  /** Where the node itself fits, the first n of its cells are marked. */
  lemma {:induction false} SearchInside(d: seq<Node>, h: nat, n: nat, idx: nat, g: nat, lo: nat)
    requires Searching(d, h, n, idx, g, lo)
    ensures Fits(|d|, 1, h) && Fits(|d|, idx, g) && 0 < idx < |d|
    ensures d[idx].leftFree < n ==> g > 0 && 2 * idx + 1 < |d|
    ensures d[idx].leftFree >= n ==>
              && Refreshed(Modified(d, false, idx, g, n), idx / 2, 2 * Pow2(g)) == TakenAt(d, 1, h, n)
              && lo == Take(Abs(d, 1, h), h, n).1
  {
    if d[idx].leftFree < n {
      CoherentFit(Abs(d, idx, g), g, n);
    } else {
      TakeHere(d, idx, g, n);
    }
  }

  lemma {:induction false} TakeHere(d: seq<Node>, i: nat, g: nat, n: nat)
    requires Fits(|d|, i, g) && d[i].leftFree >= n
    ensures TakenAt(d, i, g, n) == Modified(d, false, i, g, n) && Take(Abs(d, i, g), g, n).1 == 0
  {
  }

  /** When the node itself does not fit, one of its halves does. */
  lemma {:induction false} SearchTurn(d: seq<Node>, h: nat, n: nat, idx: nat, g: nat, lo: nat)
    requires Searching(d, h, n, idx, g, lo) && idx < |d| && d[idx].leftFree < n
    ensures g > 0 && 2 * idx + 1 < |d|
    ensures if d[2 * idx].maxFree >= n then Searching(d, h, n, 2 * idx, g - 1, lo)
      else Searching(d, h, n, 2 * idx + 1, g - 1, lo + Pow2(g - 1))
  {
    HalvesFit(d, idx, g, n);
    hide Refreshed, TakenAt, Take, Coherent, Fits, Pow2, Abs;
    TakenStep(d, idx, g, n);
    PlaceStep(d, idx, g, n);
  }

  lemma {:induction false} HalvesFit(d: seq<Node>, i: nat, g: nat, n: nat)
    requires Fits(|d|, i, g) && Coherent(Abs(d, i, g), g) && d[i].leftFree < n <= d[i].maxFree
    ensures g > 0 && 2 * i + 1 < |d| && Fits(|d|, 2 * i, g - 1) && Fits(|d|, 2 * i + 1, g - 1)
    ensures Coherent(Abs(d, 2 * i, g - 1), g - 1) && Coherent(Abs(d, 2 * i + 1, g - 1), g - 1)
    ensures d[2 * i].maxFree < n ==> d[2 * i + 1].maxFree >= n
  {
    CoherentFit(Abs(d, i, g), g, n);
  }

  /** One turn of the search, seen from the array it is heading for. */
  lemma {:induction false} TakenStep(d: seq<Node>, i: nat, g: nat, n: nat)
    requires Fits(|d|, i, g) && g > 0 && 2 * i + 1 < |d| && Fits(|d|, 2 * i, g - 1) && Fits(|d|, 2 * i + 1, g - 1)
    requires d[i].leftFree < n
    ensures var c := if d[2 * i].maxFree >= n then 2 * i else 2 * i + 1;
            Refreshed(TakenAt(d, i, g, n), i / 2, 2 * Pow2(g)) ==
              Refreshed(TakenAt(d, c, g - 1, n), c / 2, 2 * Pow2(g - 1))
  {
    var c := if d[2 * i].maxFree >= n then 2 * i else 2 * i + 1;
    assert TakenAt(d, i, g, n) == Rebuilt(TakenAt(d, c, g - 1, n), i, Pow2(g));
    RefreshStep(TakenAt(d, c, g - 1, n), i, g);
    hide TakenAt, Rebuilt, Refreshed, Fits;
  }

  /** The same turn, seen from the place it is heading for. */
  lemma {:induction false} PlaceStep(d: seq<Node>, i: nat, g: nat, n: nat)
    requires Fits(|d|, i, g) && g > 0 && 2 * i + 1 < |d| && Fits(|d|, 2 * i, g - 1) && Fits(|d|, 2 * i + 1, g - 1)
    requires d[i].leftFree < n
    ensures Take(Abs(d, i, g), g, n).1 == if d[2 * i].maxFree >= n then Take(Abs(d, 2 * i, g - 1), g - 1, n).1
                                          else Pow2(g - 1) + Take(Abs(d, 2 * i + 1, g - 1), g - 1, n).1
  {
    hide Fits, Modify;
  }

  lemma {:induction false} GivenStep(d: seq<Node>, i: nat, g: nat, n: nat, loc: nat)
    requires Fits(|d|, i, g) && 0 < loc < Pow2(g)
    ensures g > 0 && 2 * i + 1 < |d| && Fits(|d|, 2 * i, g - 1) && Fits(|d|, 2 * i + 1, g - 1)
    ensures var c, rest := if loc >= Pow2(g - 1) then 2 * i + 1 else 2 * i,
          if loc >= Pow2(g - 1) then loc - Pow2(g - 1) else loc;
            rest < Pow2(g - 1) &&
            Refreshed(GivenAt(d, i, g, n, loc), i / 2, 2 * Pow2(g)) ==
              Refreshed(GivenAt(d, c, g - 1, n, rest), c / 2, 2 * Pow2(g - 1))
  {
    var c, rest := if loc >= Pow2(g - 1) then 2 * i + 1 else 2 * i,
          if loc >= Pow2(g - 1) then loc - Pow2(g - 1) else loc;
    assert GivenAt(d, i, g, n, loc) == Rebuilt(GivenAt(d, c, g - 1, n, rest), i, Pow2(g));
    RefreshStep(GivenAt(d, c, g - 1, n, rest), i, g);
    hide GivenAt, Rebuilt, Refreshed;
  }

  lemma {:induction false} GiveHere(d: seq<Node>, i: nat, g: nat, n: nat)
    requires Fits(|d|, i, g)
    ensures GivenAt(d, i, g, n, 0) == Modified(d, true, i, g, n)
  {
  }

  /** A run in stack order on one allocator object: its cells and its live blocks are those of the run on trees. */
  method Perform(leafCount: nat, ops: seq<Op>) returns (s: SegmentTree)
    requires leafCount <= Pow2(31)
    requires forall op :: op in ops && op.TakeOp? ==> op.n > 0
    ensures fresh(s) && s.Valid() && s.h == CeilLog(leafCount)
    ensures Abs(s.data[..], 1, s.h) == Run(s.h, ops).now && s.live == Run(s.h, ops).live
  {
    hide Consistent, Coherent, Take, Give, Run, Step, AlignedFit, FreesExactly, BlockTailMarked, TakeTailMarked,
      SpineMarked, CeilLog, Fits, Abs, Pow2, Without, Faithful, SummariesFit;
    s := new SegmentTree(leafCount);
    RunStart(s.h);
    var blocks: seq<Block> := [];
    for i := 0 to |ops|
      invariant fresh(s) && fresh(s.data) && s.Valid() && s.h == CeilLog(leafCount) && blocks == s.live
      invariant Abs(s.data[..], 1, s.h) == Run(s.h, ops[..i]).now && s.live == Run(s.h, ops[..i]).live
    {
      RunStep(s.h, ops, i);
      match ops[i]
      case TakeOp(n) =>
        var loc := s.TakeBlock(n);
        if loc != FAILURE {
          blocks := blocks + [Block(loc, n)];
        }
      case GiveOp =>
        if blocks != [] {
          var b := blocks[|blocks| - 1];
          var ended := s.GiveBlock(b.n, b.loc);
          blocks := blocks[..|blocks| - 1];
        }
    }
    assert ops[..|ops|] == ops;
  }

  /** A run of any takes and gives in any order on one allocator object: again that of the run on trees. */
  method PerformAny(leafCount: nat, ops: seq<Call>) returns (s: SegmentTree, blocks: seq<Block>)
    requires leafCount <= Pow2(31)
    ensures fresh(s) && s.Sound() && s.h == CeilLog(leafCount)
    ensures Memory(Abs(s.data[..], 1, s.h), blocks) == RunAny(s.h, ops)
  {
    hide Consistent, Coherent, Take, Give, RunAny, StepAny, AlignedFit, FreesExactly, BlockTailMarked, TakeTailMarked,
      SpineMarked, CeilLog, Fits, Abs, Pow2, Without, Faithful, SummariesFit;
    s := new SegmentTree(leafCount);
    blocks := [];
    StartAny(s.h);
    for i := 0 to |ops|
      invariant fresh(s) && fresh(s.data) && s.Sound() && s.h == CeilLog(leafCount)
      invariant forall b :: b in blocks ==> b.loc < s.LENGTH
      invariant Memory(Abs(s.data[..], 1, s.h), blocks) == RunAny(s.h, ops[..i])
    {
      SegTreeOrders.RunStep(s.h, ops, i);
      NextAny(s.h, RunAny(s.h, ops[..i]), ops[i]);
      match ops[i]
      case Grab(n) =>
        var loc := s.TakeBlock(n);
        if loc != FAILURE {
          blocks := blocks + [Block(loc, n)];
        }
      case Free(j) =>
        if j < |blocks| {
          var b := blocks[j];
          var ended := s.GiveBlock(b.n, b.loc);
          blocks := blocks[..j] + blocks[j + 1..];
        }
    }
    assert ops[..|ops|] == ops;
  }

  lemma {:induction false} StartAny(h: nat)
    ensures RunAny(h, []) == Memory(Pristine(h), [])
  {
  }

  /** One call, spelled out. */
  lemma {:induction false} NextAny(h: nat, s: Memory, op: Call)
    requires Perfect(s.now, h)
    ensures match op
            case Grab(n) =>
              if s.now.n.maxFree < n then StepAny(h, s, op) == s
              else StepAny(h, s, op) == Memory(Take(s.now, h, n).0, s.live + [Block(Take(s.now, h, n).1, n)])
            case Free(i) =>
              if i >= |s.live| then StepAny(h, s, op) == s
              else StepAny(h, s, op) == Memory(Give(s.now, h, s.live[i].n, s.live[i].loc),
                s.live[..i] + s.live[i + 1..])
  {
  }

  lemma {:induction false} RunStart(h: nat)
    ensures Run(h, []) == State([], Pristine(h), [])
  {
  }

  /** One more call of a run, spelled out. */
  lemma {:induction false} RunStep(h: nat, ops: seq<Op>, i: nat)
    requires i < |ops|
    requires forall op :: op in ops && op.TakeOp? ==> op.n > 0
    ensures var s, s' := Run(h, ops[..i]), Run(h, ops[..i + 1]);
            match ops[i]
            case TakeOp(n) =>
              if s.now.n.maxFree < n then s'.now == s.now && s'.live == s.live
              else (s'.now, s'.live) == (Take(s.now, h, n).0, s.live + [Block(Take(s.now, h, n).1, n)])
            case GiveOp =>
              if s.live == [] then s'.now == s.now && s'.live == s.live
              else var b := s.live[|s.live| - 1];
                   (s'.now, s'.live) == (Give(s.now, h, b.n, b.loc), s.live[..|s.live| - 1])
  {
    assert ops[..i + 1][..i] == ops[..i];
  }
}
