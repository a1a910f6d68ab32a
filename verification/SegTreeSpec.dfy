/** The block allocator's segment tree as a value: taking, giving back, and what the summaries mean. */
module SegTreeSpec {
  import opened Arith

  /** Free cells at the left end, and the longest free prefix of any aligned interval below. */
  datatype Node = Node(leftFree: nat, maxFree: nat)

  datatype Tree = Leaf(n: Node) | Branch(n: Node, l: Tree, r: Tree)

  function Rebuild(len: nat, left: Node, right: Node): Node {
    if left.leftFree == len / 2 then Node(len / 2 + right.leftFree, len / 2 + right.leftFree)
    else Node(left.leftFree, Max(left.maxFree, right.maxFree))
  }

  /** The summary of an interval that is free (kind) or used (!kind) as a whole. */
  function Whole(kind: bool, len: nat): Node {
    if kind then Node(len, len) else Node(0, 0)
  }

  predicate Perfect(t: Tree, h: nat) {
    if h == 0 then t.Leaf? else t.Branch? && Perfect(t.l, h - 1) && Perfect(t.r, h - 1)
  }

  function Stamp(t: Tree, h: nat, n: Node): (t': Tree)
    requires Perfect(t, h)
    ensures Perfect(t', h)
  {
    t.(n := n)
  }

  // ---- The operations ----

  /** `modify`: the first n cells become free or used; whole left halves are only marked at their top. */
  function Modify(t: Tree, kind: bool, h: nat, n: nat): (t': Tree)
    requires Perfect(t, h)
    ensures Perfect(t', h)
  {
    if h == 0 then if n > 0 then Leaf(Whole(kind, 1)) else t
    else
      var half := Pow2(h - 1);
      var l := if n >= half then Stamp(t.l, h - 1, Whole(kind, half)) else Modify(t.l, kind, h - 1, n);
      var r := if n >= half then Modify(t.r, kind, h - 1, n - half) else t.r;
      Branch(Rebuild(Pow2(h), l.n, r.n), l, r)
  }

  /** `take`: the new tree and the location. */
  function Take(t: Tree, h: nat, n: nat): (r: (Tree, nat))
    requires Perfect(t, h)
    ensures Perfect(r.0, h)
  {
    if t.n.leftFree >= n || h == 0 then (Modify(t, false, h, n), 0)
    else if t.l.n.maxFree >= n then
      var (l, loc) := Take(t.l, h - 1, n);
      (Branch(Rebuild(Pow2(h), l.n, t.r.n), l, t.r), loc)
    else
      var (r, loc) := Take(t.r, h - 1, n);
      (Branch(Rebuild(Pow2(h), t.l.n, r.n), t.l, r), Pow2(h - 1) + loc)
  }

  /** `give`: frees n cells from `loc` on. */
  function Give(t: Tree, h: nat, n: nat, loc: nat): (t': Tree)
    requires Perfect(t, h)
    ensures Perfect(t', h)
  {
    if loc == 0 || h == 0 then Modify(t, true, h, n)
    else if loc >= Pow2(h - 1) then
      var r := Give(t.r, h - 1, n, loc - Pow2(h - 1));
      Branch(Rebuild(Pow2(h), t.l.n, r.n), t.l, r)
    else
      var l := Give(t.l, h - 1, n, loc);
      Branch(Rebuild(Pow2(h), l.n, t.r.n), l, t.r)
  }

  // ---- The invariant ----

  function Pristine(h: nat): (t: Tree)
    ensures Perfect(t, h) && t.n == Node(Pow2(h), Pow2(h))
  {
    if h == 0 then Leaf(Node(1, 1)) else Branch(Node(Pow2(h), Pow2(h)), Pristine(h - 1), Pristine(h - 1))
  }

  /** Used as a whole, with the mark only at the top: everything below is stale and still says free. */
  function Marked(h: nat): (t: Tree)
    ensures Perfect(t, h) && t.n == Node(0, 0)
  {
    Stamp(Pristine(h), h, Node(0, 0))
  }

  /** Stale nodes lie exactly below a mark, and every other node is the rebuild of its children. */
  ghost predicate Sane(t: Tree, h: nat)
    decreases h, 1
  {
    || t == Pristine(h)
    || t == Marked(h)
    || Parted(t, h)
  }

  ghost predicate Parted(t: Tree, h: nat)
    decreases h, 0
  {
    && h > 0 && t.Branch? && Sane(t.l, h - 1) && Sane(t.r, h - 1)
    && t.n == Rebuild(Pow2(h), t.l.n, t.r.n)
  }

  /** The states that takes lead to: moreover, a right half is only in use when the left half is too. */
  ghost predicate Wf(t: Tree, h: nat)
    decreases h, 1
  {
    || t == Pristine(h)
    || t == Marked(h)
    || Split(t, h)
  }

  ghost predicate Split(t: Tree, h: nat)
    decreases h, 0
  {
    && h > 0 && t.Branch? && Wf(t.l, h - 1) && Wf(t.r, h - 1)
    && t.n == Rebuild(Pow2(h), t.l.n, t.r.n)
    && (t.l == Pristine(h - 1) ==> t.r == Pristine(h - 1))
  }

  lemma {:induction false} PristineSplit(h: nat)
    requires h > 0
    ensures Split(Pristine(h), h)
  {
  }

  lemma {:induction false} PristineParted(h: nat)
    requires h > 0
    ensures Parted(Pristine(h), h)
  {
  }

  lemma {:induction false} WfIsSane(t: Tree, h: nat)
    requires Wf(t, h)
    ensures Sane(t, h) && (Split(t, h) ==> Parted(t, h))
  {
    if Split(t, h) {
      WfIsSane(t.l, h - 1);
      WfIsSane(t.r, h - 1);
    }
  }

  lemma {:induction false} SaneBounds(t: Tree, h: nat)
    requires Sane(t, h)
    ensures t.n.leftFree <= t.n.maxFree <= Pow2(h)
    ensures t.n.leftFree == Pow2(h) ==> t == Pristine(h)
  {
    if t != Pristine(h) && t != Marked(h) {
      SaneBounds(t.l, h - 1);
      SaneBounds(t.r, h - 1);
    }
  }

  lemma {:induction false} WfBounds(t: Tree, h: nat)
    requires Wf(t, h)
    ensures t.n.leftFree <= t.n.maxFree <= Pow2(h)
    ensures t.n.leftFree == Pow2(h) ==> t == Pristine(h)
  {
    WfIsSane(t, h);
    SaneBounds(t, h);
  }

  /** Every node is marked as a whole or is the rebuild of its children: what any calls in any order keep. */
  ghost predicate Coherent(t: Tree, h: nat)
    requires Perfect(t, h)
    decreases h
  {
    && (t.n == Whole(true, Pow2(h)) || t.n == Whole(false, Pow2(h)) || (h > 0 && t.n == Rebuild(Pow2(h), t.l.n, t.r.n)))
    && (h > 0 ==> Coherent(t.l, h - 1) && Coherent(t.r, h - 1))
  }

  lemma {:induction false} SaneIsCoherent(t: Tree, h: nat)
    requires Sane(t, h) && Perfect(t, h)
    ensures Coherent(t, h)
  {
    if h > 0 {
      SaneIsCoherent(t.l, h - 1);
      SaneIsCoherent(t.r, h - 1);
    }
  }

  lemma {:induction false} ModifyKeepsCoherent(t: Tree, kind: bool, h: nat, n: nat)
    requires Perfect(t, h) && Coherent(t, h)
    ensures Coherent(Modify(t, kind, h, n), h)
  {
    if h > 0 {
      if n >= Pow2(h - 1) {
        ModifyKeepsCoherent(t.r, kind, h - 1, n - Pow2(h - 1));
      } else {
        ModifyKeepsCoherent(t.l, kind, h - 1, n);
      }
    }
  }

  /** A node that does not fit itself although its second summary does has a half that fits. */
  lemma {:induction false} CoherentFit(t: Tree, h: nat, n: nat)
    requires Perfect(t, h) && Coherent(t, h) && t.n.leftFree < n <= t.n.maxFree
    ensures h > 0 && Coherent(t.l, h - 1) && Coherent(t.r, h - 1) && (t.l.n.maxFree >= n || t.r.n.maxFree >= n)
  {
  }

  /** The summaries never exceed the interval, so that they fit their 32 bits. */
  lemma {:induction false} CoherentBounds(t: Tree, h: nat)
    requires Perfect(t, h) && Coherent(t, h)
    ensures t.n.leftFree <= t.n.maxFree <= Pow2(h)
  {
    if h > 0 {
      CoherentBounds(t.l, h - 1);
      CoherentBounds(t.r, h - 1);
    }
  }

  /** Any request that the root admits is answered with a place inside, whatever calls came before. */
  lemma {:induction false} TakeKeepsCoherent(t: Tree, h: nat, n: nat)
    requires Perfect(t, h) && Coherent(t, h) && n <= t.n.maxFree
    ensures Coherent(Take(t, h, n).0, h) && Take(t, h, n).1 < Pow2(h)
  {
    if t.n.leftFree >= n {
      ModifyKeepsCoherent(t, false, h, n);
    } else {
      CoherentFit(t, h, n);
      TakeKeepsCoherent(if t.l.n.maxFree >= n then t.l else t.r, h - 1, n);
    }
  }

  lemma {:induction false} GiveKeepsCoherent(t: Tree, h: nat, n: nat, loc: nat)
    requires Perfect(t, h) && Coherent(t, h)
    ensures Coherent(Give(t, h, n, loc), h)
  {
    if loc == 0 || h == 0 {
      ModifyKeepsCoherent(t, true, h, n);
    } else if loc >= Pow2(h - 1) {
      GiveKeepsCoherent(t.r, h - 1, n, loc - Pow2(h - 1));
    } else {
      GiveKeepsCoherent(t.l, h - 1, n, loc);
    }
  }

  /** Cell k is free: no summary on the way down says that nothing is. */
  predicate IsFree(t: Tree, h: nat, k: nat)
    requires Perfect(t, h)
  {
    if t.n.maxFree == 0 then false
    else if h == 0 then true
    else if k < Pow2(h - 1) then IsFree(t.l, h - 1, k)
    else IsFree(t.r, h - 1, k - Pow2(h - 1))
  }

  /** The first n cells are free, as far as there are that many. */
  ghost predicate FreePrefix(t: Tree, h: nat, n: nat)
    requires Perfect(t, h)
  {
    n <= Pow2(h) && forall k: nat :: k < n ==> IsFree(t, h, k)
  }

  lemma {:induction false} PristineIsFree(h: nat, k: nat)
    ensures IsFree(Pristine(h), h, k)
  {
    if h > 0 {
      PristineIsFree(h - 1, if k < Pow2(h - 1) then k else k - Pow2(h - 1));
    }
  }

  /** leftFree is the length of the longest free prefix. */
  lemma {:induction false} LeftFreeMeaning(t: Tree, h: nat)
    requires Sane(t, h) && Perfect(t, h)
    ensures t.n.leftFree <= Pow2(h)
    ensures forall k: nat :: k < t.n.leftFree ==> IsFree(t, h, k)
    ensures t.n.leftFree < Pow2(h) ==> !IsFree(t, h, t.n.leftFree)
  {
    SaneBounds(t, h);
    if t == Pristine(h) {
      forall k: nat
        ensures IsFree(t, h, k)
      {
        PristineIsFree(h, k);
      }
    } else if t != Marked(h) {
      LeftFreeMeaning(t.l, h - 1);
      LeftFreeMeaning(t.r, h - 1);
      SaneBounds(t.l, h - 1);
      SaneBounds(t.r, h - 1);
    }
  }

  lemma {:induction false} LeftFreeIsPrefix(t: Tree, h: nat, n: nat)
    requires Sane(t, h) && Perfect(t, h)
    ensures n <= t.n.leftFree <==> FreePrefix(t, h, n)
  {
    LeftFreeMeaning(t, h);
  }

  /** Cells of a rebuilt node are the cells of its halves. */
  lemma {:induction false} CellOfHalf(t: Tree, h: nat, k: nat)
    requires h > 0 && Perfect(t, h) && t.n == Rebuild(Pow2(h), t.l.n, t.r.n)
    ensures IsFree(t, h, k) == if k < Pow2(h - 1) then IsFree(t.l, h - 1, k) else IsFree(t.r, h - 1, k - Pow2(h - 1))
  {
  }

  ghost predicate FreeRun(t: Tree, h: nat, lo: nat, n: nat)
    requires Perfect(t, h)
  {
    forall k: nat {:trigger IsFree(t, h, k)} :: lo <= k < lo + n ==> IsFree(t, h, k)
  }

  /** Some interval of the halving hierarchy below [lo, lo + 2^level) starts with n free cells. */
  ghost predicate AlignedFit(t: Tree, h: nat, n: nat, lo: nat, level: nat)
    requires Perfect(t, h)
    decreases level
  {
    || (n <= Pow2(level) && FreeRun(t, h, lo, n))
    || (level > 0 && (AlignedFit(t, h, n, lo, level - 1) || AlignedFit(t, h, n, lo + Pow2(level - 1), level - 1)))
  }

  lemma {:induction false} RunOfHalf(t: Tree, h: nat, lo: nat, n: nat)
    requires Parted(t, h) && Perfect(t, h)
    ensures lo + n <= Pow2(h - 1) ==> FreeRun(t, h, lo, n) == FreeRun(t.l, h - 1, lo, n)
    ensures Pow2(h - 1) <= lo ==> FreeRun(t, h, lo, n) == FreeRun(t.r, h - 1, lo - Pow2(h - 1), n)
  {
    var half := Pow2(h - 1);
    forall k: nat {:trigger IsFree(t, h, k)}
      ensures k < half ==> IsFree(t, h, k) == IsFree(t.l, h - 1, k)
      ensures half <= k ==> IsFree(t, h, k) == IsFree(t.r, h - 1, k - half)
    {
      CellOfHalf(t, h, k);
    }
    if lo + n <= half && FreeRun(t, h, lo, n) {
      forall k: nat {:trigger IsFree(t.l, h - 1, k)} | lo <= k < lo + n
        ensures IsFree(t.l, h - 1, k)
      {
        assert IsFree(t, h, k);
      }
    }
    if half <= lo && FreeRun(t, h, lo, n) {
      forall k: nat {:trigger IsFree(t.r, h - 1, k)} | lo - half <= k < lo - half + n
        ensures IsFree(t.r, h - 1, k)
      {
        assert IsFree(t, h, k + half);
      }
    }
  }

  lemma {:induction false} FitOfHalf(t: Tree, h: nat, n: nat, lo: nat, level: nat)
    requires Parted(t, h) && Perfect(t, h) && n > 0
    requires lo + Pow2(level) <= Pow2(h - 1) || Pow2(h - 1) <= lo
    ensures AlignedFit(t, h, n, lo, level) ==
            if lo < Pow2(h - 1) then AlignedFit(t.l, h - 1, n, lo, level)
            else AlignedFit(t.r, h - 1, n, lo - Pow2(h - 1), level)
    decreases level
  {
    RunOfHalf(t, h, lo, n);
    if level > 0 {
      FitOfHalf(t, h, n, lo, level - 1);
      FitOfHalf(t, h, n, lo + Pow2(level - 1), level - 1);
    }
  }

  lemma {:induction false} NoFitWhenUsed(t: Tree, h: nat, n: nat, lo: nat, level: nat)
    requires Perfect(t, h) && n > 0 && t.n.maxFree == 0
    ensures !AlignedFit(t, h, n, lo, level)
    decreases level
  {
    assert !IsFree(t, h, lo);
    if level > 0 {
      NoFitWhenUsed(t, h, n, lo, level - 1);
      NoFitWhenUsed(t, h, n, lo + Pow2(level - 1), level - 1);
    }
  }

  /** maxFree is at least n exactly when some aligned interval starts with n free cells. */
  lemma {:induction false} MaxFreeMeaning(t: Tree, h: nat, n: nat)
    requires Sane(t, h) && Perfect(t, h) && n > 0
    ensures n <= t.n.maxFree <==> AlignedFit(t, h, n, 0, h)
  {
    LeftFreeIsPrefix(t, h, n);
    SaneBounds(t, h);
    if t == Marked(h) {
      NoFitWhenUsed(t, h, n, 0, h);
    } else if h > 0 {
      if t == Pristine(h) {
        PristineParted(h);
      }
      MaxFreeMeaning(t.l, h - 1, n);
      MaxFreeMeaning(t.r, h - 1, n);
      FitOfHalf(t, h, n, 0, h - 1);
      FitOfHalf(t, h, n, Pow2(h - 1), h - 1);
      SaneBounds(t.l, h - 1);
      SaneBounds(t.r, h - 1);
    }
  }

  // ---- Marking a prefix ----

  /** With nothing left to mark the walk rebuilds the left spine, which changes nothing in an untouched tree. */
  lemma {:induction false} ModifyNothing(kind: bool, h: nat)
    ensures Modify(Pristine(h), kind, h, 0) == Pristine(h)
  {
    if h > 0 {
      ModifyNothing(kind, h - 1);
      var p, q := Pristine(h), Pristine(h - 1);
      assert p == Branch(Node(Pow2(h), Pow2(h)), q, q);
      hide Pristine, Perfect;
      assert Modify(p, kind, h, 0) == Branch(Rebuild(Pow2(h), q.n, q.n), q, q);
    }
  }

  /** Where a free prefix of n cells lies in the halves. */
  lemma {:induction false} PrefixInHalves(t: Tree, h: nat, n: nat)
    requires Wf(t, h) && Perfect(t, h) && 0 < n <= t.n.leftFree && h > 0
    ensures Split(t, h)
    ensures n >= Pow2(h - 1) ==> t.l == Pristine(h - 1) && t.r == Pristine(h - 1) && n - Pow2(h - 1) <= t.r.n.leftFree
    ensures n < Pow2(h - 1) ==> n <= t.l.n.leftFree
  {
    if t == Pristine(h) {
      PristineSplit(h);
    }
    WfBounds(t, h);
    WfBounds(t.l, h - 1);
  }

  lemma {:induction false} ModifyKeepsWf(t: Tree, h: nat, n: nat)
    requires Wf(t, h) && Perfect(t, h) && 0 < n <= t.n.leftFree
    ensures Wf(Modify(t, false, h, n), h) && Modify(t, false, h, n) != Pristine(h)
  {
    if h > 0 {
      PrefixInHalves(t, h, n);
      var half, t' := Pow2(h - 1), Modify(t, false, h, n);
      if n > half {
        ModifyKeepsWf(t.r, h - 1, n - half);
      } else if n == half {
        ModifyNothing(false, h - 1);
      } else {
        ModifyKeepsWf(t.l, h - 1, n);
      }
      assert n >= half ==> t'.l == Marked(h - 1);
      hide Modify;
      assert Split(t', h);
    }
  }

  /** Marking the same prefix free again restores every summary, the stale ones included. */
  lemma {:induction false} ModifyUndone(t: Tree, h: nat, n: nat)
    requires Wf(t, h) && Perfect(t, h) && n <= t.n.leftFree && (n == 0 ==> t == Pristine(h))
    ensures Modify(Modify(t, false, h, n), true, h, n) == t
  {
    WfBounds(t, h);
    if n == 0 {
      ModifyNothing(false, h);
      ModifyNothing(true, h);
    } else if h > 0 {
      if t == Pristine(h) {
        PristineSplit(h);
      }
      WfBounds(t.l, h - 1);
      if n >= Pow2(h - 1) {
        ModifyUndone(t.r, h - 1, n - Pow2(h - 1));
      } else {
        ModifyUndone(t.l, h - 1, n);
      }
    }
  }

  // ---- Take and give ----

  /** A node that does not fit itself has a half that does. */
  lemma {:induction false} DescendIntoHalf(t: Tree, h: nat, n: nat)
    requires Wf(t, h) && Perfect(t, h) && t.n.leftFree < n <= t.n.maxFree
    ensures Split(t, h) && (t.l.n.maxFree >= n || t.r.n.maxFree >= n)
    ensures t.l.n.leftFree <= t.l.n.maxFree <= Pow2(h - 1) && t.r.n.leftFree <= t.r.n.maxFree <= Pow2(h - 1)
    ensures t.l != Pristine(h - 1)
  {
    WfBounds(t.l, h - 1);
    WfBounds(t.r, h - 1);
  }

  /** The place found holds n free cells. */
  lemma {:induction false} TakePlace(t: Tree, h: nat, n: nat)
    requires Sane(t, h) && Perfect(t, h) && 0 < n <= t.n.maxFree
    ensures var loc := Take(t, h, n).1;
            loc + n <= Pow2(h) && FreeRun(t, h, loc, n) && (n > t.n.leftFree ==> 0 < loc)
  {
    SaneBounds(t, h);
    if t.n.leftFree >= n || h == 0 {
      LeftFreeMeaning(t, h);
    } else {
      FitInHalf(t, h, n);
      var half, loc := Pow2(h - 1), Take(t, h, n).1;
      TakePlace(if t.l.n.maxFree >= n then t.l else t.r, h - 1, n);
      hide Sane, Parted;
      RunOfHalf(t, h, loc, n);
    }
  }

  /** A node that does not fit itself has a half that does. */
  lemma {:induction false} FitInHalf(t: Tree, h: nat, n: nat)
    requires Sane(t, h) && Perfect(t, h) && t.n.leftFree < n <= t.n.maxFree
    ensures Parted(t, h) && (t.l.n.maxFree >= n || t.r.n.maxFree >= n)
    ensures t.l.n.leftFree <= t.l.n.maxFree <= Pow2(h - 1) && t.r.n.leftFree <= t.r.n.maxFree <= Pow2(h - 1)
    ensures t.l.n.maxFree >= n ==> t.l.n.leftFree < n
  {
    SaneBounds(t.l, h - 1);
    SaneBounds(t.r, h - 1);
  }

  // ---- The place found is the first one ----

  /** An aligned interval of at least n cells begins at `at`, and its first n cells are free. */
  ghost predicate Offers(t: Tree, h: nat, n: nat, at: nat)
    requires Perfect(t, h)
  {
    && FreeRun(t, h, at, n)
    && exists g: nat :: Aligned(at, g) && n <= Pow2(g) && at + Pow2(g) <= Pow2(h)
  }

  ghost predicate NoOffers(t: Tree, h: nat, n: nat)
    requires Perfect(t, h)
  {
    forall at: nat :: !Offers(t, h, n, at)
  }

  ghost predicate FirstOffer(t: Tree, h: nat, n: nat, loc: nat)
    requires Perfect(t, h)
  {
    Offers(t, h, n, loc) && forall at: nat :: at < loc ==> !Offers(t, h, n, at)
  }

  lemma {:induction false} PowerAligned(k: nat, g: nat)
    requires g <= k
    ensures Aligned(Pow2(k), g) && Aligned(0, g)
  {
    if g < k {
      PowerAligned(k - 1, g);
      AlignedSum(Pow2(k - 1), Pow2(k - 1), g);
    }
  }

  /** An interval that begins in a half lies in it, unless it is the whole. */
  lemma {:induction false} IntervalInHalf(h: nat, at: nat, g: nat)
    requires h > 0 && Aligned(at, g) && at + Pow2(g) <= Pow2(h)
    ensures g == h ==> at == 0
    ensures g <= h
    ensures g < h && at < Pow2(h - 1) ==> at + Pow2(g) <= Pow2(h - 1)
    ensures g < h && at >= Pow2(h - 1) ==> Aligned(at - Pow2(h - 1), g)
  {
    if g > h {
      Pow2Monotonic(h + 1, g);
    } else if g < h {
      PowerAligned(h - 1, g);
      if at < Pow2(h - 1) {
        AlignedApart(at, Pow2(h - 1), g);
      } else {
        AlignedSum(Pow2(h - 1), at - Pow2(h - 1), g);
      }
    }
  }

  lemma {:induction false} OfferInHalf(t: Tree, h: nat, n: nat, at: nat)
    requires Parted(t, h) && Perfect(t, h) && Sane(t, h) && t.n.leftFree < n
    ensures Offers(t, h, n, at) <==>
            if at < Pow2(h - 1) then Offers(t.l, h - 1, n, at) else Offers(t.r, h - 1, n, at - Pow2(h - 1))
  {
    var half := Pow2(h - 1);
    RunOfHalf(t, h, at, n);
    LeftFreeIsPrefix(t, h, n);
    hide Sane, Parted, IsFree, Aligned;
    if Offers(t, h, n, at) {
      var g: nat :| Aligned(at, g) && n <= Pow2(g) && at + Pow2(g) <= Pow2(h);
      IntervalInHalf(h, at, g);
    }
    if at < half && Offers(t.l, h - 1, n, at) {
      var g: nat :| Aligned(at, g) && n <= Pow2(g) && at + Pow2(g) <= half;
    }
    if at >= half && Offers(t.r, h - 1, n, at - half) {
      var g: nat :| Aligned(at - half, g) && n <= Pow2(g) && at - half + Pow2(g) <= half;
      if g >= h {
        Pow2Monotonic(h, g);
      }
      PowerAligned(h - 1, g);
      AlignedSum(half, at - half, g);
    }
  }

  lemma {:induction false} FirstInHalf(t: Tree, h: nat, n: nat, left: bool, loc: nat)
    requires h > 0 && Parted(t, h) && Perfect(t, h) && Sane(t, h) && t.n.leftFree < n
    requires if left then FirstOffer(t.l, h - 1, n, loc) && loc < Pow2(h - 1)
             else FirstOffer(t.r, h - 1, n, loc) && NoOffers(t.l, h - 1, n)
    ensures FirstOffer(t, h, n, if left then loc else Pow2(h - 1) + loc)
  {
    hide Sane, Parted, Offers;
    forall at: nat
      ensures Offers(t, h, n, at) <==>
              if at < Pow2(h - 1) then Offers(t.l, h - 1, n, at) else Offers(t.r, h - 1, n, at - Pow2(h - 1))
    {
      OfferInHalf(t, h, n, at);
    }
  }

  /** Of all places that fit, the first one is answered. */
  lemma {:induction false} TakeIsLeftmost(t: Tree, h: nat, n: nat)
    requires Sane(t, h) && Perfect(t, h) && 0 < n <= t.n.maxFree
    ensures FirstOffer(t, h, n, Take(t, h, n).1)
  {
    hide Sane, Parted, Offers;
    if t.n.leftFree >= n || h == 0 {
      OfferAtStart(t, h, n);
    } else {
      FitInHalf(t, h, n);
      hide FirstOffer;
      if t.l.n.maxFree >= n {
        TakeIsLeftmost(t.l, h - 1, n);
        TakePlace(t.l, h - 1, n);
        FirstInHalf(t, h, n, true, Take(t.l, h - 1, n).1);
      } else {
        TakeIsLeftmost(t.r, h - 1, n);
        NoOffer(t.l, h - 1, n);
        FirstInHalf(t, h, n, false, Take(t.r, h - 1, n).1);
      }
    }
  }

  lemma {:induction false} OfferAtStart(t: Tree, h: nat, n: nat)
    requires Sane(t, h) && Perfect(t, h) && 0 < n <= t.n.maxFree && (t.n.leftFree >= n || h == 0)
    ensures Offers(t, h, n, 0)
  {
    SaneBounds(t, h);
    LeftFreeMeaning(t, h);
    PowerAligned(h, h);
  }

  lemma {:induction false} NoOffer(t: Tree, h: nat, n: nat)
    requires Sane(t, h) && Perfect(t, h) && t.n.maxFree < n
    ensures NoOffers(t, h, n)
  {
    SaneBounds(t, h);
    forall at: nat
      ensures !Offers(t, h, n, at)
    {
      if t == Marked(h) {
        assert FreeRun(t, h, at, n) ==> IsFree(t, h, at);
      } else if h == 0 {
        assert FreeRun(t, h, at, n) ==> IsFree(t, h, at);
      } else {
        if t == Pristine(h) {
          PristineParted(h);
        }
        SaneBounds(t.l, h - 1);
        SaneBounds(t.r, h - 1);
        OfferInHalf(t, h, n, at);
        NoOffer(t.l, h - 1, n);
        NoOffer(t.r, h - 1, n);
      }
    }
  }

  // ---- What a take does to the cells ----

  /** From t to t' exactly the n cells from `loc` on became used. */
  ghost predicate TakesExactly(t: Tree, t': Tree, h: nat, n: nat, loc: nat)
    requires Perfect(t, h) && Perfect(t', h)
  {
    forall k: nat {:trigger IsFree(t', h, k)} ::
      k < Pow2(h) ==> (IsFree(t', h, k) <==> IsFree(t, h, k) && !(loc <= k < loc + n))
  }

  /** A node on the left spine, above the leaves, is used as a whole. */
  ghost predicate SpineMarked(t: Tree, h: nat)
    requires Perfect(t, h)
  {
    h > 0 && (t == Marked(h) || SpineMarked(t.l, h - 1))
  }

  /** The walk that is left when the first n cells are marked runs through a node that another block marked. */
  ghost predicate TailMarked(t: Tree, h: nat, n: nat)
    requires Perfect(t, h)
  {
    if n == 0 then SpineMarked(t, h)
    else h > 0 && if n >= Pow2(h - 1) then TailMarked(t.r, h - 1, n - Pow2(h - 1)) else TailMarked(t.l, h - 1, n)
  }

  /** The same for the cells that a take marks. */
  ghost predicate TakeTailMarked(t: Tree, h: nat, n: nat)
    requires Perfect(t, h)
  {
    if t.n.leftFree >= n || h == 0 then TailMarked(t, h, n)
    else TakeTailMarked(if t.l.n.maxFree >= n then t.l else t.r, h - 1, n)
  }

  /** With nothing left to mark, the walk makes the first cell of a marked spine free, and else changes nothing. */
  lemma {:induction false} ModifyNothingRevives(t: Tree, h: nat, kind: bool)
    requires Sane(t, h) && Perfect(t, h)
    ensures var t' := Modify(t, kind, h, 0);
            && Sane(t', h)
            && if SpineMarked(t, h) then IsFree(t', h, 0) && !IsFree(t, h, 0) && t'.n.leftFree > 0 else t' == t
  {
    if h > 0 {
      if t == Pristine(h) {
        ModifyNothing(kind, h);
        PristineParted(h);
        ModifyNothingRevives(t.l, h - 1, kind);
      } else if t == Marked(h) {
        ModifyNothing(kind, h - 1);
        var t' := Modify(t, kind, h, 0);
        assert t' == Pristine(h);
        PristineIsFree(h, 0);
      } else {
        var t' := Modify(t, kind, h, 0);
        ModifyNothingRevives(t.l, h - 1, kind);
        assert Parted(t', h);
        CellOfHalf(t', h, 0);
        CellOfHalf(t, h, 0);
      }
    }
  }

  /** A change in one half of a rebuilt node, seen from the node. */
  lemma {:induction false} TakesInHalf(t: Tree, t': Tree, h: nat, n: nat, loc: nat, right: bool, m: nat, part: nat)
    requires h > 0 && Perfect(t, h) && Perfect(t', h)
    requires t.n == Rebuild(Pow2(h), t.l.n, t.r.n) && t'.n == Rebuild(Pow2(h), t'.l.n, t'.r.n)
    requires if right
             then || (loc == Pow2(h - 1) + m && n == part && t'.l == t.l)
                  || (loc == m == 0 && n == Pow2(h - 1) + part && t.l == Pristine(h - 1) && t'.l.n.maxFree == 0)
             else loc == m && n == part && loc + n <= Pow2(h - 1) && t'.r == t.r
    ensures TakesExactly(t, t', h, n, loc) <==>
            if right then TakesExactly(t.r, t'.r, h - 1, part, m) else TakesExactly(t.l, t'.l, h - 1, part, m)
  {
    var half := Pow2(h - 1);
    forall k: nat {:trigger IsFree(t', h, k)}
      ensures IsFree(t', h, k) == if k < half then IsFree(t'.l, h - 1, k) else IsFree(t'.r, h - 1, k - half)
      ensures IsFree(t, h, k) == if k < half then IsFree(t.l, h - 1, k) else IsFree(t.r, h - 1, k - half)
      ensures IsFree(Pristine(h - 1), h - 1, k)
      ensures t'.l.n.maxFree == 0 ==> !IsFree(t'.l, h - 1, k)
    {
      CellOfHalf(t', h, k);
      CellOfHalf(t, h, k);
      PristineIsFree(h - 1, k);
    }
    if TakesExactly(t, t', h, n, loc) {
      forall k: nat {:trigger IsFree(t'.r, h - 1, k)} | right && k < half
        ensures IsFree(t'.r, h - 1, k) <==> IsFree(t.r, h - 1, k) && !(m <= k < m + part)
      {
        assert IsFree(t', h, k + half) == IsFree(t'.r, h - 1, k);
      }
      forall k: nat {:trigger IsFree(t'.l, h - 1, k)} | !right && k < half
        ensures IsFree(t'.l, h - 1, k) <==> IsFree(t.l, h - 1, k) && !(m <= k < m + part)
      {
        assert IsFree(t', h, k) == IsFree(t'.l, h - 1, k);
      }
    }
  }

  /** Where a free prefix of n cells lies in the halves. */
  lemma {:induction false} SanePrefixInHalves(t: Tree, h: nat, n: nat)
    requires Sane(t, h) && Perfect(t, h) && 0 < n <= t.n.leftFree && h > 0
    ensures Parted(t, h)
    ensures n >= Pow2(h - 1) ==> t.l == Pristine(h - 1) && n - Pow2(h - 1) <= t.r.n.leftFree
    ensures n < Pow2(h - 1) ==> n <= t.l.n.leftFree
  {
    if t == Pristine(h) {
      PristineParted(h);
    }
    SaneBounds(t, h);
    SaneBounds(t.l, h - 1);
  }

  /** Using up a free prefix takes exactly its cells if and only if the rest of the walk meets no other mark. */
  lemma {:induction false} ModifyTakes(t: Tree, h: nat, n: nat)
    requires Sane(t, h) && Perfect(t, h) && 0 < n <= t.n.leftFree
    ensures Sane(Modify(t, false, h, n), h)
    ensures TakesExactly(t, Modify(t, false, h, n), h, n, 0) <==> !TailMarked(t, h, n)
  {
    SaneBounds(t, h);
    if h > 0 {
      SanePrefixInHalves(t, h, n);
      var half, t' := Pow2(h - 1), Modify(t, false, h, n);
      if n > half {
        ModifyTakes(t.r, h - 1, n - half);
      } else if n == half {
        NothingTakes(t.r, h - 1);
      } else {
        ModifyTakes(t.l, h - 1, n);
      }
      assert n >= half ==> t'.l == Marked(h - 1);
      assert Parted(t', h);
      hide Modify, Sane, Pristine, Rebuild, TakesExactly;
      TakesInHalf(t, t', h, n, 0, n >= half, 0, if n >= half then n - half else n);
    }
  }

  lemma {:induction false} NothingTakes(t: Tree, h: nat)
    requires Sane(t, h) && Perfect(t, h)
    ensures Sane(Modify(t, false, h, 0), h)
    ensures TakesExactly(t, Modify(t, false, h, 0), h, 0, 0) <==> !SpineMarked(t, h)
  {
    ModifyNothingRevives(t, h, false);
    if SpineMarked(t, h) {
      assert IsFree(Modify(t, false, h, 0), h, 0) && !IsFree(t, h, 0);
    }
  }

  /** A fitting request takes exactly the cells it answers if and only if the rest of its walk meets no other mark. */
  lemma {:induction false} TakeIsExact(t: Tree, h: nat, n: nat)
    requires Sane(t, h) && Perfect(t, h) && 0 < n <= t.n.maxFree
    ensures var (t', loc) := Take(t, h, n);
            Sane(t', h) && (TakesExactly(t, t', h, n, loc) <==> !TakeTailMarked(t, h, n))
  {
    SaneBounds(t, h);
    if t.n.leftFree >= n || h == 0 {
      ModifyTakes(t, h, n);
    } else {
      FitInHalf(t, h, n);
      var left := t.l.n.maxFree >= n;
      var c := if left then t.l else t.r;
      TakeIsExact(c, h - 1, n);
      TakePlace(c, h - 1, n);
      var (t', loc) := Take(t, h, n);
      assert Parted(t', h);
      hide Sane, Rebuild, TakesExactly;
      TakesInHalf(t, t', h, n, loc, !left, Take(c, h - 1, n).1, n);
    }
  }

  lemma {:induction false} WfNoTail(t: Tree, h: nat, n: nat)
    requires Wf(t, h) && Perfect(t, h) && 0 < n <= t.n.leftFree
    ensures !TailMarked(t, h, n)
  {
    if h > 0 {
      PrefixInHalves(t, h, n);
      if n > Pow2(h - 1) {
        WfNoTail(t.r, h - 1, n - Pow2(h - 1));
      } else if n == Pow2(h - 1) {
        PristineNoSpine(h - 1);
      } else {
        WfNoTail(t.l, h - 1, n);
      }
    }
  }

  lemma {:induction false} PristineNoSpine(h: nat)
    ensures !SpineMarked(Pristine(h), h)
  {
    if h > 0 {
      PristineNoSpine(h - 1);
    }
  }

  lemma {:induction false} TakeKeepsWf(t: Tree, h: nat, n: nat)
    requires Wf(t, h) && Perfect(t, h) && 0 < n <= t.n.maxFree
    ensures Wf(Take(t, h, n).0, h) && Take(t, h, n).0 != Pristine(h) && !TakeTailMarked(t, h, n)
  {
    WfBounds(t, h);
    if t.n.leftFree >= n || h == 0 {
      ModifyKeepsWf(t, h, n);
      WfNoTail(t, h, n);
    } else {
      DescendIntoHalf(t, h, n);
      TakeKeepsWf(if t.l.n.maxFree >= n then t.l else t.r, h - 1, n);
      var t' := Take(t, h, n).0;
      hide TakeTailMarked;
      assert Split(t', h);
    }
  }

  /** A fitting request gets n cells that were free, and exactly those become used. */
  lemma {:induction false} TakeTakes(t: Tree, h: nat, n: nat)
    requires Wf(t, h) && Perfect(t, h) && 0 < n <= t.n.maxFree
    ensures var (t', loc) := Take(t, h, n);
            && Wf(t', h) && t' != Pristine(h) && loc + n <= Pow2(h)
            && (n > t.n.leftFree ==> 0 < loc)
            && FreeRun(t, h, loc, n) && TakesExactly(t, t', h, n, loc)
  {
    TakeKeepsWf(t, h, n);
    WfIsSane(t, h);
    hide *;
    TakePlace(t, h, n);
    TakeIsExact(t, h, n);
  }

  /** Giving back the block that was just taken restores the tree as it was. */
  lemma {:induction false} GiveUndoesTake(t: Tree, h: nat, n: nat)
    requires Wf(t, h) && Perfect(t, h) && 0 < n <= t.n.maxFree
    ensures var (t', loc) := Take(t, h, n); Give(t', h, n, loc) == t
  {
    WfBounds(t, h);
    if t.n.leftFree >= n || h == 0 {
      ModifyUndone(t, h, n);
    } else {
      DescendIntoHalf(t, h, n);
      if t.l.n.maxFree >= n {
        TakeTakes(t.l, h - 1, n);
        GiveUndoesTake(t.l, h - 1, n);
      } else {
        TakeTakes(t.r, h - 1, n);
        GiveUndoesTake(t.r, h - 1, n);
      }
    }
  }

  // ---- Whole runs, the most recently taken block given back first ----

  datatype Block = Block(loc: nat, n: nat)

  ghost predicate In(b: Block, k: nat) {
    b.loc <= k < b.loc + b.n
  }

  /** The trees before each take that is still live, and the current tree at the end. */
  ghost predicate Chain(h: nat, trees: seq<Tree>, live: seq<Block>) {
    && |trees| == |live| + 1
    && (forall i :: 0 <= i < |trees| ==> Perfect(trees[i], h))
    && trees[0] == Pristine(h)
    && (forall i :: 0 <= i < |live| ==> Taken(h, trees[i], live[i], trees[i + 1]))
  }

  ghost predicate Taken(h: nat, t: Tree, b: Block, t': Tree)
    requires Perfect(t, h)
  {
    0 < b.n <= t.n.maxFree && Take(t, h, b.n) == (t', b.loc)
  }

  ghost predicate Covered(live: seq<Block>, k: nat) {
    exists i :: 0 <= i < |live| && In(live[i], k)
  }

  /** Live blocks lie inside the tree, do not overlap, and cover exactly the cells that are not free. */
  lemma {:induction false} ChainMeaning(h: nat, trees: seq<Tree>, live: seq<Block>)
    requires Chain(h, trees, live)
    ensures Wf(trees[|live|], h)
    ensures forall i :: 0 <= i < |live| ==> live[i].loc + live[i].n <= Pow2(h)
    ensures forall k: nat :: k < Pow2(h) ==> (IsFree(trees[|live|], h, k) <==> !Covered(live, k))
    ensures forall i, j, k: nat :: 0 <= i < j < |live| && In(live[i], k) ==> !In(live[j], k)
  {
    var last := |live|;
    if last == 0 {
      forall k: nat | k < Pow2(h)
        ensures IsFree(trees[last], h, k)
      {
        PristineIsFree(h, k);
      }
    } else {
      var before, b := live[..last - 1], live[last - 1];
      ChainMeaning(h, trees[..last], before);
      assert Taken(h, trees[last - 1], b, trees[last]);
      TakeTakes(trees[last - 1], h, b.n);
      forall k: nat
        ensures Covered(live, k) <==> Covered(before, k) || In(b, k)
      {
        CoveredSplit(live, k);
      }
      forall i, k: nat | 0 <= i < last - 1 && In(live[i], k)
        ensures !In(b, k)
      {
        assert before[i] == live[i];
        assert Covered(before, k);
      }
      forall i, j, k: nat | 0 <= i < j < |live| && In(live[i], k)
        ensures !In(live[j], k)
      {
        if j < last - 1 {
          assert before[i] == live[i] && before[j] == live[j];
        }
      }
    }
  }

  lemma {:induction false} CoveredSplit(live: seq<Block>, k: nat)
    requires live != []
    ensures Covered(live, k) <==> Covered(live[..|live| - 1], k) || In(live[|live| - 1], k)
  {
    var before := live[..|live| - 1];
    if Covered(before, k) {
      var i :| 0 <= i < |before| && In(before[i], k);
      assert In(live[i], k);
    }
    if Covered(live, k) {
      var i :| 0 <= i < |live| && In(live[i], k);
      assert i < |before| ==> In(before[i], k);
    }
  }

  datatype Op = TakeOp(n: nat) | GiveOp

  datatype State = State(past: seq<Tree>, now: Tree, live: seq<Block>)

  ghost predicate Reachable(h: nat, s: State) {
    Chain(h, s.past + [s.now], s.live)
  }

  /** One call: a take that may fail, or a give of the last live block. */
  function Step(h: nat, s: State, op: Op): State
    requires Perfect(s.now, h) && |s.past| == |s.live|
  {
    match op
    case TakeOp(n) =>
      if s.now.n.maxFree < n then s
      else var (t, loc) := Take(s.now, h, n); State(s.past + [s.now], t, s.live + [Block(loc, n)])
    case GiveOp =>
      if s.live == [] then s
      else
        var b := s.live[|s.live| - 1];
        State(s.past[..|s.past| - 1], Give(s.now, h, b.n, b.loc), s.live[..|s.live| - 1])
  }

  lemma {:induction false} ReachableShape(h: nat, s: State)
    requires Reachable(h, s)
    ensures Perfect(s.now, h) && |s.past| == |s.live| && Wf(s.now, h)
  {
    var trees := s.past + [s.now];
    ChainMeaning(h, trees, s.live);
    assert trees[|s.past|] == s.now;
  }

  lemma {:induction false} TakeKeepsReachable(h: nat, s: State, n: nat)
    requires Reachable(h, s) && 0 < n && Perfect(s.now, h) && n <= s.now.n.maxFree
    ensures Reachable(h, State(s.past + [s.now], Take(s.now, h, n).0, s.live + [Block(Take(s.now, h, n).1, n)]))
  {
    var (t, loc) := Take(s.now, h, n);
    var trees, trees', live' := s.past + [s.now], s.past + [s.now] + [t], s.live + [Block(loc, n)];
    forall i | 0 <= i < |live'|
      ensures Taken(h, trees'[i], live'[i], trees'[i + 1])
    {
      assert i < |s.live| ==> Taken(h, trees[i], s.live[i], trees[i + 1]);
    }
  }

  lemma {:induction false} GiveKeepsReachable(h: nat, s: State)
    requires Reachable(h, s) && Perfect(s.now, h) && |s.past| == |s.live| && s.live != []
    ensures var last := |s.live| - 1;
            && Give(s.now, h, s.live[last].n, s.live[last].loc) == s.past[last]
            && Reachable(h, State(s.past[..last], s.past[last], s.live[..last]))
  {
    var trees, last := s.past + [s.now], |s.live| - 1;
    assert Taken(h, trees[last], s.live[last], trees[last + 1]);
    assert s.past[..last] + [s.past[last]] == trees[..last + 1];
    assert Chain(h, trees[..last + 1], s.live[..last]) by {
      forall i | 0 <= i < last
        ensures Taken(h, trees[..last + 1][i], s.live[..last][i], trees[..last + 1][i + 1])
      {
        assert Taken(h, trees[i], s.live[i], trees[i + 1]);
      }
    }
    hide Take, Give, Wf;
    ChainMeaning(h, trees[..last + 1], s.live[..last]);
    GiveUndoesTake(trees[last], h, s.live[last].n);
  }

  /** Every step keeps the state reachable; a give leads back to the tree before the matching take. */
  lemma {:induction false} StepKeepsReachable(h: nat, s: State, op: Op)
    requires Reachable(h, s) && (op.TakeOp? ==> op.n > 0)
    ensures Perfect(s.now, h) && |s.past| == |s.live|
    ensures Reachable(h, Step(h, s, op))
    ensures op.GiveOp? && s.live != [] ==> Step(h, s, op).now == s.past[|s.past| - 1]
    ensures op.TakeOp? ==> (Step(h, s, op) == s <==> !AlignedFit(s.now, h, op.n, 0, h))
  {
    ReachableShape(h, s);
    hide Reachable, Take, Give, Wf, AlignedFit;
    match op
    case TakeOp(n) =>
      WfIsSane(s.now, h);
      MaxFreeMeaning(s.now, h, n);
      if s.now.n.maxFree >= n {
        TakeKeepsReachable(h, s, n);
      }
    case GiveOp =>
      if s.live != [] {
        GiveKeepsReachable(h, s);
      }
  }

  function Run(h: nat, ops: seq<Op>): (s: State)
    requires forall op :: op in ops && op.TakeOp? ==> op.n > 0
    ensures Reachable(h, s) && Perfect(s.now, h) && |s.past| == |s.live|
  {
    if ops == [] then
      assert [] + [Pristine(h)] == [Pristine(h)];
      State([], Pristine(h), [])
    else
      var s := Run(h, ops[..|ops| - 1]);
      StepKeepsReachable(h, s, ops[|ops| - 1]);
      ReachableShape(h, Step(h, s, ops[|ops| - 1]));
      Step(h, s, ops[|ops| - 1])
  }

  /** Safety over every run with gives in stack order. */
  lemma {:induction false} RunIsSafe(h: nat, ops: seq<Op>)
    requires forall op :: op in ops && op.TakeOp? ==> op.n > 0
    ensures var s := Run(h, ops);
            && (forall i :: 0 <= i < |s.live| ==> s.live[i].loc + s.live[i].n <= Pow2(h))
            && (forall i, j, k: nat :: 0 <= i < j < |s.live| && In(s.live[i], k) ==> !In(s.live[j], k))
            && (forall k: nat :: k < Pow2(h) ==> (IsFree(s.now, h, k) <==> !Covered(s.live, k)))
            && (s.live == [] ==> s.now == Pristine(h))
  {
    var s := Run(h, ops);
    ChainMeaning(h, s.past + [s.now], s.live);
  }

  // ---- What stack order and positive lengths are needed for ----

  /** A request for no cells leaves the tree alone exactly when no inner node of the left spine carries a mark. */
  lemma {:induction false} TakeNothing(t: Tree, h: nat)
    requires Sane(t, h) && Perfect(t, h)
    ensures Take(t, h, 0) == (t, 0) <==> !SpineMarked(t, h)
  {
    ModifyNothingRevives(t, h, false);
    assert Take(t, h, 0) == (Modify(t, false, h, 0), 0);
  }
}
