/** The allocator's blocks given back in any order: how long that goes well, and exactly when it stops. */
module SegTreeOrders {
  import opened Arith
  import opened SegTreeSpec

  // ---- The marks of a block ----

  /** The first n cells carry the marks of one take from this node. */
  ghost predicate PrefixTaken(t: Tree, h: nat, n: nat)
    decreases h
  {
    || n == 0
    || (h == 0 && t == Marked(0))
    || (h > 0 && Parted(t, h) &&
        if n >= Pow2(h - 1) then t.l == Marked(h - 1) && PrefixTaken(t.r, h - 1, n - Pow2(h - 1))
        else PrefixTaken(t.l, h - 1, n))
  }

  /** The n cells from `loc` on carry the marks of one take. */
  ghost predicate BlockTaken(t: Tree, h: nat, n: nat, loc: nat)
    decreases h
  {
    if loc == 0 then PrefixTaken(t, h, n)
    else if h == 0 || !Parted(t, h) then false
    else if loc >= Pow2(h - 1) then BlockTaken(t.r, h - 1, n, loc - Pow2(h - 1))
    else BlockTaken(t.l, h - 1, n, loc)
  }

  lemma {:induction false} ModifyMarksPrefix(t: Tree, h: nat, n: nat)
    requires Sane(t, h) && Perfect(t, h) && 0 < n <= t.n.leftFree
    ensures PrefixTaken(Modify(t, false, h, n), h, n)
  {
    SaneBounds(t, h);
    ModifyTakes(t, h, n);
    if h > 0 {
      SanePrefixInHalves(t, h, n);
      var half, t' := Pow2(h - 1), Modify(t, false, h, n);
      if n > half {
        ModifyMarksPrefix(t.r, h - 1, n - half);
        ModifyTakes(t.r, h - 1, n - half);
      } else if n == half {
        ModifyNothingRevives(t.r, h - 1, false);
      } else {
        ModifyMarksPrefix(t.l, h - 1, n);
        ModifyTakes(t.l, h - 1, n);
      }
      assert n >= half ==> t'.l == Marked(h - 1);
      assert Parted(t', h);
    }
  }

  /** A take leaves its marks, however the blocks before it were given back. */
  lemma {:induction false} TakeMarksBlock(t: Tree, h: nat, n: nat)
    requires Sane(t, h) && Perfect(t, h) && 0 < n <= t.n.maxFree
    ensures var (t', loc) := Take(t, h, n); BlockTaken(t', h, n, loc) && BlockInside(h, n, loc)
  {
    SaneBounds(t, h);
    if t.n.leftFree >= n || h == 0 {
      ModifyMarksPrefix(t, h, n);
    } else {
      FitInHalf(t, h, n);
      var half, left := Pow2(h - 1), t.l.n.maxFree >= n;
      var c := if left then t.l else t.r;
      TakeMarksBlock(c, h - 1, n);
      TakePlace(c, h - 1, n);
      TakeIsExact(c, h - 1, n);
      assert Parted(Take(t, h, n).0, h);
      hide Sane, TakesExactly, TakeTailMarked;
    }
  }

  /** A block never crosses the middle of an interval that it does not start. */
  predicate BlockInside(h: nat, n: nat, loc: nat) {
    if loc == 0 then n <= Pow2(h)
    else if h == 0 then false
    else if loc >= Pow2(h - 1) then BlockInside(h - 1, n, loc - Pow2(h - 1))
    else BlockInside(h - 1, n, loc)
  }

  lemma {:induction false} InsideBound(h: nat, n: nat, loc: nat)
    requires BlockInside(h, n, loc)
    ensures loc + n <= Pow2(h)
    ensures h > 0 && 0 < loc < Pow2(h - 1) ==> loc + n <= Pow2(h - 1)
  {
    if loc != 0 {
      InsideBound(h - 1, n, if loc >= Pow2(h - 1) then loc - Pow2(h - 1) else loc);
    }
  }

  lemma {:induction false} TakenPrefixIsUsed(t: Tree, h: nat, n: nat)
    requires PrefixTaken(t, h, n) && n > 0
    ensures t.n.leftFree == 0
  {
    if h > 0 && n < Pow2(h - 1) {
      TakenPrefixIsUsed(t.l, h - 1, n);
    }
  }

  lemma {:induction false} NoBlockInPristine(h: nat, n: nat, loc: nat)
    requires n > 0
    ensures !BlockTaken(Pristine(h), h, n, loc)
  {
    if loc == 0 {
      if PrefixTaken(Pristine(h), h, n) {
        TakenPrefixIsUsed(Pristine(h), h, n);
      }
    } else if h > 0 {
      NoBlockInPristine(h - 1, n, if loc >= Pow2(h - 1) then loc - Pow2(h - 1) else loc);
    }
  }

  // ---- Takes and gives leave the marks of other blocks alone ----

  lemma {:induction false} ModifyKeepsBlock(t: Tree, h: nat, m: nat, n: nat, loc: nat)
    requires Sane(t, h) && Perfect(t, h) && 0 < m <= t.n.leftFree && !TailMarked(t, h, m)
    requires n > 0 && BlockTaken(t, h, n, loc)
    ensures BlockTaken(Modify(t, false, h, m), h, n, loc)
  {
    SaneBounds(t, h);
    if loc == 0 {
      TakenPrefixIsUsed(t, h, n);
    } else {
      var half, t' := Pow2(h - 1), Modify(t, false, h, m);
      SanePrefixInHalves(t, h, m);
      ModifyTakes(t, h, m);
      NoBlockInPristine(h - 1, n, loc);
      if m > half {
        ModifyKeepsBlock(t.r, h - 1, m - half, n, loc - half);
        ModifyTakes(t.r, h - 1, m - half);
      } else if m == half {
        ModifyNothingRevives(t.r, h - 1, false);
      } else {
        ModifyTakes(t.l, h - 1, m);
        if loc < half {
          ModifyKeepsBlock(t.l, h - 1, m, n, loc);
        }
      }
      assert m >= half ==> t'.l == Marked(h - 1);
      assert Parted(t', h);
    }
  }

  /** A later take that meets no other mark leaves the marks of an earlier block alone. */
  lemma {:induction false} TakeKeepsBlock(t: Tree, h: nat, m: nat, n: nat, loc: nat)
    requires Sane(t, h) && Perfect(t, h) && 0 < m <= t.n.maxFree && !TakeTailMarked(t, h, m)
    requires n > 0 && BlockTaken(t, h, n, loc)
    ensures BlockTaken(Take(t, h, m).0, h, n, loc)
    decreases h, 1
  {
    SaneBounds(t, h);
    if t.n.leftFree >= m || h == 0 {
      if loc == 0 {
        TakenPrefixIsUsed(t, h, n);
      }
      ModifyKeepsBlock(t, h, m, n, loc);
    } else {
      FitInHalf(t, h, m);
      var half, left := Pow2(h - 1), t.l.n.maxFree >= m;
      var c := if left then t.l else t.r;
      TakeIsExact(c, h - 1, m);
      TakePlace(c, h - 1, m);
      assert Parted(Take(t, h, m).0, h);
      hide Sane, TakesExactly;
      TakeKeepsHalf(t, h, m, n, loc);
    }
  }

  lemma {:induction false} TakeKeepsHalf(t: Tree, h: nat, m: nat, n: nat, loc: nat)
    requires Sane(t, h) && Perfect(t, h) && 0 < m && t.n.leftFree < m <= t.n.maxFree && !TakeTailMarked(t, h, m)
    requires n > 0 && BlockTaken(t, h, n, loc) && Parted(t, h) && Parted(Take(t, h, m).0, h)
    requires t.l.n.maxFree >= m || t.r.n.maxFree >= m
    ensures BlockTaken(Take(t, h, m).0, h, n, loc)
    decreases h, 0
  {
    var half := Pow2(h - 1);
    if t.l.n.maxFree >= m {
      if (loc == 0 && n < half) || 0 < loc < half {
        TakeKeepsBlock(t.l, h - 1, m, n, loc);
      }
    } else if loc == 0 {
      if n > half {
        TakeKeepsBlock(t.r, h - 1, m, n - half, 0);
      }
    } else if loc >= half {
      TakeKeepsBlock(t.r, h - 1, m, n, loc - half);
    }
  }

  ghost predicate BlockTailMarked(t: Tree, h: nat, n: nat, loc: nat)
    requires Perfect(t, h)
  {
    if loc == 0 then TailMarked(t, h, n)
    else h > 0 && if loc >= Pow2(h - 1) then BlockTailMarked(t.r, h - 1, n, loc - Pow2(h - 1))
      else BlockTailMarked(t.l, h - 1, n, loc)
  }

  /** From t to t' exactly the n cells from `loc` on became free. */
  ghost predicate FreesExactly(t: Tree, t': Tree, h: nat, n: nat, loc: nat)
    requires Perfect(t, h) && Perfect(t', h)
  {
    forall k: nat {:trigger IsFree(t', h, k)} ::
      k < Pow2(h) ==> (IsFree(t', h, k) <==> IsFree(t, h, k) || loc <= k < loc + n)
  }

  /** A change in one half of a rebuilt node, seen from the node. */
  lemma {:induction false} FreesInHalf(t: Tree, t': Tree, h: nat, n: nat, loc: nat, right: bool, m: nat, part: nat)
    requires h > 0 && Perfect(t, h) && Perfect(t', h)
    requires t.n == Rebuild(Pow2(h), t.l.n, t.r.n) && t'.n == Rebuild(Pow2(h), t'.l.n, t'.r.n)
    requires if right
             then loc + n == Pow2(h - 1) + m + part && (loc == Pow2(h - 1) + m || (loc == m == 0)) &&
                  (if loc == 0 then t'.l == Pristine(h - 1) else t'.l == t.l)
             else loc == m && n == part && loc + n <= Pow2(h - 1) && t'.r == t.r
    ensures FreesExactly(t, t', h, n, loc) <==>
            if right then FreesExactly(t.r, t'.r, h - 1, part, m) else FreesExactly(t.l, t'.l, h - 1, part, m)
  {
    var half := Pow2(h - 1);
    forall k: nat {:trigger IsFree(t', h, k)}
      ensures IsFree(t', h, k) == if k < half then IsFree(t'.l, h - 1, k) else IsFree(t'.r, h - 1, k - half)
      ensures IsFree(t, h, k) == if k < half then IsFree(t.l, h - 1, k) else IsFree(t.r, h - 1, k - half)
      ensures IsFree(Pristine(h - 1), h - 1, k)
    {
      CellOfHalf(t', h, k);
      CellOfHalf(t, h, k);
      PristineIsFree(h - 1, k);
    }
    if FreesExactly(t, t', h, n, loc) {
      forall k: nat {:trigger IsFree(t'.r, h - 1, k)} | right && k < half
        ensures IsFree(t'.r, h - 1, k) <==> IsFree(t.r, h - 1, k) || m <= k < m + part
      {
        assert IsFree(t', h, k + half) == IsFree(t'.r, h - 1, k);
      }
      forall k: nat {:trigger IsFree(t'.l, h - 1, k)} | !right && k < half
        ensures IsFree(t'.l, h - 1, k) <==> IsFree(t.l, h - 1, k) || m <= k < m + part
      {
        assert IsFree(t', h, k) == IsFree(t'.l, h - 1, k);
      }
    }
  }

  /** Marking the cells of a prefix block free again. */
  lemma {:induction false} ModifyGives(t: Tree, h: nat, n: nat)
    requires Sane(t, h) && Perfect(t, h) && n <= Pow2(h) && PrefixTaken(t, h, n)
    ensures Sane(Modify(t, true, h, n), h)
    ensures FreesExactly(t, Modify(t, true, h, n), h, n, 0) <==> !TailMarked(t, h, n)
  {
    var t' := Modify(t, true, h, n);
    if n == 0 {
      ModifyNothingRevives(t, h, true);
      if SpineMarked(t, h) {
        assert IsFree(t', h, 0) && !IsFree(t, h, 0);
      }
    } else if h > 0 {
      var half := Pow2(h - 1);
      if n >= half {
        ModifyGives(t.r, h - 1, n - half);
        assert t'.l == Pristine(h - 1);
      } else {
        ModifyGives(t.l, h - 1, n);
      }
      assert Parted(t', h);
      hide Sane, Modify, Rebuild, FreesExactly;
      FreesInHalf(t, t', h, n, 0, n >= half, 0, if n >= half then n - half else n);
    }
  }

  /** Giving back a block frees exactly its cells if and only if the rest of its walk meets no mark of another block. */
  lemma {:induction false} GiveIsExact(t: Tree, h: nat, n: nat, loc: nat)
    requires Sane(t, h) && Perfect(t, h) && (n > 0 || loc == 0) && BlockTaken(t, h, n, loc) && BlockInside(h, n, loc)
    ensures Sane(Give(t, h, n, loc), h)
    ensures FreesExactly(t, Give(t, h, n, loc), h, n, loc) <==> !BlockTailMarked(t, h, n, loc)
  {
    var t' := Give(t, h, n, loc);
    InsideBound(h, n, loc);
    if loc == 0 {
      ModifyGives(t, h, n);
    } else {
      var half := Pow2(h - 1);
      GiveIsExact(if loc >= half then t.r else t.l, h - 1, n, if loc >= half then loc - half else loc);
      assert Parted(t', h);
      hide Sane, Rebuild, FreesExactly;
      FreesInHalf(t, t', h, n, loc, loc >= half, if loc >= half then loc - half else loc, n);
    }
  }

  lemma {:induction false} ModifyFreeKeepsBlock(t: Tree, h: nat, m: nat, n: nat, loc: nat)
    requires Sane(t, h) && Perfect(t, h) && m <= Pow2(h) && PrefixTaken(t, h, m) && !TailMarked(t, h, m)
    requires n > 0 && m <= loc && BlockTaken(t, h, n, loc) && BlockInside(h, n, loc)
    ensures BlockTaken(Modify(t, true, h, m), h, n, loc)
  {
    if m == 0 {
      ModifyNothingRevives(t, h, true);
    } else {
      var half, t' := Pow2(h - 1), Modify(t, true, h, m);
      ModifyGives(t, h, m);
      if m >= half {
        ModifyGives(t.r, h - 1, m - half);
        ModifyFreeKeepsBlock(t.r, h - 1, m - half, n, loc - half);
        assert t'.l == Pristine(h - 1);
      } else {
        ModifyGives(t.l, h - 1, m);
        if loc < half {
          ModifyFreeKeepsBlock(t.l, h - 1, m, n, loc);
        }
      }
      assert Parted(t', h);
    }
  }

  /** A give that meets no other mark leaves the marks of every other block alone. */
  lemma {:induction false} GiveKeepsBlock(t: Tree, h: nat, m: nat, at: nat, n: nat, loc: nat)
    requires Sane(t, h) && Perfect(t, h) && (m > 0 || at == 0) && n > 0
    requires BlockTaken(t, h, m, at) && BlockInside(h, m, at) && !BlockTailMarked(t, h, m, at)
    requires BlockTaken(t, h, n, loc) && BlockInside(h, n, loc) && (at + m <= loc || loc + n <= at)
    ensures BlockTaken(Give(t, h, m, at), h, n, loc)
  {
    InsideBound(h, m, at);
    if at == 0 {
      ModifyFreeKeepsBlock(t, h, m, n, loc);
    } else {
      var half, t' := Pow2(h - 1), Give(t, h, m, at);
      InsideBound(h, n, loc);
      GiveIsExact(if at >= half then t.r else t.l, h - 1, m, if at >= half then at - half else at);
      assert Parted(t', h) && if at >= half then t'.l == t.l else t'.r == t.r;
      hide Sane, FreesExactly;
      if at >= half {
        if loc == 0 && n > half {
          GiveKeepsBlock(t.r, h - 1, m, at - half, n - half, 0);
        } else if loc >= half {
          GiveKeepsBlock(t.r, h - 1, m, at - half, n, loc - half);
        } else if loc == 0 {
          assert PrefixTaken(t', h, n);
        } else {
          assert BlockTaken(t'.l, h - 1, n, loc);
        }
      } else if loc < half {
        GiveKeepsBlock(t.l, h - 1, m, at, n, loc);
      }
    }
  }

  // ---- Runs in any order ----

  /** A take, or a give of the i-th live block. */
  datatype Call = Grab(n: nat) | Free(i: nat)

  datatype Memory = Memory(now: Tree, live: seq<Block>)

  function WithoutAt(live: seq<Block>, i: nat): seq<Block>
    requires i < |live|
  {
    live[..i] + live[i + 1..]
  }

  function StepAny(h: nat, s: Memory, op: Call): (s': Memory)
    requires Perfect(s.now, h)
    ensures Perfect(s'.now, h)
  {
    match op
    case Grab(n) =>
      if s.now.n.maxFree < n then s else var (t, loc) := Take(s.now, h, n); Memory(t, s.live + [Block(loc, n)])
    case Free(i) =>
      if i >= |s.live| then s else Memory(Give(s.now, h, s.live[i].n, s.live[i].loc), WithoutAt(s.live, i))
  }

  /** The walk of the call meets no mark but those of its own block. */
  ghost predicate Harmless(h: nat, s: Memory, op: Call)
    requires Perfect(s.now, h)
  {
    match op
    case Grab(n) => n <= s.now.n.maxFree ==> !TakeTailMarked(s.now, h, n)
    case Free(i) => i < |s.live| ==> !BlockTailMarked(s.now, h, s.live[i].n, s.live[i].loc)
  }

  /** A cell is free exactly when no live block covers it. */
  ghost predicate CellsRight(h: nat, s: Memory)
    requires Perfect(s.now, h)
  {
    forall k: nat :: k < Pow2(h) ==> (IsFree(s.now, h, k) <==> !Covered(s.live, k))
  }

  ghost predicate Apart(live: seq<Block>) {
    forall i, j, k: nat :: 0 <= i < j < |live| && In(live[i], k) ==> !In(live[j], k)
  }

  /** A block carries its marks; a request for nothing is answered with the first place, and leaves no marks. */
  ghost predicate Marks(h: nat, t: Tree, b: Block) {
    (b.n > 0 || b.loc == 0) && BlockInside(h, b.n, b.loc) && BlockTaken(t, h, b.n, b.loc)
  }

  /** Live blocks are apart, carry their marks, and cover exactly the used cells. */
  ghost predicate Faithful(h: nat, s: Memory) {
    && Perfect(s.now, h) && Sane(s.now, h) && Apart(s.live) && CellsRight(h, s)
    && forall i :: 0 <= i < |s.live| ==> Marks(h, s.now, s.live[i])
  }

  lemma {:induction false} CoveredByMore(live: seq<Block>, b: Block, k: nat)
    ensures Covered(live + [b], k) <==> Covered(live, k) || In(b, k)
  {
    CoveredSplit(live + [b], k);
    assert (live + [b])[..|live|] == live;
  }

  lemma {:induction false} GrabFaithful(h: nat, s: Memory, n: nat)
    requires Faithful(h, s) && n <= s.now.n.maxFree
    ensures var s' := StepAny(h, s, Grab(n));
            if TakeTailMarked(s.now, h, n) then !CellsRight(h, s') else Faithful(h, s')
  {
    if n == 0 {
      GrabNothing(h, s);
    } else {
      GrabSome(h, s, n);
    }
  }

  lemma {:induction false} GrabNothing(h: nat, s: Memory)
    requires Faithful(h, s)
    ensures var s' := StepAny(h, s, Grab(0));
            if TakeTailMarked(s.now, h, 0) then !CellsRight(h, s') else Faithful(h, s')
  {
    var s', b := StepAny(h, s, Grab(0)), Block(0, 0);
    ModifyNothingRevives(s.now, h, false);
    forall k: nat
      ensures Covered(s'.live, k) <==> Covered(s.live, k)
    {
      CoveredByMore(s.live, b, k);
    }
    assert s' == Memory(Modify(s.now, false, h, 0), s.live + [b]);
    hide Sane, Modify, TailMarked, SpineMarked, Covered, Take;
    assert Marks(h, s'.now, b);
  }

  lemma {:induction false} GrabSome(h: nat, s: Memory, n: nat)
    requires Faithful(h, s) && 0 < n <= s.now.n.maxFree
    ensures var s' := StepAny(h, s, Grab(n));
            if TakeTailMarked(s.now, h, n) then !CellsRight(h, s') else Faithful(h, s')
  {
    var s', b := StepAny(h, s, Grab(n)), Block(Take(s.now, h, n).1, n);
    TakeIsExact(s.now, h, n);
    TakePlace(s.now, h, n);
    TakeMarksBlock(s.now, h, n);
    forall k: nat
      ensures Covered(s'.live, k) <==> Covered(s.live, k) || In(b, k)
    {
      CoveredByMore(s.live, b, k);
    }
    assert TakesExactly(s.now, s'.now, h, n, b.loc) <==> CellsRight(h, s') by {
      hide Sane, BlockTaken, BlockInside, TakeTailMarked, Covered;
    }
    if !TakeTailMarked(s.now, h, n) {
      GrabKeepsOthers(h, s, n, b);
    }
  }

  lemma {:induction false} GrabKeepsOthers(h: nat, s: Memory, n: nat, b: Block)
    requires Faithful(h, s) && 0 < n <= s.now.n.maxFree && !TakeTailMarked(s.now, h, n)
    requires b == Block(Take(s.now, h, n).1, n) && FreeRun(s.now, h, b.loc, n) && b.loc + n <= Pow2(h)
    ensures Apart(s.live + [b])
    ensures forall i :: 0 <= i < |s.live| ==> Marks(h, Take(s.now, h, n).0, s.live[i])
  {
    forall i | 0 <= i < |s.live|
      ensures Marks(h, Take(s.now, h, n).0, s.live[i])
    {
      assert Marks(h, s.now, s.live[i]);
      if s.live[i].n > 0 {
        TakeKeepsBlock(s.now, h, n, s.live[i].n, s.live[i].loc);
      }
    }
    hide Sane, BlockTaken, BlockInside, TakeTailMarked;
    forall i, k: nat | 0 <= i < |s.live| && In(s.live[i], k)
      ensures !In(b, k)
    {
      assert In(b, k) ==> IsFree(s.now, h, k);
      assert Covered(s.live, k);
    }
  }

  /** Intervals without a common cell lie one behind the other. */
  lemma {:induction false} ApartOrdered(b: Block, c: Block)
    requires (b.n > 0 || b.loc == 0) && c.n > 0 && forall k: nat :: In(b, k) ==> !In(c, k)
    ensures b.loc + b.n <= c.loc || c.loc + c.n <= b.loc
  {
    assert b.n > 0 ==> In(b, b.loc);
    assert In(c, c.loc);
  }

  lemma {:induction false} CoveredWithoutAt(live: seq<Block>, i: nat, k: nat)
    requires i < |live| && Apart(live)
    ensures Covered(WithoutAt(live, i), k) <==> Covered(live, k) && !In(live[i], k)
  {
    var rest := WithoutAt(live, i);
    assert forall j :: 0 <= j < |rest| ==> rest[j] == live[if j < i then j else j + 1];
    if Covered(rest, k) {
      var j :| 0 <= j < |rest| && In(rest[j], k);
      assert In(live[if j < i then j else j + 1], k);
    }
    if Covered(live, k) && !In(live[i], k) {
      var j :| 0 <= j < |live| && In(live[j], k);
      assert rest[if j < i then j else j - 1] == live[j];
    }
  }

  lemma {:induction false} FreeFaithful(h: nat, s: Memory, i: nat)
    requires Faithful(h, s) && i < |s.live|
    ensures var s', b := StepAny(h, s, Free(i)), s.live[i];
            if BlockTailMarked(s.now, h, b.n, b.loc) then !CellsRight(h, s') else Faithful(h, s')
  {
    var s', b := StepAny(h, s, Free(i)), s.live[i];
    assert Marks(h, s.now, b);
    InsideBound(h, b.n, b.loc);
    GiveIsExact(s.now, h, b.n, b.loc);
    forall k: nat
      ensures Covered(s'.live, k) <==> Covered(s.live, k) && !In(b, k)
    {
      CoveredWithoutAt(s.live, i, k);
    }
    assert FreesExactly(s.now, s'.now, h, b.n, b.loc) <==> CellsRight(h, s') by {
      hide Sane, BlockTaken, BlockInside, BlockTailMarked, Covered;
    }
    if !BlockTailMarked(s.now, h, b.n, b.loc) {
      FreeKeepsOthers(h, s, i);
    }
  }

  lemma {:induction false} FreeKeepsOthers(h: nat, s: Memory, i: nat)
    requires Faithful(h, s) && i < |s.live| && !BlockTailMarked(s.now, h, s.live[i].n, s.live[i].loc)
    ensures var s', rest := StepAny(h, s, Free(i)), WithoutAt(s.live, i);
            Apart(rest) && forall j :: 0 <= j < |rest| ==> Marks(h, s'.now, rest[j])
  {
    var s', rest, b := StepAny(h, s, Free(i)), WithoutAt(s.live, i), s.live[i];
    assert Marks(h, s.now, b);
    forall j | 0 <= j < |rest|
      ensures rest[j] == s.live[if j < i then j else j + 1] && Marks(h, s'.now, rest[j])
    {
      var c := rest[j];
      assert c == s.live[if j < i then j else j + 1] && Marks(h, s.now, c);
      if c.n > 0 {
        ApartOrdered(b, c);
        GiveKeepsBlock(s.now, h, b.n, b.loc, c.n, c.loc);
      }
    }
  }

  /** One call after a faithful state: the cells stay right, and all else with them, if and only if it is harmless. */
  lemma {:induction false} StepFaithful(h: nat, s: Memory, op: Call)
    requires Faithful(h, s)
    ensures if Harmless(h, s, op) then Faithful(h, StepAny(h, s, op)) else !CellsRight(h, StepAny(h, s, op))
  {
    match op
    case Grab(n) =>
      if n <= s.now.n.maxFree {
        GrabFaithful(h, s, n);
      }
    case Free(i) =>
      if i < |s.live| {
        FreeFaithful(h, s, i);
      }
  }

  function RunAny(h: nat, ops: seq<Call>): (s: Memory)
    ensures Perfect(s.now, h)
  {
    if ops == [] then Memory(Pristine(h), []) else StepAny(h, RunAny(h, ops[..|ops| - 1]), ops[|ops| - 1])
  }

  ghost predicate HarmlessUpTo(h: nat, ops: seq<Call>, n: nat)
    requires n <= |ops|
  {
    forall i :: 0 <= i < n ==> Harmless(h, RunAny(h, ops[..i]), ops[i])
  }

  ghost predicate RightUpTo(h: nat, ops: seq<Call>, n: nat)
    requires n <= |ops|
  {
    forall i :: 0 <= i <= n ==> CellsRight(h, RunAny(h, ops[..i]))
  }

  lemma {:induction false} RunStep(h: nat, ops: seq<Call>, n: nat)
    requires n < |ops|
    ensures RunAny(h, ops[..n + 1]) == StepAny(h, RunAny(h, ops[..n]), ops[n])
  {
    assert ops[..n + 1][..n] == ops[..n];
  }

  lemma {:induction false} StartFaithful(h: nat)
    ensures Faithful(h, RunAny(h, []))
  {
    forall k: nat
      ensures IsFree(Pristine(h), h, k)
    {
      PristineIsFree(h, k);
    }
  }

  /**
   * Every run of takes and gives in any order: the free cells are at all times exactly those that no live block
   * covers if and only if no call meets a mark of another block; and then live blocks are inside and apart.
   */
  lemma {:induction false} AnyOrder(h: nat, ops: seq<Call>, n: nat)
    requires n <= |ops|
    ensures RightUpTo(h, ops, n) <==> HarmlessUpTo(h, ops, n)
    ensures HarmlessUpTo(h, ops, n) ==> Faithful(h, RunAny(h, ops[..n]))
  {
    if n == 0 {
      StartFaithful(h);
      assert ops[..0] == [];
    } else {
      AnyOrder(h, ops, n - 1);
      RunStep(h, ops, n - 1);
      if HarmlessUpTo(h, ops, n - 1) {
        StepFaithful(h, RunAny(h, ops[..n - 1]), ops[n - 1]);
      }
      hide CellsRight, Harmless, RunAny, StepAny;
    }
  }

  // ---- Runs in stack order, and one give after them ----

  /** Whatever takes in a row lead to is faithful. */
  lemma {:induction false} ChainIsFaithful(h: nat, trees: seq<Tree>, live: seq<Block>)
    requires Chain(h, trees, live)
    ensures Faithful(h, Memory(trees[|live|], live))
    decreases |live|
  {
    var last := |live| - 1;
    if live == [] {
      StartFaithful(h);
    } else {
      ChainIsFaithful(h, trees[..last + 1], live[..last]);
      ChainMeaning(h, trees[..last + 1], live[..last]);
      assert Taken(h, trees[last], live[last], trees[last + 1]);
      TakeKeepsWf(trees[last], h, live[last].n);
      GrabFaithful(h, Memory(trees[last], live[..last]), live[last].n);
      assert live == live[..last] + [live[last]];
    }
  }

  /** The exact condition under which one give out of order is harmless, for every run in stack order and live block. */
  lemma {:induction false} GiveOutOfOrder(h: nat, ops: seq<Op>, i: nat)
    requires forall op :: op in ops && op.TakeOp? ==> op.n > 0
    requires i < |Run(h, ops).live|
    ensures var s := Run(h, ops);
            var b := s.live[i];
            FreesExactly(s.now, Give(s.now, h, b.n, b.loc), h, b.n, b.loc) <==> !BlockTailMarked(s.now, h, b.n, b.loc)
  {
    var s := Run(h, ops);
    ChainIsFaithful(h, s.past + [s.now], s.live);
    assert Marks(h, s.now, s.live[i]);
    GiveIsExact(s.now, h, s.live[i].n, s.live[i].loc);
  }

  /** With eight cells: take 4, take 2, give the first block back - and the second block reads as free. */
  lemma {:induction false} OutOfOrderExample()
    ensures var t := Take(Take(Pristine(3), 3, 4).0, 3, 2);
            t.1 == 4 && !IsFree(t.0, 3, 4) && IsFree(Give(t.0, 3, 4, 0), 3, 4)
  {
    assert Pow2(3) == 8 && Pow2(2) == 4 && Pow2(1) == 2;
    var q1, q2 := Pristine(1), Pristine(2);
    var a := Take(Pristine(3), 3, 4);
    assert a == (Branch(Node(0, 4), Marked(2), q2), 0) by {
      ModifyNothing(false, 2);
    }
    var b := Take(a.0, 3, 2);
    assert Take(q2, 2, 2) == (Branch(Node(0, 2), Marked(1), q1), 0) by {
      ModifyNothing(false, 1);
    }
    assert b == (Branch(Node(0, 2), Marked(2), Branch(Node(0, 2), Marked(1), q1)), 4);
    var r := Branch(Node(0, 2), Marked(1), q1);
    assert Modify(r, true, 2, 0) == Branch(Node(4, 4), q1, q1);
  }

  /** With sixteen cells: take 4, take 8, give the first block back, take 8 - and the second block reads as free. */
  lemma {:induction false} LaterTakeExample()
    ensures var a := Take(Pristine(4), 4, 4);
            var b := Take(a.0, 4, 8);
            var c := Give(b.0, 4, 4, a.1);
            var d := Take(c, 4, 8);
            b.1 == 8 && d.1 == 0 && !IsFree(c, 4, 8) && IsFree(d.0, 4, 8)
  {
    assert Pow2(4) == 16 && Pow2(3) == 8 && Pow2(2) == 4 && Pow2(1) == 2;
    var q1, q2, q3 := Pristine(1), Pristine(2), Pristine(3);
    var l := Branch(Node(0, 4), Marked(2), q2);
    var tail := Branch(Node(0, 0), Marked(1), Branch(Node(0, 0), Leaf(Node(0, 0)), Leaf(Node(0, 0))));
    var r := Branch(Node(0, 0), Marked(2), tail);
    ModifyNothing(false, 2);
    ModifyNothing(true, 2);
    ModifyNothing(false, 1);
    assert Modify(q3, false, 3, 4) == l;
    var a := Take(Pristine(4), 4, 4);
    assert a == (Branch(Node(0, 8), l, q3), 0);
    assert Modify(q1, false, 1, 2) == tail.r;
    assert Modify(q2, false, 2, 4) == tail;
    assert Take(q3, 3, 8) == (r, 0);
    var b := Take(a.0, 4, 8);
    assert b == (Branch(Node(0, 4), l, r), 8);
    assert Modify(l, true, 3, 4) == q3;
    var c := Give(b.0, 4, 4, 0);
    assert c == Branch(Node(8, 8), q3, r);
    assert Modify(Marked(2), false, 2, 0) == q2;
    assert Modify(r, false, 3, 0) == Branch(Node(4, 4), q2, tail);
  }
}
