/** Hashing of whole inputs by BLAKE3: chunks, and the in-place merge against the recursive tree. */
module Blake3 {
  import opened Arith
  import opened GrayCode

  type Byte = bv8

  const BLOCK_SIZE: nat := 64
  const CHUNK_SIZE: nat := 1024

  datatype Flags = Flags(chunkStart: bool, chunkEnd: bool, parent: bool, root: bool)

  /** The second argument of the compression function: a block padded with zeros, or two chaining values. */
  datatype Message = Block(bytes: seq<Byte>) | Pair(left: Value, right: Value)

  /** A chaining value as the expression that computes it, so that every compression that went into it is visible. */
  datatype Value = IV | Compressed(h: Value, m: Message, t: nat, b: nat, flags: Flags)

  /** memcpy into a zeroed block. */
  function Padded(data: seq<Byte>): (block: seq<Byte>)
    requires |data| <= BLOCK_SIZE
    ensures |block| == BLOCK_SIZE && block[..|data|] == data && forall i :: |data| <= i < BLOCK_SIZE ==> block[i] == 0
  {
    data + seq(BLOCK_SIZE - |data|, _ => 0)
  }

  // ---- The definition ----

  /** Blocks of a chunk: at least one, all full but the last. */
  function BlockCount(len: nat): nat {
    if len == 0 then 1 else (len + BLOCK_SIZE - 1) / BLOCK_SIZE
  }

  function BlockAt(data: seq<Byte>, i: nat): (block: seq<Byte>)
    requires i < BlockCount(|data|)
    ensures |block| <= BLOCK_SIZE
  {
    data[i * BLOCK_SIZE..Min((i + 1) * BLOCK_SIZE, |data|)]
  }

  /** The value after the first n blocks of a chunk: start, end and root flags by position. */
  function ChunkPrefix(data: seq<Byte>, k: Value, t: nat, isRoot: bool, n: nat): Value
    requires n <= BlockCount(|data|)
  {
    if n == 0 then k
    else
      var last := n == BlockCount(|data|);
      var block := BlockAt(data, n - 1);
      Compressed(ChunkPrefix(data, k, t, isRoot, n - 1), Block(Padded(block)), t, |block|,
        Flags(n == 1, last, false, last && isRoot))
  }

  function ChunkValue(data: seq<Byte>, k: Value, t: nat, isRoot: bool): Value {
    ChunkPrefix(data, k, t, isRoot, BlockCount(|data|))
  }

  function Parent(k: Value, left: Value, right: Value, isRoot: bool): Value {
    Compressed(k, Pair(left, right), 0, BLOCK_SIZE, Flags(false, false, true, isRoot))
  }

  function ChunkCount(len: nat): nat {
    (len + CHUNK_SIZE - 1) / CHUNK_SIZE
  }

  function ChunkAt(data: seq<Byte>, i: nat): seq<Byte>
    requires i < ChunkCount(|data|)
  {
    data[i * CHUNK_SIZE..Min((i + 1) * CHUNK_SIZE, |data|)]
  }

  /** The left subtree of c chunks holds the largest power of two below c (section 2.1 of the BLAKE3 paper). */
  function LeftSize(c: nat): nat
    requires c > 1
  {
    BitFloor(c - 1)
  }

  lemma {:induction false} LeftSizeMeaning(c: nat)
    requires c > 1
    ensures LeftSize(c) == Pow2(FloorLog(c - 1)) && LeftSize(c) < c <= 2 * LeftSize(c)
  {
    BitFloorIsPower(c - 1);
  }

  /** The tree over chunks lo to hi. */
  function Subtree(data: seq<Byte>, lo: nat, hi: nat, isRoot: bool): Value
    requires lo < hi <= ChunkCount(|data|)
    decreases hi - lo
  {
    if hi - lo == 1 then ChunkValue(ChunkAt(data, lo), IV, lo, isRoot)
    else
      LeftSizeMeaning(hi - lo);
      var mid := lo + LeftSize(hi - lo);
      Parent(IV, Subtree(data, lo, mid, false), Subtree(data, mid, hi, false), isRoot)
  }

  function TreeHash(data: seq<Byte>): Value {
    if |data| <= CHUNK_SIZE then ChunkValue(data, IV, 0, true) else Subtree(data, 0, ChunkCount(|data|), true)
  }

  // ---- The implementation ----

  method CompressChain(data0: seq<Byte>, k0: Value, t: nat, isRoot: bool) returns (k: Value)
    ensures k == ChunkValue(data0, k0, t, isRoot)
  {
    var data := data0;
    k := k0;
    var count := BlockCount(|data0|);
    if |data| <= BLOCK_SIZE {
      assert count == 1 && BlockAt(data0, 0) == data;
      k := Compressed(k, Block(Padded(data)), t, |data|, Flags(true, true, false, isRoot));
      assert ChunkPrefix(data0, k0, t, isRoot, 0) == k0;
      return;
    }
    assert BlockAt(data0, 0) == data[..BLOCK_SIZE];
    assert ChunkPrefix(data0, k0, t, isRoot, 0) == k0;
    k := Compressed(k, Block(Padded(data[..BLOCK_SIZE])), t, BLOCK_SIZE, Flags(true, false, false, false));
    data := data[BLOCK_SIZE..];
    ghost var n := 1;
    while |data| > BLOCK_SIZE
      invariant 0 < n < count && n * BLOCK_SIZE < |data0| && data == data0[n * BLOCK_SIZE..]
      invariant k == ChunkPrefix(data0, k0, t, isRoot, n)
      decreases |data|
    {
      assert BlockAt(data0, n) == data[..BLOCK_SIZE];
      k := Compressed(k, Block(Padded(data[..BLOCK_SIZE])), t, BLOCK_SIZE, Flags(false, false, false, false));
      data := data[BLOCK_SIZE..];
      n := n + 1;
    }
    assert n + 1 == count && BlockAt(data0, n) == data;
    k := Compressed(k, Block(Padded(data)), t, |data|, Flags(false, true, false, isRoot));
  }

  // ---- The in-place merge ----

  /** Cell lo holds the value of the (at most) size chunks from lo on. */
  ghost predicate Merged(c: seq<Value>, data: seq<Byte>, lo: nat, size: nat) {
    lo < |c| == ChunkCount(|data|) && 0 < size && c[lo] == Subtree(data, lo, Min(lo + size, |c|), false)
  }

  /** Every cell at a multiple of Pow2(k) holds the value of its aligned run of chunks; before bound the runs are twice
      as long. */
  ghost predicate Level(c: seq<Value>, data: seq<Byte>, k: nat, bound: nat) {
    && |c| == ChunkCount(|data|)
    && (forall lo: nat {:trigger Aligned(lo, k + 1)} ::
      lo < |c| && lo < bound && Aligned(lo, k + 1) ==> Merged(c, data, lo, Pow2(k + 1)))
    && (forall lo: nat {:trigger Aligned(lo, k)} ::
      bound <= lo < |c| && Aligned(lo, k) ==> Merged(c, data, lo, Pow2(k)))
  }

  /** Two neighbouring runs join into the tree over both: the left one is as large as the definition asks. */
  lemma {:induction false} JoinRuns(data: seq<Byte>, lo: nat, k: nat, isRoot: bool)
    requires lo + Pow2(k) < ChunkCount(|data|)
    ensures var mid := lo + Pow2(k);
            var hi := Min(lo + Pow2(k + 1), ChunkCount(|data|));
            Subtree(data, lo, hi, isRoot) ==
              Parent(IV, Subtree(data, lo, mid, false), Subtree(data, mid, hi, false), isRoot)
  {
    var hi := Min(lo + Pow2(k + 1), ChunkCount(|data|));
    assert Pow2(k + 1) == 2 * Pow2(k);
    LeftIsPower(hi - lo, k);
    hide LeftSize, Pow2, ChunkCount, ChunkValue, ChunkAt;
  }

  lemma {:induction false} LeftIsPower(count: nat, k: nat)
    requires Pow2(k) < count <= Pow2(k + 1)
    ensures count > 1 && LeftSize(count) == Pow2(k)
  {
    FloorLogBounds(count - 1, k);
    BitFloorIsPower(count - 1);
  }

  /** One pass of the inner loop moves the bound over one pair of siblings. */
  lemma {:induction false} MergeStep(c: seq<Value>, data: seq<Byte>, k: nat, lo: nat)
    requires Level(c, data, k, lo) && Aligned(lo, k + 1) && lo + Pow2(k) < |c|
    ensures Aligned(lo + Pow2(k + 1), k + 1)
    ensures Level(c[lo := Parent(IV, c[lo], c[lo + Pow2(k)], false)], data, k, lo + Pow2(k + 1))
  {
    hide Subtree;
    var d := Pow2(k);
    var c' := c[lo := Parent(IV, c[lo], c[lo + d], false)];
    AlignedCoarser(lo, k);
    AlignedNext(lo, k + 1);
    assert Merged(c, data, lo, d) && Merged(c, data, lo + d, d);
    JoinRuns(data, lo, k, false);
    assert Merged(c', data, lo, 2 * d);
    forall i: nat | i < |c| && i < lo + 2 * d && Aligned(i, k + 1) ensures Merged(c', data, i, 2 * d) {
      if lo < i {
        AlignedApart(lo, i, k + 1);
      } else if i < lo {
        assert Merged(c, data, i, 2 * d);
      }
    }
    forall i: nat | lo + 2 * d <= i < |c| && Aligned(i, k) ensures Merged(c', data, i, d) {
      assert Merged(c, data, i, d);
    }
  }

  /** When no right sibling is left, the next level is complete. */
  lemma {:induction false} LevelUp(c: seq<Value>, data: seq<Byte>, k: nat, lo: nat)
    requires Level(c, data, k, lo) && Aligned(lo, k + 1) && |c| <= lo + Pow2(k)
    ensures Level(c, data, k + 1, 0)
  {
    hide Subtree;
    forall i: nat {:trigger Aligned(i, k + 1)} | i < |c| && Aligned(i, k + 1) ensures Merged(c, data, i, Pow2(k + 1)) {
      if lo <= i {
        AlignedCoarser(i, k);
        assert Merged(c, data, i, Pow2(k));
      }
    }
  }

  method Hash(data0: seq<Byte>) returns (h: Value)
    ensures h == TreeHash(data0)
  {
    hide Subtree;
    if |data0| <= CHUNK_SIZE {
      h := CompressChain(data0, IV, 0, true);
      return;
    }
    var count := ChunkCount(|data0|);
    var chunks := CompressChunks(data0);
    var maxDelta := BitFloor(count - 1);
    BitFloorIsPower(count - 1);
    var delta := 1;
    ghost var k := 0;
    while delta < maxDelta
      invariant delta == Pow2(k) && k <= FloorLog(count - 1)
      invariant Level(chunks[..], data0, k, 0)
      decreases FloorLog(count - 1) - k
    {
      MergeLevel(chunks, data0, delta, k);
      delta := delta * 2;
      k := k + 1;
    }
    Pow2Monotonic(k, FloorLog(count - 1));
    assert delta == maxDelta;
    assert Aligned(0, k);
    AlignedNext(0, k);
    assert Merged(chunks[..], data0, 0, delta);
    assert Merged(chunks[..], data0, maxDelta, delta);
    JoinRuns(data0, 0, k, true);
    h := Parent(IV, chunks[0], chunks[maxDelta], true);
  }

  /** The loop over the chunks: each is compressed with its own index as the counter. */
  method CompressChunks(data0: seq<Byte>) returns (chunks: array<Value>)
    requires |data0| > CHUNK_SIZE
    ensures fresh(chunks) && Level(chunks[..], data0, 0, 0)
  {
    hide Level, ChunkValue;
    var data := data0;
    var count := ChunkCount(|data|);
    chunks := new Value[count](_ => IV);
    for i := 0 to count - 1
      invariant chunks.Length == count && data == data0[i * CHUNK_SIZE..]
      invariant forall j: nat :: j < i ==> chunks[j] == ChunkValue(ChunkAt(data0, j), IV, j, false)
    {
      assert data[..CHUNK_SIZE] == ChunkAt(data0, i);
      chunks[i] := CompressChain(data[..CHUNK_SIZE], IV, i, false);
      data := data[CHUNK_SIZE..];
    }
    chunks[count - 1] := CompressChain(data, IV, count - 1, false);
    assert data == ChunkAt(data0, count - 1);
    ChunksAreLevel(chunks[..], data0);
  }

  lemma {:induction false} ChunksAreLevel(c: seq<Value>, data: seq<Byte>)
    requires |c| == ChunkCount(|data|)
    requires forall j: nat :: j < |c| ==> c[j] == ChunkValue(ChunkAt(data, j), IV, j, false)
    ensures Level(c, data, 0, 0)
  {
    hide ChunkCount, ChunkAt, ChunkValue;
    forall lo: nat | lo < |c|
      ensures Merged(c, data, lo, Pow2(0))
    {
    }
  }

  /** The inner loop: the right children of one level, from left to right. */
  method MergeLevel(chunks: array<Value>, ghost data: seq<Byte>, delta: nat, ghost k: nat)
    requires delta == Pow2(k) && Level(chunks[..], data, k, 0)
    modifies chunks
    ensures Level(chunks[..], data, k + 1, 0)
  {
    var idx := delta;
    while idx < chunks.Length
      invariant idx >= delta && Aligned(idx - delta, k + 1) && Level(chunks[..], data, k, idx - delta)
    {
      XorSibling(idx - delta, k);
      MergeStep(chunks[..], data, k, idx - delta);
      chunks[Xor(idx, delta)] := Parent(IV, chunks[Xor(idx, delta)], chunks[idx], false);
      idx := idx + 2 * delta;
    }
    LevelUp(chunks[..], data, k, idx - delta);
  }

  // ---- What a hash value is made of ----

  /** The number of compressions with the ROOT flag. */
  function RootCount(v: Value): nat {
    match v
    case IV => 0
    case Compressed(h, m, _, _, flags) => RootCount(h) + RootsIn(m) + (if flags.root then 1 else 0)
  }

  function RootsIn(m: Message): nat {
    match m
    case Block(_) => 0
    case Pair(left, right) => RootCount(left) + RootCount(right)
  }

  /** The input bytes that went into a value, from left to right. */
  function Content(v: Value): seq<Byte> {
    match v
    case IV => []
    case Compressed(h, m, _, b, _) => Content(h) + ContentIn(m, b)
  }

  function ContentIn(m: Message, b: nat): seq<Byte> {
    match m
    case Block(bytes) => bytes[..Min(b, |bytes|)]
    case Pair(left, right) => Content(left) + Content(right)
  }

  /** Every compression of a chunk carries the counter t. */
  predicate CountsAs(v: Value, t: nat) {
    match v
    case IV => true
    case Compressed(h, m, t', _, _) => m.Block? && t' == t && CountsAs(h, t)
  }

  /** The chunks below a value with their counters, from left to right. */
  function Chunks(v: Value): seq<(nat, seq<Byte>)> {
    match v
    case IV => []
    case Compressed(_, m, t, _, _) => if m.Block? then [(t, Content(v))] else Chunks(m.left) + Chunks(m.right)
  }

  ghost predicate AreChunks(chunks: seq<(nat, seq<Byte>)>, data: seq<Byte>, lo: nat, hi: nat) {
    && lo <= hi <= ChunkCount(|data|)
    && |chunks| == hi - lo
    && forall i :: 0 <= i < hi - lo ==> chunks[i] == (lo + i, ChunkAt(data, lo + i))
  }

  lemma {:induction false} PrefixContent(data: seq<Byte>, t: nat, isRoot: bool, n: nat)
    requires n <= BlockCount(|data|)
    ensures var v := ChunkPrefix(data, IV, t, isRoot, n);
            && Content(v) == data[..Min(n * BLOCK_SIZE, |data|)]
            && CountsAs(v, t)
            && RootCount(v) == if isRoot && n == BlockCount(|data|) then 1 else 0
  {
    if n > 0 {
      PrefixContent(data, t, isRoot, n - 1);
      var block := BlockAt(data, n - 1);
      assert data[..(n - 1) * BLOCK_SIZE] + block == data[..Min(n * BLOCK_SIZE, |data|)];
    }
  }

  lemma {:induction false} ChunkContent(data: seq<Byte>, t: nat, isRoot: bool)
    ensures var v := ChunkValue(data, IV, t, isRoot);
            && v.Compressed? && v.m.Block? && v.flags.root == isRoot
            && Content(v) == data && CountsAs(v, t) && Chunks(v) == [(t, data)]
            && RootCount(v) == if isRoot then 1 else 0
  {
    PrefixContent(data, t, isRoot, BlockCount(|data|));
    assert data[..|data|] == data;
  }

  /** What Subtree promises of its value. */
  ghost predicate CoversChunks(v: Value, data: seq<Byte>, lo: nat, hi: nat, isRoot: bool) {
    && lo < hi <= ChunkCount(|data|)
    && v.Compressed? && v.flags.root == isRoot
    && Content(v) == data[lo * CHUNK_SIZE..Min(hi * CHUNK_SIZE, |data|)]
    && AreChunks(Chunks(v), data, lo, hi)
    && RootCount(v) == if isRoot then 1 else 0
  }

  lemma {:induction false} ParentCovers(left: Value, right: Value, data: seq<Byte>, lo: nat, mid: nat, hi: nat,
          isRoot: bool)
    requires CoversChunks(left, data, lo, mid, false) && CoversChunks(right, data, mid, hi, false)
    ensures CoversChunks(Parent(IV, left, right, isRoot), data, lo, hi, isRoot)
  {
    var v := Parent(IV, left, right, isRoot);
    assert Chunks(v) == Chunks(left) + Chunks(right);
    assert RootsIn(v.m) == 0;
    assert Content(v) == [] + ContentIn(v.m, v.b);
    assert ContentIn(v.m, v.b) == Content(left) + Content(right);
    var i, j, k := lo * CHUNK_SIZE, mid * CHUNK_SIZE, Min(hi * CHUNK_SIZE, |data|);
    assert data[i..j] + data[j..k] == data[i..k];
  }

  lemma {:induction false} LeafCovers(data: seq<Byte>, lo: nat, isRoot: bool)
    requires lo < ChunkCount(|data|)
    ensures CoversChunks(ChunkValue(ChunkAt(data, lo), IV, lo, isRoot), data, lo, lo + 1, isRoot)
  {
    ChunkContent(ChunkAt(data, lo), lo, isRoot);
    hide ChunkValue, Content, Chunks, RootCount;
  }

  lemma {:induction false} SubtreeContent(data: seq<Byte>, lo: nat, hi: nat, isRoot: bool)
    requires lo < hi <= ChunkCount(|data|)
    ensures CoversChunks(Subtree(data, lo, hi, isRoot), data, lo, hi, isRoot)
    decreases hi - lo
  {
    hide CoversChunks, ChunkCount, ChunkValue, BitFloor, FloorLog, Pow2;
    if hi - lo == 1 {
      LeafCovers(data, lo, isRoot);
    } else {
      LeftSizeMeaning(hi - lo);
      var mid := lo + LeftSize(hi - lo);
      SubtreeContent(data, lo, mid, false);
      SubtreeContent(data, mid, hi, false);
      hide LeftSize;
      ParentCovers(Subtree(data, lo, mid, false), Subtree(data, mid, hi, false), data, lo, mid, hi, isRoot);
    }
  }

  /**
   * For every input: one compression has the ROOT flag and it is the outermost one, the chunks stand in order under
   * their own indices as counters, and the bytes compressed are the input, so no two inputs share an expression.
   */
  lemma {:induction false} HashIsWellFormed(data: seq<Byte>)
    ensures var v := TreeHash(data);
            && v.Compressed? && v.flags.root && RootCount(v) == 1
            && Content(v) == data
            && (if |data| == 0 then Chunks(v) == [(0, [])] else AreChunks(Chunks(v), data, 0, ChunkCount(|data|)))
  {
    ChunkContent(data, 0, true);
    if |data| > CHUNK_SIZE {
      SubtreeContent(data, 0, ChunkCount(|data|), true);
    } else if |data| > 0 {
      assert ChunkAt(data, 0) == data;
    }
  }

  lemma {:induction false} HashIsInjective(a: seq<Byte>, b: seq<Byte>)
    requires TreeHash(a) == TreeHash(b)
    ensures a == b
  {
    HashIsWellFormed(a);
    HashIsWellFormed(b);
  }

  // ---- What every compression is given (sections 2.1 and 2.4 to 2.6 of the BLAKE3 paper) ----

  /** A block of 64 bytes, the first b of them from the input and zeros behind them. */
  ghost predicate BlockRight(bytes: seq<Byte>, b: nat) {
    |bytes| == BLOCK_SIZE && b <= BLOCK_SIZE && forall i :: b <= i < BLOCK_SIZE ==> bytes[i] == 0
  }

  /**
   * The compressions of one chunk: only the first one starts from IV, and has CHUNK_START; only the outermost one has
   * CHUNK_END, and ROOT if the chunk is the root; all carry the counter of the chunk; all blocks are full except that
   * the last one may be shorter, and it is empty only if it is the first one too.
   */
  ghost predicate BlocksRight(v: Value, t: nat, isRoot: bool, outermost: bool) {
    && v.Compressed? && v.m.Block? && BlockRight(v.m.bytes, v.b) && v.t == t
    && (v.flags.chunkStart <==> v.h == IV)
    && (v.flags.chunkEnd <==> outermost)
    && (v.flags.root <==> outermost && isRoot)
    && !v.flags.parent
    && (v.b == BLOCK_SIZE || (outermost && (v.b > 0 || v.h == IV)))
    && (v.h != IV ==> BlocksRight(v.h, t, isRoot, false))
  }

  /**
   * The compressions of a tree: those of pairs start from IV with PARENT, counter 0 and length 64, with ROOT only at
   * the top, and below them the left part has as many chunks as a power of two, and the right part no more than that.
   */
  ghost predicate TreeRight(v: Value, isRoot: bool) {
    && v.Compressed?
    && match v.m
       case Block(_) => BlocksRight(v, v.t, isRoot, true)
       case Pair(left, right) =>
         && v.h == IV && v.t == 0 && v.b == BLOCK_SIZE
         && v.flags.parent && !v.flags.chunkStart && !v.flags.chunkEnd && (v.flags.root <==> isRoot)
         && TreeRight(left, false) && TreeRight(right, false)
         && |Chunks(right)| <= |Chunks(left)| && exists k: nat :: |Chunks(left)| == Pow2(k)
  }

  /** The chunks of an input, which has one even if it is empty. */
  ghost predicate ChunksOf(chunks: seq<(nat, seq<Byte>)>, data: seq<Byte>) {
    if |data| == 0 then chunks == [(0, [])] else AreChunks(chunks, data, 0, ChunkCount(|data|))
  }

  lemma {:induction false} PrefixIsRight(data: seq<Byte>, t: nat, isRoot: bool, n: nat)
    requires 0 < n <= BlockCount(|data|)
    ensures BlocksRight(ChunkPrefix(data, IV, t, isRoot, n), t, isRoot, n == BlockCount(|data|))
  {
    var block := BlockAt(data, n - 1);
    assert BlockRight(Padded(block), |block|);
    if n > 1 {
      PrefixIsRight(data, t, isRoot, n - 1);
    }
    assert n < BlockCount(|data|) ==> |block| == BLOCK_SIZE;
    assert n > 1 ==> |block| > 0;
  }

  lemma {:induction false} SplitSubtree(data: seq<Byte>, lo: nat, hi: nat, isRoot: bool) returns (mid: nat, k: nat)
    requires lo + 1 < hi <= ChunkCount(|data|)
    ensures lo < mid < hi && mid - lo == Pow2(k) && hi - mid <= Pow2(k)
    ensures Subtree(data, lo, hi, isRoot) ==
            Parent(IV, Subtree(data, lo, mid, false), Subtree(data, mid, hi, false), isRoot)
  {
    LeftSizeMeaning(hi - lo);
    hide ChunkCount, ChunkValue, ChunkAt, LeftSize, Pow2, FloorLog, Parent;
    mid, k := lo + LeftSize(hi - lo), FloorLog(hi - lo - 1);
  }

  lemma {:induction false} SubtreeIsRight(data: seq<Byte>, lo: nat, hi: nat, isRoot: bool)
    requires lo < hi <= ChunkCount(|data|)
    ensures TreeRight(Subtree(data, lo, hi, isRoot), isRoot)
    decreases hi - lo
  {
    hide *;
    if hi - lo == 1 {
      LeafIsRight(data, lo, isRoot);
    } else {
      var mid, k := SplitSubtree(data, lo, hi, isRoot);
      SubtreeIsRight(data, lo, mid, false);
      SubtreeIsRight(data, mid, hi, false);
      SubtreeChunks(data, lo, mid, false);
      SubtreeChunks(data, mid, hi, false);
      ParentIsRight(Subtree(data, lo, mid, false), Subtree(data, mid, hi, false), isRoot, k);
    }
  }

  lemma {:induction false} LeafIsRight(data: seq<Byte>, lo: nat, isRoot: bool)
    requires lo < ChunkCount(|data|)
    ensures TreeRight(Subtree(data, lo, lo + 1, isRoot), isRoot)
  {
    ChunkIsRight(ChunkAt(data, lo), lo, isRoot);
    hide TreeRight, ChunkValue, ChunkAt, ChunkCount;
  }

  lemma {:induction false} SubtreeChunks(data: seq<Byte>, lo: nat, hi: nat, isRoot: bool)
    requires lo < hi <= ChunkCount(|data|)
    ensures |Chunks(Subtree(data, lo, hi, isRoot))| == hi - lo
  {
    SubtreeContent(data, lo, hi, isRoot);
  }

  lemma {:induction false} ParentIsRight(left: Value, right: Value, isRoot: bool, k: nat)
    requires TreeRight(left, false) && TreeRight(right, false) && |Chunks(right)| <= |Chunks(left)| == Pow2(k)
    ensures TreeRight(Parent(IV, left, right, isRoot), isRoot)
  {
  }

  lemma {:induction false} ChunkIsRight(data: seq<Byte>, t: nat, isRoot: bool)
    ensures TreeRight(ChunkValue(data, IV, t, isRoot), isRoot)
  {
    PrefixIsRight(data, t, isRoot, BlockCount(|data|));
  }

  function BlocksIn(v: Value): nat {
    match v
    case IV => 0
    case Compressed(h, _, _, _, _) => 1 + BlocksIn(h)
  }

  /** The chain of compressions is determined by the bytes that go into it. */
  lemma {:induction false} ChainIsPrefix(v: Value, data: seq<Byte>, t: nat, isRoot: bool, outermost: bool)
    requires BlocksRight(v, t, isRoot, outermost) && Content(v) <= data
    requires outermost <==> Content(v) == data
    ensures var n := BlocksIn(v);
            && 0 < n <= BlockCount(|data|) && (outermost <==> n == BlockCount(|data|))
            && (!outermost ==> |Content(v)| == n * BLOCK_SIZE)
            && v == ChunkPrefix(data, IV, t, isRoot, n)
  {
    var n, block := BlocksIn(v), v.m.bytes[..v.b];
    assert Content(v) == Content(v.h) + block;
    if v.h != IV {
      assert Content(v.h) <= data by {
        assert Content(v.h) == Content(v)[..|Content(v.h)|];
      }
      ChainIsPrefix(v.h, data, t, isRoot, false);
      assert |Content(v.h)| == BlocksIn(v.h) * BLOCK_SIZE;
    } else {
      assert Content(v.h) == [] && BlocksIn(v.h) == 0;
    }
    assert n == 1 + BlocksIn(v.h);
    LastBlock(data, n, block, outermost);
    assert v.m.bytes == Padded(block);
  }

  /** Where a chunk is cut: n - 1 full blocks and this one are all of it, or less of it and this one is full. */
  lemma {:induction false} LastBlock(data: seq<Byte>, n: nat, block: seq<Byte>, outermost: bool)
    requires n > 0 && (n - 1) * BLOCK_SIZE + |block| <= |data|
    requires block == data[(n - 1) * BLOCK_SIZE..(n - 1) * BLOCK_SIZE + |block|]
    requires |block| == BLOCK_SIZE || (outermost && |block| <= BLOCK_SIZE && (n == 1 || |block| > 0))
    requires outermost <==> (n - 1) * BLOCK_SIZE + |block| == |data|
    ensures n <= BlockCount(|data|) && (outermost <==> n == BlockCount(|data|)) && BlockAt(data, n - 1) == block
  {
  }

  /** A chunk is the value that is right and has its bytes as content. */
  lemma {:induction false} ChunkIsDetermined(v: Value, isRoot: bool)
    requires TreeRight(v, isRoot) && v.m.Block?
    ensures v == ChunkValue(Content(v), IV, v.t, isRoot)
  {
    ChainIsPrefix(v, Content(v), v.t, isRoot, true);
  }

  lemma {:induction false} OpenPair(v: Value, isRoot: bool) returns (k: nat)
    requires TreeRight(v, isRoot) && v.m.Pair?
    ensures v == Parent(IV, v.m.left, v.m.right, isRoot) && TreeRight(v.m.left, false) && TreeRight(v.m.right, false)
    ensures Chunks(v) == Chunks(v.m.left) + Chunks(v.m.right)
    ensures |Chunks(v.m.right)| <= |Chunks(v.m.left)| == Pow2(k)
  {
    hide Pow2, Chunks, TreeRight, BlocksRight;
    PairIsRight(v, isRoot);
    k :| |Chunks(v.m.left)| == Pow2(k);
  }

  lemma {:induction false} PairIsRight(v: Value, isRoot: bool)
    requires TreeRight(v, isRoot) && v.m.Pair?
    ensures v == Parent(IV, v.m.left, v.m.right, isRoot) && TreeRight(v.m.left, false) && TreeRight(v.m.right, false)
    ensures Chunks(v) == Chunks(v.m.left) + Chunks(v.m.right)
    ensures |Chunks(v.m.right)| <= |Chunks(v.m.left)| && exists k: nat :: |Chunks(v.m.left)| == Pow2(k)
  {
  }

  lemma {:induction false} OneChunk(v: Value, data: seq<Byte>, lo: nat, hi: nat, isRoot: bool)
    requires TreeRight(v, isRoot) && v.m.Block? && AreChunks(Chunks(v), data, lo, hi)
    ensures hi == lo + 1 <= ChunkCount(|data|) && v == ChunkValue(ChunkAt(data, lo), IV, lo, isRoot)
  {
    ChunkIsDetermined(v, isRoot);
    assert Chunks(v)[0] == (lo, ChunkAt(data, lo));
  }

  lemma {:induction false} JoinedSubtree(data: seq<Byte>, lo: nat, mid: nat, hi: nat, k: nat, isRoot: bool)
    requires lo < mid < hi <= ChunkCount(|data|) && mid - lo == Pow2(k) && hi - mid <= Pow2(k)
    ensures Subtree(data, lo, hi, isRoot) ==
            Parent(IV, Subtree(data, lo, mid, false), Subtree(data, mid, hi, false), isRoot)
  {
    LeftIsPower(hi - lo, k);
    hide LeftSize, Pow2, ChunkCount, ChunkValue, ChunkAt;
  }

  lemma {:induction false} TreeIsCompressed(v: Value, isRoot: bool)
    requires TreeRight(v, isRoot)
    ensures v.Compressed?
  {
  }

  lemma {:induction false} SubtreeOfOne(data: seq<Byte>, lo: nat, isRoot: bool)
    requires lo < ChunkCount(|data|)
    ensures Subtree(data, lo, lo + 1, isRoot) == ChunkValue(ChunkAt(data, lo), IV, lo, isRoot)
  {
    hide ChunkValue, ChunkAt, ChunkCount;
  }

  lemma {:induction false} TreeIsDetermined(v: Value, data: seq<Byte>, lo: nat, hi: nat, isRoot: bool)
    requires TreeRight(v, isRoot) && AreChunks(Chunks(v), data, lo, hi)
    ensures lo < hi <= ChunkCount(|data|) && v == Subtree(data, lo, hi, isRoot)
  {
    hide *;
    TreeIsCompressed(v, isRoot);
    if v.m.Block? {
      OneChunk(v, data, lo, hi, isRoot);
      SubtreeOfOne(data, lo, isRoot);
    } else {
      var left, right := v.m.left, v.m.right;
      var k := OpenPair(v, isRoot);
      var mid := lo + |Chunks(left)|;
      HalvesOfChunks(Chunks(left), Chunks(right), data, lo, hi);
      TreeIsDetermined(left, data, lo, mid, false);
      TreeIsDetermined(right, data, mid, hi, false);
      JoinedSubtree(data, lo, mid, hi, k, isRoot);
    }
  }

  lemma {:induction false} HalvesOfChunks(a: seq<(nat, seq<Byte>)>, b: seq<(nat, seq<Byte>)>, data: seq<Byte>, lo: nat,
          hi: nat)
    requires AreChunks(a + b, data, lo, hi)
    ensures AreChunks(a, data, lo, lo + |a|) && AreChunks(b, data, lo + |a|, hi) && hi == lo + |a| + |b|
  {
    hide ChunkCount, ChunkAt;
    forall i | 0 <= i < |a|
      ensures a[i] == (lo + i, ChunkAt(data, lo + i))
    {
      assert (a + b)[i] == a[i];
    }
    forall i | 0 <= i < |b|
      ensures b[i] == (lo + |a| + i, ChunkAt(data, lo + |a| + i))
    {
      assert (a + b)[|a| + i] == b[i];
    }
  }

  /**
   * The hash of an input is the one expression whose compressions are all right and whose chunks are those of the input
   * in order, each under its own index as the counter.
   */
  lemma {:induction false} HashIsDetermined(v: Value, data: seq<Byte>)
    ensures v == TreeHash(data) <==> TreeRight(v, true) && ChunksOf(Chunks(v), data)
  {
    if v == TreeHash(data) {
      HashIsWellFormed(data);
      if |data| <= CHUNK_SIZE {
        ChunkIsRight(data, 0, true);
      } else {
        SubtreeIsRight(data, 0, ChunkCount(|data|), true);
      }
    } else if TreeRight(v, true) && ChunksOf(Chunks(v), data) {
      hide TreeRight, BlocksRight, ChunkValue, Subtree, Content;
      if |data| <= CHUNK_SIZE {
        SmallIsOneChunk(v, data);
      } else {
        TreeIsDetermined(v, data, 0, ChunkCount(|data|), true);
      }
      assert false;
    }
  }

  lemma {:induction false} SmallIsOneChunk(v: Value, data: seq<Byte>)
    requires TreeRight(v, true) && ChunksOf(Chunks(v), data) && |data| <= CHUNK_SIZE
    ensures v == ChunkValue(data, IV, 0, true)
  {
    assert Chunks(v) == [(0, data)] by {
      if |data| > 0 {
        assert ChunkAt(data, 0) == data;
      }
    }
    if v.m.Pair? {
      HaveChunks(v.m.left, false);
      HaveChunks(v.m.right, false);
    } else {
      ChunkIsDetermined(v, true);
    }
  }

  lemma {:induction false} HaveChunks(v: Value, isRoot: bool)
    requires TreeRight(v, isRoot)
    ensures |Chunks(v)| > 0
  {
    if v.m.Pair? {
      HaveChunks(v.m.left, false);
    }
  }
}
