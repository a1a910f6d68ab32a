/** Splitting a WAV payload into one payload per channel, and merging them again. */
module WavChannels {
  import opened Arith
  import opened WavFile
  import opened Wrappers

  // ---- Interleaved blocks ----

  /** Channel j has its place in a block. */
  predicate Fits(j: nat, b: nat, size: nat) { (j + 1) * b <= size }

  lemma {:induction false} AllFit(n: nat, b: nat)
    ensures forall j: nat :: j < n ==> Fits(j, b, n * b)
  {
    forall j: nat | j < n ensures Fits(j, b, n * b) {
      MulAtMost(j + 1, n, b);
    }
  }

  /** The samples of channel j: b bytes from every block of the given size. */
  function Channel(data: Bytes, size: nat, b: nat, j: nat): Bytes
    requires 0 < size && Fits(j, b, size)
    decreases |data|
  {
    if |data| < size then [] else data[j * b..(j + 1) * b] + Channel(data[size..], size, b, j)
  }

  /** Where the share of channel j begins in the block at i. */
  function Offset(i: nat, j: nat, b: nat): nat { i + j * b }

  lemma {:induction false} OffsetNext(i: nat, j: nat, n: nat, b: nat)
    requires j < n
    ensures Offset(i, j + 1, b) == Offset(i, j, b) + b <= Offset(i, n, b) && Offset(i, j, b) == i + Offset(0, j, b)
  {
    MulAtMost(j + 1, n, b);
    assert (j + 1) * b == j * b + b;
  }

  /** Every channel has at least len bytes. */
  predicate AtLeast(channels: seq<Bytes>, len: nat) {
    forall c :: c in channels ==> len <= |c|
  }

  /** b bytes of each channel in turn. */
  function Heads(channels: seq<Bytes>, b: nat): (r: Bytes)
    requires AtLeast(channels, b)
    ensures |r| == Offset(0, |channels|, b)
  {
    if channels == [] then [] else
      var n := |channels| - 1;
      assert |channels| * b == n * b + b;
      Heads(channels[..n], b) + channels[n][..b]
  }

  function Tails(channels: seq<Bytes>, b: nat): (r: seq<Bytes>)
    requires AtLeast(channels, b)
    ensures |r| == |channels| && forall i :: 0 <= i < |r| ==> r[i] == channels[i][b..]
  {
    seq(|channels|, i requires 0 <= i < |channels| => channels[i][b..])
  }

  ghost predicate SameLength(channels: seq<Bytes>, len: nat) {
    forall i :: 0 <= i < |channels| ==> |channels[i]| == len
  }

  function Join(channels: seq<Bytes>, b: nat, len: nat): Bytes
    requires b > 0 && SameLength(channels, len)
    decreases len
  {
    if len < b then [] else Heads(channels, b) + Join(Tails(channels, b), b, len - b)
  }

  ghost predicate AreChannels(channels: seq<Bytes>, data: Bytes, b: nat) {
    && 0 < |channels| * b
    && forall j: nat :: j < |channels| ==>
      Fits(j, b, |channels| * b) && channels[j] == Channel(data, |channels| * b, b, j)
  }

  lemma {:induction false} ChannelLength(data: Bytes, size: nat, b: nat, j: nat, blocks: nat)
    requires 0 < size && Fits(j, b, size) && |data| == blocks * size
    ensures |Channel(data, size, b, j)| == blocks * b
  {
    if blocks > 0 {
      assert blocks * size == (blocks - 1) * size + size && blocks * b == (blocks - 1) * b + b;
      assert (j + 1) * b - j * b == b;
      ChannelLength(data[size..], size, b, j, blocks - 1);
    }
  }

  lemma {:induction false} OffsetStep(i: nat, q: nat, size: nat)
    ensures Offset(i, 0, size) == i && (q > 0 ==> Offset(i, q, size) == Offset(i, q - 1, size) + size)
    ensures Offset(0, q + 1, size) == Offset(0, q, size) + size
  {
    assert q > 0 ==> q * size == (q - 1) * size + size;
    assert (q + 1) * size == q * size + size;
  }

  lemma {:induction false} FirstBytes(data: Bytes, size: nat, b: nat, j: nat, r: nat)
    requires 0 < size <= |data| && Fits(j, b, size) && r < b
    ensures var c := Channel(data, size, b, j);
            && b <= |c| && Offset(r, j, b) < size
            && c[r] == data[Offset(r, j, b)] && c[b..] == Channel(data[size..], size, b, j)
  {
    ChannelStep(data, size, b, j);
    assert (j + 1) * b == j * b + b;
    hide Channel;
    assert Channel(data, size, b, j)[..b][r] == data[j * b..(j + 1) * b][r];
  }

  /** Byte r of block q of channel j is byte r of the share of channel j in block q of all channels. */
  lemma {:induction false} ChannelByte(data: Bytes, size: nat, b: nat, j: nat, q: nat, r: nat)
    requires 0 < size && Fits(j, b, size) && r < b && Offset(0, q + 1, size) <= |data|
    ensures Offset(r, q, b) < |Channel(data, size, b, j)| && Offset(Offset(r, j, b), q, size) < |data|
    ensures Channel(data, size, b, j)[Offset(r, q, b)] == data[Offset(Offset(r, j, b), q, size)]
  {
    hide Channel, Fits, Offset;
    OffsetStep(r, q, b);
    OffsetStep(Offset(r, j, b), q, size);
    OffsetStep(0, q, size);
    FirstBytes(data, size, b, j, r);
    if q > 0 {
      OffsetStep(0, q - 1, size);
      ChannelByte(data[size..], size, b, j, q - 1, r);
    }
  }

  /** The first b bytes of n channels are the first n * b bytes of a block. */
  lemma {:induction false} HeadsOfBlock(channels: seq<Bytes>, data: Bytes, b: nat)
    requires |channels| * b <= |data|
    requires forall j: nat :: j < |channels| ==>
      b <= |channels[j]| && Fits(j, b, |data|) && channels[j][..b] == data[j * b..(j + 1) * b]
    ensures Heads(channels, b) == data[..|channels| * b]
  {
    if channels != [] {
      var n := |channels| - 1;
      assert |channels| * b == n * b + b == (n + 1) * b;
      HeadsOfBlock(channels[..n], data, b);
      assert Heads(channels, b) == Heads(channels[..n], b) + channels[n][..b];
      hide Heads, Fits, Offset;
      assert data[..(n + 1) * b] == data[..n * b] + data[n * b..(n + 1) * b];
    }
  }

  lemma {:induction false} ChannelStep(data: Bytes, size: nat, b: nat, j: nat)
    requires 0 < size <= |data| && Fits(j, b, size)
    ensures var c := Channel(data, size, b, j);
            b <= |c| && c[..b] == data[j * b..(j + 1) * b] && c[b..] == Channel(data[size..], size, b, j)
  {
    assert (j + 1) * b - j * b == b;
  }

  lemma {:induction false} FirstBlock(channels: seq<Bytes>, data: Bytes, b: nat)
    requires b > 0 && AreChannels(channels, data, b) && Offset(0, |channels|, b) <= |data|
    ensures AtLeast(channels, b)
    ensures Heads(channels, b) == data[..Offset(0, |channels|, b)]
    ensures AreChannels(Tails(channels, b), data[Offset(0, |channels|, b)..], b)
  {
    var size := |channels| * b;
    forall j: nat | j < |channels|
      ensures b <= |channels[j]| && channels[j][..b] == data[j * b..(j + 1) * b]
      ensures channels[j][b..] == Channel(data[size..], size, b, j)
    {
      ChannelStep(data, size, b, j);
    }
    hide Channel, Heads, Offset;
    assert Heads(channels, b) == data[..size] by {
      BlockFits(channels, b, data);
      HeadsOfBlock(channels, data, b);
    }
    hide Fits;
  }

  /** total is n blocks of the given size. */
  predicate Blocks(n: nat, total: nat, size: nat) { total == n * size }

  lemma {:induction false} OneBlockLess(n: nat, total: nat, size: nat)
    requires Blocks(n, total, size)
    ensures if n == 0 then total == 0 else size <= total && Blocks(n - 1, total - size, size)
  {
    if n > 0 {
      assert n * size == (n - 1) * size + size;
    }
  }

  lemma {:induction false} JoinUnfold(channels: seq<Bytes>, b: nat, len: nat)
    requires b > 0 && SameLength(channels, len)
    ensures len < b ==> Join(channels, b, len) == []
    ensures b <= len ==> SameLength(Tails(channels, b), len - b)
    ensures b <= len ==> Join(channels, b, len) == Heads(channels, b) + Join(Tails(channels, b), b, len - b)
  {
  }

  /** Joining the channels of whole blocks restores them. */
  lemma {:induction false} JoinRestores(channels: seq<Bytes>, data: Bytes, b: nat, len: nat, n: nat)
    requires b > 0 && AreChannels(channels, data, b)
    requires Blocks(n, |data|, Offset(0, |channels|, b)) && Blocks(n, len, b) && SameLength(channels, len)
    ensures Join(channels, b, len) == data
    decreases n
  {
    hide *;
    var size := Offset(0, |channels|, b);
    OneBlockLess(n, |data|, size);
    OneBlockLess(n, len, b);
    JoinUnfold(channels, b, len);
    if n > 0 {
      FirstBlock(channels, data, b);
      JoinRestores(Tails(channels, b), data[size..], b, len - b, n - 1);
      assert data[..size] + data[size..] == data;
    }
  }

  lemma {:induction false} BlockFits(channels: seq<Bytes>, b: nat, data: Bytes)
    requires |channels| * b <= |data|
    ensures forall j: nat :: j < |channels| ==> Fits(j, b, |data|)
  {
    AllFit(|channels|, b);
    forall j: nat | j < |channels| ensures Fits(j, b, |data|) {
      assert Fits(j, b, |channels| * b);
    }
  }

  /** How a call ends: with its value, or in one of the ways in which C++ code goes wrong. */
  datatype Outcome<T> = Done(value: T) | AssertionFailed | DivisionByZero | Overflow | OutOfBounds | Endless

  // ---- Splitting ----

  predicate IsMultiple(x: nat, n: nat)
    requires n > 0
  {
    x % n == 0
  }

  lemma {:induction false} ZeroIsMultiple(n: nat)
    ensures n > 0 ==> IsMultiple(0, n)
  {
  }

  /** The remainders are taken in order: by the number of channels, twice, and then by the block size. */
  predicate DividesByZero(p: Payload) {
    || p.format.channelCount == 0
    || (IsMultiple(p.format.bytesPerSec, p.format.channelCount) && p.format.bytesPerBlock == 0)
  }

  /** The contract assertions of channel_split. */
  predicate CanSplit(p: Payload) {
    && p.format.channelCount > 0 && p.format.bytesPerBlock > 0
    && IsMultiple(p.format.bytesPerSec, p.format.channelCount)
    && IsMultiple(p.format.bytesPerBlock, p.format.channelCount)
    && IsMultiple(|p.data|, p.format.bytesPerBlock)
  }

  function ChannelFormat(f: Format): Format
    requires f.channelCount > 0
  {
    f.(channelCount := 1, bytesPerSec := f.bytesPerSec / f.channelCount,
      bytesPerBlock := f.bytesPerBlock / f.channelCount)
  }

  function Datas(v: seq<Payload>): (r: seq<Bytes>)
    ensures |r| == |v| && forall i :: 0 <= i < |v| ==> r[i] == v[i].data
  {
    seq(|v|, i requires 0 <= i < |v| => v[i].data)
  }

  /** The contract assertions, one after another. */
  method CheckSplit(p: Payload) returns (r: Outcome<nat>)
    ensures r.DivisionByZero? <==> DividesByZero(p)
    ensures r.AssertionFailed? <==> !DividesByZero(p) && !CanSplit(p)
    ensures r.Done? <==> CanSplit(p)
  {
    hide IsMultiple;
    var n, size := p.format.channelCount, p.format.bytesPerBlock;
    ZeroIsMultiple(n);
    if n == 0 {
      return DivisionByZero;
    }
    if !IsMultiple(p.format.bytesPerSec, n) || !IsMultiple(size, n) {
      return AssertionFailed;
    }
    if size == 0 {
      return DivisionByZero;
    }
    return if IsMultiple(|p.data|, size) then Done(n) else AssertionFailed;
  }

  /** The channels of a payload, or how the first contract assertion that does not hold fails. */
  method ChannelSplit(p: Payload) returns (r: Outcome<seq<Payload>>)
    ensures r.DivisionByZero? <==> DividesByZero(p)
    ensures r.AssertionFailed? <==> !DividesByZero(p) && !CanSplit(p)
    ensures r.Done? <==> CanSplit(p)
    ensures r.Done? ==>
      |r.value| == p.format.channelCount && forall c :: c in r.value ==> c.format == ChannelFormat(p.format)
    ensures r.Done? ==> AreChannels(Datas(r.value), p.data, p.format.bytesPerBlock / p.format.channelCount)
  {
    var check := CheckSplit(p);
    if check.DivisionByZero? {
      return DivisionByZero;
    }
    if check.AssertionFailed? {
      return AssertionFailed;
    }
    var v := Distribute(p);
    return Done(v);
  }

  /** The loop over the blocks. */
  method Distribute(p: Payload) returns (v: seq<Payload>)
    requires CanSplit(p)
    ensures |v| == p.format.channelCount && forall c :: c in v ==> c.format == ChannelFormat(p.format)
    ensures AreChannels(Datas(v), p.data, p.format.bytesPerBlock / p.format.channelCount)
  {
    var size, n := p.format.bytesPerBlock, p.format.channelCount;
    var b := size / n;
    assert n * b == size;
    AllFit(n, b);
    var datas: seq<Bytes> := seq(n, _ => []);
    var i := 0;
    while i < |p.data|
      invariant i <= |p.data| && i % size == 0 && |datas| == n
      invariant forall j: nat :: j < n ==> datas[j] + Channel(p.data[i..], size, b, j) == Channel(p.data, size, b, j)
      decreases |p.data| - i
    {
      MultipleFits(i, |p.data|, size);
      datas := AppendBlock(datas, p.data, i, n, b);
      i := i + size;
    }
    v := seq(n, j requires 0 <= j < |datas| => Payload(ChannelFormat(p.format), datas[j]));
    assert Datas(v) == datas;
    forall j: nat | j < n ensures datas[j] == Channel(p.data, size, b, j) {
      assert Channel(p.data[i..], size, b, j) == [];
    }
  }

  /** The inner loop: one block's share for every channel. */
  method AppendBlock(datas0: seq<Bytes>, data: Bytes, i: nat, n: nat, b: nat) returns (datas: seq<Bytes>)
    requires 0 < n * b && i + n * b <= |data| && |datas0| == n
    requires forall j: nat :: j < n ==> Fits(j, b, n * b)
    ensures |datas| == n
    ensures forall j: nat :: j < n ==>
      datas[j] + Channel(data[i + n * b..], n * b, b, j) == datas0[j] + Channel(data[i..], n * b, b, j)
  {
    hide Channel, Fits;
    var size := n * b;
    datas := datas0;
    for j := 0 to n
      invariant |datas| == n
      invariant forall k: nat :: j <= k < n ==> datas[k] == datas0[k]
      invariant forall k: nat :: k < j ==>
        datas[k] + Channel(data[i + size..], size, b, k) == datas0[k] + Channel(data[i..], size, b, k)
    {
      ShareAppended(datas0[j], data, i, size, b, j);
      datas := datas[j := datas[j] + data[i + j * b..i + j * b + b]];
    }
  }

  lemma {:induction false} ShareAppended(before: Bytes, data: Bytes, i: nat, size: nat, b: nat, j: nat)
    requires 0 < size && i + size <= |data| && Fits(j, b, size)
    ensures i + j * b + b <= |data|
    ensures before + data[i + j * b..i + j * b + b] + Channel(data[i + size..], size, b, j) ==
            before + Channel(data[i..], size, b, j)
  {
    assert (j + 1) * b == j * b + b;
    assert data[i..][size..] == data[i + size..];
    assert data[i + j * b..i + j * b + b] == data[i..][j * b..(j + 1) * b];
    Regroup(before, data[i..][j * b..(j + 1) * b], Channel(data[i + size..], size, b, j));
  }

  lemma {:induction false} Regroup(a: Bytes, b: Bytes, c: Bytes)
    ensures a + (b + c) == (a + b) + c
  {
  }

  lemma {:induction false} MultipleFits(i: nat, n: nat, size: nat)
    requires 0 < size && i % size == 0 && n % size == 0 && i < n
    ensures i + size <= n && (i + size) % size == 0
  {
    var p, q := i / size, n / size;
    assert i == p * size && n == q * size;
    if p + 1 <= q {
      MulAtMost(p + 1, q, size);
    } else {
      MulAtMost(q, p, size);
    }
    QuotientUnique(i + size, size, p + 1, 0);
  }

  // ---- Merging ----

  function MergedFormat(f: Format, n: U16): Format {
    f.(channelCount := n, bytesPerSec := Truncated32(f.bytesPerSec * n),
      bytesPerBlock := f.bytesPerBlock * n % 0x1_0000)
  }

  /** The product of two 16-bit numbers is an int, and undefined when it does not fit. */
  predicate BlockOverflows(f: Format, n: nat) { f.bytesPerBlock * n >= 0x8000_0000 }

  /** The assertions on one channel that come before the one with the block size. */
  predicate AgreesBefore(f: Format, g: Format, n: nat) {
    && f.formatType == g.formatType && g.channelCount == 1 && f.sampleRate == g.sampleRate
    && f.bytesPerSec == Truncated32(g.bytesPerSec * n)
  }

  /** All assertions on one channel. The block size is compared without wrapping, so it fits in 16 bits. */
  predicate Agrees(f: Format, c: Payload, n: nat, len: nat) {
    && AgreesBefore(f, c.format, n)
    && f.bytesPerBlock == c.format.bytesPerBlock * n
    && f.bitsPerSample == c.format.bitsPerSample
    && |c.data| == len
  }

  predicate AgreesAt(v: seq<Payload>, i: nat)
    requires i < |v| < 0x1_0000
  {
    Agrees(MergedFormat(v[0].format, |v|), v[i], |v|, |v[0].data|)
  }

  /** The contract assertions of channel_merge. */
  predicate CanMerge(v: seq<Payload>) {
    0 < |v| < 0x1_0000 && forall i :: 0 <= i < |v| ==> AgreesAt(v, i)
  }

  /** The first channel that does not pass all assertions reaches the one with the block size, and that overflows. */
  predicate OverflowsAt(v: seq<Payload>, i: nat)
    requires i < |v| < 0x1_0000
  {
    && (forall j :: 0 <= j < i ==> AgreesAt(v, j))
    && AgreesBefore(MergedFormat(v[0].format, |v|), v[i].format, |v|)
    && BlockOverflows(v[i].format, |v|)
  }

  /** A block size overflows: that of the first channel before any assertion on channels, or another one among them. */
  predicate Overflows(v: seq<Payload>) {
    0 < |v| < 0x1_0000 && (BlockOverflows(v[0].format, |v|) || exists i :: 0 <= i < |v| && OverflowsAt(v, i))
  }

  /** What comes before the copying: the merged format, and the loop over the assertions. */
  method CheckMerge(v: seq<Payload>) returns (r: Outcome<Format>)
    ensures r.Overflow? <==> Overflows(v)
    ensures r.AssertionFailed? <==> !Overflows(v) && !CanMerge(v)
    ensures r.Done? <==> CanMerge(v)
    ensures r.Done? ==> r.value == MergedFormat(v[0].format, |v|)
  {
    hide Agrees, AgreesBefore, MergedFormat;
    if v == [] || |v| >= 0x1_0000 {
      return AssertionFailed;
    }
    if BlockOverflows(v[0].format, |v|) {
      AgreeingFits(v, 0);
      return Overflow;
    }
    var f := MergedFormat(v[0].format, |v|);
    for i := 0 to |v|
      invariant forall j :: 0 <= j < i ==> AgreesAt(v, j)
      invariant forall j :: 0 <= j < i ==> !OverflowsAt(v, j)
    {
      AgreeingFits(v, i);
      if !AgreesBefore(f, v[i].format, |v|) {
        NoLaterOverflow(v, i);
        return AssertionFailed;
      }
      if BlockOverflows(v[i].format, |v|) {
        assert OverflowsAt(v, i);
        return Overflow;
      }
      if !Agrees(f, v[i], |v|, |v[0].data|) {
        NoLaterOverflow(v, i);
        return AssertionFailed;
      }
    }
    return Done(f);
  }

  lemma {:induction false} AgreeingFits(v: seq<Payload>, i: nat)
    requires i < |v| < 0x1_0000
    ensures AgreesAt(v, i) ==>
      AgreesBefore(MergedFormat(v[0].format, |v|), v[i].format, |v|) && !BlockOverflows(v[i].format, |v|)
  {
  }

  lemma {:induction false} NoLaterOverflow(v: seq<Payload>, i: nat)
    requires i < |v| < 0x1_0000 && !AgreesAt(v, i)
    ensures forall k :: i < k < |v| ==> !OverflowsAt(v, k)
  {
  }

  /** What is left of the channels from position at on. */
  function From(channels: seq<Bytes>, at: nat): (r: seq<Bytes>)
    requires AtLeast(channels, at)
    ensures |r| == |channels| && forall i :: 0 <= i < |r| ==> r[i] == channels[i][at..]
  {
    Tails(channels, at)
  }

  lemma {:induction false} HeadsStep(channels: seq<Bytes>, b: nat, j: nat)
    requires j < |channels| && AtLeast(channels, b)
    ensures Heads(channels[..j + 1], b) == Heads(channels[..j], b) + channels[j][..b]
  {
    assert channels[..j + 1][..j] == channels[..j];
  }

  lemma {:induction false} CopyStep(out0: Bytes, i: nat, done: Bytes, chunk: Bytes)
    requires i + |done| + |chunk| <= |out0|
    ensures var (to, out) := (i + |done|, out0[..i] + done + out0[i + |done|..]);
            |out| == |out0| && out[..to] + chunk + out[to + |chunk|..] ==
              out0[..i] + (done + chunk) + out0[to + |chunk|..]
  {
    var to, out := i + |done|, out0[..i] + done + out0[i + |done|..];
    assert out[..to] == out0[..i] + done;
    assert out[to + |chunk|..] == out0[to + |chunk|..];
  }

  /** The output after j of the channels have been copied into the block at i. */
  ghost function Copied(out0: Bytes, rests: seq<Bytes>, i: nat, b: nat, j: nat): Bytes
    requires j <= |rests| && i <= |out0| && Offset(i, j, b) <= |out0| && AtLeast(rests, b)
  {
    out0[..i] + Heads(rests[..j], b) + out0[Offset(i, j, b)..]
  }

  lemma {:induction false} CopyOne(out0: Bytes, rests: seq<Bytes>, i: nat, b: nat, j: nat)
    requires j < |rests| && i <= |out0| && Offset(i, |rests|, b) <= |out0| && AtLeast(rests, b)
    ensures Offset(i, j, b) + b == Offset(i, j + 1, b) <= |out0|
    ensures var (to, out) := (Offset(i, j, b), Copied(out0, rests, i, b, j));
            |out| == |out0| && out[..to] + rests[j][..b] + out[to + b..] == Copied(out0, rests, i, b, j + 1)
  {
    OffsetNext(i, j, |rests|, b);
    OffsetNext(0, j, |rests|, b);
    HeadsStep(rests, b, j);
    assert |rests[j][..b]| == b && |Heads(rests[..j], b)| == Offset(0, j, b);
    hide Heads, Offset;
    CopyStep(out0, i, Heads(rests[..j], b), rests[j][..b]);
  }

  lemma {:induction false} CopiedEnds(out0: Bytes, rests: seq<Bytes>, i: nat, b: nat)
    requires AtLeast(rests, b) && Offset(i, |rests|, b) <= |out0|
    ensures i <= |out0| && Offset(i, 0, b) <= |out0|
    ensures Copied(out0, rests, i, b, 0) == out0
    ensures Copied(out0, rests, i, b, |rests|) == out0[..i] + Heads(rests, b) + out0[Offset(i, |rests|, b)..]
    ensures |Copied(out0, rests, i, b, |rests|)| == |out0|
  {
    assert rests[..0] == [] && rests[..|rests|] == rests;
  }

  /** The share of channel j that is copied. */
  lemma {:induction false} ShareOf(channels: seq<Bytes>, at: nat, b: nat, j: nat)
    requires AtLeast(channels, at + b) && j < |channels|
    ensures AtLeast(channels, at) && AtLeast(From(channels, at), b)
    ensures at + b <= |channels[j]| && b <= |From(channels, at)[j]|
    ensures channels[j][at..at + b] == From(channels, at)[j][..b]
  {
  }

  lemma {:induction false} RestsAtLeast(channels: seq<Bytes>, at: nat, b: nat)
    requires AtLeast(channels, at + b)
    ensures AtLeast(channels, at) && AtLeast(From(channels, at), b)
  {
  }

  method CopyBlock(out0: Bytes, channels: seq<Bytes>, i: nat, at: nat, b: nat) returns (out: Bytes)
    requires AtLeast(channels, at + b)
    requires Offset(i, |channels|, b) <= |out0|
    ensures AtLeast(channels, at) && AtLeast(From(channels, at), b)
    ensures |out| == |out0| && i <= |out0|
    ensures out == out0[..i] + Heads(From(channels, at), b) + out0[Offset(i, |channels|, b)..]
  {
    hide *;
    RestsAtLeast(channels, at, b);
    ghost var rests := From(channels, at);
    CopiedEnds(out0, rests, i, b);
    out := out0;
    for j := 0 to |channels|
      invariant i <= |out0| && Offset(i, j, b) <= |out0| && out == Copied(out0, rests, i, b, j)
    {
      ShareOf(channels, at, b, j);
      CopyOne(out0, rests, i, b, j);
      var to := Offset(i, j, b);
      out := out[..to] + channels[j][at..at + b] + out[to + b..];
    }
  }

  lemma {:induction false} FromLengths(channels: seq<Bytes>, at: nat, len: nat)
    requires SameLength(channels, len) && at <= len
    ensures AtLeast(channels, at)
    ensures SameLength(From(channels, at), len - at)
    ensures AtLeast(From(channels, at), len - at)
  {
  }

  lemma {:induction false} JoinStep(channels: seq<Bytes>, at: nat, b: nat, len: nat)
    requires b > 0 && SameLength(channels, len) && at + b <= len
    ensures Join(From(channels, at), b, len - at) ==
      Heads(From(channels, at), b) + Join(From(channels, at + b), b, len - at - b)
  {
    assert Tails(From(channels, at), b) == From(channels, at + b);
  }

  /** The first i bytes of the output are done, and the channels from at on are left. */
  ghost predicate JoinedUpTo(out: Bytes, i: nat, channels: seq<Bytes>, at: nat, b: nat, len: nat)
    requires b > 0 && SameLength(channels, len) && at <= len && i <= |out|
  {
    out[..i] + Join(From(channels, at), b, len - at) == Join(channels, b, len)
  }

  /** A finished prefix that grows by the head of what is left. */
  lemma {:induction false} PrefixGrows(out: Bytes, next: Bytes, i: nat, head: Bytes, rest: Bytes, goal: Bytes)
    requires i + |head| <= |out| && out[..i] + (head + rest) == goal
    requires next == out[..i] + head + out[i + |head|..]
    ensures next[..i + |head|] + rest == goal
  {
    assert next[..i + |head|] == out[..i] + head;
    Regroup(out[..i], head, rest);
  }

  /** One block of the output, as the part of Join that it is. */
  lemma {:induction false} BlockJoined(channels: seq<Bytes>, at: nat, b: nat, len: nat, out: Bytes, next: Bytes, i: nat,
          size: nat)
    requires b > 0 && SameLength(channels, len) && at + b <= len && size == Offset(0, |channels|, b)
    requires i + size <= |out| == |next|
    requires JoinedUpTo(out, i, channels, at, b, len)
    requires next == out[..i] + Heads(From(channels, at), b) + out[i + size..]
    ensures JoinedUpTo(next, i + size, channels, at + b, b, len)
  {
    hide Join, Heads, Offset, SameLength, Tails, From;
    FromLengths(channels, at, len);
    FromLengths(channels, at + b, len);
    JoinStep(channels, at, b, len);
    var now, later := From(channels, at), From(channels, at + b);
    PrefixGrows(out, next, i, Heads(now, b), Join(later, b, len - at - b), Join(channels, b, len));
  }

  /** Positions in the output, at times n, against positions in the channels. */
  lemma {:induction false} Positions(at: nat, i: nat, len: nat, total: nat, n: nat, b: nat)
    requires n > 0 && at + b <= len && Blocks(at, i, n) && Blocks(len, total, n)
    ensures Offset(i, n, b) == i + Offset(0, n, b) <= total && Blocks(at + b, i + Offset(0, n, b), n)
  {
    MulAtMost(at + b, len, n);
    assert (at + b) * n == at * n + n * b;
  }

  lemma {:induction false} AllCopied(at: nat, i: nat, len: nat, total: nat, n: nat)
    requires n > 0 && Blocks(at, i, n) && Blocks(len, total, n) && at <= len
    ensures i / n == at && i <= total && (i == total <==> at == len)
  {
    DivExact(at, n);
    MulAtMost(at, len, n);
    if at < len {
      MulAtMost(at + 1, len, n);
      assert (at + 1) * n == at * n + n;
    }
  }

  /** What the copying loop keeps: i is at times the number of channels, and the output is done up to i. */
  ghost predicate CopyState(out: Bytes, i: nat, channels: seq<Bytes>, at: nat, b: nat, len: nat) {
    && b > 0 && SameLength(channels, len) && channels != []
    && at <= len && at % b == 0 && i <= |out|
    && Blocks(at, i, |channels|) && Blocks(len, |out|, |channels|)
    && JoinedUpTo(out, i, channels, at, b, len)
  }

  lemma {:induction false} CopyStart(out: Bytes, channels: seq<Bytes>, b: nat, len: nat)
    requires channels != [] && b > 0 && SameLength(channels, len) && |out| == len * |channels|
    ensures CopyState(out, 0, channels, 0, b, len)
  {
    assert From(channels, 0) == channels;
  }

  lemma {:induction false} RestOfBlock(at: nat, b: nat, len: nat)
    requires b > 0 && at % b == 0 && at <= len < at + b
    ensures len % b == len - at
  {
    QuotientUnique(len, b, at / b, len - at);
  }

  lemma {:induction false} CopyReady(out: Bytes, i: nat, channels: seq<Bytes>, at: nat, b: nat, len: nat)
    requires CopyState(out, i, channels, at, b, len) && i < |out|
    ensures i / |channels| == at < len
    ensures at + b <= len ==>
      AtLeast(channels, at + b) && Offset(i, |channels|, b) == i + Offset(0, |channels|, b) <= |out|
    ensures at + b > len ==> len % b == len - at
  {
    hide JoinedUpTo, Blocks, Offset;
    AllCopied(at, i, len, |out|, |channels|);
    if at + b <= len {
      Positions(at, i, len, |out|, |channels|, b);
    } else {
      RestOfBlock(at, b, len);
    }
  }

  lemma {:induction false} NextMultiple(at: nat, b: nat)
    requires b > 0 && at % b == 0
    ensures (at + b) % b == 0
  {
    QuotientUnique(at + b, b, at / b + 1, 0);
  }

  lemma {:induction false} CopyTurn(out: Bytes, next: Bytes, i: nat, channels: seq<Bytes>, at: nat, b: nat, len: nat)
    requires CopyState(out, i, channels, at, b, len) && i < |out| && |next| == |out|
    requires at + b <= len && AtLeast(channels, at + b) && Offset(i, |channels|, b) <= |out|
    requires next == out[..i] + Heads(From(channels, at), b) + out[Offset(i, |channels|, b)..]
    ensures CopyState(next, i + Offset(0, |channels|, b), channels, at + b, b, len)
  {
    hide Join, Heads, Offset, Blocks, JoinedUpTo, SameLength, From, AtLeast, Tails;
    Positions(at, i, len, |out|, |channels|, b);
    NextMultiple(at, b);
    BlockJoined(channels, at, b, len, out, next, i, Offset(0, |channels|, b));
  }

  lemma {:induction false} CopyEnd(out: Bytes, i: nat, channels: seq<Bytes>, at: nat, b: nat, len: nat)
    requires CopyState(out, i, channels, at, b, len) && i >= |out|
    ensures len % b == 0 && out == Join(channels, b, len)
  {
    AllCopied(at, i, len, |out|, |channels|);
    JoinUnfold(From(channels, at), b, len - at);
    hide Join;
    assert out[..i] == out;
  }

  lemma {:induction false} RemainderStep(len: nat, b: nat)
    requires b > 0
    ensures if len < b then len % b == len else (len - b) % b == len % b <= len - b
  {
    if len < b {
      QuotientUnique(len, b, 0, len);
    } else {
      assert len == len / b * b + len % b;
      assert len - b == (len / b - 1) * b + len % b;
      QuotientUnique(len - b, b, len / b - 1, len % b);
    }
  }

  lemma {:induction false} HeadsOfNone(b: nat)
    ensures Heads([], b) == []
  {
  }

  lemma {:induction false} TailsOfOne(c: Bytes, b: nat)
    requires b <= |c|
    ensures AtLeast([c], b) && Tails([c], b) == [c[b..]]
  {
  }

  lemma {:induction false} HeadsOfOne(c: Bytes, b: nat)
    requires b <= |c| && AtLeast([c], b)
    ensures Heads([c], b) == c[..b]
  {
    hide *;
    HeadsStep([c], b, 0);
    HeadsOfNone(b);
    assert [c][..1] == [c] && [c][..0] == [] && [] + c[..b] == c[..b];
  }

  /** Joining the blocks of one channel gives back its whole blocks. */
  lemma {:induction false} JoinOfOne(channels: seq<Bytes>, b: nat, len: nat)
    requires b > 0 && |channels| == 1 && SameLength(channels, len)
    ensures |channels[0]| == len && len % b <= len && Join(channels, b, len) == channels[0][..len - len % b]
    decreases len
  {
    JoinUnfold(channels, b, len);
    RemainderStep(len, b);
    if len < b {
      assert channels[0][..0] == [];
    } else {
      var c, end := channels[0], len - len % b;
      assert channels == [c];
      TailsOfOne(c, b);
      HeadsOfOne(c, b);
      hide Join, Heads, Tails, AtLeast;
      JoinOfOne([c[b..]], b, len - b);
      assert c[..b] + c[b..][..end - b] == c[..end];
    }
  }

  /** The last copy of a lone channel may end in the NUL behind its data: it is written over the NUL of the output. */
  lemma {:induction false} TerminatorCopied(out: Bytes, i: nat, channels: seq<Bytes>, at: nat, b: nat, len: nat)
    requires CopyState(out, i, channels, at, b, len) && |channels| == 1 && at + b == len + 1 && i < |out|
    ensures at <= |channels[0]| && out[..i] + channels[0][at..] == channels[0]
  {
    CopyReady(out, i, channels, at, b, len);
    JoinOfOne(channels, b, len);
    JoinOfOne(From(channels, at), b, len - at);
    QuotientUnique(len - at, b, 0, len - at);
  }

  lemma {:induction false} WriteEnds(i: nat, at: nat, n: nat, b: nat, len: nat, total: nat)
    requires n > 0 && Blocks(at, i, n) && Blocks(len, total, n) && at + b == len + 1
    ensures Offset(i, n, b) == total + n
  {
    assert at * n + n * b == (at + b) * n == len * n + n;
  }

  /** What one turn of the copying loop did: it went on, ended on the terminators, or left its bounds. */
  datatype Turn = Next(out: Bytes) | Last(out: Bytes) | Beyond

  /**
   * One turn of the copying loop. Strings end in a NUL that may be read, and written over with a NUL, so the turn is
   * in bounds when no read and no write ends more than one byte behind the data.
   */
  method CopyNext(out: Bytes, i: nat, channels: seq<Bytes>, b: nat, len: nat, ghost at: nat) returns (r: Turn)
    requires CopyState(out, i, channels, at, b, len) && i < |out|
    ensures match r
            case Next(next) =>
              at + b <= len && |next| == |out| &&
                CopyState(next, i + Offset(0, |channels|, b), channels, at + b, b, len)
            case Last(next) => len % b == b - 1 && len % b != 0 && |channels| == 1 && next == channels[0]
            case Beyond => len % b != 0 && (|channels| > 1 || len % b != b - 1)
  {
    CopyReady(out, i, channels, at, b, len);
    assert channels != [] && b > 0 && Blocks(at, i, |channels|) && Blocks(len, |out|, |channels|);
    hide CopyState, Heads, Join, SameLength, From, Tails, Blocks, JoinedUpTo, AtLeast, Offset;
    if i / |channels| + b <= len {
      var next := CopyBlock(out, channels, i, i / |channels|, b);
      CopyTurn(out, next, i, channels, at, b, len);
      return Next(next);
    }
    if i / |channels| + b > len + 1 {
      return Beyond;
    }
    WriteEnds(i, at, |channels|, b, len, |out|);
    if Offset(i, |channels|, b) > |out| + 1 {
      return Beyond;
    }
    TerminatorCopied(out, i, channels, at, b, len);
    return Last(out[..i] + channels[0][i / |channels|..]);
  }

  /** The copying loops on non-empty blocks. */
  method Interleave(channels: seq<Bytes>, b: nat, len: nat) returns (r: Outcome<Bytes>)
    requires channels != [] && b > 0 && SameLength(channels, len)
    ensures r == if len % b == 0 then Done(Join(channels, b, len))
                 else if |channels| == 1 && len % b == b - 1 then Done(channels[0])
                 else OutOfBounds
  {
    hide *;
    var size := Offset(0, |channels|, b);
    var out: Bytes := seq(len * |channels|, _ => 0);
    var i: nat := 0;
    ghost var at: nat := 0;
    CopyStart(out, channels, b, len);
    while i < |out|
      invariant at <= len && CopyState(out, i, channels, at, b, len)
      decreases len - at
    {
      var turn := CopyNext(out, i, channels, b, len, at);
      match turn {
        case Beyond => return OutOfBounds;
        case Last(whole) => return Done(whole);
        case Next(next) => out := next;
      }
      i := i + size;
      at := at + b;
    }
    CopyEnd(out, i, channels, at, b, len);
    return Done(out);
  }

  lemma {:induction false} MergeLengths(v: seq<Payload>)
    requires CanMerge(v)
    ensures v != [] && SameLength(Datas(v), |v[0].data|)
  {
    forall i | 0 <= i < |v|
      ensures |v[i].data| == |v[0].data|
    {
      assert AgreesAt(v, i);
    }
  }

  lemma {:induction false} MergesWithoutOverflow(v: seq<Payload>)
    requires CanMerge(v)
    ensures !Overflows(v)
  {
    hide Agrees, AgreesBefore, MergedFormat, BlockOverflows;
    AgreeingFits(v, 0);
    forall i | 0 <= i < |v|
      ensures !OverflowsAt(v, i)
    {
      AgreeingFits(v, i);
    }
  }

  /** A lone channel whose data end one byte before a block does. */
  predicate EndsInTerminator(v: seq<Payload>)
    requires v != [] && v[0].format.bytesPerBlock > 0
  {
    |v| == 1 && |v[0].data| % v[0].format.bytesPerBlock == v[0].format.bytesPerBlock - 1
  }

  /**
   * Fails exactly where an assertion does, unless a block size overflows before that. With empty blocks the copying
   * loop does not advance, so it ends only when there is nothing to copy. With other blocks it stays in bounds exactly
   * when the data are whole blocks, or one channel that the NUL behind its data completes.
   */
  method ChannelMerge(v: seq<Payload>) returns (r: Outcome<Payload>)
    ensures r.Overflow? <==> Overflows(v)
    ensures r.AssertionFailed? <==> !Overflows(v) && !CanMerge(v)
    ensures r.OutOfBounds? <==>
              && CanMerge(v) && v[0].format.bytesPerBlock > 0
              && |v[0].data| % v[0].format.bytesPerBlock != 0 && !EndsInTerminator(v)
    ensures r.Endless? <==> CanMerge(v) && v[0].format.bytesPerBlock == 0 && v[0].data != []
    ensures !r.DivisionByZero?
    ensures r.Done? ==> SameLength(Datas(v), |v[0].data|) && r.value.format == MergedFormat(v[0].format, |v|)
    ensures r.Done? ==> r.value.data == if |v| == 1 || v[0].data == [] then v[0].data
                                        else Join(Datas(v), v[0].format.bytesPerBlock, |v[0].data|)
  {
    var check := CheckMerge(v);
    if !check.Done? {
      return if check.Overflow? then Overflow else AssertionFailed;
    }
    MergesWithoutOverflow(v);
    MergeLengths(v);
    hide CanMerge, MergedFormat, Overflows, SameLength;
    var format, b := check.value, v[0].format.bytesPerBlock;
    if b == 0 {
      return if v[0].data == [] then Done(Payload(format, [])) else Endless;
    }
    var data := Interleave(Datas(v), b, |v[0].data|);
    if data.OutOfBounds? {
      return OutOfBounds;
    }
    JoinUnfold(Datas(v), b, |v[0].data|);
    if |v| == 1 {
      JoinOfOne(Datas(v), b, |v[0].data|);
    }
    return Done(Payload(format, data.value));
  }

  /** With an odd number of bytes a lone channel of two-byte blocks comes back whole. */
  method TerminatorExample() returns (r: Outcome<Payload>)
    ensures r == Done(Payload(Format(1, 1, 8000, 16000, 2, 16), [7]))
  {
    var p := Payload(Format(1, 1, 8000, 16000, 2, 16), [7]);
    assert CanMerge([p]) && EndsInTerminator([p]) && !Overflows([p]);
    assert MergedFormat(p.format, 1) == p.format;
    hide *;
    r := ChannelMerge([p]);
  }

  // ---- Round trip ----

  lemma {:induction false} FormatRestored(f: Format)
    requires f.channelCount > 0 && f.bytesPerSec % f.channelCount == 0 && f.bytesPerBlock % f.channelCount == 0
    ensures MergedFormat(ChannelFormat(f), f.channelCount) == f
    ensures f.bytesPerBlock / f.channelCount * f.channelCount == f.bytesPerBlock
  {
  }

  /** Merging what was split gives the payload back; nothing in channel_merge goes wrong on it. */
  method SplitThenMerge(p: Payload) returns (r: Outcome<Payload>)
    ensures r == if CanSplit(p) then Done(p) else if DividesByZero(p) then DivisionByZero else AssertionFailed
  {
    var v := ChannelSplit(p);
    if !v.Done? {
      return if v.DivisionByZero? then DivisionByZero else AssertionFailed;
    }
    SplitMerges(p, v.value);
    hide CanMerge, CanSplit, Join, AreChannels, Overflows;
    r := ChannelMerge(v.value);
  }

  lemma {:induction false} SplitMerges(p: Payload, v: seq<Payload>)
    requires CanSplit(p) && |v| == p.format.channelCount
    requires forall c :: c in v ==> c.format == ChannelFormat(p.format)
    requires AreChannels(Datas(v), p.data, p.format.bytesPerBlock / p.format.channelCount)
    ensures CanMerge(v) && !Overflows(v) && v[0].format.bytesPerBlock > 0
    ensures |v[0].data| % v[0].format.bytesPerBlock == 0 && SameLength(Datas(v), |v[0].data|)
    ensures MergedFormat(v[0].format, |v|) == p.format
    ensures p.data == if |v| == 1 || v[0].data == [] then v[0].data
      else Join(Datas(v), v[0].format.bytesPerBlock, |v[0].data|)
  {
    SplitCanMerge(p, v);
    hide AreChannels, CanSplit;
    JoinUnfold(Datas(v), v[0].format.bytesPerBlock, |v[0].data|);
    if |v| == 1 {
      JoinOfOne(Datas(v), v[0].format.bytesPerBlock, |v[0].data|);
    }
    MergesWithoutOverflow(v);
  }

  lemma {:induction false} SplitLengths(p: Payload, v: seq<Payload>, size: nat, b: nat, blocks: nat)
    requires b > 0 && size == |v| * b && AreChannels(Datas(v), p.data, b) && |p.data| == blocks * size
    ensures SameLength(Datas(v), blocks * b)
  {
    forall j: nat | j < |v| ensures |Datas(v)[j]| == blocks * b {
      ChannelLength(p.data, size, b, j, blocks);
    }
  }

  /** The data of the channels, joined block by block. */
  lemma {:induction false} SplitRestores(p: Payload, v: seq<Payload>, n: nat, size: nat, b: nat)
    requires b > 0 && n == |v| > 0 && size == n * b && |p.data| % size == 0 && AreChannels(Datas(v), p.data, b)
    ensures |v[0].data| % b == 0 && SameLength(Datas(v), |v[0].data|) && Join(Datas(v), b, |v[0].data|) == p.data
  {
    var blocks := |p.data| / size;
    assert blocks * size == |p.data|;
    SplitLengths(p, v, size, b, blocks);
    var len := blocks * b;
    QuotientUnique(len, b, blocks, 0);
    assert Blocks(blocks, |p.data|, Offset(0, |v|, b)) && Blocks(blocks, len, b);
    assert Datas(v)[0] == v[0].data;
    hide AreChannels, Join, Blocks, Offset;
    JoinRestores(Datas(v), p.data, b, len, blocks);
  }

  lemma {:induction false} SplitCanMerge(p: Payload, v: seq<Payload>)
    requires CanSplit(p) && |v| == p.format.channelCount
    requires forall c :: c in v ==> c.format == ChannelFormat(p.format)
    requires AreChannels(Datas(v), p.data, p.format.bytesPerBlock / p.format.channelCount)
    ensures var b, len := v[0].format.bytesPerBlock, |v[0].data|;
            && b > 0 && len % b == 0 && CanMerge(v) && SameLength(Datas(v), len)
            && Payload(MergedFormat(v[0].format, |v|), Join(Datas(v), b, len)) == p
  {
    var size, n, b := p.format.bytesPerBlock, p.format.channelCount, p.format.bytesPerBlock / p.format.channelCount;
    FormatRestored(p.format);
    assert v[0] in v && n * b == size;
    hide AreChannels, Join, CanMerge, MergedFormat, SameLength;
    SplitRestores(p, v, n, size, b);
    FormatsAgree(p, v, |v[0].data|);
  }

  lemma {:induction false} FormatsAgree(p: Payload, v: seq<Payload>, len: nat)
    requires CanSplit(p) && |v| == p.format.channelCount
    requires forall c :: c in v ==> c.format == ChannelFormat(p.format)
    requires SameLength(Datas(v), len)
    ensures CanMerge(v)
  {
    FormatRestored(p.format);
    forall i | 0 <= i < |v| ensures v[i].format == ChannelFormat(p.format) && |v[i].data| == len {
      assert v[i] in v && Datas(v)[i] == v[i].data;
    }
  }

  // ---- The other round trip ----

  lemma {:induction false} SliceOfSum(front: Bytes, last: Bytes, lo: nat, hi: nat)
    requires lo <= hi
    ensures hi <= |front| ==> (front + last)[lo..hi] == front[lo..hi]
    ensures lo == |front| && hi == |front| + |last| ==> (front + last)[lo..hi] == last
  {
  }

  lemma {:induction false} HeadAt(channels: seq<Bytes>, b: nat, j: nat)
    requires j < |channels| && AtLeast(channels, b)
    ensures j * b <= (j + 1) * b <= |Heads(channels, b)| && Heads(channels, b)[j * b..(j + 1) * b] == channels[j][..b]
    decreases |channels|
  {
    var n := |channels| - 1;
    var front := Heads(channels[..n], b);
    HeadsStep(channels, b, n);
    assert channels[..n + 1] == channels;
    hide Heads;
    OffsetNext(0, j, |channels|, b);
    assert j * b <= (j + 1) * b;
    SliceOfSum(front, channels[n][..b], j * b, (j + 1) * b);
    if j < n {
      HeadAt(channels[..n], b, j);
    }
  }

  /** The share of one channel in a text that begins with a block. */
  lemma {:induction false} ChannelOfBlock(channels: seq<Bytes>, b: nat, rest: Bytes, j: nat)
    requires j < |channels| && b > 0 && AtLeast(channels, b)
    requires Fits(j, b, |channels| * b) && 0 < |channels| * b
    ensures Channel(Heads(channels, b) + rest, |channels| * b, b, j) ==
      channels[j][..b] + Channel(rest, |channels| * b, b, j)
  {
    var size, head := |channels| * b, Heads(channels, b);
    HeadAt(channels, b, j);
    assert |head| == size;
    hide Heads;
    ChannelStep(head + rest, size, b, j);
    assert (head + rest)[size..] == rest;
    assert (head + rest)[j * b..(j + 1) * b] == head[j * b..(j + 1) * b];
    assert Channel(head + rest, size, b, j) ==
      (head + rest)[j * b..(j + 1) * b] + Channel((head + rest)[size..], size, b, j);
  }

  /** Every channel can be read back out of the joined blocks. */
  lemma {:induction false} ChannelOfJoin(channels: seq<Bytes>, b: nat, len: nat, k: nat, j: nat)
    requires b > 0 && SameLength(channels, len) && Blocks(k, len, b) && j < |channels|
    requires Fits(j, b, |channels| * b) && 0 < |channels| * b
    ensures Channel(Join(channels, b, len), |channels| * b, b, j) == channels[j]
    decreases k
  {
    OneBlockLess(k, len, b);
    JoinUnfold(channels, b, len);
    hide Blocks, Fits, Join;
    if k > 0 {
      var rest := Tails(channels, b);
      ChannelOfBlock(channels, b, Join(rest, b, len - b), j);
      ChannelOfJoin(rest, b, len - b, k - 1, j);
      hide Channel, Heads, Tails;
      assert channels[j][..b] + channels[j][b..] == channels[j];
    }
  }

  lemma {:induction false} JoinLength(channels: seq<Bytes>, b: nat, len: nat, k: nat)
    requires b > 0 && SameLength(channels, len) && Blocks(k, len, b)
    ensures |Join(channels, b, len)| == k * (|channels| * b)
    decreases k
  {
    OneBlockLess(k, len, b);
    JoinUnfold(channels, b, len);
    hide Blocks, Join;
    if k > 0 {
      JoinLength(Tails(channels, b), b, len - b, k - 1);
      assert k * (|channels| * b) == (k - 1) * (|channels| * b) + |channels| * b;
    }
  }

  /** No channel's rate wraps around when it is multiplied by the number of channels. */
  ghost predicate RatesFit(v: seq<Payload>) {
    forall i :: 0 <= i < |v| ==> v[i].format.bytesPerSec * |v| < 0x1_0000_0000
  }

  lemma {:induction false} RateRestored(g: nat, n: nat, sum: U32)
    requires n > 0 && sum == Truncated32(g * n)
    ensures sum % n == 0 && g == sum / n <==> g * n < 0x1_0000_0000
  {
    if g * n < 0x1_0000_0000 {
      DivExact(g, n);
      QuotientUnique(g * n, n, g, 0);
    } else if sum % n == 0 {
      assert sum / n * n == sum;
    }
  }

  lemma {:induction false} MergedBlock(b: nat, n: nat, g: nat)
    requires n > 0 && b > 0 && b * n % 0x1_0000 == g * n && b * n % 0x1_0000 == b * n
    ensures g == b && b * n > 0 && b * n / n == b && b * n % n == 0
  {
    DivExact(b, n);
    DivExact(g, n);
    QuotientUnique(b * n, n, b, 0);
  }

  /** The format of a channel comes back out of the merged format exactly when its rate did not wrap. */
  lemma {:induction false} FormatComesBack(v: seq<Payload>, i: nat)
    requires CanMerge(v) && i < |v| && v[0].format.bytesPerBlock > 0
    ensures var f := MergedFormat(v[0].format, |v|);
            && f.bytesPerBlock == |v| * v[0].format.bytesPerBlock > 0 && f.bytesPerBlock % |v| == 0
            && f.bytesPerBlock / |v| == v[0].format.bytesPerBlock
            && (f.bytesPerSec % |v| == 0 && v[i].format == ChannelFormat(f) <==>
              v[i].format.bytesPerSec * |v| < 0x1_0000_0000)
  {
    var n := |v|;
    var f, g := MergedFormat(v[0].format, n), v[i].format;
    assert AgreesAt(v, 0) && AgreesAt(v, i);
    MergedBlock(v[0].format.bytesPerBlock, n, g.bytesPerBlock);
    RateRestored(g.bytesPerSec, n, f.bytesPerSec);
  }

  /** Splitting what was merged gives the channels back if and only if no rate wrapped around. */
  method MergeThenSplit(v: seq<Payload>) returns (r: Outcome<seq<Payload>>)
    requires CanMerge(v) && v[0].format.bytesPerBlock > 0 && |v[0].data| % v[0].format.bytesPerBlock == 0
    ensures r == Done(v) <==> RatesFit(v)
  {
    MergesWithoutOverflow(v);
    var merged := ChannelMerge(v);
    MergedCanSplit(v, merged.value);
    hide CanMerge, CanSplit, Join, AreChannels, MergedFormat, ChannelFormat, Overflows;
    r := ChannelSplit(merged.value);
    if r.Done? {
      SplitOfMerged(v, merged.value, r.value);
    }
  }

  /** Two channels with different rates that pass the assertions, since their doubles agree in 32 bits. */
  lemma {:induction false} RatesWrapExample()
    ensures var fast, slow := Format(1, 1, 8000, 0x8000_0000, 1, 8), Format(1, 1, 8000, 0, 1, 8);
            var v := [Payload(fast, [7]), Payload(slow, [8])];
            CanMerge(v) && !RatesFit(v)
  {
    var fast, slow := Format(1, 1, 8000, 0x8000_0000, 1, 8), Format(1, 1, 8000, 0, 1, 8);
    var v := [Payload(fast, [7]), Payload(slow, [8])];
    assert v[0].format.bytesPerSec * |v| == 0x1_0000_0000;
  }

  /** The merged data as blocks of all channels. */
  lemma {:induction false} MergedData(v: seq<Payload>, data: Bytes, n: nat, b: nat, len: nat)
    requires b > 0 && n == |v| > 0 && len % b == 0 && SameLength(Datas(v), len) && len == |v[0].data|
    requires data == if n == 1 || v[0].data == [] then v[0].data else Join(Datas(v), b, len)
    ensures n * b > 0 && |data| % (n * b) == 0 && AreChannels(Datas(v), data, b)
  {
    hide *;
    WholeBlocks(len, b, n);
    JoinedData(v, data, b, len);
    JoinLength(Datas(v), b, len, len / b);
    JoinIsOfChannels(Datas(v), b, len, len / b);
  }

  lemma {:induction false} WholeBlocks(len: nat, b: nat, n: nat)
    requires b > 0 && n > 0 && len % b == 0
    ensures Blocks(len / b, len, b) && n * b > 0 && len / b * (n * b) % (n * b) == 0
  {
    QuotientUnique(len / b * (n * b), n * b, len / b, 0);
  }

  lemma {:induction false} JoinedData(v: seq<Payload>, data: Bytes, b: nat, len: nat)
    requires b > 0 && v != [] && len % b == 0 && SameLength(Datas(v), len) && len == |v[0].data|
    requires data == if |v| == 1 || v[0].data == [] then v[0].data else Join(Datas(v), b, len)
    ensures data == Join(Datas(v), b, len)
  {
    assert Datas(v)[0] == v[0].data;
    hide Join;
    JoinUnfold(Datas(v), b, len);
    if |v| == 1 {
      JoinOfOne(Datas(v), b, len);
    }
  }

  lemma {:induction false} JoinIsOfChannels(channels: seq<Bytes>, b: nat, len: nat, k: nat)
    requires b > 0 && channels != [] && SameLength(channels, len) && Blocks(k, len, b) && 0 < |channels| * b
    ensures AreChannels(channels, Join(channels, b, len), b)
  {
    hide Join, Channel, Blocks, SameLength;
    AllFit(|channels|, b);
    forall j: nat | j < |channels|
      ensures channels[j] == Channel(Join(channels, b, len), |channels| * b, b, j)
    {
      ChannelOfJoin(channels, b, len, k, j);
    }
  }

  lemma {:induction false} MergedCanSplit(v: seq<Payload>, p: Payload)
    requires CanMerge(v) && v[0].format.bytesPerBlock > 0 && |v[0].data| % v[0].format.bytesPerBlock == 0
    requires SameLength(Datas(v), |v[0].data|) && p.format == MergedFormat(v[0].format, |v|)
    requires p.data == if |v| == 1 || v[0].data == [] then v[0].data
                       else Join(Datas(v), v[0].format.bytesPerBlock, |v[0].data|)
    ensures p.format.channelCount == |v| && p.format.bytesPerBlock > 0
    ensures p.format.bytesPerBlock / |v| == v[0].format.bytesPerBlock
    ensures CanSplit(p) <==> p.format.bytesPerSec % |v| == 0
    ensures CanSplit(p) ==> FormatsComeBack(v, p.format)
    ensures !CanSplit(p) ==> !RatesFit(v)
    ensures AreChannels(Datas(v), p.data, v[0].format.bytesPerBlock)
  {
    var n := |v|;
    forall i: nat | i < n
      ensures p.format.bytesPerSec % n == 0 && v[i].format == ChannelFormat(p.format) <==>
              v[i].format.bytesPerSec * n < 0x1_0000_0000
    {
      FormatComesBack(v, i);
    }
    FormatComesBack(v, 0);
    hide CanMerge, MergedFormat, ChannelFormat, Join, AreChannels;
    MergedData(v, p.data, n, v[0].format.bytesPerBlock, |v[0].data|);
  }

  /** A channel has the format that splitting gives exactly when its rate fits. */
  ghost predicate FormatsComeBack(v: seq<Payload>, f: Format) {
    && f.channelCount > 0
    && forall i :: 0 <= i < |v| ==> (v[i].format == ChannelFormat(f) <==> v[i].format.bytesPerSec * |v| < 0x1_0000_0000)
  }

  lemma {:induction false} SplitOfMerged(v: seq<Payload>, p: Payload, w: seq<Payload>)
    requires p.format.channelCount == |v| > 0 && |w| == |v| && 0 < p.format.bytesPerBlock
    requires FormatsComeBack(v, p.format)
    requires AreChannels(Datas(v), p.data, p.format.bytesPerBlock / |v|)
    requires AreChannels(Datas(w), p.data, p.format.bytesPerBlock / |v|)
    requires forall c :: c in w ==> c.format == ChannelFormat(p.format)
    ensures w == v <==> RatesFit(v)
  {
    forall i | 0 <= i < |v|
      ensures w[i].data == v[i].data && w[i].format == ChannelFormat(p.format)
    {
      assert Datas(v)[i] == Datas(w)[i] && w[i] in w;
    }
  }
}
