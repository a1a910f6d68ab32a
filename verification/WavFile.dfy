/** WAV files as byte strings: writing a payload and reading it back. */
module WavFile {
  import opened Arith
  import opened Wrappers

  type Byte = x: nat | x < 256
  type U16 = x: nat | x < 0x1_0000
  type U32 = x: nat | x < 0x1_0000_0000
  type Bytes = seq<Byte>

  datatype Format = Format(formatType: U16, channelCount: U16, sampleRate: U32, bytesPerSec: U32, bytesPerBlock: U16,
    bitsPerSample: U16)

  datatype Payload = Payload(format: Format, data: Bytes)

  // ---- Integers, low byte first ----

  function Little(n: nat, width: nat): (r: Bytes)
    ensures |r| == width
  {
    if width == 0 then [] else [n % 256] + Little(n / 256, width - 1)
  }

  function Number(b: Bytes): nat {
    if b == [] then 0 else b[0] + 256 * Number(b[1..])
  }

  function Power256(width: nat): nat {
    if width == 0 then 1 else 256 * Power256(width - 1)
  }

  lemma {:induction false} NumberBound(b: Bytes)
    ensures Number(b) < Power256(|b|)
  {
    if b != [] {
      NumberBound(b[1..]);
    }
  }

  lemma {:induction false} LittleNumber(n: nat, width: nat)
    requires n < Power256(width)
    ensures Number(Little(n, width)) == n
  {
    if width > 0 {
      LittleNumber(n / 256, width - 1);
      assert Little(n, width)[1..] == Little(n / 256, width - 1);
    }
  }

  /** The low byte comes first. */
  lemma {:induction false} LittleDigits(n: nat, width: nat, i: nat)
    requires i < width
    ensures Power256(i) > 0 && Little(n, width)[i] == n / Power256(i) % 256
  {
    if i > 0 {
      LittleDigits(n / 256, width - 1, i - 1);
      DivideTwice(n, 256, Power256(i - 1));
    }
  }

  lemma {:induction false} DivideTwice(n: nat, a: nat, b: nat)
    requires a > 0 && b > 0
    ensures a * b > 0 && n / a / b == n / (a * b)
  {
    var q, r := n / a / b, n / a % b;
    assert n == (n / a) * a + n % a && n / a == q * b + r;
    assert n == (q * b + r) * a + n % a == q * (a * b) + (r * a + n % a);
    assert r * a <= (b - 1) * a;
    assert (b - 1) * a + a == a * b;
    QuotientUnique(n, a * b, q, r * a + n % a);
  }

  lemma {:induction false} NumberLittle(b: Bytes)
    ensures Little(Number(b), |b|) == b
  {
    if b != [] {
      NumberLittle(b[1..]);
    }
  }

  function Read16(b: Bytes): U16
    requires |b| == 2
  {
    NumberBound(b);
    assert Power256(2) == 0x1_0000;
    Number(b)
  }

  function Read32(b: Bytes): U32
    requires |b| == 4
  {
    NumberBound(b);
    assert Power256(4) == 0x1_0000_0000;
    Number(b)
  }

  /** The conversion to uint32_t. */
  function Truncated32(n: nat): U32 { n % 0x1_0000_0000 }

  // ---- Identifiers ----

  const RIFF: Bytes := [0x52, 0x49, 0x46, 0x46]
  const WAVE: Bytes := [0x57, 0x41, 0x56, 0x45]
  const FMT: Bytes := [0x66, 0x6d, 0x74, 0x20]
  const DATA: Bytes := [0x64, 0x61, 0x74, 0x61]
  const LIST: Bytes := [0x4c, 0x49, 0x53, 0x54]

  function FormatBytes(f: Format): (r: Bytes)
    ensures |r| == 16
  {
    Little(f.formatType, 2) + Little(f.channelCount, 2) + Little(f.sampleRate, 4)
    + Little(f.bytesPerSec, 4) + Little(f.bytesPerBlock, 2) + Little(f.bitsPerSample, 2)
  }

  function ReadFormat(b: Bytes): Format
    requires |b| == 16
  {
    Format(Read16(b[0..2]), Read16(b[2..4]), Read32(b[4..8]), Read32(b[8..12]), Read16(b[12..14]), Read16(b[14..16]))
  }

  lemma {:induction false} FormatRoundTrip(f: Format)
    ensures ReadFormat(FormatBytes(f)) == f
  {
    assert Power256(2) == 0x1_0000 && Power256(4) == 0x1_0000_0000;
    LittleNumber(f.formatType, 2);
    LittleNumber(f.channelCount, 2);
    LittleNumber(f.sampleRate, 4);
    LittleNumber(f.bytesPerSec, 4);
    LittleNumber(f.bytesPerBlock, 2);
    LittleNumber(f.bitsPerSample, 2);
    hide Little, Number;
    var b := FormatBytes(f);
    assert b[0..2] == Little(f.formatType, 2);
    assert b[2..4] == Little(f.channelCount, 2);
    assert b[4..8] == Little(f.sampleRate, 4);
    assert b[8..12] == Little(f.bytesPerSec, 4);
    assert b[12..14] == Little(f.bytesPerBlock, 2);
    assert b[14..16] == Little(f.bitsPerSample, 2);
  }

  // ---- The format: a header and a list of chunks ----

  datatype Chunk = Chunk(id: Bytes, body: Bytes)

  function ChunkBytes(c: Chunk): Bytes {
    c.id + Little(|c.body|, 4) + c.body
  }

  function Flat(chunks: seq<Chunk>): Bytes {
    if chunks == [] then [] else ChunkBytes(chunks[0]) + Flat(chunks[1..])
  }

  predicate GoodChunk(c: Chunk) {
    |c.body| < 0x1_0000_0000 && (c.id == LIST || c.id == DATA || (c.id == FMT && |c.body| == 16))
  }

  /** What the chunks say: at most one format and at most one data chunk, in any order, among lists. */
  function Meaning(chunks: seq<Chunk>, format: Option<Format>, data: Option<Bytes>): Option<Payload> {
    if chunks == [] then
      if format.Some? && data.Some? then Some(Payload(format.value, data.value)) else None
    else if !GoodChunk(chunks[0]) then None
    else if chunks[0].id == LIST then Meaning(chunks[1..], format, data)
    else if chunks[0].id == FMT then
      if format.Some? then None else Meaning(chunks[1..], Some(ReadFormat(chunks[0].body)), data)
    else
      if data.Some? then None else Meaning(chunks[1..], format, Some(chunks[0].body))
  }

  function WithoutLists(chunks: seq<Chunk>): seq<Chunk> {
    if chunks == [] then []
    else if chunks[0].id == LIST then WithoutLists(chunks[1..])
    else [chunks[0]] + WithoutLists(chunks[1..])
  }

  /** Among lists of any length, one chunk with the format and one with the data, in either order. */
  ghost predicate Holds(chunks: seq<Chunk>, p: Payload) {
    WithoutLists(chunks) == FormatFirst(p) || WithoutLists(chunks) == DataFirst(p)
  }

  function FormatFirst(p: Payload): seq<Chunk> {
    [Chunk(FMT, FormatBytes(p.format)), Chunk(DATA, p.data)]
  }

  function DataFirst(p: Payload): seq<Chunk> {
    [Chunk(DATA, p.data), Chunk(FMT, FormatBytes(p.format))]
  }

  /** raw is a file for p: its header announces its length, and its chunks hold p. */
  ghost predicate IsFileOf(raw: Bytes, p: Payload, chunks: seq<Chunk>) {
    && 8 <= |raw| < 0x1_0000_0000
    && raw == RIFF + Little(|raw| - 8, 4) + WAVE + Flat(chunks)
    && Holds(chunks, p)
  }

  /** raw is a file for p. */
  ghost predicate IsFile(raw: Bytes, p: Payload) {
    exists chunks: seq<Chunk> :: IsFileOf(raw, p, chunks)
  }

  ghost predicate Fit(chunks: seq<Chunk>) {
    forall c :: c in chunks ==> |c.body| < 0x1_0000_0000
  }

  lemma {:induction false} FlatFits(chunks: seq<Chunk>)
    requires |Flat(chunks)| < 0x1_0000_0000
    ensures Fit(chunks)
  {
    if chunks != [] {
      FlatFits(chunks[1..]);
      assert forall c :: c in chunks ==> c == chunks[0] || c in chunks[1..];
    }
  }

  /** The chunks that are still expected when the format or the data have been seen. */
  ghost predicate StillHolds(chunks: seq<Chunk>, format: Option<Format>, data: Option<Bytes>, p: Payload) {
    var f, d := Chunk(FMT, FormatBytes(p.format)), Chunk(DATA, p.data);
    && (format.Some? ==> format.value == p.format)
    && (data.Some? ==> data.value == p.data)
    && var rest := WithoutLists(chunks);
       if format.Some? then if data.Some? then rest == [] else rest == [d]
       else if data.Some? then rest == [f]
       else rest == [f, d] || rest == [d, f]
  }

  lemma {:induction false} FormatBytesOf(b: Bytes)
    requires |b| == 16
    ensures FormatBytes(ReadFormat(b)) == b
  {
    NumberLittle(b[0..2]);
    NumberLittle(b[2..4]);
    NumberLittle(b[4..8]);
    NumberLittle(b[8..12]);
    NumberLittle(b[12..14]);
    NumberLittle(b[14..16]);
    hide Little, Number;
    assert b == b[0..2] + b[2..4] + b[4..8] + b[8..12] + b[12..14] + b[14..16];
  }

  lemma {:induction false} FormatIsBytes(b: Bytes, f: Format)
    requires |b| == 16
    ensures ReadFormat(b) == f <==> b == FormatBytes(f)
  {
    hide *;
    FormatRoundTrip(f);
    FormatBytesOf(b);
  }

  lemma {:induction false} HoldsStep(chunks: seq<Chunk>, format: Option<Format>, data: Option<Bytes>, p: Payload)
    requires chunks != []
    ensures var c, rest := chunks[0], chunks[1..];
            StillHolds(chunks, format, data, p) <==>
              if c.id == LIST then StillHolds(rest, format, data, p)
              else if c.id == FMT then
                format.None? && c.body == FormatBytes(p.format) && StillHolds(rest, Some(p.format), data, p)
              else
                c.id == DATA && data.None? && c.body == p.data && StillHolds(rest, format, Some(p.data), p)
  {
    var c, rest := chunks[0], WithoutLists(chunks[1..]);
    hide FormatBytes;
    if c.id != LIST {
      var all := [c] + rest;
      assert WithoutLists(chunks) == all && all[0] == c && all[1..] == rest;
      assert forall x: Chunk :: [x][0] == x && [x][1..] == [];
      assert forall x: Chunk, y: Chunk :: [x, y][0] == x && [x, y][1..] == [y];
    }
  }

  /** What the chunk loop makes of chunks is what they hold. */
  lemma {:induction false} MeaningIsHeld(chunks: seq<Chunk>, format: Option<Format>, data: Option<Bytes>, p: Payload)
    requires Fit(chunks)
    ensures Meaning(chunks, format, data) == Some(p) <==> StillHolds(chunks, format, data, p)
  {
    if chunks != [] {
      var c, rest := chunks[0], chunks[1..];
      HoldsStep(chunks, format, data, p);
      FormatFits(p.format);
      hide FormatBytes, ReadFormat, StillHolds;
      if c.id == LIST {
        MeaningIsHeld(rest, format, data, p);
      } else if c.id == FMT && |c.body| == 16 {
        FormatIsBytes(c.body, p.format);
        MeaningIsHeld(rest, Some(ReadFormat(c.body)), data, p);
        SeenIsHeld(rest, Some(ReadFormat(c.body)), data, p);
      } else if c.id == DATA {
        MeaningIsHeld(rest, format, Some(c.body), p);
        SeenIsHeld(rest, format, Some(c.body), p);
      }
    }
  }

  lemma {:induction false} HeldIsMeaning(chunks: seq<Chunk>, p: Payload)
    requires |Flat(chunks)| < 0x1_0000_0000
    ensures Holds(chunks, p) <==> Meaning(chunks, None, None) == Some(p)
  {
    FlatFits(chunks);
    MeaningIsHeld(chunks, None, None, p);
  }

  lemma {:induction false} FormatFits(f: Format)
    ensures |FormatBytes(f)| == 16
  {
  }

  lemma {:induction false} SeenIsHeld(chunks: seq<Chunk>, format: Option<Format>, data: Option<Bytes>, p: Payload)
    ensures StillHolds(chunks, format, data, p) && format.Some? ==> format.value == p.format
    ensures StillHolds(chunks, format, data, p) && data.Some? ==> data.value == p.data
  {
  }

  // ---- Reading ----

  /** One chunk off the front, if it is complete. */
  function FirstChunk(rem: Bytes): Option<Chunk> {
    if |rem| < 8 then None
    else
      var len := Read32(rem[4..8]);
      if |rem| - 8 < len then None else Some(Chunk(rem[..4], rem[8..8 + len]))
  }

  lemma {:induction false} FirstChunkBytes(rem: Bytes)
    requires FirstChunk(rem).Some?
    ensures var c := FirstChunk(rem).value;
            |c.id| == 4 && |c.body| < 0x1_0000_0000 && rem == ChunkBytes(c) + rem[8 + |c.body|..]
  {
    var c := FirstChunk(rem).value;
    NumberLittle(rem[4..8]);
    assert rem == rem[..4] + rem[4..8] + rem[8..8 + |c.body|] + rem[8 + |c.body|..];
  }

  lemma {:induction false} ChunkComesFirst(c: Chunk, rest: Bytes)
    requires GoodChunk(c)
    ensures FirstChunk(ChunkBytes(c) + rest) == Some(c) && (ChunkBytes(c) + rest)[8 + |c.body|..] == rest
  {
    var rem := ChunkBytes(c) + rest;
    assert Power256(4) == 0x1_0000_0000;
    LittleNumber(|c.body|, 4);
    hide Little, Number;
    assert rem[4..8] == Little(|c.body|, 4);
    assert rem[8..8 + |c.body|] == c.body;
    assert rem[..4] == c.id;
  }

  /** The chunk loop as a function of what is left and what has been seen. */
  function LoadChunks(rem: Bytes, format: Option<Format>, data: Option<Bytes>): Option<Payload>
    decreases |rem|
  {
    if rem == [] then Meaning([], format, data)
    else
      var first := FirstChunk(rem);
      if first.None? || !GoodChunk(first.value) then None
      else
        var rest := rem[8 + |first.value.body|..];
        if first.value.id == LIST then LoadChunks(rest, format, data)
        else if first.value.id == FMT then
          if format.Some? then None else LoadChunks(rest, Some(ReadFormat(first.value.body)), data)
        else
          if data.Some? then None else LoadChunks(rest, format, Some(first.value.body))
  }

  lemma {:induction false} LoadsMeaning(chunks: seq<Chunk>, format: Option<Format>, data: Option<Bytes>)
    requires Meaning(chunks, format, data).Some?
    ensures LoadChunks(Flat(chunks), format, data) == Meaning(chunks, format, data)
    decreases |chunks|
  {
    if chunks != [] {
      var c, rest := chunks[0], Flat(chunks[1..]);
      ChunkComesFirst(c, rest);
      hide ReadFormat, FirstChunk, ChunkBytes;
      if c.id == LIST {
        LoadsMeaning(chunks[1..], format, data);
      } else if c.id == FMT {
        LoadsMeaning(chunks[1..], Some(ReadFormat(c.body)), data);
      } else {
        LoadsMeaning(chunks[1..], format, Some(c.body));
      }
    }
  }

  lemma {:induction false} LoadedHasMeaning(rem: Bytes, format: Option<Format>, data: Option<Bytes>)
    returns (chunks: seq<Chunk>)
    requires LoadChunks(rem, format, data).Some?
    ensures rem == Flat(chunks) && Meaning(chunks, format, data) == LoadChunks(rem, format, data)
    decreases |rem|
  {
    chunks := [];
    if rem != [] {
      var c := FirstChunk(rem).value;
      FirstChunkBytes(rem);
      var rest := rem[8 + |c.body|..];
      hide ReadFormat, FirstChunk, ChunkBytes;
      var tail;
      if c.id == LIST {
        tail := LoadedHasMeaning(rest, format, data);
      } else if c.id == FMT {
        tail := LoadedHasMeaning(rest, Some(ReadFormat(c.body)), data);
      } else {
        tail := LoadedHasMeaning(rest, format, Some(c.body));
      }
      chunks := [c] + tail;
      assert chunks[1..] == tail;
    }
  }

  /** The loop over the chunks; each chunk is consumed to its end. */
  method ReadChunks(rem0: Bytes) returns (r: Option<Payload>)
    ensures r == LoadChunks(rem0, None, None)
  {
    var rem := rem0;
    var format: Option<Format> := None;
    var data: Option<Bytes> := None;
    while rem != []
      invariant LoadChunks(rem0, None, None) == LoadChunks(rem, format, data)
      decreases |rem|
    {
      if |rem| < 8 {
        return None;
      }
      ghost var before := rem;
      var id, len := rem[..4], Read32(rem[4..8]);
      rem := rem[8..];
      if |rem| < len {
        return None;
      }
      var body := rem[..len];
      rem := rem[len..];
      assert body == before[8..8 + len] && rem == before[8 + len..];
      assert FirstChunk(before) == Some(Chunk(id, body));
      if id == LIST {
        continue;
      }
      if id == FMT {
        if format.Some? || |body| != 16 {
          return None;
        }
        format := Some(ReadFormat(body));
        continue;
      }
      if id == DATA {
        if data.Some? {
          return None;
        }
        data := Some(body);
        continue;
      }
      return None;
    }
    if format.None? || data.None? {
      return None;
    }
    return Some(Payload(format.value, data.value));
  }

  /** Nothing is returned where a contract assertion fails. The announced size is added up in 32 bits. */
  method Load(raw: Bytes) returns (r: Option<Payload>)
    ensures forall p :: r == Some(p) <==> IsFile(raw, p)
  {
    hide Meaning, LoadChunks, Flat, Little, Read32, Holds;
    if |raw| < 12 || raw[..4] != RIFF || Truncated32(8 + Read32(raw[4..8])) != |raw| || raw[8..12] != WAVE {
      forall p, chunks: seq<Chunk> | IsFileOf(raw, p, chunks) ensures false {
        FileHeader(raw, p, chunks);
      }
      return None;
    }
    HeaderSize(raw);
    r := ReadChunks(raw[12..]);
    if r.Some? {
      var chunks := LoadedHasMeaning(raw[12..], None, None);
      HeldIsMeaning(chunks, r.value);
      assert IsFileOf(raw, r.value, chunks);
    }
    forall p, chunks: seq<Chunk> | IsFileOf(raw, p, chunks) ensures r == Some(p) {
      FileHeader(raw, p, chunks);
      HeldIsMeaning(chunks, p);
      LoadsMeaning(chunks, None, None);
    }
  }

  lemma {:induction false} HeaderSize(raw: Bytes)
    requires |raw| >= 12 && raw[..4] == RIFF && Truncated32(8 + Read32(raw[4..8])) == |raw| && raw[8..12] == WAVE
    ensures |raw| < 0x1_0000_0000 && raw == RIFF + Little(|raw| - 8, 4) + WAVE + raw[12..]
  {
    NumberLittle(raw[4..8]);
    assert Number(raw[4..8]) == |raw| - 8;
    hide *;
    assert raw == raw[..4] + raw[4..8] + raw[8..12] + raw[12..];
  }

  lemma {:induction false} FileHeader(raw: Bytes, p: Payload, chunks: seq<Chunk>)
    requires IsFileOf(raw, p, chunks)
    ensures |raw| >= 12 && raw[..4] == RIFF && raw[8..12] == WAVE && raw[12..] == Flat(chunks)
    ensures Truncated32(8 + Read32(raw[4..8])) == |raw|
  {
    hide Little, Holds, Flat, Read32;
    var size := Little(|raw| - 8, 4);
    assert raw[..4] == RIFF;
    assert raw[4..8] == size;
    ReadSize(|raw|);
  }

  lemma {:induction false} ReadSize(n: nat)
    requires 8 <= n < 0x1_0000_0000
    ensures Truncated32(8 + Read32(Little(n - 8, 4))) == n
  {
    assert Power256(4) == 0x1_0000_0000;
    LittleNumber(n - 8, 4);
  }

  // ---- Writing ----

  lemma {:induction false} FormatLayout(f: Format)
    ensures FormatBytes(f) ==
            Little(f.formatType, 2) + Little(f.channelCount, 2) + Little(f.sampleRate, 4)
            + Little(f.bytesPerSec, 4) + Little(f.bytesPerBlock, 2) + Little(f.bitsPerSample, 2)
  {
    hide Little;
  }

  /** The bytes that save hands to the file, lengths patched in afterwards and truncated to 32 bits. */
  method Save(p: Payload) returns (raw: Bytes)
    ensures var f := p.format;
            raw == RIFF + Little(Truncated32(36 + |p.data|), 4) + WAVE + FMT + Little(16, 4)
                   + (Little(f.formatType, 2) + Little(f.channelCount, 2) + Little(f.sampleRate, 4)
                      + Little(f.bytesPerSec, 4) + Little(f.bytesPerBlock, 2) + Little(f.bitsPerSample, 2))
                   + DATA + Little(Truncated32(|p.data|), 4) + p.data
  {
    hide Little, FormatBytes;
    FormatLayout(p.format);
    var zero := Little(0, 4);
    raw := RIFF + zero + WAVE;
    raw := raw + FMT;
    var pos := |raw|;
    raw := raw + zero + FormatBytes(p.format);
    var len := Truncated32(|raw| - pos - 4);
    raw := raw[..pos] + Little(len, 4) + raw[pos + 4..];
    assert raw == RIFF + zero + WAVE + FMT + Little(16, 4) + FormatBytes(p.format);
    raw := raw + DATA;
    pos := |raw|;
    raw := raw + zero + p.data;
    len := Truncated32(|raw| - pos - 4);
    raw := raw[..pos] + Little(len, 4) + raw[pos + 4..];
    assert raw == RIFF + zero + WAVE + FMT + Little(16, 4) + FormatBytes(p.format) + DATA + Little(len, 4) + p.data;
    len := Truncated32(|raw| - 8);
    raw := raw[..4] + Little(len, 4) + raw[8..];
  }

  /** load undoes save if and only if the whole file is smaller than 2^32 bytes. */
  method SaveThenLoad(p: Payload) returns (r: Option<Payload>)
    ensures r == Some(p) <==> 44 + |p.data| < 0x1_0000_0000
  {
    hide Little, Holds;
    var raw := Save(p);
    r := Load(raw);
    if 44 + |p.data| < 0x1_0000_0000 {
      var chunks := [Chunk(FMT, FormatBytes(p.format)), Chunk(DATA, p.data)];
      SavedChunks(p);
      assert raw == RIFF + Little(|raw| - 8, 4) + WAVE + Flat(chunks);
      assert IsFileOf(raw, p, chunks);
    } else {
      assert forall chunks: seq<Chunk> :: !IsFileOf(raw, p, chunks);
    }
  }

  lemma {:induction false} SavedChunks(p: Payload)
    requires 44 + |p.data| < 0x1_0000_0000
    ensures var chunks := [Chunk(FMT, FormatBytes(p.format)), Chunk(DATA, p.data)];
            && Holds(chunks, p)
            && Flat(chunks) == FMT + Little(16, 4) + FormatBytes(p.format) + DATA + Little(|p.data|, 4) + p.data
  {
    FormatFits(p.format);
    hide Little, FormatBytes;
    var format, data := Chunk(FMT, FormatBytes(p.format)), Chunk(DATA, p.data);
    var chunks := [format, data];
    assert chunks[1..] == [data] && [data][1..] == [];
    assert WithoutLists([data]) == [data] + WithoutLists([]);
    assert WithoutLists(chunks) == [format] + WithoutLists([data]);
    assert Flat([data]) == ChunkBytes(data) + Flat([]) == ChunkBytes(data);
    assert Flat(chunks) == ChunkBytes(format) + ChunkBytes(data);
  }

  // ---- Lists anywhere, and either order ----

  lemma {:induction false} FlatAppend(a: seq<Chunk>, b: seq<Chunk>)
    ensures Flat(a + b) == Flat(a) + Flat(b)
  {
    if a == [] {
      assert a + b == b;
    } else {
      assert (a + b)[1..] == a[1..] + b;
      FlatAppend(a[1..], b);
      assert ChunkBytes(a[0]) + (Flat(a[1..]) + Flat(b)) == (ChunkBytes(a[0]) + Flat(a[1..])) + Flat(b);
    }
  }

  lemma {:induction false} WithoutListsAppend(a: seq<Chunk>, b: seq<Chunk>)
    ensures WithoutLists(a + b) == WithoutLists(a) + WithoutLists(b)
  {
    if a == [] {
      assert a + b == b;
    } else {
      assert (a + b)[1..] == a[1..] + b;
      WithoutListsAppend(a[1..], b);
    }
  }

  /** A file with these bytes behind its header. */
  function FileWith(content: Bytes): (raw: Bytes)
    ensures |raw| == 12 + |content| && raw[12..] == content
  {
    RIFF + Little(Truncated32(4 + |content|), 4) + WAVE + content
  }

  lemma {:induction false} FileParts(raw: Bytes, p: Payload, chunks: seq<Chunk>)
    ensures IsFileOf(raw, p, chunks) <==>
            12 + |Flat(chunks)| < 0x1_0000_0000 && raw == FileWith(Flat(chunks)) && Holds(chunks, p)
  {
    hide Little, Flat, Holds;
    if 8 <= |raw| {
      assert |RIFF + Little(|raw| - 8, 4) + WAVE + Flat(chunks)| == 12 + |Flat(chunks)|;
    }
  }

  lemma {:induction false} ChunkBetween(before: seq<Chunk>, c: Chunk, after: seq<Chunk>)
    ensures Flat(before + [c] + after) == Flat(before) + ChunkBytes(c) + Flat(after)
    ensures WithoutLists(before + [c] + after) ==
            WithoutLists(before) + (if c.id == LIST then [] else [c]) + WithoutLists(after)
  {
    FlatAppend(before + [c], after);
    FlatAppend(before, [c]);
    WithoutListsAppend(before + [c], after);
    WithoutListsAppend(before, [c]);
    assert [c][1..] == [];
    assert ChunkBytes(c) + Flat([]) == ChunkBytes(c);
  }

  /** Chunks that hold the same payload make a file of the bytes that they are, if these are not too many. */
  lemma {:induction false} SameHeld(raw: Bytes, p: Payload, old': seq<Chunk>, new': seq<Chunk>, content: Bytes)
    requires IsFileOf(raw, p, old') && (Holds(old', p) ==> Holds(new', p))
    requires content == Flat(new') && 12 + |content| < 0x1_0000_0000
    ensures raw == FileWith(Flat(old')) && IsFileOf(FileWith(content), p, new')
  {
    hide Little, Flat, WithoutLists, FormatBytes, FileWith;
    FileParts(raw, p, old');
    FileParts(FileWith(content), p, new');
  }

  lemma {:induction false} SameListed(old': seq<Chunk>, new': seq<Chunk>, p: Payload)
    requires WithoutLists(new') == WithoutLists(old')
    ensures Holds(old', p) ==> Holds(new', p)
  {
    hide WithoutLists, FormatBytes;
  }

  lemma {:induction false} FileOfIsFile(raw: Bytes, p: Payload, chunks: seq<Chunk>)
    requires IsFileOf(raw, p, chunks)
    ensures IsFile(raw, p)
  {
  }

  lemma {:induction false} SizeOfFile(raw: Bytes, p: Payload, chunks: seq<Chunk>)
    requires IsFileOf(raw, p, chunks)
    ensures |raw| == 12 + |Flat(chunks)| < 0x1_0000_0000 && raw[12..] == Flat(chunks)
  {
    FileParts(raw, p, chunks);
  }

  lemma {:induction false} ListBytes(body: Bytes)
    ensures ChunkBytes(Chunk(LIST, body)) == LIST + Little(|body|, 4) + body && Chunk(LIST, body).id == LIST
    ensures |ChunkBytes(Chunk(LIST, body))| == 8 + |body|
  {
    hide Little;
  }

  /**
   * A list between two chunks, before all or behind all: its name, its length and that many bytes. Where the file stays
   * below 2^32 bytes, it is still a file for the same payload.
   */
  lemma {:induction false} ListsAreSkipped(raw: Bytes, before: seq<Chunk>, after: seq<Chunk>, body: Bytes, p: Payload)
    requires IsFileOf(raw, p, before + after) && |raw| + 8 + |body| < 0x1_0000_0000
    ensures var at := 12 + |Flat(before)|;
            at <= |raw| && IsFile(FileWith(raw[12..at] + (LIST + Little(|body|, 4) + body) + raw[at..]), p)
  {
    hide *;
    var list := Chunk(LIST, body);
    SizeOfFile(raw, p, before + after);
    FlatAppend(before, after);
    WithoutListsAppend(before, after);
    ChunkBetween(before, list, after);
    ListBytes(body);
    var at, content := 12 + |Flat(before)|, Flat(before) + ChunkBytes(list) + Flat(after);
    assert raw[12..at] == Flat(before) && raw[at..] == Flat(after) by {
      assert raw[12..at] == raw[12..][..|Flat(before)|] && raw[at..] == raw[12..][|Flat(before)|..];
    }
    assert WithoutLists(before) + [] + WithoutLists(after) == WithoutLists(before) + WithoutLists(after);
    SameListed(before + after, before + [list] + after, p);
    SameHeld(raw, p, before + after, before + [list] + after, content);
    FileOfIsFile(FileWith(content), p, before + [list] + after);
  }

  /** The chunk, unless it is a list. */
  function Listed(c: Chunk): (r: seq<Chunk>) {
    if c.id == LIST then [] else [c]
  }

  lemma {:induction false} TwoBetween(before: seq<Chunk>, c: Chunk, d: Chunk, after: seq<Chunk>)
    ensures Flat(before + [c] + ([d] + after)) == Flat(before) + ChunkBytes(c) + (ChunkBytes(d) + Flat(after))
    ensures WithoutLists(before + [c] + ([d] + after)) ==
            WithoutLists(before) + Listed(c) + (Listed(d) + WithoutLists(after))
  {
    hide Flat, WithoutLists, ChunkBytes;
    ChunkBetween(before, c, [d] + after);
    assert [] + [d] + after == [d] + after;
    ChunkBetween([], d, after);
    NoChunks();
    assert [] + ChunkBytes(d) + Flat(after) == ChunkBytes(d) + Flat(after);
    assert [] + Listed(d) + WithoutLists(after) == Listed(d) + WithoutLists(after);
  }

  lemma {:induction false} NoChunks()
    ensures Flat([]) == [] && WithoutLists([]) == []
  {
  }

  lemma {:induction false} SwappedPair(a: seq<Chunk>, c: Chunk, d: Chunk, b: seq<Chunk>, x: Chunk, y: Chunk)
    requires a + [c] + ([d] + b) == [x, y]
    ensures a + [d] + ([c] + b) == [y, x]
  {
    assert |a + [c] + ([d] + b)| == |a| + 2 + |b|;
    assert a == [] && b == [];
    assert (a + [c] + ([d] + b))[0] == c && (a + [c] + ([d] + b))[1] == d;
  }

  lemma {:induction false} SwappedLists(a: seq<Chunk>, c: Chunk, d: Chunk, b: seq<Chunk>, p: Payload)
    requires var all := a + Listed(c) + (Listed(d) + b); all == FormatFirst(p) || all == DataFirst(p)
    ensures var all := a + Listed(d) + (Listed(c) + b); all == FormatFirst(p) || all == DataFirst(p)
  {
    hide FormatBytes;
    if c.id == LIST || d.id == LIST {
      assert a + Listed(c) + (Listed(d) + b) == a + Listed(d) + (Listed(c) + b);
    } else if a + Listed(c) + (Listed(d) + b) == FormatFirst(p) {
      SwappedPair(a, c, d, b, FormatFirst(p)[0], FormatFirst(p)[1]);
    } else {
      SwappedPair(a, c, d, b, DataFirst(p)[0], DataFirst(p)[1]);
    }
  }

  lemma {:induction false} SwappedHolds(before: seq<Chunk>, c: Chunk, d: Chunk, after: seq<Chunk>, p: Payload)
    ensures Holds(before + [c] + ([d] + after), p) ==> Holds(before + [d] + ([c] + after), p)
  {
    hide WithoutLists, FormatFirst, DataFirst, Listed, Flat;
    TwoBetween(before, c, d, after);
    TwoBetween(before, d, c, after);
    if Holds(before + [c] + ([d] + after), p) {
      SwappedLists(WithoutLists(before), c, d, WithoutLists(after), p);
    }
  }

  /** Two neighbouring chunks may change places, so that all of them may stand in any order. */
  lemma {:induction false} OrderIsFree(raw: Bytes, before: seq<Chunk>, c: Chunk, d: Chunk, after: seq<Chunk>,
          p: Payload)
    requires IsFileOf(raw, p, before + [c] + ([d] + after))
    ensures raw[12..] == Flat(before) + ChunkBytes(c) + (ChunkBytes(d) + Flat(after))
    ensures IsFile(FileWith(Flat(before) + ChunkBytes(d) + (ChunkBytes(c) + Flat(after))), p)
  {
    hide *;
    TwoBetween(before, c, d, after);
    TwoBetween(before, d, c, after);
    SwappedHolds(before, c, d, after, p);
    SizeOfFile(raw, p, before + [c] + ([d] + after));
    var content := Flat(before) + ChunkBytes(d) + (ChunkBytes(c) + Flat(after));
    SameHeld(raw, p, before + [c] + ([d] + after), before + [d] + ([c] + after), content);
    FileOfIsFile(FileWith(content), p, before + [d] + ([c] + after));
  }
}
