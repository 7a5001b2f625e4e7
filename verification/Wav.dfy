/** The RIFF/WAVE container of internal/speechengine/wav.go: encoder, chunk scanner and
    decoder, against the chunk layout of the RIFF format. */
module Wav {
  import opened Bytes
  import opened PcmCodec
  import Memory
  import opened Wrappers

  const RIFF: seq<byte> := [0x52, 0x49, 0x46, 0x46]
  const WAVE: seq<byte> := [0x57, 0x41, 0x56, 0x45]
  const FMT: seq<byte> := [0x66, 0x6d, 0x74, 0x20]
  const DATA: seq<byte> := [0x64, 0x61, 0x74, 0x61]
  const MAX_RATE := 384000

  datatype WavError =
    | Incomplete | BadSignature | SizeMismatch
    | TruncatedHeader | MissingPadding
    | ShortFormat | BadFormat | DuplicateFormat
    | DuplicateData | EmptyData | MissingChunks | OddData

  datatype Result<+T> = Ok(value: T) | Err(error: WavError)

  // ---- decoding -----------------------------------------------------------------------

  /** checkRIFFEnvelope with its length guard: a growing file is incomplete, any other size
      is corrupt. */
  function CheckEnvelope(raw: seq<byte>): Option<WavError> {
    if |raw| < 12 then Some(Incomplete)
    else if raw[..4] != RIFF || raw[8..12] != WAVE then Some(BadSignature)
    else if Le32(raw[4..8]) + 8 > |raw| then Some(Incomplete)
    else if Le32(raw[4..8]) + 8 != |raw| then Some(SizeMismatch)
    else None
  }

  datatype ChunkAt = ChunkAt(id: seq<byte>, body: seq<byte>, next: nat)

  /** readWAVChunk: the chunk at `offset` and where the next one starts. */
  function ReadChunk(raw: seq<byte>, offset: nat): (r: Result<ChunkAt>)
    requires offset <= |raw|
    ensures r.Ok? ==> offset + 8 <= r.value.next <= |raw|
  {
    if |raw| - offset < 8 then Err(TruncatedHeader) else
      var size: nat := Le32(raw[offset + 4..offset + 8]);
      var start := offset + 8;
      if size > |raw| - start then Err(Incomplete)
      else if start + size + size % 2 > |raw| then Err(MissingPadding)
      else Ok(ChunkAt(raw[offset..offset + 4], raw[start..start + size], start + size + size % 2))
  }

  /** parsePCM16WAVFormat: the sample rate of a PCM mono 16-bit format chunk. */
  function ParseFormat(chunk: seq<byte>): Result<int> {
    if |chunk| < 16 then Err(ShortFormat) else
      var format, channels := Le16(chunk[0], chunk[1]), Le16(chunk[2], chunk[3]);
      var sampleRate, byteRate := Le32(chunk[4..8]), Le32(chunk[8..12]);
      var blockAlign, bits := Le16(chunk[12], chunk[13]), Le16(chunk[14], chunk[15]);
      if format != 1 || channels != 1 || bits != 16 || blockAlign != 2
         || sampleRate == 0 || sampleRate > MAX_RATE || byteRate != (sampleRate as int * 2) % 0x1_0000_0000
      then Err(BadFormat) else Ok(sampleRate)
  }

  /** Four bytes as a number, the lowest first. */
  function LowestFirst(a: byte, b: byte, c: byte, d: byte): int {
    a as int + 0x100 * b as int + 0x1_0000 * c as int + 0x100_0000 * d as int
  }

  /** A format chunk is accepted with this rate exactly when it says, byte by byte and lowest
      byte first, PCM, mono, the rate, twice the rate as bytes per second, two bytes a block
      and 16 bits, and the rate is in range: stereo, 8-bit and compressed formats are not. */
  lemma FormatMeans(chunk: seq<byte>, rate: int)
    ensures ParseFormat(chunk) == Ok(rate) <==>
              && |chunk| >= 16 && chunk[..4] == [1, 0, 1, 0] && chunk[12..16] == [2, 0, 16, 0]
              && rate == LowestFirst(chunk[4], chunk[5], chunk[6], chunk[7])
              && 2 * rate == LowestFirst(chunk[8], chunk[9], chunk[10], chunk[11])
              && 1 <= rate <= 384000
  {
    FormatFields(chunk, rate);
    hide ParseFormat;
    if |chunk| >= 16 {
      FourBytes(chunk, 0, 1, 0, 1, 0);
      FourBytes(chunk, 12, 2, 0, 16, 0);
      SmallLe16(chunk[0], chunk[1], 1);
      SmallLe16(chunk[2], chunk[3], 1);
      SmallLe16(chunk[12], chunk[13], 2);
      SmallLe16(chunk[14], chunk[15], 16);
      Le32At(chunk, 4);
      Le32At(chunk, 8);
      hide Le16, Le32, LowestFirst;
    }
  }

  lemma FormatFields(chunk: seq<byte>, rate: int)
    ensures ParseFormat(chunk) == Ok(rate) <==>
              && |chunk| >= 16 && Le16(chunk[0], chunk[1]) == 1 && Le16(chunk[2], chunk[3]) == 1
              && Le16(chunk[12], chunk[13]) == 2 && Le16(chunk[14], chunk[15]) == 16
              && rate == Le32(chunk[4..8]) as int && 2 * rate == Le32(chunk[8..12]) as int && 1 <= rate <= 384000
  {
    hide Le16, Le32;
  }

  lemma SmallLe16(lo: byte, hi: byte, v: byte)
    ensures Le16(lo, hi) == v <==> lo == v && hi == 0
  {
  }

  lemma FourBytes(chunk: seq<byte>, i: nat, a: byte, b: byte, c: byte, d: byte)
    requires i + 4 <= |chunk|
    ensures chunk[i..i + 4] == [a, b, c, d] <==>
            chunk[i] == a && chunk[i + 1] == b && chunk[i + 2] == c && chunk[i + 3] == d
  {
    var part := chunk[i..i + 4];
    assert part == [part[0], part[1], part[2], part[3]];
    assert part[0] == chunk[i] && part[1] == chunk[i + 1] && part[2] == chunk[i + 2] && part[3] == chunk[i + 3];
  }

  lemma Le32At(chunk: seq<byte>, i: nat)
    requires i + 4 <= |chunk|
    ensures Le32(chunk[i..i + 4]) as int == LowestFirst(chunk[i], chunk[i + 1], chunk[i + 2], chunk[i + 3])
  {
  }

  datatype Chunks = Chunks(data: Option<seq<byte>>, rate: Option<int>)

  function Add(chunks: Chunks, id: seq<byte>, body: seq<byte>): Result<Chunks> {
    if id == FMT then
      if chunks.rate.Some? then Err(DuplicateFormat) else
        var rate := ParseFormat(body);
        if rate.Err? then Err(rate.error) else Ok(chunks.(rate := Some(rate.value)))
    else if id == DATA then
      if chunks.data.Some? then Err(DuplicateData)
      else if body == [] then Err(EmptyData)
      else Ok(chunks.(data := Some(body)))
    else Ok(chunks)
  }

  /** scanPCM16WAVChunks as a recursion; it ends because every chunk takes at least its
      eight header bytes. */
  function Scan(raw: seq<byte>, offset: nat, chunks: Chunks): Result<Chunks>
    requires offset <= |raw|
    decreases |raw| - offset
  {
    if offset == |raw| then Ok(chunks) else
      var chunk := ReadChunk(raw, offset);
      if chunk.Err? then Err(chunk.error) else
        var added := Add(chunks, chunk.value.id, chunk.value.body);
        if added.Err? then added else Scan(raw, chunk.value.next, added.value)
  }

  method ScanChunks(raw: seq<byte>) returns (result: Result<Chunks>)
    requires |raw| >= 12
    ensures result == Scan(raw, 12, Chunks(None, None))
  {
    var chunks := Chunks(None, None);
    var offset := 12;
    while offset < |raw|
      invariant offset <= |raw|
      invariant Scan(raw, offset, chunks) == Scan(raw, 12, Chunks(None, None))
      decreases |raw| - offset
    {
      var chunk := ReadChunk(raw, offset);
      if chunk.Err? {
        return Err(chunk.error);
      }
      var added := Add(chunks, chunk.value.id, chunk.value.body);
      if added.Err? {
        return added;
      }
      chunks := added.value;
      offset := chunk.value.next;
    }
    return Ok(chunks);
  }

  datatype Audio = Audio(samples: seq<Sample>, rate: int)

  /** decodePCM16WAV. */
  function DecodeWav(raw: seq<byte>): Result<Audio> {
    var envelope := CheckEnvelope(raw);
    if envelope.Some? then Err(envelope.value) else
      var chunks := Scan(raw, 12, Chunks(None, None));
      if chunks.Err? then Err(chunks.error)
      else if chunks.value.rate.None? || chunks.value.data.None? then Err(MissingChunks)
      else if |chunks.value.data.value| % 2 != 0 then Err(OddData)
      else Ok(Audio(Decode(chunks.value.data.value), chunks.value.rate.value))
  }

  /** Every strict prefix of an accepted file reads as a file still being written: never as
      audio and never as corrupt. */
  lemma PrefixIsIncomplete(raw: seq<byte>, prefix: seq<byte>)
    requires DecodeWav(raw).Ok? && prefix < raw
    ensures DecodeWav(prefix) == Err(Incomplete)
  {
    if |prefix| >= 12 {
      assert prefix[..4] == raw[..4] && prefix[4..8] == raw[4..8] && prefix[8..12] == raw[8..12];
    }
  }

  // ---- the layout of an accepted file -------------------------------------------------

  /** One chunk as it lies in the file; the pad byte of an odd body may hold anything. */
  datatype RawChunk = RawChunk(id: seq<byte>, body: seq<byte>, pad: seq<byte>)

  predicate FitsChunk(c: RawChunk) {
    |c.id| == 4 && |c.body| < 0x1_0000_0000 && |c.pad| == |c.body| % 2
  }

  function ChunkBytes(c: RawChunk): seq<byte>
    requires FitsChunk(c)
  {
    c.id + PutLe32(|c.body|) + c.body + c.pad
  }

  function Serialize(cs: seq<RawChunk>): seq<byte>
    requires forall c :: c in cs ==> FitsChunk(c)
  {
    if cs == [] then [] else ChunkBytes(cs[0]) + Serialize(cs[1..])
  }

  /** The bodies of the chunks carrying this id, in file order. */
  function Bodies(cs: seq<RawChunk>, id: seq<byte>): seq<seq<byte>> {
    if cs == [] then [] else (if cs[0].id == id then [cs[0].body] else []) + Bodies(cs[1..], id)
  }

  /** The file is an envelope of the right size around these chunks. */
  ghost predicate Layout(raw: seq<byte>, cs: seq<RawChunk>) {
    && (forall c :: c in cs ==> FitsChunk(c))
    && 12 <= |raw| < 0x1_0000_0008
    && raw == RIFF + PutLe32(|raw| - 8) + WAVE + Serialize(cs)
  }

  /** Exactly one format chunk, describing 16-bit mono PCM, and exactly one data chunk,
      not empty and of whole samples; any other chunk is ignored. */
  ghost predicate Holds(cs: seq<RawChunk>, audio: Audio) {
    && |Bodies(cs, FMT)| == 1 && ParseFormat(Bodies(cs, FMT)[0]) == Ok(audio.rate)
    && |Bodies(cs, DATA)| == 1
    && var data := Bodies(cs, DATA)[0];
       data != [] && |data| % 2 == 0 && Decode(data) == audio.samples
  }

  function Collect(chunks: Chunks, cs: seq<RawChunk>): Result<Chunks>
    decreases |cs|
  {
    if cs == [] then Ok(chunks) else
      var added := Add(chunks, cs[0].id, cs[0].body);
      if added.Err? then added else Collect(added.value, cs[1..])
  }

  lemma ReadBack(raw: seq<byte>, offset: nat, c: RawChunk, rest: seq<byte>)
    requires FitsChunk(c) && offset <= |raw| && raw[offset..] == ChunkBytes(c) + rest
    ensures ReadChunk(raw, offset) == Ok(ChunkAt(c.id, c.body, offset + |ChunkBytes(c)|))
    ensures offset + |ChunkBytes(c)| <= |raw| && raw[offset + |ChunkBytes(c)|..] == rest
  {
    hide PutLe32, Le32;
    Le32OfPut(|c.body|);
    FourParts(raw, offset, c.id, PutLe32(|c.body|), c.body, c.pad, rest);
  }

  lemma FourParts(raw: seq<byte>, offset: nat, id: seq<byte>, size: seq<byte>, body: seq<byte>, pad: seq<byte>,
                  rest: seq<byte>)
    requires offset <= |raw| && |id| == |size| == 4 && raw[offset..] == id + size + body + pad + rest
    ensures offset + 8 + |body| + |pad| <= |raw|
    ensures raw[offset..offset + 4] == id && raw[offset + 4..offset + 8] == size
    ensures raw[offset + 8..offset + 8 + |body|] == body && raw[offset + 8 + |body| + |pad|..] == rest
  {
    var tail := raw[offset..];
    assert tail == [] + (id + (size + (body + (pad + rest))));
    assert tail == id + (size + (body + (pad + rest)));
    assert tail == (id + size) + (body + (pad + rest));
    assert tail == (id + size + body) + (pad + rest);
    Part(tail, [], id, size + (body + (pad + rest)));
    Part(tail, id, size, body + (pad + rest));
    Part(tail, id + size, body, pad + rest);
    Part(tail, id + size + body, pad, rest);
    SliceOfTail(raw, offset, 0, 4);
    SliceOfTail(raw, offset, 4, 8);
    SliceOfTail(raw, offset, 8, 8 + |body|);
    SliceOfTail(raw, offset, 8 + |body| + |pad|, |tail|);
  }

  lemma Part(all: seq<byte>, before: seq<byte>, part: seq<byte>, rest: seq<byte>)
    requires all == before + (part + rest)
    ensures |all| == |before| + |part| + |rest|
    ensures all[|before|..|before| + |part|] == part && all[|before| + |part|..] == rest
  {
  }

  lemma SliceOfTail(raw: seq<byte>, offset: nat, i: nat, j: nat)
    requires offset <= |raw| && i <= j <= |raw| - offset
    ensures raw[offset + i..offset + j] == raw[offset..][i..j]
    ensures raw[offset + i..] == raw[offset..][i..]
  {
  }

  /** Scanning laid-out chunks is collecting them. */
  lemma {:induction false} ScanSerialized(raw: seq<byte>, offset: nat, chunks: Chunks, cs: seq<RawChunk>)
    requires forall c :: c in cs ==> FitsChunk(c)
    requires offset <= |raw| && raw[offset..] == Serialize(cs)
    ensures Scan(raw, offset, chunks) == Collect(chunks, cs)
    decreases |cs|
  {
    hide ReadChunk, Add, ChunkBytes;
    if cs != [] {
      ReadBack(raw, offset, cs[0], Serialize(cs[1..]));
      var added := Add(chunks, cs[0].id, cs[0].body);
      if added.Ok? {
        ScanSerialized(raw, offset + |ChunkBytes(cs[0])|, added.value, cs[1..]);
      }
    }
  }

  lemma ChunkRead(raw: seq<byte>, offset: nat) returns (c: RawChunk)
    requires offset <= |raw| && ReadChunk(raw, offset).Ok?
    ensures FitsChunk(c) && ReadChunk(raw, offset).value == ChunkAt(c.id, c.body, offset + |ChunkBytes(c)|)
    ensures raw[offset..] == ChunkBytes(c) + raw[offset + |ChunkBytes(c)|..]
  {
    hide PutLe32, Le32;
    var chunk := ReadChunk(raw, offset).value;
    c := RawChunk(chunk.id, chunk.body, raw[offset + 8 + |chunk.body|..chunk.next]);
    PutOfLe32(raw[offset + 4..offset + 8]);
    assert raw[offset..] == raw[offset..offset + 4] + raw[offset + 4..offset + 8]
                            + chunk.body + c.pad + raw[chunk.next..];
  }

  /** A scan that succeeds has read a sequence of chunks. */
  lemma {:induction false} ScannedChunks(raw: seq<byte>, offset: nat, chunks: Chunks) returns (cs: seq<RawChunk>)
    requires offset <= |raw| && Scan(raw, offset, chunks).Ok?
    ensures forall c :: c in cs ==> FitsChunk(c)
    ensures raw[offset..] == Serialize(cs)
    decreases |raw| - offset
  {
    if offset == |raw| {
      cs := [];
    } else {
      var c := ChunkRead(raw, offset);
      var chunk := ReadChunk(raw, offset).value;
      var rest := ScannedChunks(raw, chunk.next, Add(chunks, chunk.id, chunk.body).value);
      cs := [c] + rest;
    }
  }

  /** What the chunks still to come must bring. */
  ghost predicate Wanted(chunks: Chunks, cs: seq<RawChunk>, data: seq<byte>, rate: int) {
    && (if chunks.rate.Some? then Bodies(cs, FMT) == [] && chunks.rate.value == rate
        else |Bodies(cs, FMT)| == 1 && ParseFormat(Bodies(cs, FMT)[0]) == Ok(rate))
    && (if chunks.data.Some? then Bodies(cs, DATA) == [] && chunks.data.value == data
        else Bodies(cs, DATA) == [data] && data != [])
  }

  lemma WantedStep(chunks: Chunks, cs: seq<RawChunk>, data: seq<byte>, rate: int)
    requires cs != []
    ensures Wanted(chunks, cs, data, rate) <==>
            Add(chunks, cs[0].id, cs[0].body).Ok?
            && Wanted(Add(chunks, cs[0].id, cs[0].body).value, cs[1..], data, rate)
  {
    hide ParseFormat;
    var id, body := cs[0].id, cs[0].body;
    assert FMT[0] != DATA[0];
    if id == FMT {
      var rest := Bodies(cs[1..], FMT);
      assert Bodies(cs, FMT) == [body] + rest && ([body] + rest)[0] == body;
    } else if id == DATA {
      var rest := Bodies(cs[1..], DATA);
      assert Bodies(cs, DATA) == [body] + rest && ([body] + rest)[0] == body;
      if rest == [] {
        assert Bodies(cs, DATA) == [body];
      }
    }
  }

  /** Collecting succeeds with both parts exactly when there is one good chunk of each. */
  lemma {:induction false} CollectMeans(chunks: Chunks, cs: seq<RawChunk>, data: seq<byte>, rate: int)
    ensures Collect(chunks, cs) == Ok(Chunks(Some(data), Some(rate))) <==> Wanted(chunks, cs, data, rate)
    decreases |cs|
  {
    if cs != [] {
      WantedStep(chunks, cs, data, rate);
      hide Wanted, Add;
      if Add(chunks, cs[0].id, cs[0].body).Ok? {
        CollectMeans(Add(chunks, cs[0].id, cs[0].body).value, cs[1..], data, rate);
      }
    }
  }

  lemma EnvelopeOfLayout(raw: seq<byte>, cs: seq<RawChunk>)
    requires Layout(raw, cs)
    ensures CheckEnvelope(raw) == None && raw[12..] == Serialize(cs)
  {
    hide PutLe32, Le32;
    Le32OfPut(|raw| - 8);
    assert raw[4..8] == PutLe32(|raw| - 8);
  }

  lemma LayoutOfEnvelope(raw: seq<byte>, cs: seq<RawChunk>)
    requires CheckEnvelope(raw) == None
    requires forall c :: c in cs ==> FitsChunk(c)
    requires raw[12..] == Serialize(cs)
    ensures Layout(raw, cs)
  {
    hide PutLe32, Le32, Serialize;
    PutOfLe32(raw[4..8]);
    assert raw == raw[..4] + raw[4..8] + raw[8..12] + raw[12..];
  }

  /** decodePCM16WAV accepts a file as this audio if and only if the file is laid out as
      RIFF chunks that hold it. */
  lemma AcceptedIffLaidOut(raw: seq<byte>, audio: Audio)
    ensures DecodeWav(raw) == Ok(audio) <==> exists cs :: Layout(raw, cs) && Holds(cs, audio)
  {
    hide Le32, PutLe32, ParseFormat, Decode, ReadChunk, Add, Serialize, CheckEnvelope;
    if DecodeWav(raw) == Ok(audio) {
      var cs := ScannedChunks(raw, 12, Chunks(None, None));
      LayoutOfEnvelope(raw, cs);
      ScanSerialized(raw, 12, Chunks(None, None), cs);
      var data := Scan(raw, 12, Chunks(None, None)).value.data.value;
      CollectMeans(Chunks(None, None), cs, data, audio.rate);
      assert Holds(cs, audio);
    }
    forall cs | Layout(raw, cs) && Holds(cs, audio) ensures DecodeWav(raw) == Ok(audio) {
      LaidOutIsAccepted(raw, cs, audio);
    }
  }

  lemma LaidOutIsAccepted(raw: seq<byte>, cs: seq<RawChunk>, audio: Audio)
    requires Layout(raw, cs) && Holds(cs, audio)
    ensures DecodeWav(raw) == Ok(audio)
  {
    hide Le32, PutLe32, ParseFormat, Decode, ReadChunk, Add, Serialize;
    EnvelopeOfLayout(raw, cs);
    ScanSerialized(raw, 12, Chunks(None, None), cs);
    assert Bodies(cs, DATA) == [Bodies(cs, DATA)[0]];
    CollectMeans(Chunks(None, None), cs, Bodies(cs, DATA)[0], audio.rate);
  }

  // ---- encoding -----------------------------------------------------------------------

  function Low32(x: int): u32 {
    x % 0x1_0000_0000
  }

  function FormatBody(rate: int): (b: seq<byte>)
    ensures |b| == 16
  {
    PutLe16(1) + PutLe16(1) + PutLe32(Low32(rate)) + PutLe32(Low32(rate * 2)) + PutLe16(2) + PutLe16(16)
  }

  /** encodeWAV; the 32-bit fields keep the low 32 bits of what they are given. */
  function EncodeWav(pcm: seq<Sample>, rate: int): (wav: seq<byte>)
    ensures |wav| == 44 + 2 * |pcm|
  {
    var size := 2 * |pcm|;
    RIFF + PutLe32(Low32(36 + size)) + WAVE
    + FMT + PutLe32(16) + FormatBody(rate)
    + DATA + PutLe32(Low32(size)) + Encode(pcm)
  }

  method EncodeWavInto(pcm: seq<Sample>, rate: int) returns (wav: array<byte>)
    ensures fresh(wav) && wav[..] == EncodeWav(pcm, rate)
  {
    hide PutLe16, PutLe32, FormatBody, Encode;
    var size := 2 * |pcm|;
    var header := RIFF + PutLe32(Low32(36 + size)) + WAVE + FMT + PutLe32(16) + FormatBody(rate)
                  + DATA + PutLe32(Low32(size));
    wav := new byte[44 + size](_ => 0);
    Memory.CopyIn(wav, 0, header);
    EncodeS16LE(wav, 44, pcm);
  }

  lemma FormatRoundTrip(rate: int)
    requires 1 <= rate <= MAX_RATE
    ensures ParseFormat(FormatBody(rate)) == Ok(rate)
  {
    hide PutLe16, PutLe32, Le16, Le32;
    var b := FormatBody(rate);
    Le16OfPut(1);
    Le16OfPut(2);
    Le16OfPut(16);
    Le32OfPut(rate);
    Le32OfPut(rate * 2);
    assert b[4..8] == PutLe32(rate) && b[8..12] == PutLe32(rate * 2);
    assert b[12..14] == PutLe16(2) && b[14..16] == PutLe16(16);
    assert b[12] == PutLe16(2)[0] && b[13] == PutLe16(2)[1] && b[14] == PutLe16(16)[0] && b[15] == PutLe16(16)[1];
  }

  ghost predicate Encodable(pcm: seq<Sample>, rate: int) {
    pcm != [] && 36 + 2 * |pcm| < 0x1_0000_0000 && 1 <= rate <= MAX_RATE
  }

  lemma EncodedIsRead(pcm: seq<Sample>, rate: int)
    requires Encodable(pcm, rate)
    ensures DecodeWav(EncodeWav(pcm, rate)) == Ok(Audio(pcm, rate))
  {
    hide PutLe32, PutLe16, Encode, FormatBody, ParseFormat;
    var wav := EncodeWav(pcm, rate);
    var fmt, data := RawChunk(FMT, FormatBody(rate), []), RawChunk(DATA, Encode(pcm), []);
    SerializeTwo(fmt, data);
    assert wav == RIFF + PutLe32(|wav| - 8) + WAVE + (ChunkBytes(fmt) + ChunkBytes(data));
    FormatRoundTrip(rate);
    DecodeEncode(pcm);
    BodiesOfTwo(fmt, data);
    LaidOutIsAccepted(wav, [fmt, data], Audio(pcm, rate));
  }

  lemma SerializeTwo(a: RawChunk, b: RawChunk)
    requires FitsChunk(a) && FitsChunk(b)
    ensures Serialize([a, b]) == ChunkBytes(a) + ChunkBytes(b)
  {
    hide ChunkBytes;
    assert [a, b][1..] == [b];
    assert Serialize([b]) == ChunkBytes(b) + Serialize([]);
  }

  lemma BodiesOfTwo(fmt: RawChunk, data: RawChunk)
    requires fmt.id == FMT && data.id == DATA
    ensures Bodies([fmt, data], FMT) == [fmt.body] && Bodies([fmt, data], DATA) == [data.body]
  {
    assert FMT[0] != DATA[0];
    assert [fmt, data][1..] == [data];
    assert Bodies([data], DATA) == [data.body] + Bodies([], DATA);
    assert Bodies([data], FMT) == Bodies([], FMT);
  }

  lemma AcceptedAudio(raw: seq<byte>)
    requires DecodeWav(raw).Ok?
    ensures DecodeWav(raw).value.samples != [] && 1 <= DecodeWav(raw).value.rate <= MAX_RATE
  {
    AcceptedIffLaidOut(raw, DecodeWav(raw).value);
    var cs :| Layout(raw, cs) && Holds(cs, DecodeWav(raw).value);
    assert |Bodies(cs, DATA)[0]| >= 2;
  }

  lemma OversizedIsRefused(pcm: seq<Sample>, rate: int)
    requires 36 + 2 * |pcm| >= 0x1_0000_0000
    ensures CheckEnvelope(EncodeWav(pcm, rate)) == Some(SizeMismatch)
  {
    hide PutLe32, PutLe16, Le32, Encode, FormatBody;
    var wav := EncodeWav(pcm, rate);
    Le32OfPut(Low32(36 + 2 * |pcm|));
    assert wav[4..8] == PutLe32(Low32(36 + 2 * |pcm|));
  }

  /** Encoding and decoding give the audio back if and only if there is audio, it fits the
      32-bit size fields and the rate is one the decoder accepts. */
  lemma RoundTripIffEncodable(pcm: seq<Sample>, rate: int)
    ensures DecodeWav(EncodeWav(pcm, rate)) == Ok(Audio(pcm, rate)) <==> Encodable(pcm, rate)
  {
    hide EncodeWav;
    if Encodable(pcm, rate) {
      EncodedIsRead(pcm, rate);
    } else if 36 + 2 * |pcm| >= 0x1_0000_0000 {
      OversizedIsRefused(pcm, rate);
    } else if DecodeWav(EncodeWav(pcm, rate)).Ok? {
      AcceptedAudio(EncodeWav(pcm, rate));
    }
  }
}
