/** 16-bit PCM on the wire: the packed encoder of internal/core/pipeline/pcm.go and the
    byte-split-safe stream decoder of internal/speechengine/stt.go. */
module PcmCodec {
  import opened Bits
  import opened Bytes
  import Memory

  /** The bit pattern of one signed 16-bit sample. */
  type Sample = u16

  /** Reference encoding: every sample as its two little-endian bytes. */
  function Encode(samples: seq<Sample>): (b: seq<byte>)
    ensures |b| == 2 * |samples|
  {
    if samples == [] then [] else PutLe16(samples[0]) + Encode(samples[1..])
  }

  /** Reference decoding: every whole byte pair, an odd last byte left over. */
  function Decode(b: seq<byte>): (samples: seq<Sample>)
    ensures |samples| == |b| / 2
  {
    if |b| < 2 then [] else [Le16(b[0], b[1])] + Decode(b[2..])
  }

  lemma {:induction false} EncodeConcat(a: seq<Sample>, b: seq<Sample>)
    ensures Encode(a + b) == Encode(a) + Encode(b)
  {
    if a == [] {
      assert a + b == b;
    } else {
      assert (a + b)[1..] == a[1..] + b;
      EncodeConcat(a[1..], b);
    }
  }

  /** The low byte of a sample comes first. */
  lemma {:induction false} EncodedBytes(samples: seq<Sample>, i: nat)
    requires i < |samples|
    ensures Encode(samples)[2 * i] == samples[i] % 0x100 && Encode(samples)[2 * i + 1] == samples[i] / 0x100
    decreases |samples|
  {
    if i > 0 {
      EncodedBytes(samples[1..], i - 1);
      assert Encode(samples)[2..] == Encode(samples[1..]);
    }
  }

  lemma {:induction false} DecodeConcat(a: seq<byte>, b: seq<byte>)
    requires |a| % 2 == 0
    ensures Decode(a + b) == Decode(a) + Decode(b)
  {
    if a == [] {
      assert a + b == b;
    } else {
      assert (a + b)[2..] == a[2..] + b;
      assert Decode(a + b) == [Le16(a[0], a[1])] + Decode(a[2..] + b);
      assert Decode(a) == [Le16(a[0], a[1])] + Decode(a[2..]);
      hide Decode, Le16;
      DecodeConcat(a[2..], b);
    }
  }

  lemma {:induction false} DecodeEncode(samples: seq<Sample>)
    ensures Decode(Encode(samples)) == samples
  {
    if samples != [] {
      assert Encode(samples)[2..] == Encode(samples[1..]);
      Le16OfPut(samples[0]);
      DecodeEncode(samples[1..]);
    }
  }

  lemma {:induction false} EncodeDecode(b: seq<byte>)
    requires |b| % 2 == 0
    ensures Encode(Decode(b)) == b
  {
    if b != [] {
      PutOfLe16(b[0], b[1]);
      EncodeDecode(b[2..]);
      assert Decode(b)[1..] == Decode(b[2..]);
      assert b == [b[0], b[1]] + b[2..];
    }
  }

  /** Two and four samples in one word, the first in the lowest 16 bits. */
  function Pack2(a: Sample, b: Sample): u32 {
    a as int + 0x1_0000 * b as int
  }

  function Pack(a: Sample, b: Sample, c: Sample, d: Sample): u64 {
    OrOfFields(a, b, c, d);
    Or(Or(Or(a, ShiftLeft(b, 16)), ShiftLeft(c, 32)), ShiftLeft(d, 48))
  }

  /** Shifting and ORing the four fields is adding them. */
  lemma OrOfFields(a: Sample, b: Sample, c: Sample, d: Sample)
    ensures Or(Or(Or(a, ShiftLeft(b, 16)), ShiftLeft(c, 32)), ShiftLeft(d, 48))
         == Pack2(a, b) as int + 0x1_0000_0000 * Pack2(c, d) as int
  {
    hide Or, Power2;
    Power2Fields();
    OrIsSum(a, b, 16);
    OrIsSum(a as int + 0x1_0000 * b as int, c, 32);
    OrIsSum(a as int + 0x1_0000 * b as int + 0x1_0000_0000 * c as int, d, 48);
  }

  lemma PackedStoreBytes(a: Sample, b: Sample, c: Sample, d: Sample)
    ensures PutLe64(Pack(a, b, c, d)) == Encode([a, b, c, d])
  {
    hide PutLe64, PutLe32, Encode, Or, ShiftLeft;
    OrOfFields(a, b, c, d);
    PutLe64Halves(Pack2(a, b), Pack2(c, d));
    PutPair(a, b);
    PutPair(c, d);
    assert [a, b, c, d] == [a, b] + [c, d];
    EncodeConcat([a, b], [c, d]);
  }

  lemma PutPair(a: Sample, b: Sample)
    ensures PutLe32(Pack2(a, b)) == Encode([a, b])
  {
    hide PutLe32, PutLe16;
    PutLe32Halves(a, b);
    assert [a, b][1..] == [b] && [b][1..] == [];
    assert Encode([b]) == PutLe16(b) + [] == PutLe16(b);
  }

  lemma PackedStoreSlice(samples: seq<Sample>, i: nat)
    requires i + 4 <= |samples|
    ensures PutLe64(Pack(samples[i], samples[i + 1], samples[i + 2], samples[i + 3])) == Encode(samples[i..i + 4])
  {
    PackedStoreBytes(samples[i], samples[i + 1], samples[i + 2], samples[i + 3]);
    assert samples[i..i + 4] == [samples[i], samples[i + 1], samples[i + 2], samples[i + 3]];
  }

  lemma SingleStoreSlice(samples: seq<Sample>, i: nat)
    requires i < |samples|
    ensures PutLe16(samples[i]) == Encode(samples[i..i + 1])
  {
    assert samples[i..i + 1] == [samples[i]];
  }

  /** Between head and what is left of tail are the bytes of the first i samples. */
  ghost predicate Stored(dst: seq<byte>, head: seq<byte>, tail: seq<byte>, samples: seq<Sample>, i: nat) {
    i <= |samples| && 2 * i <= |tail| && dst == head + Encode(samples[..i]) + tail[2 * i..]
  }

  /** Stores the bytes of the next n samples behind an encoded prefix. */
  method PutSamples(dst: array<byte>, start: nat, ghost head: seq<byte>, ghost tail: seq<byte>, samples: seq<Sample>,
                    i: nat, ghost n: nat, b: seq<byte>)
    requires i + n <= |samples| && 2 * (i + n) <= |tail| && start == |head|
    requires Stored(dst[..], head, tail, samples, i)
    requires b == Encode(samples[i..i + n])
    modifies dst
    ensures Stored(dst[..], head, tail, samples, i + n)
  {
    ghost var before, done := dst[..], Encode(samples[..i]);
    EncodedNext(samples, i, n);
    hide Encode;
    Memory.CopyIn(dst, start + 2 * i, b);
    StoredNext(before, head, done, tail, b);
  }

  lemma EncodedNext(samples: seq<Sample>, i: nat, n: nat)
    requires i + n <= |samples|
    ensures Encode(samples[..i + n]) == Encode(samples[..i]) + Encode(samples[i..i + n])
  {
    assert samples[..i + n] == samples[..i] + samples[i..i + n];
    hide Encode;
    EncodeConcat(samples[..i], samples[i..i + n]);
  }

  lemma StoredNext(before: seq<byte>, head: seq<byte>, done: seq<byte>, tail: seq<byte>, b: seq<byte>)
    requires |done| + |b| <= |tail| && before == head + done + tail[|done|..]
    ensures var at := |head| + |done|;
            before[..at] + b + before[at + |b|..] == head + (done + b) + tail[|done| + |b|..]
  {
    var at := |head| + |done|;
    assert before[..at] == head + done;
    assert before[at + |b|..] == tail[|done| + |b|..];
  }

  method PutFour(dst: array<byte>, start: nat, ghost head: seq<byte>, ghost tail: seq<byte>, samples: seq<Sample>,
                 i: nat)
    requires i + 4 <= |samples| && 2 * |samples| <= |tail| && start == |head|
    requires Stored(dst[..], head, tail, samples, i)
    modifies dst
    ensures Stored(dst[..], head, tail, samples, i + 4)
  {
    hide Encode, Pack, PutLe64, Stored;
    var packed := Pack(samples[i], samples[i + 1], samples[i + 2], samples[i + 3]);
    PackedStoreSlice(samples, i);
    PutSamples(dst, start, head, tail, samples, i, 4, PutLe64(packed));
  }

  method PutOne(dst: array<byte>, start: nat, ghost head: seq<byte>, ghost tail: seq<byte>, samples: seq<Sample>,
                i: nat)
    requires i < |samples| && 2 * |samples| <= |tail| && start == |head|
    requires Stored(dst[..], head, tail, samples, i)
    modifies dst
    ensures Stored(dst[..], head, tail, samples, i + 1)
  {
    hide Encode, PutLe16, Stored;
    SingleStoreSlice(samples, i);
    PutSamples(dst, start, head, tail, samples, i, 1, PutLe16(samples[i]));
  }

  lemma EncodeStarts(dst: seq<byte>, start: nat, samples: seq<Sample>)
    requires start + 2 * |samples| <= |dst|
    ensures Stored(dst, dst[..start], dst[start..], samples, 0)
  {
  }

  lemma EncodeEnds(before: seq<byte>, dst: seq<byte>, start: nat, samples: seq<Sample>)
    requires start + 2 * |samples| <= |before|
    requires Stored(dst, before[..start], before[start..], samples, |samples|)
    ensures dst == before[..start] + Encode(samples) + before[start + 2 * |samples|..]
  {
    assert samples[..|samples|] == samples;
    assert before[start..][2 * |samples|..] == before[start + 2 * |samples|..];
  }

  /** encodeS16LE: four samples per 64-bit store, then the last few one by one. */
  method EncodeS16LE(dst: array<byte>, start: nat, samples: seq<Sample>)
    requires start + 2 * |samples| <= dst.Length
    modifies dst
    ensures dst[..] == old(dst[..])[..start] + Encode(samples) + old(dst[..])[start + 2 * |samples|..]
  {
    hide *;
    ghost var before := dst[..];
    ghost var head, tail := before[..start], before[start..];
    EncodeStarts(before, start, samples);
    var i := 0;
    while i + 4 <= |samples|
      invariant i <= |samples|
      invariant Stored(dst[..], head, tail, samples, i)
    {
      PutFour(dst, start, head, tail, samples, i);
      i := i + 4;
    }
    while i < |samples|
      invariant i <= |samples|
      invariant Stored(dst[..], head, tail, samples, i)
    {
      PutOne(dst, start, head, tail, samples, i);
      i := i + 1;
    }
    EncodeEnds(before, dst[..], start, samples);
  }

  /** AppendS16LE: the samples behind what dst already holds. */
  method AppendS16LE(dst: seq<byte>, samples: seq<Sample>) returns (grown: array<byte>)
    ensures fresh(grown) && grown[..] == dst + Encode(samples)
  {
    grown := new byte[|dst| + 2 * |samples|](_ => 0);
    Memory.CopyIn(grown, 0, dst);
    EncodeS16LE(grown, |dst|, samples);
  }

  /** DecodeS16LE: as many whole samples as both sides hold. */
  method DecodeS16LE(dst: array<Sample>, src: seq<byte>) returns (n: nat)
    modifies dst
    ensures n == if |src| / 2 <= dst.Length then |src| / 2 else dst.Length
    ensures dst[..] == Decode(src)[..n] + old(dst[n..])
  {
    n := if |src| / 2 <= dst.Length then |src| / 2 else dst.Length;
    ghost var before, decoded := dst[..], Decode(src);
    for i := 0 to n
      invariant forall j :: 0 <= j < i ==> dst[j] == decoded[j]
      invariant forall j :: i <= j < dst.Length ==> dst[j] == before[j]
    {
      DecodeAt(src, i);
      dst[i] := Le16(src[2 * i], src[2 * i + 1]);
    }
    assert dst[..] == decoded[..n] + before[n..];
  }

  lemma {:induction false} DecodeAt(b: seq<byte>, i: nat)
    requires 2 * i + 1 < |b|
    ensures Decode(b)[i] == Le16(b[2 * i], b[2 * i + 1])
  {
    if i > 0 {
      DecodeAt(b[2..], i - 1);
    }
  }

  // ---- the stream decoder -------------------------------------------------------------

  /** What is left over after every whole sample of `b`. */
  function Leftover(b: seq<byte>): seq<byte> {
    b[2 * (|b| / 2)..]
  }

  /** One decode call: the bytes carried in plus the new bytes. */
  function Feed(carry: seq<byte>, data: seq<byte>): (seq<Sample>, seq<byte>) {
    (Decode(carry + data), Leftover(carry + data))
  }

  /** All samples of a run of decode calls and the byte carried at the end. */
  function FeedAll(carry: seq<byte>, chunks: seq<seq<byte>>): (seq<Sample>, seq<byte>)
    decreases |chunks|
  {
    if chunks == [] then ([], carry) else
      var (first, carry') := Feed(carry, chunks[0]);
      var (rest, carry'') := FeedAll(carry', chunks[1..]);
      (first + rest, carry'')
  }

  /** Whole samples at the front decode independently of what follows. */
  lemma WholeSamplesSplit(all: seq<byte>, later: seq<byte>)
    ensures Decode(all + later) == Decode(all) + Decode(Leftover(all) + later)
    ensures Leftover(all + later) == Leftover(Leftover(all) + later)
  {
    var whole := all[..2 * (|all| / 2)];
    assert all == whole + Leftover(all);
    assert all + later == whole + (Leftover(all) + later);
    assert Decode(Leftover(all)) == [];
    hide Decode, Leftover;
    DecodeConcat(whole, Leftover(all) + later);
    DecodeConcat(whole, Leftover(all));
    LeftoverBehind(whole, Leftover(all) + later);
  }

  lemma LeftoverBehind(whole: seq<byte>, rest: seq<byte>)
    requires |whole| % 2 == 0
    ensures Leftover(whole + rest) == Leftover(rest)
  {
    assert (whole + rest)[|whole|..] == rest;
  }

  /** However the byte stream is cut into reads, the samples are those of the whole
      stream, and a byte is pending exactly when the byte count is odd. */
  lemma {:induction false} SplitIndependence(carry: seq<byte>, chunks: seq<seq<byte>>)
    requires |carry| < 2
    ensures FeedAll(carry, chunks).0 == Decode(carry + Flatten(chunks))
    ensures FeedAll(carry, chunks).1 == Leftover(carry + Flatten(chunks))
    decreases |chunks|
  {
    if chunks == [] {
      assert carry + Flatten(chunks) == carry;
    } else {
      FeedFirst(carry, chunks);
      FlattenFirst(carry, chunks);
      LeftoverLast(carry + chunks[0]);
      hide Decode, Leftover, Flatten, FeedAll;
      SplitIndependence(Leftover(carry + chunks[0]), chunks[1..]);
      WholeSamplesSplit(carry + chunks[0], Flatten(chunks[1..]));
    }
  }

  lemma FeedFirst(carry: seq<byte>, chunks: seq<seq<byte>>)
    requires chunks != []
    ensures var all := carry + chunks[0];
            && FeedAll(carry, chunks).0 == Decode(all) + FeedAll(Leftover(all), chunks[1..]).0
            && FeedAll(carry, chunks).1 == FeedAll(Leftover(all), chunks[1..]).1
  {
    hide Decode, Leftover;
  }

  lemma FlattenFirst(carry: seq<byte>, chunks: seq<seq<byte>>)
    requires chunks != []
    ensures carry + Flatten(chunks) == carry + chunks[0] + Flatten(chunks[1..])
  {
  }

  /** The encoder's bytes, cut anywhere, decode back to the samples with nothing pending. */
  lemma StreamRoundTrip(samples: seq<Sample>, chunks: seq<seq<byte>>)
    requires Flatten(chunks) == Encode(samples)
    ensures FeedAll([], chunks) == (samples, [])
  {
    SplitIndependence([], chunks);
    assert [] + Flatten(chunks) == Encode(samples);
    DecodeEncode(samples);
  }

  lemma HeadPair(first: byte, data: seq<byte>)
    requires |data| > 0
    ensures Decode([first] + data) == [Le16(first, data[0])] + Decode(data[1..])
    ensures Leftover([first] + data) == Leftover(data[1..])
  {
    var all, rest := [first] + data, data[1..];
    assert all[2..] == rest && all == [first, data[0]] + rest;
    assert Decode(all) == [Le16(first, data[0])] + Decode(rest);
    hide Leftover, Le16, Decode;
    LeftoverBehind([first, data[0]], rest);
  }

  lemma LeftoverLast(b: seq<byte>)
    ensures Leftover(b) == if |b| % 2 == 1 then [b[|b| - 1]] else []
  {
  }

  class StreamDecoder {
    var scratch: array<Sample>
    var trailing: byte
    var pending: bool

    constructor ()
      ensures Carry() == [] && fresh(scratch)
    {
      scratch := new Sample[0];
      trailing := 0;
      pending := false;
    }

    function Carry(): (c: seq<byte>)
      reads this
      ensures |c| < 2
    {
      if pending then [trailing] else []
    }

    /** Keeps the buffer when it is large enough. */
    method Reserve(sampleCount: nat)
      modifies this`scratch
      ensures scratch.Length >= sampleCount
      ensures scratch == old(scratch) || fresh(scratch)
    {
      if scratch.Length < sampleCount {
        scratch := new Sample[sampleCount];
      }
    }

    /** Completes the sample whose first byte is pending, if there is one and a byte to
        complete it with. */
    method CompletePending(data: seq<byte>) returns (index: nat, rest: seq<byte>)
      requires scratch.Length >= |Carry() + data| / 2
      modifies this`pending, scratch
      ensures index <= scratch.Length && index + |rest| / 2 == |old(Carry()) + data| / 2
      ensures Decode(old(Carry()) + data) == scratch[..index] + Decode(rest)
      ensures Leftover(old(Carry()) + data) == if pending then Carry() else Leftover(rest)
      ensures pending ==> rest == []
    {
      index, rest := 0, data;
      if pending && |data| > 0 {
        HeadPair(trailing, data);
        scratch[0] := Le16(trailing, data[0]);
        rest := data[1..];
        index := 1;
        pending := false;
        assert scratch[..1] == [scratch[0]];
      } else if !pending {
        assert Carry() + data == data;
      }
    }

    /** decode: the samples are the first `count` cells of `scratch`, valid until the next
        call, which reuses the buffer when it is large enough. */
    method DecodeChunk(data: seq<byte>) returns (count: nat)
      modifies this, scratch
      ensures scratch == old(scratch) || fresh(scratch)
      ensures count <= scratch.Length
      ensures scratch[..count] == Feed(old(Carry()), data).0
      ensures Carry() == Feed(old(Carry()), data).1
    {
      Reserve((|data| + if pending then 1 else 0) / 2);
      var index, rest := CompletePending(data);
      count := DecodePairs(scratch, index, rest);
      LeftoverLast(rest);
      if |rest| % 2 == 1 {
        trailing := rest[|rest| - 1];
        pending := true;
      }
    }
  }

  /** The decoder's inner loop: stores every whole pair of `data` from `index` on and
      returns the index after the last one. */
  method DecodePairs(scratch: array<Sample>, index: nat, data: seq<byte>) returns (next: nat)
    requires index + |data| / 2 <= scratch.Length
    modifies scratch
    ensures next == index + |data| / 2
    ensures scratch[..next] == old(scratch[..index]) + Decode(data)
  {
    next := index;
    var rest := data;
    while |rest| >= 2
      invariant index <= next && 2 * (next - index) + |rest| == |data|
      invariant scratch[..next] + Decode(rest) == old(scratch[..index]) + Decode(data)
      decreases |rest|
    {
      ghost var before := scratch[..next];
      scratch[next] := Le16(rest[0], rest[1]);
      assert scratch[..next + 1] == before + [Le16(rest[0], rest[1])];
      rest := rest[2..];
      next := next + 1;
    }
  }

  /** A whole run of reads through one decoder. */
  method DecodeReads(chunks: seq<seq<byte>>) returns (samples: seq<Sample>, pending: bool)
    ensures samples == Decode(Flatten(chunks))
    ensures pending <==> |Flatten(chunks)| % 2 == 1
  {
    var decoder := new StreamDecoder();
    samples := [];
    for k := 0 to |chunks|
      invariant fresh(decoder) && fresh(decoder.scratch)
      invariant samples + FeedAll(decoder.Carry(), chunks[k..]).0 == FeedAll([], chunks).0
      invariant FeedAll(decoder.Carry(), chunks[k..]).1 == FeedAll([], chunks).1
    {
      var n := decoder.DecodeChunk(chunks[k]);
      assert chunks[k..][1..] == chunks[k + 1..];
      samples := samples + decoder.scratch[..n];
    }
    SplitIndependence([], chunks);
    assert [] + Flatten(chunks) == Flatten(chunks);
    pending := decoder.pending;
  }
}
