/** Bytes and the little-endian words every codec of the repository is built from.
    A PCM sample is kept as its 16-bit pattern, which is what the Go conversions
    between int16 and uint16 preserve. */
module Bytes {
  import Division

  type byte = x: int | 0 <= x < 0x100
  type u16 = x: int | 0 <= x < 0x1_0000
  type u32 = x: int | 0 <= x < 0x1_0000_0000
  type u64 = x: int | 0 <= x < 0x1_0000_0000_0000_0000

  const U32 := 0x1_0000_0000
  const U64 := 0x1_0000_0000_0000_0000

  function Le16(lo: byte, hi: byte): u16 {
    lo as int + 0x100 * hi as int
  }

  function PutLe16(v: u16): (b: seq<byte>)
    ensures |b| == 2
  {
    [v % 0x100, v / 0x100]
  }

  function Le32(b: seq<byte>): u32
    requires |b| == 4
  {
    Le16(b[0], b[1]) as int + 0x1_0000 * Le16(b[2], b[3]) as int
  }

  function PutLe32(v: u32): (b: seq<byte>)
    ensures |b| == 4
  {
    PutLe16(v % 0x1_0000) + PutLe16(v / 0x1_0000)
  }

  /** The eight bytes of a 64-bit little-endian store. */
  function PutLe64(v: u64): (b: seq<byte>)
    ensures |b| == 8
  {
    PutLe32(v % 0x1_0000_0000) + PutLe32(v / 0x1_0000_0000)
  }

  lemma Le16OfPut(v: u16)
    ensures Le16(PutLe16(v)[0], PutLe16(v)[1]) == v
  {
  }

  lemma Le32OfPut(v: u32)
    ensures Le32(PutLe32(v)) == v
  {
    Le16OfPut(v % 0x1_0000);
    Le16OfPut(v / 0x1_0000);
  }

  lemma PutOfLe16(lo: byte, hi: byte)
    ensures PutLe16(Le16(lo, hi)) == [lo, hi]
  {
  }

  lemma PutLe32Halves(low: u16, high: u16)
    ensures PutLe32(low as int + 0x1_0000 * high as int) == PutLe16(low) + PutLe16(high)
  {
    Division.DivUnique(low as int + 0x1_0000 * high as int, 0x1_0000, high, low);
  }

  lemma PutLe64Halves(low: u32, high: u32)
    ensures PutLe64(low as int + 0x1_0000_0000 * high as int) == PutLe32(low) + PutLe32(high)
  {
    hide PutLe32;
    Division.DivUnique(low as int + 0x1_0000_0000 * high as int, 0x1_0000_0000, high, low);
  }

  lemma PutOfLe32(b: seq<byte>)
    requires |b| == 4
    ensures PutLe32(Le32(b)) == b
  {
    hide PutLe16, PutLe32, Le16;
    PutOfLe16(b[0], b[1]);
    PutOfLe16(b[2], b[3]);
    PutLe32Halves(Le16(b[0], b[1]), Le16(b[2], b[3]));
  }

  function Flatten<T>(chunks: seq<seq<T>>): seq<T> {
    if chunks == [] then [] else chunks[0] + Flatten(chunks[1..])
  }

  lemma {:induction false} FlattenAppend<T>(chunks: seq<seq<T>>, last: seq<T>)
    ensures Flatten(chunks + [last]) == Flatten(chunks) + last
  {
    if chunks == [] {
    } else {
      assert (chunks + [last])[1..] == chunks[1..] + [last];
      FlattenAppend(chunks[1..], last);
    }
  }
}
