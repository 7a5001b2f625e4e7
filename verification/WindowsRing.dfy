/** The shared byte ring of the Windows driver: drivers/windows/common/wave.cpp and
    drivers/windows/common/ring.h. */
module WindowsRing {
  import opened Bytes
  import opened RingCells
  import BoundedFifo
  import Division
  import Memory
  import PositionClock

  const RING_FRAMES := 65536
  const BLOCK_ALIGN := 4
  const RING_BYTES: nat := RING_FRAMES * BLOCK_ALIGN

  datatype Window = Window(read: nat, available: nat)

  /** PrukkaRingReadWindow on 64-bit cursors, the subtraction wrapping. */
  function ReadWindow(written: nat, read: nat, capacity: nat): Window {
    if capacity == 0 then Window(written, 0) else
      var available := PositionClock.Wrap(written - read);
      if available > capacity then Window(PositionClock.Wrap(written - capacity), capacity)
      else Window(read, available)
  }

  /** Wrapping cursors show the window of the unbounded ones, as long as fewer than 2^64
      bytes are unread. */
  lemma WindowSurvivesWrap(written: nat, read: nat, capacity: nat)
    requires read <= written < read + U64 && 0 < capacity < U64
    ensures var w := ReadWindow(written % U64, read % U64, capacity);
            var behind := Later(read, written, capacity);
            w.read == behind % U64 && w.available == written - behind
  {
    hide PositionClock.Wrap;
    WrappedDifference(written, read, written - read);
    if written - read > capacity { WrappedBack(written, capacity); }
  }

  lemma WrappedDifference(written: nat, read: nat, lag: nat)
    requires written == read + lag && lag < U64
    ensures PositionClock.Wrap(written % U64 - read % U64) == lag
  {
    WrapIsMod(written % U64 - read % U64);
    hide PositionClock.Wrap;
    Division.ModOfDifference(written, read, U64);
  }

  lemma WrappedBack(written: nat, capacity: nat)
    requires capacity < U64 && capacity <= written
    ensures PositionClock.Wrap(written % U64 - capacity) == (written - capacity) % U64
  {
    WrapIsMod(written % U64 - capacity);
    hide PositionClock.Wrap;
    Division.ModOfDifference(written, capacity, U64);
  }

  lemma WrapIsMod(x: int)
    ensures PositionClock.Wrap(x) == x % U64
  {
  }

  /** The ring size divides 2^64, so a wrapped cursor is at the same cell. */
  lemma CellSurvivesWrap(x: nat)
    ensures x % U64 % RING_BYTES == x % RING_BYTES
  {
    var laps := x / U64;
    assert x == x % U64 + (laps * 0x4000_0000_0000) * RING_BYTES;
    Division.ModAddMultiple(x % U64, RING_BYTES, laps * 0x4000_0000_0000);
  }

  class SharedRing {
    var data: array<byte>
    var written: u64
    var read: u64
    /** Every byte ever written, and the unbounded read cursor. */
    ghost var stream: seq<byte>
    ghost var reader: nat

    ghost predicate Valid()
      reads this, data
    {
      data.Length == RING_BYTES && Cursors(data[..], stream, reader, written, read)
    }

    /** What a reader has still to receive. */
    ghost function Queue(): seq<byte>
      requires Valid()
      reads this, data
    {
      stream[Later(reader, |stream|, RING_BYTES)..]
    }

    constructor ()
      ensures Valid() && Queue() == [] && stream == [] && reader == 0 && fresh(data)
    {
      data := new byte[RING_BYTES](_ => 0);
      written, read := 0, 0;
      stream, reader := [], 0;
    }

    /** CopyTo: appends one buffer, at most one lap, in two moves split at the wrap. The
        64-bit cursors tell the lag as long as it stays below 2^64 bytes. */
    method CopyTo(source: seq<byte>)
      requires Valid() && |source| <= RING_BYTES && |stream| + |source| < reader + U64
      modifies this, data
      ensures Valid() && data == old(data)
      ensures stream == old(stream) + source && reader == old(reader)
      ensures Queue() == BoundedFifo.Push(old(Queue()), source, RING_BYTES)
    {
      hide Holds, StoreEach, Later, BoundedFifo.Push, PositionClock.Wrap;
      Appended(data[..], stream, reader, written, source);
      StoreInTwo(data, written % RING_BYTES, |stream|, source);
      stream := stream + source;
      written := PositionClock.Wrap(written + |source|);
    }

    /** CopyFrom: drains what the writer produced in two moves, clears the span it consumed
        and silence-fills the rest. */
    method CopyFrom(bytes: nat) returns (out: seq<byte>)
      requires Valid()
      modifies this, data
      ensures Valid() && data == old(data)
      ensures stream == old(stream)
      ensures reader == Later(old(reader), |stream|, RING_BYTES) + BoundedFifo.Count(|old(Queue())|, bytes)
      ensures var n := BoundedFifo.Count(|old(Queue())|, bytes);
              out == old(Queue())[..n] + Zeros(bytes - n) && Queue() == old(Queue())[n..]
    {
      hide Holds, StoreEach, ReadSplit, ReadWindow, Later, Min, BoundedFifo.Count, PositionClock.Wrap, Zeros;
      Drained(data[..], stream, reader, written, read, bytes);
      var window := ReadWindow(written, read, RING_BYTES);
      ghost var kept := Later(reader, |stream|, RING_BYTES);
      var drained := Min(bytes, window.available);
      var pos := window.read % RING_BYTES;
      out := ReadInTwo(data, pos, kept, drained);
      StoreInTwo(data, pos, kept, Zeros(drained));
      out := out + Zeros(bytes - drained);
      reader := kept + drained;
      read := PositionClock.Wrap(window.read + drained);
    }
  }

  /** So many bytes of silence. */
  function Zeros(n: nat): (z: seq<byte>)
    ensures |z| == n && forall k :: 0 <= k < n ==> z[k] == 0
  {
    seq(n, _ => 0)
  }

  /** The wrapped cursors are those of the stream, and the cells hold its unread tail. */
  ghost predicate Cursors(cells: seq<byte>, stream: seq<byte>, reader: nat, written: u64, read: u64) {
    && |cells| == RING_BYTES && reader <= |stream| < reader + U64
    && written == |stream| % U64 && read == reader % U64
    && Holds(cells, stream, Later(reader, |stream|, RING_BYTES), |stream|)
  }

  lemma Appended(cells: seq<byte>, stream: seq<byte>, reader: nat, written: u64, source: seq<byte>)
    requires Cursors(cells, stream, reader, written, reader % U64)
    requires |source| <= RING_BYTES && |stream| + |source| < reader + U64
    ensures written % RING_BYTES == |stream| % RING_BYTES
    ensures Cursors(StoreEach(cells, |stream|, source), stream + source, reader,
                    PositionClock.Wrap(written + |source|), reader % U64)
    ensures (stream + source)[Later(reader, |stream + source|, RING_BYTES)..]
         == BoundedFifo.Push(stream[Later(reader, |stream|, RING_BYTES)..], source, RING_BYTES)
  {
    hide Holds, StoreEach, BoundedFifo.Push, PositionClock.Wrap;
    AppendSpan(cells, stream, reader, source);
    PushMovesWindow(stream, source, reader, RING_BYTES);
    CellSurvivesWrap(|stream|);
    CursorAfter(|stream|, |source|);
  }

  lemma Drained(cells: seq<byte>, stream: seq<byte>, reader: nat, written: u64, read: u64, bytes: nat)
    requires Cursors(cells, stream, reader, written, read)
    ensures var kept := Later(reader, |stream|, RING_BYTES);
            var n := BoundedFifo.Count(|stream[kept..]|, bytes);
            var window := ReadWindow(written, read, RING_BYTES);
            && n <= bytes && n <= RING_BYTES && kept + n <= |stream|
            && Min(bytes, window.available) == n && window.read % RING_BYTES == kept % RING_BYTES
            && ReadSplit(cells, kept, n) == stream[kept..][..n]
            && Cursors(StoreEach(cells, kept, Zeros(n)), stream, kept + n, written, PositionClock.Wrap(window.read + n))
            && stream[Later(kept + n, |stream|, RING_BYTES)..] == stream[kept..][n..]
  {
    hide Holds, StoreEach, ReadSplit, ReadWindow, PositionClock.Wrap, Zeros;
    WindowSurvivesWrap(|stream|, reader, RING_BYTES);
    var kept := Later(reader, |stream|, RING_BYTES);
    var n := BoundedFifo.Count(|stream[kept..]|, bytes);
    DrainSpan(cells, stream, kept, |stream|, n);
    CellSurvivesWrap(kept);
    CursorAfter(kept, n);
  }

  lemma CursorAfter(cursor: nat, n: nat)
    ensures PositionClock.Wrap(cursor % U64 + n) == (cursor + n) % U64
  {
    WrapIsMod(cursor % U64 + n);
    Division.ModAddMultiple(cursor % U64 + n, U64, cursor / U64);
    assert cursor == (cursor / U64) * U64 + cursor % U64;
  }

  /** Reading and clearing the next span of the ring. */
  lemma DrainSpan(cells: seq<byte>, stream: seq<byte>, read: nat, written: nat, drained: nat)
    requires Holds(cells, stream, read, written) && |stream| == written && read + drained <= written
    ensures ReadSplit(cells, read, drained) == stream[read..][..drained]
    ensures Holds(StoreEach(cells, read, Zeros(drained)), stream, read + drained, written)
    ensures stream[read + drained..] == stream[read..][drained..]
    ensures Later(read + drained, written, |cells|) == read + drained
  {
    ReadSplitIsTimeline(cells, stream, read, written, drained);
    ClearEachHolds(cells, stream, read, written, Zeros(drained));
  }

  /** The two bulk moves from position pos: the per-byte modulo copy. */
  method StoreInTwo(data: array<byte>, pos: nat, ghost from: nat, xs: seq<byte>)
    requires data.Length == RING_BYTES && |xs| <= RING_BYTES && pos == from % RING_BYTES
    modifies data
    ensures data[..] == StoreEach(old(data[..]), from, xs)
  {
    SplitIsEach(data[..], from, xs);
    var first := Min(|xs|, RING_BYTES - pos);
    Memory.CopyIn(data, pos, xs[..first]);
    Memory.CopyIn(data, 0, xs[first..]);
  }

  /** And the two bulk reads. */
  method ReadInTwo(data: array<byte>, pos: nat, ghost from: nat, n: nat) returns (out: seq<byte>)
    requires data.Length == RING_BYTES && n <= RING_BYTES && pos == from % RING_BYTES
    ensures out == ReadSplit(data[..], from, n)
  {
    var first := Min(n, RING_BYTES - pos);
    out := data[pos..pos + first] + data[..n - first];
  }

  lemma AppendSpan(cells: seq<byte>, stream: seq<byte>, read: nat, source: seq<byte>)
    requires read <= |stream| && Holds(cells, stream, Later(read, |stream|, |cells|), |stream|)
    ensures Holds(StoreEach(cells, |stream|, source), stream + source,
                  Later(read, |stream| + |source|, |cells|), |stream| + |source|)
  {
    hide Holds;
    StoreEachHolds(cells, stream, Later(read, |stream|, |cells|), source);
  }

  lemma PushMovesWindow(stream: seq<byte>, source: seq<byte>, read: nat, capacity: nat)
    requires read <= |stream| && capacity > 0
    ensures (stream + source)[Later(read, |stream| + |source|, capacity)..]
         == BoundedFifo.Push(stream[Later(read, |stream|, capacity)..], source, capacity)
  {
    var kept := Later(read, |stream|, capacity);
    assert stream[kept..] + source == (stream + source)[kept..];
  }

  /** The sizes asked for by the reads of a run. */
  function Wanted(ops: seq<BoundedFifo.Op<byte>>): seq<nat> {
    if ops == [] then [] else
      Wanted(ops[..|ops| - 1]) + if ops[|ops| - 1].Read? then [ops[|ops| - 1].wanted] else []
  }

  /** The cursors tell how far the reader lags all along a run: fewer than 2^64 bytes. */
  ghost predicate LagFits(ops: seq<BoundedFifo.Op<byte>>) {
    forall i: nat :: i <= |ops| ==> Lags(BoundedFifo.After(ops[..i], RING_BYTES)) < U64
  }

  function Lags(log: BoundedFifo.Log<byte>): int { |log.stream| - BoundedFifo.Behind(log.spans) }

  /** The ring stands where the log does. */
  ghost predicate Tracks(ring: SharedRing, log: BoundedFifo.Log<byte>)
    reads ring, ring.data
  {
    && ring.Valid() && ring.Queue() == log.queue && ring.stream == log.stream
    && ring.reader == BoundedFifo.Behind(log.spans)
  }

  /** One buffer written. */
  method WriteTurn(ring: SharedRing, xs: seq<byte>, ghost log: BoundedFifo.Log<byte>)
    requires Tracks(ring, log) && |xs| <= RING_BYTES
    requires Lags(BoundedFifo.Step(log, BoundedFifo.Write(xs), RING_BYTES)) < U64
    modifies ring, ring.data
    ensures ring.data == old(ring.data) && Tracks(ring, BoundedFifo.Step(log, BoundedFifo.Write(xs), RING_BYTES))
  {
    hide Holds, Later, BoundedFifo.Push, BoundedFifo.Behind;
    ring.CopyTo(xs);
  }

  /** One buffer read. */
  method ReadTurn(ring: SharedRing, wanted: nat, ghost log: BoundedFifo.Log<byte>) returns (out: seq<byte>)
    requires Tracks(ring, log)
    modifies ring, ring.data
    ensures ring.data == old(ring.data) && Tracks(ring, BoundedFifo.Step(log, BoundedFifo.Read(wanted), RING_BYTES))
    ensures var n := BoundedFifo.Count(|log.queue|, wanted);
            out == log.queue[..n] + Zeros(wanted - n)
  {
    SpanEnds(log, wanted);
    hide Holds, BoundedFifo.Behind, BoundedFifo.Unread;
    out := ring.CopyFrom(wanted);
  }

  lemma SpanEnds(log: BoundedFifo.Log<byte>, wanted: nat)
    ensures BoundedFifo.Behind(BoundedFifo.Step(log, BoundedFifo.Read(wanted), RING_BYTES).spans)
         == Later(BoundedFifo.Behind(log.spans), |log.stream|, RING_BYTES) + BoundedFifo.Count(|log.queue|, wanted)
  {
  }

  /** One of the buffers of a run. */
  method Turn(ring: SharedRing, ops: seq<BoundedFifo.Op<byte>>, i: nat, outputs: seq<seq<byte>>)
      returns (grown: seq<seq<byte>>)
    requires i < |ops| && Served(ring, ops, i, outputs)
    requires LagFits(ops) && forall op :: op in ops && op.Write? ==> |op.xs| <= RING_BYTES
    modifies ring, ring.data
    ensures ring.data == old(ring.data) && Served(ring, ops, i + 1, grown)
  {
    hide Filled, Padded, Wanted, Tracks, Lags, BoundedFifo.After, BoundedFifo.Step, BoundedFifo.Count, LagFits;
    ghost var log, wants := BoundedFifo.After(ops[..i], RING_BYTES), Wanted(ops[..i]);
    NextRun(ops, i);
    match ops[i]
    case Write(xs) =>
      assert ops[i] in ops;
      WriteTurn(ring, xs, log);
      grown := outputs;
    case Read(wanted) =>
      var out := ReadTurn(ring, wanted, log);
      FilledNext(log.outputs, wants, outputs, log.queue, wanted);
      grown := outputs + [out];
  }

  /** Any run of buffers written and read, the reader never 2^64 bytes behind: every read is
      filled to the size asked for, with what the bounded queue delivers and then silence. */
  method RunRing(ops: seq<BoundedFifo.Op<byte>>) returns (outputs: seq<seq<byte>>)
    requires forall op :: op in ops && op.Write? ==> |op.xs| <= RING_BYTES
    requires LagFits(ops)
    ensures |outputs| == |BoundedFifo.After(ops, RING_BYTES).outputs| == |Wanted(ops)|
    ensures forall i :: 0 <= i < |outputs| ==>
              |outputs[i]| == Wanted(ops)[i] && Padded(BoundedFifo.After(ops, RING_BYTES).outputs[i], outputs[i])
  {
    hide *;
    var ring := new SharedRing();
    outputs := [];
    ServedNone(ring, ops);
    for i := 0 to |ops|
      invariant fresh(ring) && fresh(ring.data)
      invariant Served(ring, ops, i, outputs)
    {
      outputs := Turn(ring, ops, i, outputs);
    }
    ServedAll(ring, ops, outputs);
    FilledMeans(BoundedFifo.After(ops, RING_BYTES).outputs, Wanted(ops), outputs);
  }

  /** The first buffers of a run are done. */
  ghost predicate Served(ring: SharedRing, ops: seq<BoundedFifo.Op<byte>>, count: nat, outputs: seq<seq<byte>>)
    reads ring, ring.data
  {
    && count <= |ops|
    && Tracks(ring, BoundedFifo.After(ops[..count], RING_BYTES))
    && Filled(BoundedFifo.After(ops[..count], RING_BYTES).outputs, Wanted(ops[..count]), outputs)
  }

  /** Every output has the size asked for and holds what was delivered, then silence. */
  ghost predicate Filled(delivered: seq<seq<byte>>, wants: seq<nat>, outputs: seq<seq<byte>>) {
    && |outputs| == |delivered| == |wants|
    && forall i :: 0 <= i < |outputs| ==> |outputs[i]| == wants[i] && Padded(delivered[i], outputs[i])
  }

  lemma FilledMeans(delivered: seq<seq<byte>>, wants: seq<nat>, outputs: seq<seq<byte>>)
    requires Filled(delivered, wants, outputs)
    ensures |outputs| == |delivered| == |wants|
    ensures forall i :: 0 <= i < |outputs| ==> |outputs[i]| == wants[i] && Padded(delivered[i], outputs[i])
  {
  }

  lemma FilledNext(delivered: seq<seq<byte>>, wants: seq<nat>, outputs: seq<seq<byte>>, queue: seq<byte>, wanted: nat)
    requires Filled(delivered, wants, outputs)
    ensures var n := BoundedFifo.Count(|queue|, wanted);
            Filled(delivered + [queue[..n]], wants + [wanted], outputs + [queue[..n] + Zeros(wanted - n)])
  {
    PaddedOut(queue[..BoundedFifo.Count(|queue|, wanted)], wanted);
    hide Padded;
  }

  lemma NothingRun(ops: seq<BoundedFifo.Op<byte>>)
    ensures BoundedFifo.After(ops[..0], RING_BYTES) == BoundedFifo.Log([], [], [], [])
    ensures Filled([], Wanted(ops[..0]), [])
  {
  }

  lemma ServedNone(ring: SharedRing, ops: seq<BoundedFifo.Op<byte>>)
    requires ring.Valid() && ring.Queue() == [] && ring.stream == [] && ring.reader == 0
    ensures Served(ring, ops, 0, [])
  {
    NothingRun(ops);
    NothingTracked(ring);
    hide Filled, Tracks, Wanted, BoundedFifo.After;
  }

  lemma ServedAll(ring: SharedRing, ops: seq<BoundedFifo.Op<byte>>, outputs: seq<seq<byte>>)
    requires Served(ring, ops, |ops|, outputs)
    ensures Filled(BoundedFifo.After(ops, RING_BYTES).outputs, Wanted(ops), outputs)
  {
    assert ops[..|ops|] == ops;
    hide Filled, Tracks, Wanted, BoundedFifo.After;
  }

  lemma NothingTracked(ring: SharedRing)
    requires ring.Valid() && ring.Queue() == [] && ring.stream == [] && ring.reader == 0
    ensures Tracks(ring, BoundedFifo.Log([], [], [], []))
  {
    hide Holds, Later;
  }

  lemma NextRun(ops: seq<BoundedFifo.Op<byte>>, i: nat)
    requires i < |ops| && LagFits(ops)
    ensures var before, after := BoundedFifo.After(ops[..i], RING_BYTES), BoundedFifo.After(ops[..i + 1], RING_BYTES);
            var n := BoundedFifo.Count(|before.queue|, if ops[i].Read? then ops[i].wanted else 0);
            && after == BoundedFifo.Step(before, ops[i], RING_BYTES) && Lags(after) < U64
            && (ops[i].Write? ==> after.outputs == before.outputs && Wanted(ops[..i + 1]) == Wanted(ops[..i]))
            && (ops[i].Read? ==>
                  && after.outputs == before.outputs + [before.queue[..n]]
                  && Wanted(ops[..i + 1]) == Wanted(ops[..i]) + [ops[i].wanted])
  {
    assert ops[..i + 1][..i] == ops[..i];
  }

  lemma PaddedOut(delivered: seq<byte>, wanted: nat)
    requires |delivered| <= wanted
    ensures Padded(delivered, delivered + Zeros(wanted - |delivered|))
  {
  }

  ghost predicate Padded(delivered: seq<byte>, out: seq<byte>) {
    delivered <= out && forall k :: |delivered| <= k < |out| ==> out[k] == 0
  }
}
