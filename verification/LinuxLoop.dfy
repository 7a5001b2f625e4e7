/** The ALSA loopback of drivers/linux/common/pcm_loop.c: one timer tick moves 480 frames of
    the playback buffer through a shared ring into the capture buffer. */
module LinuxLoop {
  import opened Bytes
  import Division
  import opened Wrappers

  datatype Frame = Frame(left: u16, right: u16)

  const SILENCE := Frame(0, 0)

  const RING_FRAMES: nat := 65536
  const TICK_FRAMES: nat := 480
  const BUFFER_FRAMES_MIN: nat := 512

  /** Position i frames on, with the driver's one conditional subtraction. */
  function Wrapped(pos: nat, i: nat, size: nat): int {
    if pos + i >= size then pos + i - size else pos + i
  }

  /** One subtraction is the remainder when no more than a buffer is stepped. */
  lemma WrappedIsMod(pos: nat, i: nat, size: nat)
    requires pos < size && i <= size
    ensures Wrapped(pos, i, size) == (pos + i) % size
  {
    if pos + i < size {
      Division.DivUnique(pos + i, size, 0, pos + i);
    } else {
      Division.DivUnique(pos + i, size, 1, pos + i - size);
    }
  }

  /** A tick keeps every position inside a buffer exactly when it holds a tick's frames. */
  lemma OneSubtractionIff(size: nat)
    requires size > 0
    ensures (forall pos: nat :: pos < size ==> 0 <= Wrapped(pos, TICK_FRAMES, size) < size) <==> TICK_FRAMES <= size
  {
    if size < TICK_FRAMES {
      assert Wrapped(size - 1, TICK_FRAMES, size) >= size;
    }
  }

  function Slot(ringPos: u64, i: nat): (slot: nat)
    ensures slot < RING_FRAMES
  {
    (ringPos + i) % U64 % RING_FRAMES
  }

  /** The wrap of the 64-bit head does not show in the ring. */
  lemma SlotIsMod(ringPos: u64, i: nat)
    ensures Slot(ringPos, i) == (ringPos + i) % RING_FRAMES
  {
    var x: int := ringPos + i;
    assert x == (x / U64) * U64 + x % U64;
    assert x == x % U64 + ((x / U64) * 0x1_0000_0000_0000) * RING_FRAMES;
    Division.ModAddMultiple(x % U64, RING_FRAMES, (x / U64) * 0x1_0000_0000_0000);
  }

  lemma SlotsDiffer(ringPos: u64, i: nat, j: nat)
    requires i < j < i + RING_FRAMES
    ensures Slot(ringPos, i) != Slot(ringPos, j)
  {
    SlotIsMod(ringPos, i);
    SlotIsMod(ringPos, j);
    Division.ModDistinct(ringPos + i, ringPos + j, RING_FRAMES);
  }

  // ---- period callbacks ---------------------------------------------------------------

  /** Frames since the last period after one tick, and the callbacks due. */
  function Advance(since: u32, period: nat): (u32, nat) {
    var total := (since + TICK_FRAMES) % U32;
    if period > 0 then (RestOf(total, period), total / period) else (total, 0)
  }

  function RestOf(total: u32, period: nat): (r: u32)
    requires period > 0
    ensures r == total % period
  {
    Division.MulMono(0, total / period, period);
    total % period
  }

  /** The counter and the callbacks after a number of ticks from prepare. */
  function Ticked(ticks: nat, period: nat): (u32, nat) {
    if ticks == 0 then (0, 0) else
      var (since, due) := Ticked(ticks - 1, period);
      var (since', more) := Advance(since, period);
      (since', due + more)
  }

  /** No frame is lost or counted twice: the callbacks so far are the whole periods that
      were pumped, and the counter is the rest. */
  lemma {:induction false} PeriodsConserveFrames(ticks: nat, period: nat)
    requires 0 < period <= U32 - TICK_FRAMES
    ensures Ticked(ticks, period).0 == (ticks * TICK_FRAMES) % period
    ensures Ticked(ticks, period).1 == (ticks * TICK_FRAMES) / period
    decreases ticks
  {
    if ticks == 0 {
      Division.DivUnique(0, period, 0, 0);
    } else {
      PeriodsConserveFrames(ticks - 1, period);
      var before := (ticks - 1) * TICK_FRAMES;
      var (since, due) := Ticked(ticks - 1, period);
      RebuiltFrom(before, period);
      AdvanceIsDivision(since, period);
      hide Advance;
      Division.ModAddMultiple(since + TICK_FRAMES, period, due);
    }
  }

  lemma RebuiltFrom(x: nat, period: nat)
    requires period > 0
    ensures x % period + (x / period) * period == x && 0 <= x % period < period
  {
  }

  lemma AdvanceIsDivision(since: u32, period: nat)
    requires since < period <= U32 - TICK_FRAMES
    ensures Advance(since, period) == ((since + TICK_FRAMES) % period, (since + TICK_FRAMES) / period)
  {
  }

  // ---- one tick of each pump ----------------------------------------------------------

  /** Frame i of a circular buffer read from pos. */
  function At(buffer: seq<Frame>, pos: nat, i: nat): Frame
    requires pos < |buffer|
  {
    buffer[(pos + i) % |buffer|]
  }

  /** Frame i of the tick in the ring. */
  function InRing(ring: seq<Frame>, ringPos: u64, i: nat): Frame
    requires |ring| == RING_FRAMES
  {
    ring[Slot(ringPos, i)]
  }

  /** One frame stored in the ring shows at its own index of the tick only. */
  lemma InRingAfter(ring: seq<Frame>, ringPos: u64, i: nat, frame: Frame, k: nat)
    requires |ring| == RING_FRAMES && i < TICK_FRAMES && k < RING_FRAMES
    ensures InRing(ring[Slot(ringPos, i) := frame], ringPos, k) == if k == i then frame else InRing(ring, ringPos, k)
  {
    if k < i { SlotsDiffer(ringPos, k, i); }
    if i < k { SlotsDiffer(ringPos, i, k); }
  }

  /** And one frame stored in a buffer that holds a tick. */
  lemma AtAfter(buffer: seq<Frame>, pos: nat, i: nat, frame: Frame, k: nat)
    requires pos < |buffer| && TICK_FRAMES <= |buffer| && i < TICK_FRAMES && k < |buffer|
    ensures 0 <= Wrapped(pos, i, |buffer|) < |buffer|
    ensures At(buffer[Wrapped(pos, i, |buffer|) := frame], pos, k) == if k == i then frame else At(buffer, pos, k)
  {
    WrappedIsMod(pos, i, |buffer|);
    WrappedIsMod(pos, k, |buffer|);
  }

  /** The copy loop of pump_playback. */
  method FillRing(ring: array<Frame>, ringPos: u64, src: array<Frame>, pos: nat)
    requires ring.Length == RING_FRAMES && ring != src && pos < src.Length && TICK_FRAMES <= src.Length
    modifies ring
    ensures forall k: nat :: k < RING_FRAMES ==>
              InRing(ring[..], ringPos, k)
              == if k < TICK_FRAMES then At(src[..], pos, k) else InRing(old(ring[..]), ringPos, k)
  {
    ghost var before := ring[..];
    for i := 0 to TICK_FRAMES
      invariant forall k: nat :: k < RING_FRAMES ==>
                  InRing(ring[..], ringPos, k) == if k < i then At(src[..], pos, k) else InRing(before, ringPos, k)
    {
      ghost var was := ring[..];
      var slot := Slot(ringPos, i);
      var at := pos + i;
      if at >= src.Length { at := at - src.Length; }
      WrappedIsMod(pos, i, src.Length);
      ring[slot] := src[at];
      assert ring[..] == was[slot := src[at]];
      forall k: nat | k < RING_FRAMES
        ensures InRing(ring[..], ringPos, k) == if k == i then At(src[..], pos, i) else InRing(was, ringPos, k)
      {
        InRingAfter(was, ringPos, i, src[at], k);
      }
    }
  }

  /** One turn of the loop of pump_capture. */
  method DrainFrame(ring: array<Frame>, ringPos: u64, dst: array<Frame>, pos: nat, running: bool, i: nat)
    requires ring.Length == RING_FRAMES && ring != dst && pos < dst.Length && i < TICK_FRAMES <= dst.Length
    modifies ring, dst
    ensures 0 <= Wrapped(pos, i, dst.Length) < dst.Length
    ensures ring[..] == old(ring[..])[Slot(ringPos, i) := SILENCE]
    ensures dst[..] == old(dst[..])[Wrapped(pos, i, dst.Length) :=
                                      if running then InRing(old(ring[..]), ringPos, i) else SILENCE]
  {
    var slot := Slot(ringPos, i);
    var at := pos + i;
    if at >= dst.Length { at := at - dst.Length; }
    if running { dst[at] := ring[slot]; } else { dst[at] := SILENCE; }
    ring[slot] := SILENCE;
  }

  /** The copy-and-clear loop of pump_capture. */
  method DrainRing(ring: array<Frame>, ringPos: u64, dst: array<Frame>, pos: nat, running: bool)
    requires ring.Length == RING_FRAMES && ring != dst && pos < dst.Length && TICK_FRAMES <= dst.Length
    modifies ring, dst
    ensures forall k: nat :: k < RING_FRAMES ==>
              InRing(ring[..], ringPos, k) == if k < TICK_FRAMES then SILENCE else InRing(old(ring[..]), ringPos, k)
    ensures forall k: nat :: k < dst.Length ==>
              At(dst[..], pos, k) == if k >= TICK_FRAMES then At(old(dst[..]), pos, k)
                                     else if running then InRing(old(ring[..]), ringPos, k) else SILENCE
  {
    hide At, InRing, Slot, Wrapped;
    ghost var heard, before := ring[..], dst[..];
    for i := 0 to TICK_FRAMES
      invariant forall k: nat :: k < RING_FRAMES ==>
                  InRing(ring[..], ringPos, k) == if k < i then SILENCE else InRing(heard, ringPos, k)
      invariant forall k: nat :: k < dst.Length ==>
                  At(dst[..], pos, k) == if k >= i then At(before, pos, k)
                                         else if running then InRing(heard, ringPos, k) else SILENCE
    {
      ghost var was, had := ring[..], dst[..];
      ghost var frame := if running then InRing(was, ringPos, i) else SILENCE;
      DrainFrame(ring, ringPos, dst, pos, running, i);
      forall k: nat | k < RING_FRAMES
        ensures InRing(ring[..], ringPos, k) == if k == i then SILENCE else InRing(was, ringPos, k)
      {
        InRingAfter(was, ringPos, i, SILENCE, k);
      }
      forall k: nat | k < dst.Length ensures At(dst[..], pos, k) == if k == i then frame else At(had, pos, k) {
        AtAfter(had, pos, i, frame, k);
      }
    }
  }

  // ---- the driver ---------------------------------------------------------------------

  class Loop {
    const ring: array<Frame>
    const playback: array<Frame>
    const capture: array<Frame>
    const playbackPeriod: nat
    const capturePeriod: nat
    var ringPos: u64
    var removing: bool
    var playbackRunning: bool
    var captureRunning: bool
    var playbackPos: nat
    var capturePos: nat
    var playbackSince: u32
    var captureSince: u32

    /** A probed card with both substreams opened on buffers the hardware rules allow. */
    constructor (playbackFrames: nat, playbackPeriod: nat, captureFrames: nat, capturePeriod: nat)
      requires playbackFrames >= BUFFER_FRAMES_MIN && captureFrames >= BUFFER_FRAMES_MIN
      ensures Valid() && fresh(ring) && fresh(playback) && fresh(capture)
      ensures playback.Length == playbackFrames && capture.Length == captureFrames
      ensures this.playbackPeriod == playbackPeriod && this.capturePeriod == capturePeriod
      ensures !playbackRunning && !captureRunning
    {
      ring := new Frame[RING_FRAMES](_ => SILENCE);
      playback := new Frame[playbackFrames](_ => SILENCE);
      capture := new Frame[captureFrames](_ => SILENCE);
      this.playbackPeriod, this.capturePeriod := playbackPeriod, capturePeriod;
      ringPos, removing, playbackRunning, captureRunning := 0, false, false, false;
      playbackPos, capturePos, playbackSince, captureSince := 0, 0, 0, 0;
    }

    ghost predicate Valid()
      reads this
    {
      && ring.Length == RING_FRAMES && ring != playback && ring != capture && playback != capture
      && playback.Length >= BUFFER_FRAMES_MIN && capture.Length >= BUFFER_FRAMES_MIN
      && playbackPos < playback.Length && capturePos < capture.Length
    }

    method PumpPlayback()
      requires Valid()
      modifies ring, this`playbackPos
      ensures Valid() && playbackPos == (old(playbackPos) + TICK_FRAMES) % playback.Length
      ensures forall k: nat :: k < RING_FRAMES ==>
                InRing(ring[..], ringPos, k)
                == if k < TICK_FRAMES then At(playback[..], old(playbackPos), k) else InRing(old(ring[..]), ringPos, k)
    {
      FillRing(ring, ringPos, playback, playbackPos);
      WrappedIsMod(playbackPos, TICK_FRAMES, playback.Length);
      playbackPos := playbackPos + TICK_FRAMES;
      if playbackPos >= playback.Length { playbackPos := playbackPos - playback.Length; }
    }

    method PumpCapture()
      requires Valid()
      modifies ring, capture, this`capturePos
      ensures Valid() && capturePos == (old(capturePos) + TICK_FRAMES) % capture.Length
      ensures forall k: nat :: k < RING_FRAMES ==>
                InRing(ring[..], ringPos, k) == if k < TICK_FRAMES then SILENCE else InRing(old(ring[..]), ringPos, k)
      ensures forall k: nat :: k < capture.Length ==>
                At(capture[..], old(capturePos), k)
                == if k >= TICK_FRAMES then At(old(capture[..]), old(capturePos), k)
                   else if playbackRunning then InRing(old(ring[..]), ringPos, k) else SILENCE
    {
      DrainRing(ring, ringPos, capture, capturePos, playbackRunning);
      WrappedIsMod(capturePos, TICK_FRAMES, capture.Length);
      capturePos := capturePos + TICK_FRAMES;
      if capturePos >= capture.Length { capturePos := capturePos - capture.Length; }
    }

    /** prukka_tick: what capture hears in a tick is what playback plays in it, or silence. */
    method Tick() returns (restart: bool, playbackPeriods: nat, capturePeriods: nat)
      requires Valid()
      modifies this, ring, capture
      ensures Valid()
      ensures restart == !old(removing)
      ensures !restart ==> playbackPos == old(playbackPos) && capturePos == old(capturePos)
                           && playbackPeriods == 0 && capturePeriods == 0 && capture[..] == old(capture[..])
                           && playbackSince == old(playbackSince) && captureSince == old(captureSince)
                           && ring[..] == old(ring[..])
      ensures restart ==>
                && playbackPos == (if playbackRunning then (old(playbackPos) + TICK_FRAMES) % playback.Length
                                   else old(playbackPos))
                && capturePos == (if captureRunning then (old(capturePos) + TICK_FRAMES) % capture.Length
                                  else old(capturePos))
                && (playbackSince, playbackPeriods)
                   == (if playbackRunning then Advance(old(playbackSince), playbackPeriod) else (old(playbackSince), 0))
                && (captureSince, capturePeriods)
                   == (if captureRunning then Advance(old(captureSince), capturePeriod) else (old(captureSince), 0))
      ensures restart && captureRunning ==> forall k: nat :: k < capture.Length ==>
                At(capture[..], old(capturePos), k)
                == if k >= TICK_FRAMES then At(old(capture[..]), old(capturePos), k)
                   else if playbackRunning then At(playback[..], old(playbackPos), k) else SILENCE
      ensures restart ==> forall k: nat :: k < RING_FRAMES ==>
                InRing(ring[..], old(ringPos), k)
                == if k >= TICK_FRAMES then InRing(old(ring[..]), old(ringPos), k)
                   else if captureRunning then SILENCE
                   else if playbackRunning then At(playback[..], old(playbackPos), k)
                   else InRing(old(ring[..]), old(ringPos), k)
      ensures restart && !captureRunning ==> capture[..] == old(capture[..])
      ensures ringPos == if restart then (old(ringPos) + TICK_FRAMES) % U64 else old(ringPos)
      ensures unchanged(this`playbackRunning) && unchanged(this`captureRunning) && unchanged(this`removing)
    {
      playbackPeriods, capturePeriods := 0, 0;
      if removing { return false, 0, 0; }
      if playbackRunning { PumpPlayback(); }
      if captureRunning { PumpCapture(); }
      ringPos := (ringPos + TICK_FRAMES) % U64;
      if playbackRunning { playbackSince, playbackPeriods := CountPeriods(playbackSince, playbackPeriod); }
      if captureRunning { captureSince, capturePeriods := CountPeriods(captureSince, capturePeriod); }
      restart := true;
    }

    /** The playing application writes the next tick's frames where the driver will look. */
    method Refill(frames: seq<Frame>)
      requires Valid() && |frames| == TICK_FRAMES
      modifies playback
      ensures forall k: nat :: k < TICK_FRAMES ==> At(playback[..], playbackPos, k) == frames[k]
    {
      hide At, Wrapped;
      for i := 0 to TICK_FRAMES
        invariant forall k: nat :: k < i ==> At(playback[..], playbackPos, k) == frames[k]
      {
        ghost var had := playback[..];
        RefillFrame(i, frames[i]);
        forall k: nat | k < i + 1 ensures At(playback[..], playbackPos, k) == frames[k] {
          AtAfter(had, playbackPos, i, frames[i], k);
        }
      }
    }

    method RefillFrame(i: nat, frame: Frame)
      requires Valid() && i < TICK_FRAMES
      modifies playback
      ensures 0 <= Wrapped(playbackPos, i, playback.Length) < playback.Length
      ensures playback[..] == old(playback[..])[Wrapped(playbackPos, i, playback.Length) := frame]
    {
      var at := playbackPos + i;
      if at >= playback.Length { at := at - playback.Length; }
      playback[at] := frame;
    }

    /** The capturing application takes the frames of the tick that began at pos. */
    method Collect(pos: nat) returns (frames: seq<Frame>)
      requires Valid() && pos < capture.Length
      ensures |frames| == TICK_FRAMES && forall k: nat :: k < TICK_FRAMES ==> frames[k] == At(capture[..], pos, k)
    {
      frames := [];
      for i := 0 to TICK_FRAMES
        invariant |frames| == i && forall k: nat :: k < i ==> frames[k] == At(capture[..], pos, k)
      {
        frames := frames + [capture[(pos + i) % capture.Length]];
      }
    }

    /** One tick of capture with an application that plays these frames, or has stopped. */
    method Exchange(turn: Option<seq<Frame>>) returns (heard: seq<Frame>)
      requires Valid() && !removing && captureRunning && (turn.Some? ==> |turn.value| == TICK_FRAMES)
      modifies this, ring, playback, capture
      ensures Valid() && !removing && captureRunning && heard == Sound(turn)
    {
      hide At, InRing, Advance;
      playbackRunning := turn.Some?;
      if turn.Some? { Refill(turn.value); }
      var pos := capturePos;
      var restart, playbackPeriods, capturePeriods := Tick();
      heard := Collect(pos);
      forall k: nat | k < TICK_FRAMES ensures heard[k] == Sound(turn)[k] {
        assert heard[k] == At(capture[..], pos, k);
      }
      assert heard == Sound(turn);
    }

    /** Any number of ticks, playback starting and stopping between them: what is captured
        is what was played, tick after tick in order, and silence where it had stopped. */
    method RunTicks(turns: seq<Option<seq<Frame>>>) returns (heard: seq<Frame>)
      requires Valid() && !removing && captureRunning
      requires forall turn :: turn in turns && turn.Some? ==> |turn.value| == TICK_FRAMES
      modifies this, ring, playback, capture
      ensures Valid() && heard == Sounds(turns)
    {
      hide Valid, Sound, Sounds;
      heard := [];
      NoSounds(turns);
      for i := 0 to |turns|
        invariant Valid() && !removing && captureRunning
        invariant heard == Sounds(turns[..i])
      {
        assert turns[i] in turns;
        var frames := Exchange(turns[i]);
        NextSound(turns, i);
        heard := heard + frames;
      }
      assert turns[..|turns|] == turns;
    }
  }

  /** What one tick is to sound like. */
  function Sound(turn: Option<seq<Frame>>): seq<Frame> {
    match turn
    case Some(frames) => frames
    case None => seq(TICK_FRAMES, _ => SILENCE)
  }

  function Sounds(turns: seq<Option<seq<Frame>>>): seq<Frame> {
    if turns == [] then [] else Sounds(turns[..|turns| - 1]) + Sound(turns[|turns| - 1])
  }

  lemma NoSounds(turns: seq<Option<seq<Frame>>>)
    ensures Sounds(turns[..0]) == []
  {
  }

  lemma NextSound(turns: seq<Option<seq<Frame>>>, i: nat)
    requires i < |turns|
    ensures Sounds(turns[..i + 1]) == Sounds(turns[..i]) + Sound(turns[i])
  {
    assert turns[..i + 1][..i] == turns[..i];
  }

  method CountPeriods(before: u32, period: nat) returns (since: u32, periods: nat)
    ensures (since, periods) == Advance(before, period)
  {
    since, periods := (before + TICK_FRAMES) % U32, 0;
    if period > 0 {
      periods := since / period;
      since := RestOf(since, period);
    }
  }
}
