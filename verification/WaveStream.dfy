/** The stream object of drivers/windows/common/wave.cpp around the position clock: state
    changes, the reference its timer owns, the buffer size and the reported position. */
module WaveStream {
  import opened Bytes
  import opened PositionClock
  import Division
  import opened WindowsRing

  const BYTES_PER_SEC: nat := 48000 * BLOCK_ALIGN

  /** KSSTATE as the port passes it. */
  function StateOf(code: int): KsState
    requires 0 <= code <= 3
  {
    match code case 0 => Stop case 1 => Acquire case 2 => Pause case _ => Run
  }

  class Stream {
    const frequency: nat
    const owners: nat
    var state: KsState
    var clock: Clock
    var bufferSize: nat
    var timerArmed: bool
    var refs: nat
    /** Every state change so far. */
    ghost var events: seq<Event>

    constructor (frequency: nat, owners: nat)
      ensures Valid() && events == [] && this.frequency == frequency && this.owners == owners && bufferSize == 0
    {
      this.frequency, this.owners := frequency, owners;
      state, clock, bufferSize, timerArmed, refs := Stop, Clock(0, 0, false), 0, false, owners;
      events := [];
    }

    /** The clock is the fold of the state changes, and the timer runs, and holds one
        reference, exactly in the Run state. */
    ghost predicate Valid()
      reads this
    {
      && clock == ClockAfter(events) && Timely(events)
      && state == (if events == [] then Stop else events[|events| - 1].state)
      && timerArmed == (state == Run)
      && refs == owners + (if state == Run then 1 else 0)
      && bufferSize <= RING_BYTES && bufferSize % BLOCK_ALIGN == 0
    }

    /** SetState at performance-counter time now, which never goes back. */
    method SetState(code: int, now: u64) returns (ok: bool)
      requires Valid() && LastAt(events) <= now
      modifies this
      ensures Valid() && bufferSize == old(bufferSize)
      ensures ok == (0 <= code <= 3)
      ensures !ok ==> state == old(state)
      ensures ok ==> state == [Stop, Acquire, Pause, Run][code]
      ensures timerArmed <==> state == Run
      ensures events == old(events) + (if 0 <= code <= 3 then [Event(StateOf(code), now)] else [])
    {
      hide ClockAfter, Timely, Transition;
      if code < 0 || code > 3 { return false; }
      var next := StateOf(code);
      var entering, leaving := next == Run && state != Run, next != Run && state == Run;
      if entering { refs := refs + 1; }
      TimelySnoc(events, Event(next, now));
      clock := Transition(clock, next == Run, next == Stop, now);
      state := next;
      events := events + [Event(next, now)];
      if entering { timerArmed := true; }
      if leaving {
        timerArmed := false;
        refs := refs - 1;
      }
      ok := true;
    }

    /** AllocateBuffer: clamped to the ring and to whole blocks; enough says whether the
        pool had the memory. */
    method AllocateBuffer(size: nat, enough: bool) returns (ok: bool)
      requires Valid()
      modifies this`bufferSize
      ensures Valid() && ok == enough
      ensures !ok ==> bufferSize == old(bufferSize)
      ensures ok ==> bufferSize <= size && (size <= RING_BYTES ==> size < bufferSize + BLOCK_ALIGN)
      ensures ok && size > RING_BYTES ==> bufferSize == RING_BYTES
    {
      var clamped := if size < RING_BYTES then size else RING_BYTES;
      clamped := clamped - clamped % BLOCK_ALIGN;
      if enough { bufferSize := clamped; }
      ok := enough;
    }

    /** GetPosition: where the time spent running since the last stop has got to in the
        cyclic buffer, whatever the state changes. */
    method GetPosition(now: u64) returns (position: nat)
      requires Valid() && LastAt(events) <= now
      ensures state == Stop || frequency == 0 || bufferSize == 0 ==> position == 0
      ensures bufferSize > 0 ==> position < bufferSize
      ensures frequency > 0 && bufferSize > 0 && frequency * BYTES_PER_SEC < U64 ==>
                RunTime(events, now) >= 0
                && position == IdealPosition(RunTime(events, now), frequency, BYTES_PER_SEC, BLOCK_ALIGN, bufferSize)
    {
      if frequency > 0 && bufferSize > 0 && frequency * BYTES_PER_SEC < U64 {
        Division.MulMono(bufferSize, RING_BYTES, BYTES_PER_SEC);
        PositionFollowsRunTime(events, now, frequency, BYTES_PER_SEC, BLOCK_ALIGN, bufferSize);
      }
      if state == Stop || bufferSize == 0 { return 0; }
      var elapsed := Elapsed(clock, now);
      PositionInBuffer(elapsed, frequency, BYTES_PER_SEC, BLOCK_ALIGN, bufferSize);
      position := CyclicPosition(elapsed, frequency, BYTES_PER_SEC, BLOCK_ALIGN, bufferSize);
    }
  }

  lemma TimelySnoc(events: seq<Event>, last: Event)
    requires Timely(events) && LastAt(events) <= last.at
    ensures Timely(events + [last])
    ensures ClockAfter(events + [last])
         == Transition(ClockAfter(events), last.state == Run, last.state == Stop, last.at)
  {
    assert (events + [last])[..|events|] == events;
  }

  lemma OffsetInBuffer(seconds: nat, remainder: nat, frequency: nat, rate: nat, bufferSize: nat)
    requires frequency > 0 && bufferSize > 0
    ensures 0 <= CyclicOffset(seconds, remainder, frequency, rate, bufferSize) < bufferSize
  {
    hide Wrap;
    var whole := Wrap((seconds % bufferSize) * rate) % bufferSize;
    var partial := Wrap(remainder * rate) / frequency;
    var sum := Wrap(whole + partial % bufferSize);
    assert CyclicOffset(seconds, remainder, frequency, rate, bufferSize) == sum % bufferSize;
  }

  lemma BlockStart(offset: nat, blockAlign: nat)
    requires blockAlign > 0
    ensures 0 <= offset - offset % blockAlign <= offset
  {
    ModAtMost(offset, blockAlign);
  }

  /** Whatever overflows on the way, the position stays inside the buffer. */
  lemma PositionInBuffer(ticks: nat, frequency: nat, rate: nat, blockAlign: nat, bufferSize: nat)
    requires bufferSize > 0
    ensures 0 <= CyclicPosition(ticks, frequency, rate, blockAlign, bufferSize) < bufferSize
  {
    hide CyclicOffset;
    if frequency > 0 && blockAlign > 0 {
      OffsetInBuffer(ticks / frequency, ticks % frequency, frequency, rate, bufferSize);
      BlockStart(CyclicOffset(ticks / frequency, ticks % frequency, frequency, rate, bufferSize), blockAlign);
    }
  }
}
