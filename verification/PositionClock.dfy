/** The Windows cyclic position clock: drivers/windows/common/position.h and its clients
    SetState and GetPosition in drivers/windows/common/wave.cpp. Every operation is on
    64-bit unsigned words. */
module PositionClock {
  import opened Bytes
  import Division

  /** The value a 64-bit unsigned operation keeps. */
  function Wrap(x: int): (r: int)
    ensures 0 <= r < U64
  {
    if 0 <= x < U64 then x else x % U64
  }

  datatype Clock = Clock(elapsedTicks: u64, anchorTicks: u64, running: bool)

  function Transition(clock: Clock, running: bool, stopped: bool, now: u64): Clock {
    var elapsed := if clock.running && !running then Wrap(clock.elapsedTicks + Wrap(now - clock.anchorTicks))
                   else clock.elapsedTicks;
    Clock(if stopped then 0 else elapsed,
          if running && !clock.running then now else clock.anchorTicks,
          running)
  }

  function Elapsed(clock: Clock, now: u64): u64 {
    Wrap(clock.elapsedTicks + if clock.running then Wrap(now - clock.anchorTicks) else 0)
  }

  function CyclicPosition(elapsedTicks: nat, frequency: nat, bytesPerSecond: nat, blockAlign: nat,
                          bufferSize: nat): int
  {
    if frequency == 0 || blockAlign == 0 || bufferSize == 0 then 0 else
      var seconds, remainder := elapsedTicks / frequency, elapsedTicks % frequency;
      var offset := CyclicOffset(seconds, remainder, frequency, bytesPerSecond, bufferSize);
      offset - offset % blockAlign
  }

  /** The byte offset from whole seconds and the ticks left over. */
  function CyclicOffset(seconds: nat, remainder: nat, frequency: nat, bytesPerSecond: nat, bufferSize: nat): int
    requires frequency > 0 && bufferSize > 0
  {
    var whole := Wrap((seconds % bufferSize) * bytesPerSecond) % bufferSize;
    var partial := Wrap(remainder * bytesPerSecond) / frequency;
    Wrap(whole + partial % bufferSize) % bufferSize
  }

  // ---- the clock over a run of transitions --------------------------------------------

  datatype KsState = Stop | Acquire | Pause | Run
  datatype Event = Event(state: KsState, at: u64)

  /** SetState's use of the clock. */
  function SetState(clock: Clock, event: Event): Clock {
    Transition(clock, event.state == Run, event.state == Stop, event.at)
  }

  function ClockAfter(events: seq<Event>): Clock {
    if events == [] then Clock(0, 0, false)
    else SetState(ClockAfter(events[..|events| - 1]), events[|events| - 1])
  }

  ghost predicate Timely(events: seq<Event>) {
    forall i, j :: 0 <= i < j < |events| ==> events[i].at <= events[j].at
  }

  /** Index of the first event after the last stop. */
  function AfterLastStop(events: seq<Event>): (k: nat)
    ensures k <= |events|
    ensures k > 0 ==> events[k - 1].state == Stop
    ensures forall i :: k <= i < |events| ==> events[i].state != Stop
  {
    if events == [] then 0
    else if events[|events| - 1].state == Stop then |events|
    else AfterLastStop(events[..|events| - 1])
  }

  /** The time event i's state lasted, when that state is Run. */
  function RunInterval(events: seq<Event>, now: u64, i: nat): int
    requires i < |events|
  {
    var end := if i + 1 < |events| then events[i + 1].at else now;
    if events[i].state == Run then end - events[i].at else 0
  }

  function RunTicks(events: seq<Event>, now: u64, from: nat): int
    requires from <= |events|
    decreases |events| - from
  {
    if from == |events| then 0 else RunInterval(events, now, from) + RunTicks(events, now, from + 1)
  }

  lemma {:induction false} RunTicksSnoc(events: seq<Event>, last: Event, now: u64, from: nat)
    requires from <= |events|
    ensures RunTicks(events + [last], now, from)
         == RunTicks(events, last.at, from) + if last.state == Run then now - last.at else 0
    decreases |events| - from
  {
    var all := events + [last];
    if from == |events| {
      assert RunTicks(all, now, from + 1) == 0;
    } else {
      RunTicksSnoc(events, last, now, from + 1);
    }
  }

  function LastAt(events: seq<Event>): u64 {
    if events == [] then 0 else events[|events| - 1].at
  }

  predicate Running(events: seq<Event>) {
    events != [] && events[|events| - 1].state == Run
  }

  /** Ticks spent running since the last stop, at time now. */
  function RunTime(events: seq<Event>, now: u64): int {
    RunTicks(events, now, AfterLastStop(events))
  }

  lemma RunTimeGrows(events: seq<Event>, now: u64)
    ensures RunTime(events, now)
         == RunTime(events, LastAt(events)) + if Running(events) then now - LastAt(events) else 0
  {
    if events != [] && events[|events| - 1].state != Stop {
      var before, last := events[..|events| - 1], events[|events| - 1];
      assert events == before + [last];
      RunTicksSnoc(before, last, now, AfterLastStop(before));
      RunTicksSnoc(before, last, last.at, AfterLastStop(before));
    }
  }

  lemma RunTimeAtEvent(before: seq<Event>, last: Event)
    ensures RunTime(before + [last], last.at) == if last.state == Stop then 0 else RunTime(before, last.at)
  {
    var events := before + [last];
    assert events[..|events| - 1] == before;
    if last.state != Stop {
      RunTicksSnoc(before, last, last.at, AfterLastStop(before));
    }
  }

  /** What the two tick fields mean at the moment of the last transition. */
  ghost predicate ClockMeans(c: Clock, events: seq<Event>) {
    && c.running == Running(events)
    && 0 <= RunTime(events, LastAt(events)) <= LastAt(events)
    && (if c.running then c.anchorTicks <= LastAt(events)
                          && c.elapsedTicks + LastAt(events) - c.anchorTicks == RunTime(events, LastAt(events))
        else c.elapsedTicks == RunTime(events, LastAt(events)))
  }

  lemma {:induction false} ClockFollows(events: seq<Event>)
    requires Timely(events)
    ensures ClockMeans(ClockAfter(events), events)
    decreases |events|
  {
    if events == [] {
      assert RunTime(events, 0) == 0;
    } else {
      var before, last := events[..|events| - 1], events[|events| - 1];
      assert events == before + [last];
      ClockFollows(before);
      assert LastAt(before) <= last.at;
      RunTimeGrows(before, last.at);
      RunTimeAtEvent(before, last);
    }
  }

  /** The clock reads the sum of the run intervals since the last stop, whatever the
      transitions, repeats included. */
  lemma ElapsedIsRunTime(events: seq<Event>, now: u64)
    requires Timely(events) && LastAt(events) <= now
    ensures Elapsed(ClockAfter(events), now) == RunTime(events, now)
    ensures 0 <= RunTime(events, now) <= now
  {
    ClockFollows(events);
    RunTimeGrows(events, now);
  }

  // ---- the cyclic position ------------------------------------------------------------

  /** The byte position that whole division would give, cut down to a block boundary. */
  function IdealPosition(ticks: nat, frequency: nat, bytesPerSecond: nat, blockAlign: nat, bufferSize: nat): int
    requires frequency > 0 && blockAlign > 0 && bufferSize > 0
  {
    var position := (ticks * bytesPerSecond / frequency) % bufferSize;
    position - position % blockAlign
  }

  lemma WholeBlocks(x: int, block: nat)
    requires block > 0
    ensures (x - x % block) % block == 0 && x - x % block <= x < x - x % block + block
  {
    var k := x / block;
    assert x - x % block == 0 + k * block;
    Division.ModAddMultiple(0, block, k);
  }

  /** Splitting off the whole seconds changes nothing. */
  lemma SplitSeconds(ticks: nat, frequency: nat, rate: nat)
    requires frequency > 0
    ensures ticks * rate / frequency == (ticks / frequency) * rate + (ticks % frequency) * rate / frequency
  {
    var s, r := ticks / frequency, ticks % frequency;
    assert ticks == s * frequency + r;
    assert ticks * rate == r * rate + (s * rate) * frequency by {
      assert (s * frequency) * rate == (s * rate) * frequency;
    }
    Division.ModAddMultiple(r * rate, frequency, s * rate);
  }

  lemma PartialBelowRate(r: nat, frequency: nat, rate: nat)
    requires r < frequency
    ensures r * rate / frequency <= if rate == 0 then 0 else rate - 1
  {
    if rate > 0 {
      Division.MulMono(r, frequency - 1, rate);
      var q := r * rate / frequency;
      assert r * rate == q * frequency + r * rate % frequency;
      assert (frequency - 1) * rate == frequency * rate - rate;
      if q >= rate {
        Division.MulMono(rate, q, frequency);
      }
    } else {
      assert r * rate == 0;
    }
  }

  lemma ProductFits(a: nat, b: nat, rate: nat)
    requires a < b && b * rate < U64
    ensures 0 <= a * rate < U64
  {
    Division.MulMono(a, b, rate);
  }

  lemma SumFits(whole: nat, partial: nat, rate: nat, bufferSize: nat)
    requires whole < bufferSize && partial < bufferSize && bufferSize < U64
    requires partial <= if rate == 0 then 0 else rate - 1
    requires bufferSize * rate < U64
    ensures whole + partial < U64
  {
    if rate >= 2 {
      Division.MulMono(2, rate, bufferSize);
    }
  }

  /** The three values computed on the way stay inside 64 bits. */
  lemma NothingOverflows(seconds: nat, remainder: nat, frequency: nat, rate: nat, bufferSize: nat)
    requires 0 < bufferSize < U64 && remainder < frequency
    requires bufferSize * rate < U64 && frequency * rate < U64
    ensures 0 <= (seconds % bufferSize) * rate < U64
    ensures 0 <= remainder * rate < U64
    ensures 0 <= ((seconds % bufferSize) * rate) % bufferSize + (remainder * rate / frequency) % bufferSize < U64
  {
    ProductFits(seconds % bufferSize, bufferSize, rate);
    ProductFits(remainder, frequency, rate);
    PartialBelowRate(remainder, frequency, rate);
    var partial := remainder * rate / frequency;
    ModAtMost(partial, bufferSize);
    SumFits(((seconds % bufferSize) * rate) % bufferSize, partial % bufferSize, rate, bufferSize);
  }

  lemma ModAtMost(x: nat, d: nat)
    requires d > 0
    ensures x % d <= x
  {
    assert x == (x / d) * d + x % d;
    Division.MulMono(0, x / d, d);
  }

  lemma SplitOffset(seconds: nat, partial: nat, rate: nat, bufferSize: nat)
    requires bufferSize > 0
    ensures (((seconds % bufferSize) * rate) % bufferSize + partial % bufferSize) % bufferSize
         == (seconds * rate + partial) % bufferSize
  {
    Division.ModOfProduct(seconds, rate, bufferSize);
    Division.ModOfSum(seconds * rate, partial, bufferSize);
  }

  lemma CyclicOffsetExact(seconds: nat, remainder: nat, frequency: nat, rate: nat, bufferSize: nat)
    requires 0 < bufferSize < U64 && remainder < frequency
    requires bufferSize * rate < U64 && frequency * rate < U64
    ensures CyclicOffset(seconds, remainder, frequency, rate, bufferSize)
         == (seconds * rate + remainder * rate / frequency) % bufferSize
  {
    NothingOverflows(seconds, remainder, frequency, rate, bufferSize);
    SplitOffset(seconds, remainder * rate / frequency, rate, bufferSize);
  }

  /** Computed in 64 bits, the split formula is the exact cyclic byte position. */
  lemma CyclicPositionExact(ticks: nat, frequency: nat, rate: nat, blockAlign: nat, bufferSize: nat)
    requires frequency > 0 && blockAlign > 0 && 0 < bufferSize < U64
    requires bufferSize * rate < U64 && frequency * rate < U64
    ensures CyclicPosition(ticks, frequency, rate, blockAlign, bufferSize)
         == IdealPosition(ticks, frequency, rate, blockAlign, bufferSize)
    ensures var position := CyclicPosition(ticks, frequency, rate, blockAlign, bufferSize);
            position % blockAlign == 0 && position <= (ticks * rate / frequency) % bufferSize < position + blockAlign
  {
    WholeBlocks((ticks * rate / frequency) % bufferSize, blockAlign);
    SplitSeconds(ticks, frequency, rate);
    CyclicOffsetExact(ticks / frequency, ticks % frequency, frequency, rate, bufferSize);
  }

  /** GetPosition between two transitions. */
  function GetPosition(events: seq<Event>, now: u64, frequency: nat, rate: nat, blockAlign: nat, bufferSize: nat): int {
    if events == [] || events[|events| - 1].state == Stop || bufferSize == 0 then 0
    else CyclicPosition(Elapsed(ClockAfter(events), now), frequency, rate, blockAlign, bufferSize)
  }

  /** Zero when stopped, otherwise the exact cyclic position of the time spent running
      since the last stop: over any timely run of state changes, in one formula. */
  lemma PositionFollowsRunTime(events: seq<Event>, now: u64, frequency: nat, rate: nat, blockAlign: nat,
                               bufferSize: nat)
    requires Timely(events) && LastAt(events) <= now
    requires frequency > 0 && blockAlign > 0 && 0 < bufferSize < U64
    requires bufferSize * rate < U64 && frequency * rate < U64
    ensures RunTime(events, now) >= 0
    ensures GetPosition(events, now, frequency, rate, blockAlign, bufferSize)
         == IdealPosition(RunTime(events, now), frequency, rate, blockAlign, bufferSize)
  {
    ElapsedIsRunTime(events, now);
    if events == [] || events[|events| - 1].state == Stop {
      assert RunTime(events, now) == 0;
      assert 0 * rate / frequency == 0;
      assert 0 % bufferSize == 0 && 0 % blockAlign == 0;
    } else {
      CyclicPositionExact(RunTime(events, now), frequency, rate, blockAlign, bufferSize);
    }
  }
}
