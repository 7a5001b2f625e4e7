/** The IO operations of drivers/macos/common/plugin.c on the ring: RingClear, RingAdd,
    RingRead and the frame loops of WriteMix and ReadInput, as one client runs them. */
module MacLoopback {
  import opened Bytes
  import opened MacRing
  import opened MacRingThreads
  import Division

  /** RingAdd on one word: an older generation leaves it alone. */
  function Store(add: Mixer, word: u64, generation: u32, value: u32): u64 {
    if Stale(generation, Tag(word)) then word else AddWord(add, word, generation, value)
  }

  /** The ring after the first |samples| samples of a WriteMix whose first frame is start,
      which may be before the anchor. */
  function Written(add: Mixer, words: seq<u64>, start: int, samples: seq<u32>): (after: seq<u64>)
    requires |words| == WORDS
    ensures |after| == WORDS
  {
    if samples == [] then words else
      var j := |samples| - 1;
      var before := Written(add, words, start, samples[..j]);
      var frame := start + j / CHANNELS;
      if frame < 0 then before else
        var slot := Slot(frame, j % CHANNELS);
        before[slot := Store(add, before[slot], Generation(frame), samples[j])]
  }

  /** Sample j of a ReadInput whose first frame is start. */
  function HeardAt(words: seq<u64>, start: int, j: nat): u32
    requires |words| == WORDS
  {
    var frame := start + j / CHANNELS;
    if frame < 0 then 0 else ReadWord(words[Slot(frame, j % CHANNELS)], Generation(frame))
  }

  // ---- a write, then a read -----------------------------------------------------------

  /** Fewer than a lap apart, two samples have different slots. */
  lemma SlotsDiffer(start: int, j: nat, k: nat)
    requires j < k < j + WORDS && start + j / CHANNELS >= 0
    ensures Slot(start + j / CHANNELS, j % CHANNELS) != Slot(start + k / CHANNELS, k % CHANNELS)
  {
    var f, g := start + j / CHANNELS, start + k / CHANNELS;
    if j % CHANNELS == k % CHANNELS {
      Division.ModDistinct(f, g, RING_FRAMES);
    }
  }

  lemma {:induction false} WrittenElsewhere(add: Mixer, words: seq<u64>, start: int, samples: seq<u32>, slot: nat)
    requires |words| == WORDS && slot < WORDS
    requires forall j: nat :: j < |samples| && start + j / CHANNELS >= 0 ==>
               Slot(start + j / CHANNELS, j % CHANNELS) != slot
    ensures Written(add, words, start, samples)[slot] == words[slot]
    decreases |samples|
  {
    if samples != [] {
      WrittenElsewhere(add, words, start, samples[..|samples| - 1], slot);
    }
  }

  /** Within a lap each slot is written once, with its own sample. */
  lemma {:induction false} WrittenOnce(add: Mixer, words: seq<u64>, start: int, samples: seq<u32>, j: nat)
    requires |words| == WORDS && |samples| <= WORDS && j < |samples| && start + j / CHANNELS >= 0
    ensures var frame := start + j / CHANNELS; var slot := Slot(frame, j % CHANNELS);
            Written(add, words, start, samples)[slot] == Store(add, words[slot], Generation(frame), samples[j])
    decreases |samples|
  {
    hide Store, Generation, Slot;
    var n := |samples| - 1;
    var slot := Slot(start + j / CHANNELS, j % CHANNELS);
    if j == n {
      forall k: nat | k < n && start + k / CHANNELS >= 0 ensures Slot(start + k / CHANNELS, k % CHANNELS) != slot {
        SlotsDiffer(start, k, j);
      }
      WrittenElsewhere(add, words, start, samples[..n], slot);
    } else {
      WrittenOnce(add, words, start, samples[..n], j);
      SlotsDiffer(start, j, n);
      assert samples[..n][j] == samples[j];
    }
  }

  lemma ReadAfterStore(add: Mixer, word: u64, generation: u32, value: u32)
    requires !Stale(generation, Tag(word))
    ensures ReadWord(Store(add, word, generation, value), generation) == add(ReadWord(word, generation), value)
  {
    var sum := add(ReadWord(word, generation), value);
    PackParts(generation, sum);
  }

  /** The loopback: a client that reads the frames just written hears what was there with
      the samples added, and silence before the anchor. */
  lemma WriteThenRead(add: Mixer, words: seq<u64>, start: int, samples: seq<u32>, j: nat)
    requires |words| == WORDS && |samples| <= WORDS && j < |samples|
    requires start + j / CHANNELS >= 0 ==>
               var frame := start + j / CHANNELS;
               !Stale(Generation(frame), Tag(words[Slot(frame, j % CHANNELS)]))
    ensures HeardAt(Written(add, words, start, samples), start, j)
         == if start + j / CHANNELS < 0 then 0 else add(HeardAt(words, start, j), samples[j])
  {
    var frame := start + j / CHANNELS;
    if frame >= 0 {
      WrittenOnce(add, words, start, samples, j);
      ReadAfterStore(add, words[Slot(frame, j % CHANNELS)], Generation(frame), samples[j]);
    }
  }

  // ---- a write refines the timeline ---------------------------------------------------

  /** The contributions of a WriteMix that land: frames before the anchor and frames older
      than what their slot holds are dropped. */
  function Landing(log: seq<Contribution>, start: int, samples: seq<u32>): (after: seq<Contribution>)
    requires AllValid(log)
    ensures AllValid(after)
  {
    if samples == [] then log else
      var j := |samples| - 1;
      var before := Landing(log, start, samples[..j]);
      var frame := start + j / CHANNELS;
      if frame < 0 || Lap(frame) < Newest(before, Slot(frame, j % CHANNELS)) then before
      else before + [Contribution(frame, j % CHANNELS, samples[j])]
  }

  /** Every frame written is in the window of its slot when its turn comes. */
  ghost predicate WriteNear(log: seq<Contribution>, start: int, samples: seq<u32>)
    requires AllValid(log)
  {
    forall j: nat :: j < |samples| && start + j / CHANNELS >= 0 ==>
      var frame := start + j / CHANNELS;
      Near(Lap(frame), Newest(Landing(log, start, samples[..j]), Slot(frame, j % CHANNELS)))
  }

  lemma StoreRefines(add: Mixer, log: seq<Contribution>, words: seq<u64>, c: Contribution)
    requires AllValid(log) && c.Valid() && |words| == WORDS && Pictured(add, log, words)
    requires Near(Lap(c.frame), Newest(log, At(c)))
    ensures var after := words[At(c) := Store(add, words[At(c)], Generation(c.frame), c.value)];
            if Lap(c.frame) < Newest(log, At(c)) then after == words
            else AllValid(log + [c]) && Pictured(add, log + [c], after)
  {
    hide LapsRise, Newest, Stale, Tag, Slot, Near, Lap, AddWord;
    var slot := At(c);
    var newest := Newest(log, slot);
    assert Represents(add, log, slot, words[slot]);
    PackParts(newest % TAGS, Mixed(add, log, FrameAt(slot, newest), slot % CHANNELS));
    StaleIsOlder(Lap(c.frame), newest);
    if Lap(c.frame) >= newest {
      var after := words[slot := AddWord(add, words[slot], Generation(c.frame), c.value)];
      RiseSnoc(log, c);
      LandsAtOwnSlot(add, log, c, words[slot]);
      forall other: nat | other < WORDS && other != slot ensures Represents(add, log + [c], other, after[other]) {
        assert Represents(add, log, other, words[other]);
        LandsElsewhere(add, log, c, other, words[other]);
      }
    }
  }

  lemma NearPrefix(log: seq<Contribution>, start: int, samples: seq<u32>)
    requires AllValid(log) && samples != [] && WriteNear(log, start, samples)
    ensures WriteNear(log, start, samples[..|samples| - 1])
  {
    var prefix := samples[..|samples| - 1];
    forall j: nat | j < |prefix| && start + j / CHANNELS >= 0
      ensures var frame := start + j / CHANNELS;
              Near(Lap(frame), Newest(Landing(log, start, prefix[..j]), Slot(frame, j % CHANNELS)))
    {
      assert prefix[..j] == samples[..j];
    }
  }

  /** WriteMix appends to the timeline exactly the contributions that land. */
  lemma {:induction false} WriteRefines(add: Mixer, log: seq<Contribution>, words: seq<u64>, start: int,
                                        samples: seq<u32>)
    requires AllValid(log) && |words| == WORDS && Pictured(add, log, words) && WriteNear(log, start, samples)
    ensures Pictured(add, Landing(log, start, samples), Written(add, words, start, samples))
    decreases |samples|
  {
    hide Pictured, Near, Newest, Slot, Lap, Store, Generation;
    if samples != [] {
      var j := |samples| - 1;
      NearPrefix(log, start, samples);
      WriteRefines(add, log, words, start, samples[..j]);
      var frame := start + j / CHANNELS;
      if frame >= 0 {
        var c := Contribution(frame, j % CHANNELS, samples[j]);
        StoreRefines(add, Landing(log, start, samples[..j]), Written(add, words, start, samples[..j]), c);
      }
    }
  }

  // ---- the driver's loops -------------------------------------------------------------

  lemma FloorOfSum(base: real, k: nat)
    ensures (base + k as real).Floor == base.Floor + k
    ensures base + k as real < 0.0 <==> base.Floor + k < 0
  {
  }

  class Ring {
    const words: array<u64>

    constructor ()
      ensures fresh(words) && words.Length == WORDS && words[..] == Start(0).words
    {
      words := new u64[WORDS](_ => 0);
    }

    method Clear()
      requires words.Length == WORDS
      modifies words
      ensures words[..] == Start(0).words
    {
      for i := 0 to WORDS
        invariant forall k :: 0 <= k < i ==> words[k] == 0
      {
        words[i] := 0;
      }
      assert forall k :: 0 <= k < WORDS ==> words[..][k] == Start(0).words[k];
    }

    /** The exchange loop with no other writer; it may fail spuriously, misses times. */
    method Add(add: Mixer, position: nat, generation: u32, value: u32, misses: nat)
      requires position < words.Length
      modifies words
      ensures words[..] == old(words[..])[position := Store(add, old(words[position]), generation, value)]
    {
      var current := words[position];
      var left := misses;
      while true
        invariant words[..] == old(words[..]) && current == words[position]
        decreases left
      {
        var tag := Tag(current);
        if Stale(generation, tag) { return; }
        var previous := if tag == generation then Payload(current) else 0;
        var next := Pack(generation, add(previous, value));
        if left == 0 {
          words[position] := next;
          return;
        }
        current, left := words[position], left - 1;
      }
    }

    method Read(position: nat, generation: u32) returns (value: u32)
      requires position < words.Length
      ensures value == ReadWord(words[position], generation)
    {
      var word := words[position];
      value := if Tag(word) == generation then Payload(word) else 0;
    }

    /** The WriteMix operation. base is the cycle's sample time; frames before the anchor
        are dropped one by one, never moved. */
    method WriteMix(add: Mixer, base: real, samples: array<u32>, frames: nat)
      requires words.Length == WORDS && samples.Length == frames * CHANNELS
      modifies words
      ensures words[..] == Written(add, old(words[..]), base.Floor, samples[..])
    {
      hide Written, StoreFrame;
      ghost var all, was := samples[..], words[..];
      assert words[..] == Written(add, was, base.Floor, all[..0]) by { NothingWritten(add, was, base.Floor); }
      for frame := 0 to frames
        invariant words[..] == Written(add, was, base.Floor, all[..frame * CHANNELS])
      {
        var t := base + frame as real;
        FloorOfSum(base, frame);
        if t < 0.0 {
          SkippedFrame(add, was, base.Floor, all, frame);
          continue;
        }
        MixedFrame(add, was, base.Floor, all, frame);
        MixFrame(add, t.Floor, samples[frame * CHANNELS], samples[frame * CHANNELS + 1]);
      }
      assert all[..frames * CHANNELS] == all;
    }

    /** The body of the frame loop: both channels of one frame. */
    method MixFrame(add: Mixer, sampleFrame: nat, left: u32, right: u32)
      requires words.Length == WORDS
      modifies words
      ensures words[..] == StoreFrame(add, old(words[..]), sampleFrame, left, right)
    {
      var position := (sampleFrame % RING_FRAMES) * CHANNELS;
      var generation := sampleFrame / RING_FRAMES % TAGS;
      Add(add, position, generation, left, 0);
      Add(add, position + 1, generation, right, 0);
    }

    /** The ReadInput operation. */
    method ReadInput(base: real, samples: array<u32>, frames: nat)
      requires words.Length == WORDS && samples.Length == frames * CHANNELS
      modifies samples
      ensures forall j :: 0 <= j < samples.Length ==> samples[j] == HeardAt(words[..], base.Floor, j)
    {
      for frame := 0 to frames
        invariant forall j :: 0 <= j < frame * CHANNELS ==> samples[j] == HeardAt(words[..], base.Floor, j)
      {
        var t := base + frame as real;
        FloorOfSum(base, frame);
        var left, right := 0, 0;
        if t >= 0.0 {
          var sampleFrame: nat := t.Floor;
          var position := (sampleFrame % RING_FRAMES) * CHANNELS;
          var generation := sampleFrame / RING_FRAMES % TAGS;
          left := Read(position, generation);
          right := Read(position + 1, generation);
        }
        samples[frame * CHANNELS], samples[frame * CHANNELS + 1] := left, right;
      }
    }
  }

  function StoreFrame(add: Mixer, words: seq<u64>, frame: nat, left: u32, right: u32): seq<u64>
    requires |words| == WORDS
  {
    var slot := Slot(frame, 0);
    var mixed := words[slot := Store(add, words[slot], Generation(frame), left)];
    mixed[slot + 1 := Store(add, mixed[slot + 1], Generation(frame), right)]
  }

  lemma NothingWritten(add: Mixer, words: seq<u64>, start: int)
    requires |words| == WORDS
    ensures Written(add, words, start, []) == words
  {
  }

  lemma WrittenStep(add: Mixer, words: seq<u64>, start: int, samples: seq<u32>, j: nat)
    requires |words| == WORDS && j < |samples|
    ensures var before := Written(add, words, start, samples[..j]);
            var frame := start + j / CHANNELS;
            Written(add, words, start, samples[..j + 1]) ==
            if frame < 0 then before
            else before[Slot(frame, j % CHANNELS) :=
                          Store(add, before[Slot(frame, j % CHANNELS)], Generation(frame), samples[j])]
  {
    assert samples[..j + 1][..j] == samples[..j];
  }

  lemma SkippedFrame(add: Mixer, words: seq<u64>, start: int, samples: seq<u32>, frame: nat)
    requires |words| == WORDS && frame * CHANNELS + CHANNELS <= |samples| && start + frame < 0
    ensures Written(add, words, start, samples[..(frame + 1) * CHANNELS])
         == Written(add, words, start, samples[..frame * CHANNELS])
  {
    hide Written, Store, Generation;
    WrittenStep(add, words, start, samples, frame * CHANNELS);
    WrittenStep(add, words, start, samples, frame * CHANNELS + 1);
  }

  lemma MixedFrame(add: Mixer, words: seq<u64>, start: int, samples: seq<u32>, frame: nat)
    requires |words| == WORDS && frame * CHANNELS + CHANNELS <= |samples| && start + frame >= 0
    ensures Written(add, words, start, samples[..(frame + 1) * CHANNELS])
         == StoreFrame(add, Written(add, words, start, samples[..frame * CHANNELS]), start + frame,
                       samples[frame * CHANNELS], samples[frame * CHANNELS + 1])
  {
    hide Written, Store, Generation;
    WrittenStep(add, words, start, samples, frame * CHANNELS);
    WrittenStep(add, words, start, samples, frame * CHANNELS + 1);
    assert Slot(start + frame, 1) == Slot(start + frame, 0) + 1;
  }
}
