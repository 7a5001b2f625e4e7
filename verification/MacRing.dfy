/** The macOS loopback ring of drivers/macos/common/plugin.c: 64-bit words that pair a
    generation tag with a sample's bit pattern. Adding two Float32 patterns is a parameter,
    `add`; the pattern of zero is 0. */
module MacRing {
  import opened Bytes
  import Division

  const RING_FRAMES: nat := 65536
  const CHANNELS: nat := 2
  const WORDS: nat := RING_FRAMES * CHANNELS
  const TAGS: nat := U32

  type Mixer = (u32, u32) -> u32

  function Pack(tag: u32, bits: u32): u64 { tag * TAGS + bits }

  function Tag(word: u64): u32 { word / TAGS }

  function Payload(word: u64): u32 { word % TAGS }

  lemma PackParts(tag: u32, bits: u32)
    ensures Tag(Pack(tag, bits)) == tag && Payload(Pack(tag, bits)) == bits
  {
    Division.DivUnique(Pack(tag, bits), TAGS, tag, bits);
  }

  /** Serial-number comparison (section 3.2 of RFC 1982), in 32-bit unsigned arithmetic. */
  predicate Stale(generation: u32, current: u32) {
    current != generation && (generation - current) % TAGS > 0x7fff_ffff
  }

  /** What RingAdd stores over a word that is not newer. */
  function AddWord(add: Mixer, word: u64, generation: u32, value: u32): u64 {
    Pack(generation, add(if Tag(word) == generation then Payload(word) else 0, value))
  }

  function ReadWord(word: u64, generation: u32): u32 {
    if Tag(word) == generation then Payload(word) else 0
  }

  function Lap(frame: nat): nat { frame / RING_FRAMES }

  function Generation(frame: nat): u32 { Lap(frame) % TAGS }

  function Slot(frame: nat, ch: nat): (slot: nat)
    requires ch < CHANNELS
    ensures slot < WORDS
  {
    (frame % RING_FRAMES) * CHANNELS + ch
  }

  /** A slot and a lap name one frame and channel. */
  lemma SlotAndLap(frame: nat, ch: nat)
    requires ch < CHANNELS
    ensures FrameAt(Slot(frame, ch), Lap(frame)) == frame && Slot(frame, ch) % CHANNELS == ch
  {
    assert frame == (frame / RING_FRAMES) * RING_FRAMES + frame % RING_FRAMES;
  }

  function FrameAt(slot: nat, lap: nat): nat { lap * RING_FRAMES + slot / CHANNELS }

  lemma FrameAtHas(slot: nat, lap: nat)
    requires slot < WORDS
    ensures Slot(FrameAt(slot, lap), slot % CHANNELS) == slot && Lap(FrameAt(slot, lap)) == lap
  {
    Division.DivUnique(FrameAt(slot, lap), RING_FRAMES, lap, slot / CHANNELS);
  }

  // ---- generations --------------------------------------------------------------------

  /** The window in which serial comparison is exact. */
  predicate Near(lap: nat, newest: nat) { newest - 0x8000_0000 <= lap < newest + 0x8000_0000 }

  /** Inside the window the 32-bit comparison is the comparison of laps. */
  lemma StaleIsOlder(lap: nat, newest: nat)
    requires Near(lap, newest)
    ensures Stale(lap % TAGS, newest % TAGS) <==> lap < newest
    ensures lap % TAGS == newest % TAGS <==> lap == newest
  {
    Division.ModOfDifference(lap, newest, TAGS);
    if lap < newest {
      Division.ModAddMultiple(lap - newest, TAGS, 1);
      Division.ModDistinct(lap, newest, TAGS);
    } else if newest < lap {
      Division.ModDistinct(newest, lap, TAGS);
    }
  }

  /** Outside it is not: a lap 2^31 ahead reads as older, and one 2^31 + 1 behind as newer. */
  lemma WindowIsTight(newest: nat)
    ensures Stale((newest + 0x8000_0000) % TAGS, newest % TAGS)
    ensures !Stale(newest % TAGS, (newest + 0x8000_0001) % TAGS)
  {
    Division.ModOfDifference(newest + 0x8000_0000, newest, TAGS);
    Division.ModDistinct(newest, newest + 0x8000_0000, TAGS);
    Division.ModOfDifference(newest, newest + 0x8000_0001, TAGS);
  }

  /** A reader fewer than 2^32 laps away sees a slot's tag only at its own lap. */
  lemma TagIsLap(lap: nat, newest: nat)
    requires newest - TAGS < lap < newest + TAGS
    ensures lap % TAGS == newest % TAGS <==> lap == newest
  {
    if lap < newest {
      Division.ModDistinct(lap, newest, TAGS);
    } else if newest < lap {
      Division.ModDistinct(newest, lap, TAGS);
    }
  }

  // ---- the timeline the ring is a cache of --------------------------------------------

  /** One sample mixed into one absolute frame. */
  datatype Contribution = Contribution(frame: nat, ch: nat, value: u32) {
    predicate Valid() { ch < CHANNELS }
  }

  ghost predicate AllValid(log: seq<Contribution>) { forall k :: 0 <= k < |log| ==> log[k].Valid() }

  function At(c: Contribution): nat
    requires c.Valid()
  {
    Slot(c.frame, c.ch)
  }

  /** A frame's mix: its own contributions, in the order they landed. */
  function Mixed(add: Mixer, log: seq<Contribution>, frame: nat, ch: nat): u32 {
    if log == [] then 0 else
      var c := log[|log| - 1];
      var before := Mixed(add, log[..|log| - 1], frame, ch);
      if c.frame == frame && c.ch == ch then add(before, c.value) else before
  }

  /** The newest lap written to a slot; 0 after RingClear. */
  function Newest(log: seq<Contribution>, slot: nat): nat
    requires AllValid(log)
  {
    if log == [] then 0 else
      var c := log[|log| - 1];
      if At(c) == slot then Lap(c.frame) else Newest(log[..|log| - 1], slot)
  }

  /** Each contribution's lap is no older than what its slot held. */
  ghost predicate LapsRise(log: seq<Contribution>)
    requires AllValid(log)
  {
    forall k :: 0 <= k < |log| ==> Lap(log[k].frame) >= Newest(log[..k], At(log[k]))
  }

  ghost predicate Represents(add: Mixer, log: seq<Contribution>, slot: nat, word: u64)
    requires AllValid(log)
  {
    var lap := Newest(log, slot);
    word == Pack(lap % TAGS, Mixed(add, log, FrameAt(slot, lap), slot % CHANNELS))
  }

  lemma Snoc(add: Mixer, log: seq<Contribution>, c: Contribution, slot: nat, frame: nat, ch: nat)
    requires AllValid(log) && c.Valid()
    ensures AllValid(log + [c])
    ensures Newest(log + [c], slot) == if At(c) == slot then Lap(c.frame) else Newest(log, slot)
    ensures Mixed(add, log + [c], frame, ch)
         == if c.frame == frame && c.ch == ch then add(Mixed(add, log, frame, ch), c.value)
            else Mixed(add, log, frame, ch)
  {
    assert (log + [c])[..|log|] == log;
  }

  lemma RiseSnoc(log: seq<Contribution>, c: Contribution)
    requires AllValid(log) && LapsRise(log) && c.Valid() && Lap(c.frame) >= Newest(log, At(c))
    ensures AllValid(log + [c]) && LapsRise(log + [c])
  {
    forall k | 0 <= k < |log + [c]| ensures Lap((log + [c])[k].frame) >= Newest((log + [c])[..k], At((log + [c])[k])) {
      if k < |log| {
        assert (log + [c])[..k] == log[..k];
      } else {
        assert (log + [c])[..k] == log;
      }
    }
  }

  lemma RisePrefix(log: seq<Contribution>)
    requires AllValid(log) && LapsRise(log) && log != []
    ensures AllValid(log[..|log| - 1]) && LapsRise(log[..|log| - 1])
  {
    var prefix := log[..|log| - 1];
    forall k | 0 <= k < |prefix| ensures Lap(prefix[k].frame) >= Newest(prefix[..k], At(prefix[k])) {
      assert prefix[..k] == log[..k];
    }
  }

  /** Nothing was mixed into a frame newer than its slot's newest lap. */
  lemma {:induction false} NothingNewer(add: Mixer, log: seq<Contribution>, frame: nat, ch: nat)
    requires AllValid(log) && LapsRise(log) && ch < CHANNELS && Lap(frame) > Newest(log, Slot(frame, ch))
    ensures Mixed(add, log, frame, ch) == 0
    decreases |log|
  {
    if log != [] {
      var c := log[|log| - 1];
      RisePrefix(log);
      assert Lap(c.frame) >= Newest(log[..|log| - 1], At(c));
      NothingNewer(add, log[..|log| - 1], frame, ch);
    }
  }

  /** A contribution that lands keeps the slot a picture of its newest frame. */
  lemma LandsAtOwnSlot(add: Mixer, log: seq<Contribution>, c: Contribution, word: u64)
    requires AllValid(log) && LapsRise(log) && c.Valid() && Represents(add, log, At(c), word)
    requires Near(Lap(c.frame), Newest(log, At(c))) && Lap(c.frame) >= Newest(log, At(c))
    ensures AllValid(log + [c])
    ensures Represents(add, log + [c], At(c), AddWord(add, word, Generation(c.frame), c.value))
  {
    hide Newest, Mixed, Pack, Tag, Payload, Slot, FrameAt, Lap, LapsRise;
    var slot, lap := At(c), Lap(c.frame);
    var newest := Newest(log, slot);
    SlotAndLap(c.frame, c.ch);
    Snoc(add, log, c, slot, c.frame, c.ch);
    StaleIsOlder(lap, newest);
    PackParts(newest % TAGS, Mixed(add, log, FrameAt(slot, newest), slot % CHANNELS));
    if lap > newest {
      NothingNewer(add, log, c.frame, c.ch);
    }
  }

  lemma LandsElsewhere(add: Mixer, log: seq<Contribution>, c: Contribution, slot: nat, word: u64)
    requires AllValid(log) && c.Valid() && slot < WORDS && slot != At(c) && Represents(add, log, slot, word)
    ensures AllValid(log + [c]) && Represents(add, log + [c], slot, word)
  {
    var lap := Newest(log, slot);
    Snoc(add, log, c, slot, FrameAt(slot, lap), slot % CHANNELS);
    FrameAtHas(slot, lap);
  }

  /** Reading a frame gives its mix when it is the newest of its slot, and silence for any
      other frame of the slot. */
  lemma ReadIsMix(add: Mixer, log: seq<Contribution>, frame: nat, ch: nat, word: u64)
    requires AllValid(log) && ch < CHANNELS && Represents(add, log, Slot(frame, ch), word)
    requires var newest := Newest(log, Slot(frame, ch)); newest - TAGS < Lap(frame) < newest + TAGS
    ensures ReadWord(word, Generation(frame))
         == if Lap(frame) == Newest(log, Slot(frame, ch)) then Mixed(add, log, frame, ch) else 0
  {
    hide Newest, Mixed, Pack, Tag, Payload, Slot, FrameAt, Lap;
    var newest := Newest(log, Slot(frame, ch));
    SlotAndLap(frame, ch);
    TagIsLap(Lap(frame), newest);
    PackParts(newest % TAGS, Mixed(add, log, FrameAt(Slot(frame, ch), newest), Slot(frame, ch) % CHANNELS));
  }
}
