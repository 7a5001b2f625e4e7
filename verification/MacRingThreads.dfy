/** Any number of RingAdd calls of drivers/macos/common/plugin.c racing on the ring since
    the last RingClear, which ran with no IO in flight: the load and each compare-exchange
    are separate steps, and a compare-exchange may fail spuriously. */
module MacRingThreads {
  import opened Bytes
  import opened MacRing
  import opened Wrappers

  /** A call that has loaded a word holds it; seen is history, the newest lap in it. */
  datatype Thread = Idle | Holding(word: u64, seen: nat) | Landed | Refused

  /** log is history: the contributions in compare-exchange success order. */
  datatype State = State(words: seq<u64>, threads: seq<Thread>, log: seq<Contribution>)

  function Start(calls: nat): State { State(seq(WORDS, _ => 0), seq(calls, _ => Idle), []) }

  datatype Move = Load(i: nat) | Swap(i: nat) | Miss(i: nat) | GiveUp(i: nat)

  ghost predicate Shaped(calls: seq<Contribution>, s: State) {
    AllValid(calls) && AllValid(s.log) && |s.words| == WORDS && |s.threads| == |calls|
  }

  ghost predicate Enabled(calls: seq<Contribution>, s: State, move: Move)
    requires Shaped(calls, s)
  {
    && move.i < |calls|
    && var thread := s.threads[move.i];
       var c := calls[move.i];
       match move
       case Load(_) => thread.Idle?
       case Swap(_) =>
         && thread.Holding? && !Stale(Generation(c.frame), Tag(thread.word))
         && s.words[At(c)] == thread.word
       case Miss(_) => thread.Holding? && !Stale(Generation(c.frame), Tag(thread.word))
       case GiveUp(_) => thread.Holding? && Stale(Generation(c.frame), Tag(thread.word))
  }

  function Loaded(calls: seq<Contribution>, s: State, i: nat): Thread
    requires Shaped(calls, s) && i < |calls|
  {
    Holding(s.words[At(calls[i])], Newest(s.log, At(calls[i])))
  }

  function Apply(add: Mixer, calls: seq<Contribution>, s: State, move: Move): State
    requires Shaped(calls, s) && Enabled(calls, s, move)
  {
    var i := move.i;
    match move
    case Load(_) => s.(threads := s.threads[i := Loaded(calls, s, i)])
    case Miss(_) => s.(threads := s.threads[i := Loaded(calls, s, i)])
    case Swap(_) =>
      var word := AddWord(add, s.threads[i].word, Generation(calls[i].frame), calls[i].value);
      State(s.words[At(calls[i]) := word], s.threads[i := Landed], s.log + [calls[i]])
    case GiveUp(_) => s.(threads := s.threads[i := Refused])
  }

  /** A call compares its lap with one in the window of serial arithmetic. */
  ghost predicate Paced(calls: seq<Contribution>, s: State, move: Move)
    requires Shaped(calls, s) && Enabled(calls, s, move)
  {
    var lap := Lap(calls[move.i].frame);
    && (move.Swap? ==> Near(lap, Newest(s.log, At(calls[move.i]))))
    && (move.GiveUp? ==> Near(lap, s.threads[move.i].seen))
  }

  ghost function Exec(add: Mixer, calls: seq<Contribution>, run: seq<Move>): Option<State>
    requires AllValid(calls)
    ensures Exec(add, calls, run).Some? ==> Shaped(calls, Exec(add, calls, run).value)
  {
    if run == [] then Some(Start(|calls|)) else
      var before := Exec(add, calls, run[..|run| - 1]);
      var move := run[|run| - 1];
      if before.Some? && Enabled(calls, before.value, move)
      then Some(Apply(add, calls, before.value, move)) else None
  }

  /** So does every step of a run. */
  ghost predicate PacedRun(add: Mixer, calls: seq<Contribution>, run: seq<Move>)
    requires AllValid(calls) && Exec(add, calls, run).Some?
    decreases |run|
  {
    run == [] ||
    (PacedRun(add, calls, run[..|run| - 1]) && Paced(calls, Exec(add, calls, run[..|run| - 1]).value, run[|run| - 1]))
  }

  // ---- the invariant ------------------------------------------------------------------

  /** Every slot is a picture of its newest frame. */
  ghost predicate Pictured(add: Mixer, log: seq<Contribution>, words: seq<u64>)
    requires AllValid(log) && |words| == WORDS
  {
    LapsRise(log) && forall slot: nat :: slot < WORDS ==> Represents(add, log, slot, words[slot])
  }

  /** What a call knows of its slot. */
  ghost predicate Knows(log: seq<Contribution>, c: Contribution, thread: Thread)
    requires AllValid(log) && c.Valid()
  {
    match thread
    case Holding(word, seen) => Tag(word) == seen % TAGS && seen <= Newest(log, At(c))
    case Refused => Lap(c.frame) < Newest(log, At(c))
    case _ => true
  }

  /** The contributions of the calls that have landed. */
  function LandedBy(calls: seq<Contribution>, threads: seq<Thread>): multiset<Contribution>
    requires |threads| == |calls|
  {
    if calls == [] then multiset{} else
      LandedBy(calls[..|calls| - 1], threads[..|calls| - 1])
      + if threads[|calls| - 1] == Landed then multiset{calls[|calls| - 1]} else multiset{}
  }

  ghost predicate Inv(add: Mixer, calls: seq<Contribution>, s: State)
    requires Shaped(calls, s)
  {
    && Pictured(add, s.log, s.words)
    && (forall i: nat :: i < |calls| ==> Knows(s.log, calls[i], s.threads[i]))
    && multiset(s.log) == LandedBy(calls, s.threads)
  }

  lemma {:induction false} LandedStep(calls: seq<Contribution>, threads: seq<Thread>, i: nat, phase: Thread)
    requires |threads| == |calls| && i < |calls| && threads[i] != Landed
    ensures LandedBy(calls, threads[i := phase])
         == LandedBy(calls, threads) + if phase == Landed then multiset{calls[i]} else multiset{}
    decreases |calls|
  {
    var n := |calls| - 1;
    if i == n {
      assert threads[i := phase][..n] == threads[..n];
    } else {
      assert threads[i := phase][..n] == threads[..n][i := phase];
      LandedStep(calls[..n], threads[..n], i, phase);
    }
  }

  lemma {:induction false} NoneLanded(calls: seq<Contribution>)
    ensures LandedBy(calls, Start(|calls|).threads) == multiset{}
    decreases |calls|
  {
    if calls != [] {
      NoneLanded(calls[..|calls| - 1]);
      assert Start(|calls|).threads[..|calls| - 1] == Start(|calls| - 1).threads;
    }
  }

  lemma StartIsFine(add: Mixer, calls: seq<Contribution>)
    requires AllValid(calls)
    ensures Inv(add, calls, Start(|calls|))
  {
    NoneLanded(calls);
    PackParts(0, 0);
  }

  /** Landing only makes a slot's newest lap newer. */
  lemma KnowsAfter(log: seq<Contribution>, landed: Contribution, c: Contribution, thread: Thread)
    requires AllValid(log) && landed.Valid() && c.Valid() && Knows(log, c, thread)
    requires Lap(landed.frame) >= Newest(log, At(landed))
    ensures AllValid(log + [landed]) && Knows(log + [landed], c, thread)
  {
    assert (log + [landed])[..|log|] == log;
  }

  lemma LoadKnows(add: Mixer, calls: seq<Contribution>, s: State, i: nat)
    requires Shaped(calls, s) && Pictured(add, s.log, s.words) && i < |calls|
    ensures Knows(s.log, calls[i], Loaded(calls, s, i))
  {
    var slot := At(calls[i]);
    assert Represents(add, s.log, slot, s.words[slot]);
    var newest := Newest(s.log, slot);
    PackParts(newest % TAGS, Mixed(add, s.log, FrameAt(slot, newest), slot % CHANNELS));
  }

  lemma RefusedIsOld(s: State, c: Contribution, thread: Thread)
    requires AllValid(s.log) && c.Valid() && thread.Holding? && Knows(s.log, c, thread)
    requires Near(Lap(c.frame), thread.seen) && Stale(Generation(c.frame), Tag(thread.word))
    ensures Knows(s.log, c, Refused)
  {
    StaleIsOlder(Lap(c.frame), thread.seen);
  }

  lemma SwapKeepsPicture(add: Mixer, calls: seq<Contribution>, s: State, i: nat)
    requires Shaped(calls, s) && Pictured(add, s.log, s.words) && Enabled(calls, s, Swap(i)) && Paced(calls, s, Swap(i))
    ensures var t := Apply(add, calls, s, Swap(i)); Shaped(calls, t) && Pictured(add, t.log, t.words)
    ensures Lap(calls[i].frame) >= Newest(s.log, At(calls[i]))
  {
    hide LapsRise, Newest, Stale, Tag, Slot, Near, Lap, AddWord;
    var c, t := calls[i], Apply(add, calls, s, Swap(i));
    var slot := At(c);
    var newest := Newest(s.log, slot);
    assert Represents(add, s.log, slot, s.words[slot]);
    PackParts(newest % TAGS, Mixed(add, s.log, FrameAt(slot, newest), slot % CHANNELS));
    StaleIsOlder(Lap(c.frame), newest);
    RiseSnoc(s.log, c);
    LandsAtOwnSlot(add, s.log, c, s.words[slot]);
    forall other: nat | other < WORDS && other != slot ensures Represents(add, t.log, other, t.words[other]) {
      assert Represents(add, s.log, other, s.words[other]);
      LandsElsewhere(add, s.log, c, other, s.words[other]);
    }
  }

  lemma StepKeepsInv(add: Mixer, calls: seq<Contribution>, s: State, move: Move)
    requires Shaped(calls, s) && Inv(add, calls, s) && Enabled(calls, s, move) && Paced(calls, s, move)
    ensures Shaped(calls, Apply(add, calls, s, move)) && Inv(add, calls, Apply(add, calls, s, move))
  {
    hide Pictured, Knows, LandedBy, Stale, Near, Newest, Lap, Slot, AddWord;
    var i, t := move.i, Apply(add, calls, s, move);
    LandedStep(calls, s.threads, i, t.threads[i]);
    match move
    case Load(_) => LoadKnows(add, calls, s, i);
    case Miss(_) => LoadKnows(add, calls, s, i);
    case GiveUp(_) => RefusedIsOld(s, calls[i], s.threads[i]);
    case Swap(_) =>
      SwapKeepsPicture(add, calls, s, i);
      forall k: nat | k < |calls| && k != i { KnowsAfter(s.log, calls[i], calls[k], s.threads[k]); }
      assert Knows(t.log, calls[i], Landed) by { LandedKnows(t.log, calls[i]); }
  }

  lemma LandedKnows(log: seq<Contribution>, c: Contribution)
    requires AllValid(log) && c.Valid()
    ensures Knows(log, c, Landed)
  {
  }

  lemma {:induction false} InvOverRuns(add: Mixer, calls: seq<Contribution>, run: seq<Move>)
    requires AllValid(calls) && Exec(add, calls, run).Some? && PacedRun(add, calls, run)
    ensures Inv(add, calls, Exec(add, calls, run).value)
    decreases |run|
  {
    hide Inv, Apply, Enabled, Paced;
    StartIsFine(add, calls);
    if run != [] {
      InvOverRuns(add, calls, run[..|run| - 1]);
      StepKeepsInv(add, calls, Exec(add, calls, run[..|run| - 1]).value, run[|run| - 1]);
    }
  }

  // ---- the promise --------------------------------------------------------------------

  /** In every interleaving: a read of a frame is silence or that frame's own mix, the fold
      of what landed in it in compare-exchange order; every landed call is in the log once;
      and a frame that is the newest of its slot has refused nobody. */
  lemma RingIsTheTimeline(add: Mixer, calls: seq<Contribution>, run: seq<Move>, frame: nat, ch: nat)
    requires AllValid(calls) && Exec(add, calls, run).Some? && PacedRun(add, calls, run) && ch < CHANNELS
    requires var newest := Newest(Exec(add, calls, run).value.log, Slot(frame, ch));
             newest - TAGS < Lap(frame) < newest + TAGS
    ensures var s := Exec(add, calls, run).value;
            var newest := Newest(s.log, Slot(frame, ch));
            && ReadWord(s.words[Slot(frame, ch)], Generation(frame))
               == (if Lap(frame) == newest then Mixed(add, s.log, frame, ch) else 0)
            && multiset(s.log) == LandedBy(calls, s.threads)
            && (Lap(frame) == newest ==>
                  forall i: nat :: i < |calls| && calls[i].frame == frame && calls[i].ch == ch ==>
                    !s.threads[i].Refused?)
  {
    InvOverRuns(add, calls, run);
    var s := Exec(add, calls, run).value;
    assert Represents(add, s.log, Slot(frame, ch), s.words[Slot(frame, ch)]);
    ReadIsMix(add, s.log, frame, ch, s.words[Slot(frame, ch)]);
    forall i: nat | i < |calls| && calls[i].frame == frame && calls[i].ch == ch && s.threads[i].Refused?
      ensures Lap(frame) < Newest(s.log, Slot(frame, ch))
    {
      assert Knows(s.log, calls[i], s.threads[i]);
    }
  }

  // ---- how long that is ---------------------------------------------------------------

  /** Frames of the first 2^31 laps since the anchor, some 93 years. */
  ghost predicate Young(calls: seq<Contribution>) {
    forall i :: 0 <= i < |calls| ==> Lap(calls[i].frame) < 0x8000_0000
  }

  lemma {:induction false} NewestIsYoung(log: seq<Contribution>, slot: nat)
    requires AllValid(log) && Young(log)
    ensures Newest(log, slot) < 0x8000_0000
    decreases |log|
  {
    if log != [] {
      NewestIsYoung(log[..|log| - 1], slot);
    }
  }

  /** In that time every run is paced. */
  lemma {:induction false} YoungIsPaced(add: Mixer, calls: seq<Contribution>, run: seq<Move>)
    requires AllValid(calls) && Young(calls) && Exec(add, calls, run).Some?
    ensures PacedRun(add, calls, run) && Young(Exec(add, calls, run).value.log)
    decreases |run|
  {
    if run != [] {
      var s, move := Exec(add, calls, run[..|run| - 1]).value, run[|run| - 1];
      YoungIsPaced(add, calls, run[..|run| - 1]);
      InvOverRuns(add, calls, run[..|run| - 1]);
      hide Pictured, LandedBy, Newest, Stale, AddWord;
      NewestIsYoung(s.log, At(calls[move.i]));
      assert Knows(s.log, calls[move.i], s.threads[move.i]);
    }
  }
}
