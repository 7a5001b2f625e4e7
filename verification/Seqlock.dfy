/** The webcam's shared frame: the feeder of drivers/windows/webcam/camctl.cpp and the
    reader of source.cpp, interleaved byte by byte under a 32-bit sequence counter. Each
    copy may move its bytes in any order. */
module Seqlock {
  import opened Bytes
  import Division
  import Memory
  import opened Wrappers

  // ---- the two threads ----------------------------------------------------------------

  /** Copying holds the positions the feeder has not stored yet. */
  datatype Writer = Between | Copying(todo: set<nat>)

  /** Reading holds the loaded sequence, the positions not copied yet, and (history) the
      number of increments when the sequence was loaded. */
  datatype Reader =
    | Ready(attempt: nat)
    | Reading(attempt: nat, before: nat, todo: set<nat>, loadedAt: nat)
    | Delivered(accepted: bool)

  /** count is the unbounded number of increments, of which the section keeps 32 bits;
      frames[..published + 1] have been stored whole, frames[0] being what was there. */
  datatype State = State(
    count: nat,
    published: nat,
    pixels: seq<byte>,
    writer: Writer,
    buffer: seq<byte>,
    reader: Reader)

  function Sequence(s: State): nat { s.count % U32 }

  function Positions(n: nat): (p: set<nat>)
    ensures forall k: nat :: k in p <==> k < n
  {
    if n == 0 then {} else Positions(n - 1) + {n - 1}
  }

  datatype Move =
    | BeginWrite | StoreByte(k: nat) | EndWrite
    | Load | CopyByte(k: nat) | Recheck

  predicate Enabled(frames: seq<seq<byte>>, s: State, move: Move) {
    match move
    case BeginWrite => s.writer.Between? && s.published + 1 < |frames|
    case StoreByte(k) => s.writer.Copying? && k in s.writer.todo && s.published + 1 < |frames|
                         && k < |frames[s.published + 1]| && k < |s.pixels|
    case EndWrite => s.writer == Copying({})
    case Load => s.reader.Ready?
    case CopyByte(k) => s.reader.Reading? && k in s.reader.todo && k < |s.pixels| && k < |s.buffer|
    case Recheck => s.reader.Reading? && s.reader.todo == {}
  }

  predicate Passes(s: State)
    requires s.reader.Reading?
  {
    s.reader.before % 2 == 0 && Sequence(s) == s.reader.before
  }

  const ATTEMPTS := 4

  function Apply(frames: seq<seq<byte>>, s: State, move: Move): State
    requires Enabled(frames, s, move)
  {
    match move
    case BeginWrite => s.(count := s.count + 1, writer := Copying(Positions(|s.pixels|)))
    case StoreByte(k) =>
      s.(pixels := s.pixels[k := frames[s.published + 1][k]], writer := Copying(s.writer.todo - {k}))
    case EndWrite => s.(count := s.count + 1, published := s.published + 1, writer := Between)
    case Load => s.(reader := Reading(s.reader.attempt, Sequence(s), Positions(|s.buffer|), s.count))
    case CopyByte(k) => s.(buffer := s.buffer[k := s.pixels[k]], reader := s.reader.(todo := s.reader.todo - {k}))
    case Recheck =>
      s.(reader :=
        if Passes(s) then Delivered(true)
        else if s.reader.attempt + 1 < ATTEMPTS then Ready(s.reader.attempt + 1) else Delivered(false))
  }

  /** The state after a run of steps from s, if each was enabled when its turn came. */
  function Exec(frames: seq<seq<byte>>, s: State, run: seq<Move>): Option<State>
    decreases |run|
  {
    if run == [] then Some(s)
    else if Enabled(frames, s, run[0]) then Exec(frames, Apply(frames, s, run[0]), run[1..])
    else None
  }

  /** A feeder and a RequestSample call start on a section with the given sequence. */
  function Start(first: nat, frames: seq<seq<byte>>, buffer: seq<byte>): State
    requires frames != []
  {
    State(first, 0, frames[0], Between, buffer, Ready(0))
  }

  ghost predicate Sized(frames: seq<seq<byte>>, n: nat) {
    frames != [] && forall i :: 0 <= i < |frames| ==> |frames[i]| == n
  }

  // ---- the invariant ------------------------------------------------------------------

  /** What the section holds: a whole frame when the feeder is between frames, and otherwise
      the next frame at the positions stored so far. */
  ghost predicate SectionFits(first: nat, frames: seq<seq<byte>>, n: nat, s: State) {
    && |s.pixels| == n && s.published < |frames|
    && s.count == first + 2 * s.published + (if s.writer.Copying? then 1 else 0)
    && (s.writer.Between? ==> s.pixels == frames[s.published])
    && (s.writer.Copying? ==>
          && s.published + 1 < |frames| && |frames[s.published + 1]| == n
          && forall k: nat :: k < n && k !in s.writer.todo ==> s.pixels[k] == frames[s.published + 1][k])
  }

  /** What the reader has: while no increment followed an even load, the current frame's
      bytes at every position copied so far. */
  ghost predicate CopyFits(frames: seq<seq<byte>>, n: nat, s: State) {
    && |s.buffer| == n
    && (s.reader.Reading? ==>
          && s.reader.loadedAt <= s.count && s.reader.before == s.reader.loadedAt % U32
          && (s.reader.loadedAt % 2 == 0 && s.count == s.reader.loadedAt && s.published < |frames|
              && |frames[s.published]| == n ==>
                forall k: nat :: k < n && k !in s.reader.todo ==> s.buffer[k] == frames[s.published][k]))
  }

  lemma StepKeepsSection(first: nat, frames: seq<seq<byte>>, n: nat, s: State, move: Move)
    requires Sized(frames, n) && SectionFits(first, frames, n, s) && Enabled(frames, s, move)
    ensures SectionFits(first, frames, n, Apply(frames, s, move))
  {
    if move.EndWrite? {
      assert s.pixels == frames[s.published + 1];
    }
  }

  lemma StepKeepsCopy(first: nat, frames: seq<seq<byte>>, n: nat, s: State, move: Move)
    requires first % 2 == 0 && Sized(frames, n)
    requires SectionFits(first, frames, n, s) && CopyFits(frames, n, s) && Enabled(frames, s, move)
    ensures CopyFits(frames, n, Apply(frames, s, move))
  {
  }

  /** The reader's two tests together say that nothing was written in between. */
  lemma PassMeansQuiet(frames: seq<seq<byte>>, n: nat, s: State)
    requires CopyFits(frames, n, s) && s.reader.Reading? && Passes(s)
    requires s.count < s.reader.loadedAt + U32
    ensures s.count == s.reader.loadedAt && s.count % 2 == 0
  {
    var loaded := s.reader.loadedAt;
    assert loaded % U32 % 2 == 0;
    if s.count > loaded {
      Division.ModDistinct(s.reader.loadedAt, s.count, U32);
    }
  }

  lemma {:induction false} SectionOverRuns(first: nat, frames: seq<seq<byte>>, n: nat, s: State, run: seq<Move>)
    requires Sized(frames, n) && SectionFits(first, frames, n, s) && Exec(frames, s, run).Some?
    ensures SectionFits(first, frames, n, Exec(frames, s, run).value)
    ensures s.published <= Exec(frames, s, run).value.published
    decreases |run|
  {
    if run != [] {
      StepKeepsSection(first, frames, n, s, run[0]);
      SectionOverRuns(first, frames, n, Apply(frames, s, run[0]), run[1..]);
    }
  }

  lemma {:induction false} CopyOverRuns(first: nat, frames: seq<seq<byte>>, n: nat, s: State, run: seq<Move>)
    requires first % 2 == 0 && Sized(frames, n)
    requires SectionFits(first, frames, n, s) && CopyFits(frames, n, s) && Exec(frames, s, run).Some?
    ensures CopyFits(frames, n, Exec(frames, s, run).value)
    decreases |run|
  {
    if run != [] {
      StepKeepsSection(first, frames, n, s, run[0]);
      StepKeepsCopy(first, frames, n, s, run[0]);
      CopyOverRuns(first, frames, n, Apply(frames, s, run[0]), run[1..]);
    }
  }

  // ---- the promise --------------------------------------------------------------------

  /** From an even sequence, in every byte-level interleaving: when the recheck passes after
      fewer than 2^32 increments, the copy is the frame published last, whole. */
  lemma AcceptedIsWhole(first: nat, frames: seq<seq<byte>>, n: nat, buffer: seq<byte>, run: seq<Move>)
    requires first % 2 == 0 && Sized(frames, n) && |buffer| == n
    requires Exec(frames, Start(first, frames, buffer), run).Some?
    requires Enabled(frames, Exec(frames, Start(first, frames, buffer), run).value, Recheck)
    requires var s := Exec(frames, Start(first, frames, buffer), run).value;
             Passes(s) && s.count < s.reader.loadedAt + U32
    ensures var s := Exec(frames, Start(first, frames, buffer), run).value;
            s.published < |frames| && s.buffer == frames[s.published] && s.writer.Between?
  {
    var start := Start(first, frames, buffer);
    SectionOverRuns(first, frames, n, start, run);
    CopyOverRuns(first, frames, n, start, run);
    PassMeansQuiet(frames, n, Exec(frames, start, run).value);
  }

  // ---- where it ends ------------------------------------------------------------------

  lemma {:induction false} ExecConcat(frames: seq<seq<byte>>, s: State, first: seq<Move>, rest: seq<Move>)
    requires Exec(frames, s, first).Some?
    ensures Exec(frames, s, first + rest) == Exec(frames, Exec(frames, s, first).value, rest)
    decreases |first|
  {
    if first == [] {
      assert first + rest == rest;
    } else {
      assert (first + rest)[1..] == first[1..] + rest;
      ExecConcat(frames, Apply(frames, s, first[0]), first[1..], rest);
    }
  }

  /** A memcpy in rising order from position k. */
  function Copies(k: nat, n: nat): seq<Move>
    decreases n - k
  {
    if k >= n then [] else [CopyByte(k)] + Copies(k + 1, n)
  }

  lemma {:induction false} CopiesRun(frames: seq<seq<byte>>, s: State, k: nat, n: nat)
    requires k <= n == |s.pixels| == |s.buffer| && s.reader.Reading?
    requires forall j: nat :: j in s.reader.todo <==> k <= j < n
    ensures Exec(frames, s, Copies(k, n))
         == Some(s.(buffer := s.buffer[..k] + s.pixels[k..], reader := s.reader.(todo := {})))
    decreases n - k
  {
    if k == n {
      assert s.reader.todo == {};
      assert s.buffer[..k] + s.pixels[k..] == s.buffer;
    } else {
      var t := Apply(frames, s, CopyByte(k));
      CopiesRun(frames, t, k + 1, n);
      assert t.buffer[..k + 1] + t.pixels[k + 1..] == s.buffer[..k] + s.pixels[k..];
      assert Copies(k, n)[1..] == Copies(k + 1, n);
    }
  }

  /** One turn of the retry loop while the feeder does nothing. */
  function Attempt(n: nat): seq<Move> { [Load] + (Copies(0, n) + [Recheck]) }

  lemma AttemptRun(frames: seq<seq<byte>>, s: State, n: nat)
    requires s.reader.Ready? && n == |s.pixels| == |s.buffer|
    ensures Exec(frames, s, Attempt(n)) == Some(s.(buffer := s.pixels, reader :=
              if s.count % 2 == 0 then Delivered(true)
              else if s.reader.attempt + 1 < ATTEMPTS then Ready(s.reader.attempt + 1) else Delivered(false)))
  {
    hide Exec, Copies;
    var t := Apply(frames, s, Load);
    var copied := t.(buffer := t.pixels, reader := t.reader.(todo := {}));
    OneStep(frames, s, Load);
    CopiesRun(frames, t, 0, n);
    assert t.buffer[..0] + t.pixels[0..] == t.pixels;
    OneStep(frames, copied, Recheck);
    ExecConcat(frames, t, Copies(0, n), [Recheck]);
    ExecConcat(frames, s, [Load], Copies(0, n) + [Recheck]);
  }

  /** The feeder stops after storing one byte of the next frame. */
  function Stall(i: nat): seq<Move> { [BeginWrite, StoreByte(i)] }

  function Mixed(frames: seq<seq<byte>>, i: nat): seq<byte>
    requires |frames| == 2 && i < |frames[0]| && i < |frames[1]|
  {
    frames[0][i := frames[1][i]]
  }

  lemma StallRun(first: nat, frames: seq<seq<byte>>, n: nat, buffer: seq<byte>, i: nat)
    requires Sized(frames, n) && |frames| == 2 && i < n
    ensures var after := Exec(frames, Start(first, frames, buffer), Stall(i));
            && after.Some? && after.value.count == first + 1 && after.value.pixels == Mixed(frames, i)
            && after.value.buffer == buffer && after.value.reader == Ready(0)
  {
    var s := Start(first, frames, buffer);
    var t := Apply(frames, s, BeginWrite);
    assert Stall(i)[1..] == [StoreByte(i)];
    assert Exec(frames, t, [StoreByte(i)]) == Some(Apply(frames, t, StoreByte(i)));
  }

  /** From an odd sequence, which a feeder killed inside its copy leaves behind, the next
      feeder's copy happens under an even one: two frames that differ in two places are
      enough for a torn copy to pass. */
  lemma TornFromOdd(first: nat, frames: seq<seq<byte>>, n: nat, buffer: seq<byte>, i: nat, j: nat)
    requires first % 2 == 1 && Sized(frames, n) && |frames| == 2 && |buffer| == n
    requires i < n && j < n && i != j && frames[0][i] != frames[1][i] && frames[0][j] != frames[1][j]
    ensures var end := Exec(frames, Start(first, frames, buffer), Stall(i) + Attempt(n));
            end.Some? && end.value.reader == Delivered(true) && end.value.buffer !in frames
  {
    hide Exec, Attempt, Stall;
    StallRun(first, frames, n, buffer, i);
    var start := Start(first, frames, buffer);
    ExecConcat(frames, start, Stall(i), Attempt(n));
    AttemptRun(frames, Exec(frames, start, Stall(i)).value, n);
    assert Mixed(frames, i)[i] == frames[1][i] && Mixed(frames, i)[j] == frames[0][j];
  }

  /** And from an even one the last of the four copies is handed on unchecked: a feeder that
      stalls inside its copy makes the reader deliver a torn frame. */
  lemma TornWhenStalled(first: nat, frames: seq<seq<byte>>, n: nat, buffer: seq<byte>, i: nat, j: nat)
    requires first % 2 == 0 && Sized(frames, n) && |frames| == 2 && |buffer| == n
    requires i < n && j < n && i != j && frames[0][i] != frames[1][i] && frames[0][j] != frames[1][j]
    ensures var run := Stall(i) + (Attempt(n) + (Attempt(n) + (Attempt(n) + Attempt(n))));
            var end := Exec(frames, Start(first, frames, buffer), run);
            end.Some? && end.value.reader == Delivered(false) && end.value.buffer !in frames
  {
    hide Exec, Attempt, Stall;
    var once := Attempt(n);
    StallRun(first, frames, n, buffer, i);
    var start := Start(first, frames, buffer);
    var s0 := Exec(frames, start, Stall(i)).value;
    ExecConcat(frames, start, Stall(i), once + (once + (once + once)));
    AttemptRun(frames, s0, n);
    var s1 := Exec(frames, s0, once).value;
    ExecConcat(frames, s0, once, once + (once + once));
    AttemptRun(frames, s1, n);
    var s2 := Exec(frames, s1, once).value;
    ExecConcat(frames, s1, once, once + once);
    AttemptRun(frames, s2, n);
    var s3 := Exec(frames, s2, once).value;
    ExecConcat(frames, s2, once, once);
    AttemptRun(frames, s3, n);
    assert Mixed(frames, i)[i] == frames[1][i] && Mixed(frames, i)[j] == frames[0][j];
  }

  /** Every copy that passes quickly is one whole frame, whatever is fed and however the two
      threads interleave. */
  ghost predicate Safe(first: nat, n: nat) {
    forall frames: seq<seq<byte>>, buffer: seq<byte>, run: seq<Move> ::
      Sized(frames, n) && |buffer| == n && Exec(frames, Start(first, frames, buffer), run).Some? ==>
        var s := Exec(frames, Start(first, frames, buffer), run).value;
        Enabled(frames, s, Recheck) && Passes(s) && s.count < s.reader.loadedAt + U32 ==>
          s.buffer in frames
  }

  lemma AttemptToRecheck(frames: seq<seq<byte>>, s: State, n: nat)
    requires s.reader.Ready? && n == |s.pixels| == |s.buffer| && s.count % 2 == 0
    ensures var end := Exec(frames, s, [Load] + Copies(0, n));
            && end.Some? && Enabled(frames, end.value, Recheck) && Passes(end.value)
            && end.value.count == end.value.reader.loadedAt && end.value.buffer == s.pixels
  {
    hide Exec, Copies;
    var t := Apply(frames, s, Load);
    OneStep(frames, s, Load);
    CopiesRun(frames, t, 0, n);
    assert t.buffer[..0] + t.pixels[0..] == t.pixels;
    ExecConcat(frames, s, [Load], Copies(0, n));
  }

  /** The protocol is safe exactly when the feeder starts on an even sequence. */
  lemma SafeIffEven(first: nat, n: nat)
    requires n >= 2
    ensures Safe(first, n) <==> first % 2 == 0
  {
    if first % 2 == 0 {
      forall frames: seq<seq<byte>>, buffer: seq<byte>, run: seq<Move> |
        Sized(frames, n) && |buffer| == n && Exec(frames, Start(first, frames, buffer), run).Some?
        ensures var s := Exec(frames, Start(first, frames, buffer), run).value;
                Enabled(frames, s, Recheck) && Passes(s) && s.count < s.reader.loadedAt + U32 ==>
                  s.buffer in frames
      {
        var s := Exec(frames, Start(first, frames, buffer), run).value;
        if Enabled(frames, s, Recheck) && Passes(s) && s.count < s.reader.loadedAt + U32 {
          AcceptedIsWhole(first, frames, n, buffer, run);
        }
      }
    } else {
      var zeros: seq<byte> := seq(n, _ => 0);
      var ones: seq<byte> := seq(n, _ => 1);
      var frames := [zeros, ones];
      StallRun(first, frames, n, zeros, 0);
      var start := Start(first, frames, zeros);
      var s := Exec(frames, start, Stall(0)).value;
      AttemptToRecheck(frames, s, n);
      ExecConcat(frames, start, Stall(0), [Load] + Copies(0, n));
      assert Mixed(frames, 0)[0] == 1 && Mixed(frames, 0)[1] == 0;
    }
  }

  // ---- what is delivered, checked or not ------------------------------------------------

  /** Some frame has this byte at position k. */
  ghost predicate FromSome(frames: seq<seq<byte>>, k: nat, x: byte) {
    exists f: nat :: f < |frames| && k < |frames[f]| && frames[f][k] == x
  }

  /** Every byte is that of some frame at its position. */
  ghost predicate Mix(frames: seq<seq<byte>>, n: nat, b: seq<byte>) {
    |b| == n && forall k: nat :: k < n ==> FromSome(frames, k, b[k])
  }

  ghost predicate MixClosed(frames: seq<seq<byte>>, n: nat) {
    forall b: seq<byte> :: Mix(frames, n, b) ==> b in frames
  }

  ghost predicate CopyMixed(frames: seq<seq<byte>>, n: nat, s: State) {
    && Mix(frames, n, s.pixels) && |s.buffer| == n
    && match s.reader
       case Ready(attempt) => attempt > 0 ==> Mix(frames, n, s.buffer)
       case Reading(_, _, todo, _) => forall k: nat :: k < n && k !in todo ==> FromSome(frames, k, s.buffer[k])
       case Delivered(_) => Mix(frames, n, s.buffer)
  }

  lemma StepKeepsMixed(frames: seq<seq<byte>>, n: nat, s: State, move: Move)
    requires Sized(frames, n) && CopyMixed(frames, n, s) && Enabled(frames, s, move)
    ensures CopyMixed(frames, n, Apply(frames, s, move))
  {
    if move.StoreByte? {
      assert FromSome(frames, move.k, frames[s.published + 1][move.k]);
    }
  }

  lemma {:induction false} MixedOverRuns(frames: seq<seq<byte>>, n: nat, s: State, run: seq<Move>)
    requires Sized(frames, n) && CopyMixed(frames, n, s) && Exec(frames, s, run).Some?
    ensures CopyMixed(frames, n, Exec(frames, s, run).value)
    decreases |run|
  {
    if run != [] {
      StepKeepsMixed(frames, n, s, run[0]);
      MixedOverRuns(frames, n, Apply(frames, s, run[0]), run[1..]);
    }
  }

  /** Every sample delivered, by whatever path, is a byte-wise mix of frames. */
  lemma DeliveredIsMix(first: nat, frames: seq<seq<byte>>, n: nat, buffer: seq<byte>, run: seq<Move>)
    requires Sized(frames, n) && |buffer| == n && Exec(frames, Start(first, frames, buffer), run).Some?
    ensures var s := Exec(frames, Start(first, frames, buffer), run).value;
            s.reader.Delivered? ==> Mix(frames, n, s.buffer)
  {
    forall k: nat | k < n ensures FromSome(frames, k, frames[0][k]) {
      assert 0 < |frames| && frames[0][k] == frames[0][k];
    }
    MixedOverRuns(frames, n, Start(first, frames, buffer), run);
  }

  // ---- and every mix is delivered by some run -------------------------------------------

  /** Which frame each byte of the mix is taken from. */
  ghost predicate Picks(frames: seq<seq<byte>>, b: seq<byte>, pick: seq<nat>) {
    && |pick| == |b|
    && forall k :: 0 <= k < |b| ==> pick[k] < |frames| && k < |frames[pick[k]]| && frames[pick[k]][k] == b[k]
  }

  lemma {:induction false} MixPicks(frames: seq<seq<byte>>, b: seq<byte>, n: nat) returns (pick: seq<nat>)
    requires n <= |b| && forall k: nat :: k < n ==> FromSome(frames, k, b[k])
    ensures Picks(frames, b[..n], pick)
    decreases n
  {
    if n == 0 {
      pick := [];
    } else {
      var before := MixPicks(frames, b, n - 1);
      var f: nat :| f < |frames| && n - 1 < |frames[f]| && frames[f][n - 1] == b[n - 1];
      pick := before + [f];
      forall k | 0 <= k < n ensures pick[k] < |frames| && k < |frames[pick[k]]| && frames[pick[k]][k] == b[..n][k] {
        if k < n - 1 { assert before[k] == pick[k] && b[..n - 1][k] == b[..n][k]; }
      }
    }
  }

  /** The reader copies, from position k on, the bytes to be taken from frame f. */
  function CopySome(pick: seq<nat>, f: nat, k: nat): seq<Move>
    decreases |pick| - k
  {
    if k >= |pick| then [] else (if pick[k] == f then [CopyByte(k)] else []) + CopySome(pick, f, k + 1)
  }

  lemma {:induction false} CopySomeRun(frames: seq<seq<byte>>, s: State, pick: seq<nat>, f: nat, k: nat)
      returns (t: State)
    requires k <= |pick| == |s.pixels| == |s.buffer| && s.reader.Reading?
    requires forall j: nat :: k <= j < |pick| && pick[j] == f ==> j in s.reader.todo
    ensures Exec(frames, s, CopySome(pick, f, k)) == Some(t)
    ensures t.reader.Reading? && t == s.(buffer := t.buffer, reader := s.reader.(todo := t.reader.todo))
    ensures |t.buffer| == |s.buffer|
    ensures forall j: nat :: j < |pick| ==> t.buffer[j] == if j >= k && pick[j] == f then s.pixels[j] else s.buffer[j]
    ensures forall j: nat :: j in t.reader.todo <==> j in s.reader.todo && !(k <= j < |pick| && pick[j] == f)
    decreases |pick| - k
  {
    if k == |pick| {
      t := s;
    } else if pick[k] == f {
      t := CopySomeRun(frames, Apply(frames, s, CopyByte(k)), pick, f, k + 1);
      assert CopySome(pick, f, k)[1..] == CopySome(pick, f, k + 1);
    } else {
      t := CopySomeRun(frames, s, pick, f, k + 1);
      assert CopySome(pick, f, k) == CopySome(pick, f, k + 1);
    }
  }

  function Stores(k: nat, n: nat): seq<Move>
    decreases n - k
  {
    if k >= n then [] else [StoreByte(k)] + Stores(k + 1, n)
  }

  lemma {:induction false} StoresRun(frames: seq<seq<byte>>, s: State, k: nat, n: nat)
    requires Sized(frames, n) && k <= n == |s.pixels| && s.published + 1 < |frames| && s.writer.Copying?
    requires forall j: nat :: j in s.writer.todo <==> k <= j < n
    ensures Exec(frames, s, Stores(k, n))
         == Some(s.(pixels := s.pixels[..k] + frames[s.published + 1][k..], writer := Copying({})))
    decreases n - k
  {
    var next := frames[s.published + 1];
    if k == n {
      assert s.writer.todo == {};
      assert s.pixels[..k] + next[k..] == s.pixels;
    } else {
      var t := Apply(frames, s, StoreByte(k));
      StoresRun(frames, t, k + 1, n);
      assert t.pixels[..k + 1] + next[k + 1..] == s.pixels[..k] + next[k..];
      assert Stores(k, n)[1..] == Stores(k + 1, n);
    }
  }

  /** The feeder publishes its next frame, begun already or not. */
  function NextFrame(begun: bool, n: nat): seq<Move> {
    (if begun then [] else [BeginWrite]) + (Stores(0, n) + [EndWrite])
  }

  ghost predicate AtFrame(s: State, begun: bool, n: nat) {
    s.writer == if begun then Copying(Positions(n)) else Between
  }

  lemma StoredRun(frames: seq<seq<byte>>, s: State, n: nat)
    requires Sized(frames, n) && |s.pixels| == n && s.published + 1 < |frames| && s.writer == Copying(Positions(n))
    ensures Exec(frames, s, Stores(0, n) + [EndWrite])
         == Some(s.(count := s.count + 1, published := s.published + 1, pixels := frames[s.published + 1],
                    writer := Between))
  {
    hide Exec, Stores;
    StoresRun(frames, s, 0, n);
    var u := s.(pixels := s.pixels[..0] + frames[s.published + 1][0..], writer := Copying({}));
    assert u.pixels == frames[s.published + 1];
    ExecConcat(frames, s, Stores(0, n), [EndWrite]);
    OneStep(frames, u, EndWrite);
  }

  lemma NextFrameRun(frames: seq<seq<byte>>, s: State, begun: bool, n: nat)
    requires Sized(frames, n) && |s.pixels| == n && s.published + 1 < |frames| && AtFrame(s, begun, n)
    ensures Exec(frames, s, NextFrame(begun, n)) == Some(s.(count := s.count + (if begun then 1 else 2),
              published := s.published + 1, pixels := frames[s.published + 1], writer := Between))
  {
    hide Exec, Stores;
    var tail := Stores(0, n) + [EndWrite];
    if begun {
      StoredRun(frames, s, n);
      assert NextFrame(begun, n) == tail;
    } else {
      var u := Apply(frames, s, BeginWrite);
      StoredRun(frames, u, n);
      OneStep(frames, s, BeginWrite);
      ExecConcat(frames, s, [BeginWrite], tail);
      assert NextFrame(begun, n) == [BeginWrite] + tail;
    }
  }

  /** The reader is inside a copy that holds the mix at the positions taken from frames
      before f. */
  ghost predicate Mixing(s: State, n: nat, pick: seq<nat>, b: seq<byte>, f: nat) {
    && s.reader.Reading? && |s.buffer| == |s.pixels| == |pick| == |b| == n
    && (forall k: nat :: k in s.reader.todo <==> k < n && pick[k] >= f)
    && forall k: nat :: k < n && pick[k] < f ==> s.buffer[k] == b[k]
  }

  lemma CopiedFrame(frames: seq<seq<byte>>, s: State, n: nat, pick: seq<nat>, b: seq<byte>, f: nat) returns (t: State)
    requires Sized(frames, n) && Picks(frames, b, pick) && Mixing(s, n, pick, b, f)
    requires f < |frames| && s.pixels == frames[f]
    ensures Exec(frames, s, CopySome(pick, f, 0)) == Some(t) && Mixing(t, n, pick, b, f + 1)
    ensures t == s.(buffer := t.buffer, reader := s.reader.(todo := t.reader.todo))
  {
    t := CopySomeRun(frames, s, pick, f, 0);
  }

  /** From frame f on: copy what is taken from it, publish the next, and so on. */
  lemma {:induction false} MixRun(frames: seq<seq<byte>>, s: State, begun: bool, n: nat, pick: seq<nat>, b: seq<byte>,
                                  f: nat) returns (run: seq<Move>, t: State)
    requires Sized(frames, n) && Picks(frames, b, pick) && Mixing(s, n, pick, b, f)
    requires f == s.published < |frames| && s.pixels == frames[f] && AtFrame(s, begun, n)
    ensures Exec(frames, s, run) == Some(t)
    ensures t.reader == s.reader.(todo := {}) && t.buffer == b
    decreases |frames| - f
  {
    hide Exec, CopySome, NextFrame, Picks;
    var u := CopiedFrame(frames, s, n, pick, b, f);
    if f + 1 == |frames| {
      run, t := CopySome(pick, f, 0), u;
      AllPicked(frames, b, pick);
      assert t.reader.todo == {};
    } else {
      NextFrameRun(frames, u, begun, n);
      var v := Exec(frames, u, NextFrame(begun, n)).value;
      var more;
      more, t := MixRun(frames, v, false, n, pick, b, f + 1);
      run := CopySome(pick, f, 0) + (NextFrame(begun, n) + more);
      ExecConcat(frames, s, CopySome(pick, f, 0), NextFrame(begun, n) + more);
      ExecConcat(frames, u, NextFrame(begun, n), more);
    }
  }

  lemma AllPicked(frames: seq<seq<byte>>, b: seq<byte>, pick: seq<nat>)
    requires Picks(frames, b, pick)
    ensures |pick| == |b| && forall k: nat :: k < |b| ==> pick[k] < |frames|
  {
  }

  /** Three attempts under an odd sequence, and the load of the fourth. */
  function ThreeMisses(n: nat): seq<Move> { Attempt(n) + (Attempt(n) + (Attempt(n) + [Load])) }

  lemma ThreeMissesRun(frames: seq<seq<byte>>, s: State, n: nat)
    requires s.reader == Ready(0) && n == |s.pixels| == |s.buffer| && s.count % 2 == 1
    ensures Exec(frames, s, ThreeMisses(n))
         == Some(s.(buffer := s.pixels, reader := Reading(3, Sequence(s), Positions(n), s.count)))
  {
    hide Exec, Attempt;
    var once := Attempt(n);
    AttemptRun(frames, s, n);
    var s1 := Exec(frames, s, once).value;
    ExecConcat(frames, s, once, once + (once + [Load]));
    AttemptRun(frames, s1, n);
    var s2 := Exec(frames, s1, once).value;
    ExecConcat(frames, s1, once, once + [Load]);
    AttemptRun(frames, s2, n);
    var s3 := Exec(frames, s2, once).value;
    ExecConcat(frames, s2, once, [Load]);
    assert Exec(frames, s3, [Load]) == Some(Apply(frames, s3, Load)) by { OneStep(frames, s3, Load); }
  }

  lemma OneStep(frames: seq<seq<byte>>, s: State, move: Move)
    requires Enabled(frames, s, move)
    ensures Exec(frames, s, [move]) == Some(Apply(frames, s, move))
  {
  }

  /** Whatever the sequence, a feeder slow enough makes the reader deliver any mix. */
  lemma MixIsDelivered(first: nat, frames: seq<seq<byte>>, n: nat, b: seq<byte>) returns (run: seq<Move>)
    requires Sized(frames, n) && |frames| >= 2 && Mix(frames, n, b)
    ensures var end := Exec(frames, Start(first, frames, frames[0]), run);
            end.Some? && end.value.reader == Delivered(false) && end.value.buffer == b
  {
    hide Exec, ThreeMisses;
    var start := Start(first, frames, frames[0]);
    var even := first % 2 == 0;
    var begin := if even then [BeginWrite] else [];
    var s0 := if even then Apply(frames, start, BeginWrite) else start;
    if even { OneStep(frames, start, BeginWrite); } else { NoStep(frames, start); }
    ThreeMissesRun(frames, s0, n);
    var s1 := Exec(frames, s0, ThreeMisses(n)).value;
    var pick := MixPicks(frames, b, n);
    assert b[..n] == b;
    var copy, t := MixRun(frames, s1, even, n, pick, b, 0);
    OneStep(frames, t, Recheck);
    run := begin + (ThreeMisses(n) + (copy + [Recheck]));
    ExecConcat(frames, start, begin, ThreeMisses(n) + (copy + [Recheck]));
    ExecConcat(frames, s0, ThreeMisses(n), copy + [Recheck]);
    ExecConcat(frames, s1, copy, [Recheck]);
  }

  lemma NoStep(frames: seq<seq<byte>>, s: State)
    ensures Exec(frames, s, []) == Some(s)
  {
  }

  /** Everything delivered, through the check or after the last attempt, is a frame. */
  ghost predicate DeliversWhole(first: nat, frames: seq<seq<byte>>, n: nat)
    requires frames != []
  {
    forall buffer: seq<byte>, run: seq<Move> ::
      |buffer| == n && Exec(frames, Start(first, frames, buffer), run).Some? ==>
        var s := Exec(frames, Start(first, frames, buffer), run).value;
        s.reader.Delivered? ==> s.buffer in frames
  }

  /** Without regard to the feeder's speed that is so exactly when every byte-wise mix of
      the frames is one of them. */
  lemma DeliversWholeIff(first: nat, frames: seq<seq<byte>>, n: nat)
    requires Sized(frames, n)
    ensures DeliversWhole(first, frames, n) <==> MixClosed(frames, n)
  {
    hide Exec, Mix;
    if MixClosed(frames, n) {
      forall buffer: seq<byte>, run: seq<Move> |
        |buffer| == n && Exec(frames, Start(first, frames, buffer), run).Some?
        ensures var s := Exec(frames, Start(first, frames, buffer), run).value;
                s.reader.Delivered? ==> s.buffer in frames
      {
        DeliveredIsMix(first, frames, n, buffer, run);
      }
    }
    if DeliversWhole(first, frames, n) {
      forall b: seq<byte> | Mix(frames, n, b) ensures b in frames {
        if |frames| == 1 {
          OnlyFrame(frames, n, b);
        } else {
          var run := MixIsDelivered(first, frames, n, b);
        }
      }
    }
  }

  lemma OnlyFrame(frames: seq<seq<byte>>, n: nat, b: seq<byte>)
    requires Sized(frames, n) && |frames| == 1 && Mix(frames, n, b)
    ensures b in frames
  {
    forall k: nat | k < n ensures b[k] == frames[0][k] {
      assert FromSome(frames, k, b[k]);
    }
    assert b == frames[0];
  }

  /** For two frames: when they differ in at most one place. */
  lemma TwoFramesMixClosed(a: seq<byte>, b: seq<byte>, n: nat)
    requires |a| == |b| == n
    ensures MixClosed([a, b], n) <==> forall i, j :: 0 <= i < j < n ==> a[i] == b[i] || a[j] == b[j]
  {
    var frames := [a, b];
    if i, j :| 0 <= i < j < n && a[i] != b[i] && a[j] != b[j] {
      var mixed := a[i := b[i]];
      forall k: nat | k < n ensures FromSome(frames, k, mixed[k]) {
        assert frames[0][k] == a[k] && frames[1][k] == b[k];
      }
      assert Mix(frames, n, mixed);
      assert mixed[i] != a[i] && mixed[j] != b[j];
    } else {
      forall m: seq<byte> | Mix(frames, n, m) ensures m in frames {
        if k :| 0 <= k < n && m[k] != a[k] {
          assert m == b by { OtherIsSecond(a, b, n, m, k); }
        } else {
          assert m == a;
        }
      }
    }
  }

  lemma OtherIsSecond(a: seq<byte>, b: seq<byte>, n: nat, m: seq<byte>, k: nat)
    requires |a| == |b| == n && Mix([a, b], n, m) && k < n && m[k] != a[k]
    requires forall i, j :: 0 <= i < j < n ==> a[i] == b[i] || a[j] == b[j]
    ensures m == b
  {
    assert FromSome([a, b], k, m[k]);
    assert a[k] != b[k] && m[k] == b[k];
    forall i: nat | i < n ensures m[i] == b[i] {
      assert FromSome([a, b], i, m[i]);
      assert i != k ==> a[i] == b[i] by { SameElsewhere(a, b, n, k, i); }
    }
    assert m == b;
  }

  lemma SameElsewhere(a: seq<byte>, b: seq<byte>, n: nat, k: nat, i: nat)
    requires |a| == |b| == n && k < n && i < n && a[k] != b[k]
    requires forall i, j :: 0 <= i < j < n ==> a[i] == b[i] || a[j] == b[j]
    ensures i == k || a[i] == b[i]
  {
    var low, high := if i < k then i else k, if i < k then k else i;
    assert low == high || a[low] == b[low] || a[high] == b[high];
  }

  // ---- what the feeder publishes ------------------------------------------------------

  /** The whole n-byte frames of a stream, in order; an incomplete tail is dropped. */
  function Blocks(s: seq<byte>, n: nat): seq<seq<byte>>
    requires n > 0
    decreases |s|
  {
    if |s| < n then [] else [s[..n]] + Blocks(s[n..], n)
  }

  lemma {:induction false} BlocksAppend(whole: seq<seq<byte>>, rest: seq<byte>, n: nat)
    requires n > 0 && forall i :: 0 <= i < |whole| ==> |whole[i]| == n
    ensures Blocks(Flatten(whole) + rest, n) == whole + Blocks(rest, n)
    decreases |whole|
  {
    if whole == [] {
      assert Flatten(whole) + rest == rest;
    } else {
      var all := Flatten(whole) + rest;
      assert all[..n] == whole[0] && all[n..] == Flatten(whole[1..]) + rest;
      BlocksAppend(whole[1..], rest, n);
      assert Blocks(all, n) == [whole[0]] + (whole[1..] + Blocks(rest, n));
    }
  }

  /** The bytes taken so far are the published frames and what the feeder holds. */
  ghost predicate Taken(stdin: seq<byte>, used: nat, history: seq<seq<byte>>, held: seq<byte>, n: nat) {
    && used <= |stdin| && stdin[..used] == Flatten(history) + held
    && forall i :: 0 <= i < |history| ==> |history[i]| == n
  }

  lemma TakeFirst(stdin: seq<byte>, used: nat, n: nat)
    requires used <= |stdin|
    ensures Taken(stdin, used, [], stdin[..used], n)
  {
  }

  lemma TakeMore(stdin: seq<byte>, used: nat, history: seq<seq<byte>>, held: seq<byte>, n: nat, now: nat)
    requires Taken(stdin, used, history, held, n) && |held| == n && used <= now <= |stdin|
    ensures Taken(stdin, now, history + [held], stdin[used..now], n)
  {
    FlattenAppend(history, held);
    assert stdin[..now] == stdin[..used] + stdin[used..now];
  }

  lemma TakenAll(stdin: seq<byte>, history: seq<seq<byte>>, held: seq<byte>, n: nat)
    requires Taken(stdin, |stdin|, history, held, n) && |held| < n
    ensures history == Blocks(stdin, n)
  {
    assert stdin[..|stdin|] == stdin;
    BlocksAppend(history, held, n);
  }

  /** Nothing is lost or reordered but a tail shorter than a frame. */
  lemma {:induction false} BlocksAreTheStream(s: seq<byte>, n: nat)
    requires n > 0
    ensures Flatten(Blocks(s, n)) <= s && |s| < |Flatten(Blocks(s, n))| + n
    ensures forall i :: 0 <= i < |Blocks(s, n)| ==> |Blocks(s, n)[i]| == n
    decreases |s|
  {
    if |s| >= n {
      BlocksAreTheStream(s[n..], n);
      assert s == s[..n] + s[n..];
    }
  }

  /** The sequence after a number of publications. */
  function SequenceAfter(first: u32, publications: nat): u32 { (first + 2 * publications) % U32 }

  lemma SequenceNext(first: u32, publications: nat)
    ensures SequenceAfter(first, 0) == first
    ensures (SequenceAfter(first, publications) + 2) % U32 == SequenceAfter(first, publications + 1)
  {
  }

  /** What the section holds after them. */
  function Latest(initial: seq<byte>, history: seq<seq<byte>>): seq<byte> {
    if history == [] then initial else history[|history| - 1]
  }

  lemma LatestNext(initial: seq<byte>, history: seq<seq<byte>>, frame: seq<byte>)
    ensures Latest(initial, []) == initial && Latest(initial, history + [frame]) == frame
  {
  }

  class SharedFrame {
    var sequence: u32
    const pixels: array<byte>

    constructor (splash: seq<byte>)
      ensures sequence == 0 && fresh(pixels) && pixels[..] == splash
    {
      sequence := 0;
      pixels := new byte[|splash|];
      new;
      Memory.CopyIn(pixels, 0, splash);
    }

    /** One publication: the two increments around the copy. */
    method Publish(frame: seq<byte>)
      requires |frame| == pixels.Length
      modifies this`sequence, pixels
      ensures pixels[..] == frame
      ensures sequence == (old(sequence) as int + 2) % U32
    {
      sequence := (sequence + 1) % U32;
      Memory.CopyIn(pixels, 0, frame);
      sequence := (sequence + 1) % U32;
    }

    /** One turn of the feeder's loop: the full frame is published and the next filled. */
    method PublishNext(frame: array<byte>, stdin: seq<byte>, taken: nat, ghost history: seq<seq<byte>>)
        returns (used: nat, have: nat)
      requires frame != pixels && frame.Length == pixels.Length
      requires taken <= |stdin| && Taken(stdin, taken, history, frame[..], pixels.Length)
      modifies this`sequence, pixels, frame
      ensures pixels[..] == old(frame[..]) && sequence == (old(sequence) as int + 2) % U32
      ensures taken <= used <= |stdin| && have == used - taken <= frame.Length
      ensures have == frame.Length || used == |stdin|
      ensures Taken(stdin, used, history + [old(frame[..])], frame[..have], pixels.Length)
    {
      hide Blocks, Taken;
      ghost var held := frame[..];
      Publish(frame[..]);
      used, have := FillFrame(frame, stdin, taken);
      TakeMore(stdin, taken, history, held, pixels.Length, used);
    }

    /** Feed: publish every whole frame of stdin. history lists the frames published. */
    method Feed(stdin: seq<byte>) returns (history: seq<seq<byte>>)
      requires pixels.Length > 0
      modifies this`sequence, pixels
      ensures history == Blocks(stdin, pixels.Length)
      ensures sequence == SequenceAfter(old(sequence), |history|)
      ensures pixels[..] == Latest(old(pixels[..]), history)
    {
      hide Blocks, Taken, SequenceAfter, Latest;
      ghost var initial := pixels[..];
      var n := pixels.Length;
      var frame := new byte[n];
      history := [];
      var used, have := FillFrame(frame, stdin, 0);
      TakeFirst(stdin, used, n);
      SequenceNext(sequence, 0);
      LatestNext(initial, history, initial);
      while have == n
        invariant 0 <= used <= |stdin| && 0 <= have <= n && (have == n || used == |stdin|)
        invariant Taken(stdin, used, history, frame[..have], n)
        invariant sequence == SequenceAfter(old(sequence), |history|)
        invariant pixels[..] == Latest(initial, history)
        decreases |stdin| - used, have
      {
        assert frame[..have] == frame[..];
        var full := frame[..];
        used, have := PublishNext(frame, stdin, used, history);
        SequenceNext(old(sequence), |history|);
        LatestNext(initial, history, full);
        history := history + [full];
      }
      TakenAll(stdin, history, frame[..have], n);
    }
  }

  /** The inner loop: each fread gives any positive part of what is asked until the stream
      has ended. */
  method FillFrame(frame: array<byte>, stdin: seq<byte>, from: nat) returns (used: nat, have: nat)
    requires from <= |stdin|
    modifies frame
    ensures from <= used <= |stdin| && have == used - from <= frame.Length
    ensures frame[..have] == stdin[from..used]
    ensures have == frame.Length || used == |stdin|
  {
    used, have := from, 0;
    while have < frame.Length && used < |stdin|
      invariant from <= used <= |stdin| && have == used - from <= frame.Length
      invariant frame[..have] == stdin[from..used]
    {
      var got: nat :| 0 < got <= frame.Length - have && got <= |stdin| - used;
      Memory.CopyIn(frame, have, stdin[used..used + got]);
      used, have := used + got, have + got;
    }
  }
}
