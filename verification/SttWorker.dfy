/** The streaming loop and the single inference worker of internal/speechengine/stt.go, as
    interleaved steps of two threads over the shared queue, live slot and flags. The worker
    sleeps on a condition variable, and only a signal wakes it. */
module SttWorker {
  import opened Bytes
  import opened PcmCodec
  import opened Endpointer
  import opened Wrappers

  /** What the read loop does, in order: queue a final, or replace the live snapshot. */
  datatype Action = Submit(segment: Segment) | Publish(segment: Segment)

  /** submit is four steps, publishLive and close two: what they change under the lock comes
      before the signal, and the worker may run, sleep or die in between. */
  datatype Reader =
    | Running(next: nat)
    | Checked(next: nat)
    | Appended(next: nat)
    | Signalled(next: nat)
    | Published(next: nat)
    | Closing
    | Flagged
    | Waiting
    | Returned

  datatype Worker = Taking | Asleep | Final(segment: Segment) | Partial(segment: Segment) | Failing | Exited

  /** One line on stdout. */
  datatype Line = Line(segment: Segment, isFinal: bool)

  datatype State = State(
    reader: Reader,
    worker: Worker,
    finals: seq<Segment>,
    live: Option<Segment>,
    closed: bool,
    done: bool,
    failed: Option<Segment>,
    lastFinalEnd: nat,
    // history: what was submitted, what was written out, how far the reader has come
    submitted: seq<Segment>,
    lines: seq<Line>,
    reached: nat,
    lastPartialEnd: nat)

  const START := State(Running(0), Taking, [], None, false, false, None, 0, [], [], 0, 0)

  datatype Move =
    | CheckDone | Append | SignalFinal | Recheck | PublishLive | SignalLive | Close | Broadcast | Return
    | Sleep | TakeFinal | TakeLive | TakeEnd | FinalOk | FinalFails | PartialOk | PartialFails | CloseDone

  predicate Enabled(script: seq<Action>, s: State, move: Move) {
    match move
    case CheckDone => s.reader.Running? && s.reader.next < |script| && script[s.reader.next].Submit?
    case Append => s.reader.Checked? && s.reader.next < |script| && script[s.reader.next].Submit?
    case SignalFinal => s.reader.Appended?
    case Recheck => s.reader.Signalled?
    case PublishLive => s.reader.Running? && s.reader.next < |script| && script[s.reader.next].Publish?
    case SignalLive => s.reader.Published?
    case Broadcast => s.reader.Flagged?
    case Close => s.reader.Closing? || (s.reader.Running? && s.reader.next >= |script|)
    case Return => s.reader.Waiting? && s.done
    case Sleep => s.worker.Taking? && s.finals == [] && s.live.None? && !s.closed
    case TakeFinal => s.worker.Taking? && s.finals != []
    case TakeLive => s.worker.Taking? && s.finals == [] && s.live.Some? && !s.closed
    case TakeEnd => s.worker.Taking? && s.finals == [] && s.closed
    case FinalOk => s.worker.Final?
    case FinalFails => s.worker.Final?
    case PartialOk => s.worker.Partial?
    case PartialFails => s.worker.Partial?
    case CloseDone => s.worker.Failing?
  }

  /** What a signal does. */
  function Woken(worker: Worker): Worker { if worker.Asleep? then Taking else worker }

  function Apply(script: seq<Action>, s: State, move: Move): State
    requires Enabled(script, s, move)
  {
    match move
    case CheckDone => s.(reader := if s.done then Closing else Checked(s.reader.next))
    case Append =>
      var segment := script[s.reader.next].segment;
      s.(reader := Appended(s.reader.next), finals := s.finals + [segment],
         submitted := s.submitted + [segment], reached := segment.endSamples)
    case SignalFinal => s.(reader := Signalled(s.reader.next), worker := Woken(s.worker))
    case Recheck => s.(reader := if s.done then Closing else Running(s.reader.next + 1))
    case PublishLive =>
      var segment := script[s.reader.next].segment;
      s.(reader := Published(s.reader.next), live := Some(segment), reached := segment.endSamples)
    case SignalLive => s.(reader := Running(s.reader.next + 1), worker := Woken(s.worker))
    case Close => s.(reader := Flagged, closed := true)
    case Broadcast => s.(reader := Waiting, worker := Woken(s.worker))
    case Return => s.(reader := Returned)
    case Sleep => s.(worker := Asleep)
    case TakeFinal => s.(worker := Final(s.finals[0]), finals := s.finals[1..])
    case TakeLive =>
      s.(worker := if s.live.value.endSamples > s.lastFinalEnd then Partial(s.live.value) else Taking, live := None)
    case TakeEnd => s.(worker := Exited, done := true)
    case FinalOk =>
      s.(worker := Taking, lastFinalEnd := s.worker.segment.endSamples,
         lines := s.lines + [Line(s.worker.segment, true)])
    case FinalFails => s.(worker := Failing, failed := Some(s.worker.segment))
    case PartialOk =>
      s.(worker := Taking, lastPartialEnd := s.worker.segment.endSamples,
         lines := s.lines + [Line(s.worker.segment, false)])
    case PartialFails => s.(worker := Taking)
    case CloseDone => s.(worker := Exited, done := true)
  }

  /** The state after a run of steps, if each step was enabled when its turn came. */
  function Exec(script: seq<Action>, run: seq<Move>): Option<State> {
    if run == [] then Some(START) else
      var before := Exec(script, run[..|run| - 1]);
      if before.Some? && Enabled(script, before.value, run[|run| - 1])
      then Some(Apply(script, before.value, run[|run| - 1])) else None
  }

  // ---- the invariant ------------------------------------------------------------------

  ghost predicate OrderedScript(script: seq<Action>) {
    forall i, j :: 0 <= i < j < |script| ==> script[i].segment.endSamples <= script[j].segment.endSamples
  }

  function FinalLines(lines: seq<Line>): seq<Segment> {
    if lines == [] then [] else
      FinalLines(lines[..|lines| - 1]) + if lines[|lines| - 1].isFinal then [lines[|lines| - 1].segment] else []
  }

  /** The final the worker holds, or the one it failed on. */
  function InHand(s: State): seq<Segment> {
    if s.worker.Final? then [s.worker.segment] else List(s.failed)
  }

  /** No final is lost or reordered. */
  ghost predicate Accounted(s: State) {
    s.submitted == FinalLines(s.lines) + InHand(s) + s.finals
  }

  /** The flags say where the two threads are. */
  ghost predicate Phases(s: State) {
    && (s.closed <==> s.reader.Flagged? || s.reader.Waiting? || s.reader.Returned?)
    && (s.done <==> s.worker.Exited?)
    && (s.worker.Failing? ==> s.failed.Some?)
    && (s.failed.Some? ==> s.worker.Failing? || s.worker.Exited?)
    && (s.worker.Exited? && s.failed.None? ==> s.closed && s.finals == [])
    && (s.reader.Returned? ==> s.done)
  }

  /** No wake-up is lost: a worker that sleeps while there is something to take is about to be
      signalled. */
  ghost predicate WakeComes(s: State) {
    s.worker.Asleep? && (s.finals != [] || s.live.Some? || s.closed) ==>
      s.reader.Appended? || s.reader.Published? || s.reader.Flagged?
  }

  function SubmitsOf(script: seq<Action>): seq<Segment> {
    if script == [] then [] else
      SubmitsOf(script[..|script| - 1])
      + if script[|script| - 1].Submit? then [script[|script| - 1].segment] else []
  }

  /** The reader has submitted what the script says up to where it is, and, unless the worker
      has failed, all of it before it closes. */
  ghost predicate KeepsScript(script: seq<Action>, s: State) {
    match s.reader
    case Running(k) => k <= |script| && s.submitted == SubmitsOf(script[..k])
    case Checked(k) => k < |script| && script[k].Submit? && s.submitted == SubmitsOf(script[..k])
    case Appended(k) => k < |script| && s.submitted == SubmitsOf(script[..k + 1])
    case Signalled(k) => k < |script| && s.submitted == SubmitsOf(script[..k + 1])
    case Published(k) => k < |script| && s.submitted == SubmitsOf(script[..k + 1])
    case _ => s.failed.None? ==> s.submitted == SubmitsOf(script)
  }

  /** What is still to be written out ends no earlier than anything written so far. */
  ghost predicate Bounds(script: seq<Action>, s: State) {
    && s.lastFinalEnd <= s.reached && s.lastPartialEnd <= s.reached
    && (forall f :: f in s.finals ==> s.lastFinalEnd <= f.endSamples <= s.reached && s.lastPartialEnd <= f.endSamples)
    && (forall i, j :: 0 <= i < j < |s.finals| ==> s.finals[i].endSamples <= s.finals[j].endSamples)
    && (s.live.Some? ==> s.lastPartialEnd <= s.live.value.endSamples <= s.reached)
    && (s.worker.Final? ==>
          var e := s.worker.segment.endSamples;
          s.lastFinalEnd <= e <= s.reached && s.lastPartialEnd <= e && forall f :: f in s.finals ==> e <= f.endSamples)
    && (s.worker.Partial? ==>
          var e := s.worker.segment.endSamples;
          && s.lastFinalEnd < e <= s.reached && s.lastPartialEnd <= e
          && (forall f :: f in s.finals ==> e <= f.endSamples)
          && (s.live.Some? ==> e <= s.live.value.endSamples))
    && (s.reader.Running? || s.reader.Checked? ==>
          forall k :: s.reader.next <= k < |script| ==> s.reached <= script[k].segment.endSamples)
    && (s.reader.Appended? || s.reader.Signalled? || s.reader.Published? ==>
          forall k :: s.reader.next < k < |script| ==> s.reached <= script[k].segment.endSamples)
  }

  /** The lines written so far are in source order, and a partial is strictly past every
      final before it. */
  ghost predicate LinesOrdered(s: State) {
    && (forall l :: l in s.lines ==> l.segment.endSamples <= if l.isFinal then s.lastFinalEnd else s.lastPartialEnd)
    && (forall i, j :: 0 <= i < j < |s.lines| ==>
          if s.lines[i].isFinal && !s.lines[j].isFinal
          then s.lines[i].segment.endSamples < s.lines[j].segment.endSamples
          else s.lines[i].segment.endSamples <= s.lines[j].segment.endSamples)
  }

  lemma FinalLinesSnoc(lines: seq<Line>, line: Line)
    ensures FinalLines(lines + [line]) == FinalLines(lines) + if line.isFinal then [line.segment] else []
  {
    assert (lines + [line])[..|lines|] == lines;
  }

  lemma StepKeepsAccount(script: seq<Action>, s: State, move: Move)
    requires Accounted(s) && Phases(s) && Enabled(script, s, move)
    ensures Accounted(Apply(script, s, move))
  {
    hide FinalLines;
    var t := Apply(script, s, move);
    match move
    case Append =>
      assert InHand(t) == InHand(s);
      assert FinalLines(s.lines) + InHand(s) + (s.finals + [script[s.reader.next].segment]) == t.submitted;
    case TakeFinal => TakeFinalKeepsAccount(script, s);
    case FinalOk =>
      FinalLinesSnoc(s.lines, Line(s.worker.segment, true));
      assert InHand(t) == [];
    case PartialOk =>
      FinalLinesSnoc(s.lines, Line(s.worker.segment, false));
      assert InHand(t) == InHand(s);
    case _ => assert InHand(t) == InHand(s);
  }

  lemma TakeFinalKeepsAccount(script: seq<Action>, s: State)
    requires Accounted(s) && Phases(s) && Enabled(script, s, TakeFinal)
    ensures Accounted(Apply(script, s, TakeFinal))
  {
    hide FinalLines;
    assert InHand(s) == [] && InHand(Apply(script, s, TakeFinal)) == [s.finals[0]];
    assert s.finals == [s.finals[0]] + s.finals[1..];
  }

  lemma StepKeepsPhases(script: seq<Action>, s: State, move: Move)
    requires Phases(s) && Enabled(script, s, move)
    ensures Phases(Apply(script, s, move))
  {
  }

  lemma StepKeepsWake(script: seq<Action>, s: State, move: Move)
    requires WakeComes(s) && Enabled(script, s, move)
    ensures WakeComes(Apply(script, s, move))
  {
  }

  lemma StepKeepsScript(script: seq<Action>, s: State, move: Move)
    requires KeepsScript(script, s) && Phases(s) && Enabled(script, s, move)
    ensures KeepsScript(script, Apply(script, s, move))
  {
    hide SubmitsOf;
    assert script[..|script|] == script;
    if s.reader.Checked? || s.reader.Running? {
      var k := s.reader.next;
      if k < |script| { SubmitsSnoc(script[..k], script[k]); assert script[..k + 1] == script[..k] + [script[k]]; }
    }
  }

  lemma SubmitsSnoc(script: seq<Action>, action: Action)
    ensures SubmitsOf(script + [action]) == SubmitsOf(script) + if action.Submit? then [action.segment] else []
  {
    assert (script + [action])[..|script|] == script;
  }

  predicate ByReader(move: Move) {
    move in {CheckDone, Append, SignalFinal, Recheck, PublishLive, SignalLive, Close, Broadcast, Return}
  }

  lemma ReaderKeepsBounds(script: seq<Action>, s: State, move: Move)
    requires OrderedScript(script) && Bounds(script, s) && Enabled(script, s, move) && ByReader(move)
    ensures Bounds(script, Apply(script, s, move))
  {
    hide Bounds, Enabled, Apply;
    if move == Append {
      AppendKeepsBounds(script, s);
    } else if move == PublishLive {
      PublishKeepsBounds(script, s);
    } else {
      SilentKeepsBounds(script, s, move);
    }
  }

  lemma AppendKeepsBounds(script: seq<Action>, s: State)
    requires OrderedScript(script) && Bounds(script, s) && Enabled(script, s, Append)
    ensures Bounds(script, Apply(script, s, Append))
  {
  }

  lemma PublishKeepsBounds(script: seq<Action>, s: State)
    requires OrderedScript(script) && Bounds(script, s) && Enabled(script, s, PublishLive)
    ensures Bounds(script, Apply(script, s, PublishLive))
  {
  }

  lemma SilentKeepsBounds(script: seq<Action>, s: State, move: Move)
    requires Bounds(script, s) && Enabled(script, s, move)
    requires move in {CheckDone, SignalFinal, Recheck, SignalLive, Close, Broadcast, Return}
    ensures Bounds(script, Apply(script, s, move))
  {
  }

  lemma TakeFinalKeepsBounds(script: seq<Action>, s: State)
    requires Bounds(script, s) && Enabled(script, s, TakeFinal)
    ensures Bounds(script, Apply(script, s, TakeFinal))
  {
    var t := Apply(script, s, TakeFinal);
    assert s.finals[0] in s.finals;
    forall i, j | 0 <= i < j < |t.finals| ensures t.finals[i].endSamples <= t.finals[j].endSamples {
      assert t.finals[i] == s.finals[i + 1] && t.finals[j] == s.finals[j + 1];
    }
    forall f | f in t.finals ensures f in s.finals && s.finals[0].endSamples <= f.endSamples {
      var i :| 0 <= i < |t.finals| && t.finals[i] == f;
      assert s.finals[i + 1] == f;
    }
  }

  lemma TakeKeepsBounds(script: seq<Action>, s: State, move: Move)
    requires Bounds(script, s) && Enabled(script, s, move) && move in {Sleep, TakeLive, TakeEnd}
    ensures Bounds(script, Apply(script, s, move))
  {
  }

  lemma DecodeKeepsBounds(script: seq<Action>, s: State, move: Move)
    requires Bounds(script, s) && Enabled(script, s, move)
    requires move in {FinalOk, FinalFails, PartialOk, PartialFails, CloseDone}
    ensures Bounds(script, Apply(script, s, move))
  {
  }

  lemma StepKeepsLines(script: seq<Action>, s: State, move: Move)
    requires Bounds(script, s) && LinesOrdered(s) && Enabled(script, s, move)
    ensures LinesOrdered(Apply(script, s, move))
  {
    var t := Apply(script, s, move);
    if move == FinalOk {
      FinalKeepsLines(s, t);
    } else if move == PartialOk {
      PartialKeepsLines(s, t);
    } else {
      hide Bounds, LinesOrdered;
      SameLines(s, t);
    }
  }

  lemma SameLines(s: State, t: State)
    requires LinesOrdered(s)
    requires t.lines == s.lines && t.lastFinalEnd == s.lastFinalEnd && t.lastPartialEnd == s.lastPartialEnd
    ensures LinesOrdered(t)
  {
  }

  lemma FinalKeepsLines(s: State, t: State)
    requires LinesOrdered(s) && s.worker.Final?
    requires var e := s.worker.segment.endSamples; s.lastFinalEnd <= e && s.lastPartialEnd <= e && t.lastFinalEnd == e
    requires t.lines == s.lines + [Line(s.worker.segment, true)] && t.lastPartialEnd == s.lastPartialEnd
    ensures LinesOrdered(t)
  {
    assert forall i :: 0 <= i < |s.lines| ==> s.lines[i] in s.lines && t.lines[i] == s.lines[i];
  }

  lemma PartialKeepsLines(s: State, t: State)
    requires LinesOrdered(s) && s.worker.Partial?
    requires var e := s.worker.segment.endSamples; s.lastFinalEnd < e && s.lastPartialEnd <= e && t.lastPartialEnd == e
    requires t.lines == s.lines + [Line(s.worker.segment, false)] && t.lastFinalEnd == s.lastFinalEnd
    ensures LinesOrdered(t)
  {
    assert forall i :: 0 <= i < |s.lines| ==> s.lines[i] in s.lines && t.lines[i] == s.lines[i];
  }

  ghost predicate Inv(script: seq<Action>, s: State) {
    Accounted(s) && Phases(s) && WakeComes(s) && KeepsScript(script, s) && Bounds(script, s) && LinesOrdered(s)
  }

  lemma {:induction false} InvOverRuns(script: seq<Action>, run: seq<Move>)
    requires OrderedScript(script) && Exec(script, run).Some?
    ensures Inv(script, Exec(script, run).value)
    decreases |run|
  {
    if run == [] {
      assert script[..0] == [];
    } else {
      var s, move := Exec(script, run[..|run| - 1]).value, run[|run| - 1];
      InvOverRuns(script, run[..|run| - 1]);
      hide Accounted, Phases, WakeComes, KeepsScript, Bounds, LinesOrdered, Enabled, Apply;
      StepKeepsAccount(script, s, move);
      StepKeepsPhases(script, s, move);
      StepKeepsWake(script, s, move);
      StepKeepsScript(script, s, move);
      if ByReader(move) {
        ReaderKeepsBounds(script, s, move);
      } else if move == TakeFinal {
        TakeFinalKeepsBounds(script, s);
      } else if move in {Sleep, TakeLive, TakeEnd} {
        TakeKeepsBounds(script, s, move);
      } else {
        DecodeKeepsBounds(script, s, move);
      }
      StepKeepsLines(script, s, move);
    }
  }

  // ---- the promises -------------------------------------------------------------------

  /** In every interleaving: stdout lines have nondecreasing ends, a partial is strictly
      past every final before it, finals come out in submission order, and a session that
      returns without error has written every submitted final. */
  lemma WorkerKeepsItsPromise(script: seq<Action>, run: seq<Move>)
    requires OrderedScript(script) && Exec(script, run).Some?
    ensures var s := Exec(script, run).value;
            && (forall i, j :: 0 <= i < j < |s.lines| ==>
                  s.lines[i].segment.endSamples <= s.lines[j].segment.endSamples)
            && (forall i, j :: 0 <= i < j < |s.lines| && s.lines[i].isFinal && !s.lines[j].isFinal ==>
                  s.lines[i].segment.endSamples < s.lines[j].segment.endSamples)
            && FinalLines(s.lines) <= s.submitted
            && (s.reader == Returned && s.failed == None ==>
                  FinalLines(s.lines) == s.submitted == SubmitsOf(script))
  {
    InvOverRuns(script, run);
  }

  /** Whenever the worker sleeps with something to take, the reader is about to signal. */
  lemma NoWakeUpIsLost(script: seq<Action>, run: seq<Move>)
    requires OrderedScript(script) && Exec(script, run).Some?
    ensures WakeComes(Exec(script, run).value)
  {
    InvOverRuns(script, run);
  }

  lemma ReaderCanMove(script: seq<Action>, s: State)
    requires KeepsScript(script, s) && !s.reader.Waiting? && !s.reader.Returned?
    ensures exists move: Move :: Enabled(script, s, move)
  {
    hide SubmitsOf;
    match s.reader
    case Running(i) =>
      if i < |script| && script[i].Submit? { assert Enabled(script, s, CheckDone); }
      else if i < |script| { assert Enabled(script, s, PublishLive); }
      else { assert Enabled(script, s, Close); }
    case Checked(_) => assert Enabled(script, s, Append);
    case Appended(_) => assert Enabled(script, s, SignalFinal);
    case Signalled(_) => assert Enabled(script, s, Recheck);
    case Published(_) => assert Enabled(script, s, SignalLive);
    case Closing => assert Enabled(script, s, Close);
    case Flagged => assert Enabled(script, s, Broadcast);
  }

  lemma WorkerCanMove(script: seq<Action>, s: State)
    requires Phases(s) && WakeComes(s) && s.reader.Waiting?
    ensures exists move: Move :: Enabled(script, s, move)
  {
    match s.worker
    case Taking => assert Enabled(script, s, if s.finals == [] then TakeEnd else TakeFinal);
    case Final(_) => assert Enabled(script, s, FinalOk);
    case Partial(_) => assert Enabled(script, s, PartialOk);
    case Failing => assert Enabled(script, s, CloseDone);
    case Exited => assert Enabled(script, s, Return);
    case Asleep =>
  }

  /** Until the session has returned, one of the two threads can move. */
  lemma NeverStuck(script: seq<Action>, run: seq<Move>)
    requires OrderedScript(script) && Exec(script, run).Some?
    requires !Exec(script, run).value.reader.Returned?
    ensures exists move: Move :: Enabled(script, Exec(script, run).value, move)
  {
    hide Exec, Enabled, Accounted, Bounds, LinesOrdered, KeepsScript, Phases, WakeComes;
    var s := Exec(script, run).value;
    InvOverRuns(script, run);
    if s.reader.Waiting? { WorkerCanMove(script, s); } else { ReaderCanMove(script, s); }
  }

  // ---- the live slot --------------------------------------------------------------------

  /** How many actions of the script a run has carried out: each is one of these two steps. */
  function Done(run: seq<Move>): nat {
    if run == [] then 0 else Done(run[..|run| - 1]) + if run[|run| - 1] in {Append, PublishLive} then 1 else 0
  }

  /** The last snapshot published. */
  function Newest(actions: seq<Action>): Option<Segment> {
    if actions == [] then None
    else if actions[|actions| - 1].Publish? then Some(actions[|actions| - 1].segment)
    else Newest(actions[..|actions| - 1])
  }

  /** The newest snapshot when the live slot was last emptied. */
  function Taken(script: seq<Action>, run: seq<Move>): Option<Segment>
    requires Done(run) <= |script|
  {
    if run == [] then None else
      var before := run[..|run| - 1];
      if run[|run| - 1] == TakeLive then Newest(script[..Done(before)]) else Taken(script, before)
  }

  function Times(run: seq<Move>, move: Move): nat {
    if run == [] then 0 else Times(run[..|run| - 1], move) + if run[|run| - 1] == move then 1 else 0
  }

  /** Where the reader is in the script. */
  ghost predicate Placed(script: seq<Action>, run: seq<Move>, s: State) {
    && Done(run) <= |script|
    && match s.reader
       case Running(k) => Done(run) == k
       case Checked(k) => Done(run) == k && k < |script| && script[k].Submit?
       case Appended(k) => Done(run) == k + 1
       case Signalled(k) => Done(run) == k + 1
       case Published(k) => Done(run) == k + 1
       case _ => true
  }

  lemma {:induction false} PlacedOverRuns(script: seq<Action>, run: seq<Move>)
    requires Exec(script, run).Some?
    ensures Placed(script, run, Exec(script, run).value)
    decreases |run|
  {
    if run != [] {
      PlacedOverRuns(script, run[..|run| - 1]);
    }
  }

  lemma NewestNext(script: seq<Action>, k: nat)
    requires k < |script|
    ensures Newest(script[..k + 1]) == if script[k].Publish? then Some(script[k].segment) else Newest(script[..k])
  {
    assert script[..k + 1][..k] == script[..k];
  }

  /** What the slot and the worker's hand hold of the snapshots. */
  ghost predicate HoldsNewest(script: seq<Action>, run: seq<Move>, s: State)
    requires Done(run) <= |script|
  {
    && (s.live.Some? ==> s.live == Newest(script[..Done(run)]))
    && (s.worker.Partial? ==> Taken(script, run) == Some(s.worker.segment))
  }

  lemma StepHoldsNewest(script: seq<Action>, run: seq<Move>, s: State, move: Move)
    requires Done(run + [move]) <= |script| && Done(run) <= |script|
    requires Placed(script, run, s) && HoldsNewest(script, run, s) && Enabled(script, s, move)
    ensures HoldsNewest(script, run + [move], Apply(script, s, move))
  {
    assert (run + [move])[..|run|] == run;
    if move == Append || move == PublishLive { NewestNext(script, Done(run)); }
  }

  lemma {:induction false} NewestOverRuns(script: seq<Action>, run: seq<Move>)
    requires Exec(script, run).Some?
    ensures Done(run) <= |script| && HoldsNewest(script, run, Exec(script, run).value)
    decreases |run|
  {
    PlacedOverRuns(script, run);
    if run != [] {
      var before, move := run[..|run| - 1], run[|run| - 1];
      PlacedOverRuns(script, before);
      NewestOverRuns(script, before);
      assert run == before + [move];
      hide Placed, HoldsNewest, Done, Enabled, Apply;
      StepHoldsNewest(script, before, Exec(script, before).value, move);
    }
  }

  /** The live slot is newest-wins: whenever it is full it holds the last snapshot that the
      reader has published, whatever the worker has done meanwhile. */
  lemma NewestWins(script: seq<Action>, run: seq<Move>)
    requires Exec(script, run).Some?
    ensures Done(run) <= |script|
    ensures var live := Exec(script, run).value.live; live.Some? ==> live == Newest(script[..Done(run)])
    ensures run != [] && run[|run| - 1] == PublishLive ==> Exec(script, run).value.live.Some?
  {
    NewestOverRuns(script, run);
  }

  /** The end of the last final written. */
  function WrittenTo(lines: seq<Line>): nat {
    var finals := FinalLines(lines);
    if finals == [] then 0 else finals[|finals| - 1].endSamples
  }

  lemma {:induction false} WrittenOverRuns(script: seq<Action>, run: seq<Move>)
    requires Exec(script, run).Some?
    ensures Exec(script, run).value.lastFinalEnd == WrittenTo(Exec(script, run).value.lines)
    decreases |run|
  {
    if run != [] {
      var s, move := Exec(script, run[..|run| - 1]).value, run[|run| - 1];
      WrittenOverRuns(script, run[..|run| - 1]);
      if move == FinalOk { FinalLinesSnoc(s.lines, Line(s.worker.segment, true)); }
      if move == PartialOk { FinalLinesSnoc(s.lines, Line(s.worker.segment, false)); }
    }
  }

  /** Taking the slot: the worker decodes the newest snapshot exactly when it is past
      everything final written so far, and the slot is empty. */
  lemma TakeLiveDecodesNewest(script: seq<Action>, run: seq<Move>)
    requires Exec(script, run).Some? && Enabled(script, Exec(script, run).value, TakeLive)
    ensures Done(run) <= |script| && Newest(script[..Done(run)]).Some?
    ensures var s := Exec(script, run).value;
            var t, newest := Apply(script, s, TakeLive), Newest(script[..Done(run)]).value;
            && t.live == None
            && t.worker == if newest.endSamples > WrittenTo(s.lines) then Partial(newest) else Taking
  {
    NewestOverRuns(script, run);
    WrittenOverRuns(script, run);
  }

  /** close drops a live snapshot that is still pending: none is taken afterwards. */
  lemma CloseDropsLive(script: seq<Action>, run: seq<Move>)
    requires Exec(script, run).Some? && Close in run
    ensures !Enabled(script, Exec(script, run).value, TakeLive)
  {
    ClosedFromClose(script, run);
  }

  lemma {:induction false} ClosedFromClose(script: seq<Action>, run: seq<Move>)
    requires Exec(script, run).Some?
    ensures Exec(script, run).value.closed <==> Close in run
    decreases |run|
  {
    if run != [] {
      ClosedFromClose(script, run[..|run| - 1]);
      assert run == run[..|run| - 1] + [run[|run| - 1]];
    }
  }

  function PartialLines(lines: seq<Line>): seq<Segment> {
    if lines == [] then [] else
      PartialLines(lines[..|lines| - 1]) + if lines[|lines| - 1].isFinal then [] else [lines[|lines| - 1].segment]
  }

  lemma PartialLinesSnoc(lines: seq<Line>, line: Line)
    ensures PartialLines(lines + [line]) == PartialLines(lines) + if line.isFinal then [] else [line.segment]
  {
    assert (lines + [line])[..|lines|] == lines;
  }

  /** The snapshots that were decoded, each the newest when it was taken. */
  function Decoded(script: seq<Action>, run: seq<Move>): seq<Segment>
    requires Done(run) <= |script|
  {
    if run == [] then [] else
      var before := run[..|run| - 1];
      Decoded(script, before) + if run[|run| - 1] == PartialOk then List(Taken(script, before)) else []
  }

  /** stdout is told by the script and the steps alone: every decoding that succeeds writes
      one line; the finals are the first so many submitted, and the partials the snapshots
      that were newest when they were taken. */
  lemma {:induction false} LinesAreTheDecodings(script: seq<Action>, run: seq<Move>)
    requires OrderedScript(script) && Exec(script, run).Some?
    ensures Done(run) <= |script|
    ensures var s := Exec(script, run).value;
            && |FinalLines(s.lines)| == Times(run, FinalOk) && FinalLines(s.lines) <= s.submitted
            && PartialLines(s.lines) == Decoded(script, run)
    decreases |run|
  {
    PlacedOverRuns(script, run);
    WorkerKeepsItsPromise(script, run);
    if run != [] {
      var before, move := run[..|run| - 1], run[|run| - 1];
      LinesAreTheDecodings(script, before);
      NewestOverRuns(script, before);
      StepWrites(script, Exec(script, before).value, move);
      hide FinalLines, PartialLines, Taken, Newest, Enabled, Apply;
    }
  }

  lemma StepWrites(script: seq<Action>, s: State, move: Move)
    requires Enabled(script, s, move)
    ensures move == PartialOk ==> s.worker.Partial?
    ensures move == FinalOk ==> s.worker.Final?
    ensures var t := Apply(script, s, move);
            && FinalLines(t.lines) == FinalLines(s.lines) + (if move == FinalOk then [s.worker.segment] else [])
            && PartialLines(t.lines) == PartialLines(s.lines) + (if move == PartialOk then [s.worker.segment] else [])
  {
    hide FinalLines, PartialLines;
    if move == FinalOk || move == PartialOk {
      FinalLinesSnoc(s.lines, Line(s.worker.segment, move == FinalOk));
      PartialLinesSnoc(s.lines, Line(s.worker.segment, move == FinalOk));
    }
  }

  // ---- the script of a session --------------------------------------------------------

  function Submits(segments: seq<Segment>): seq<Action> {
    seq(|segments|, i requires 0 <= i < |segments| => Submit(segments[i]))
  }

  /** One turn of the read loop: the segments that are ready, then the live window when it
      holds speech. */
  function ReadActions(c: Config, s: EndpointState, samples: seq<Sample>): seq<Action>
    requires c.rate >= 50
  {
    var (after, segments) := Push(c, s, samples);
    Submits(segments) + if after.sawSpeech then [Publish(Segment(after.buf, after.totalSamples))] else []
  }

  /** streamSTT from decoder and endpointer state on: every read, then finishSTT, which
      flushes unless half a sample is pending. */
  function Script(c: Config, carry: seq<byte>, s: EndpointState, chunks: seq<seq<byte>>): seq<Action>
    requires c.rate >= 50
    decreases |chunks|
  {
    if chunks == [] then (if carry == [] then Submits(List(Flush(c, s).1)) else [])
    else
      var (samples, carry') := Feed(carry, chunks[0]);
      ReadActions(c, s, samples) + Script(c, carry', Push(c, s, samples).0, chunks[1..])
  }

  ghost predicate Between(script: seq<Action>, low: nat) {
    OrderedScript(script) && forall a :: a in script ==> low <= a.segment.endSamples
  }

  lemma OrderedConcat(a: seq<Action>, b: seq<Action>, low: nat, mid: nat)
    requires Between(a, low) && Between(b, mid) && low <= mid
    requires forall x :: x in a ==> x.segment.endSamples <= mid
    ensures Between(a + b, low)
  {
  }

  lemma ReadActionsOrdered(c: Config, s: EndpointState, samples: seq<Sample>)
    requires c.rate >= 50
    ensures Between(ReadActions(c, s, samples), s.totalSamples)
    ensures forall x :: x in ReadActions(c, s, samples) ==> x.segment.endSamples <= Push(c, s, samples).0.totalSamples
    ensures s.totalSamples <= Push(c, s, samples).0.totalSamples
  {
    PushEnds(c, s, samples);
  }

  /** Whatever the bytes and however they are read, the loop's actions are in source order. */
  lemma {:induction false} ScriptIsOrdered(c: Config, carry: seq<byte>, s: EndpointState, chunks: seq<seq<byte>>)
    requires c.rate >= 50
    ensures Between(Script(c, carry, s, chunks), s.totalSamples)
    decreases |chunks|
  {
    if chunks != [] {
      var (samples, carry') := Feed(carry, chunks[0]);
      var after := Push(c, s, samples).0;
      ReadActionsOrdered(c, s, samples);
      ScriptIsOrdered(c, carry', after, chunks[1..]);
      OrderedConcat(ReadActions(c, s, samples), Script(c, carry', after, chunks[1..]),
                    s.totalSamples, after.totalSamples);
    }
  }

  /** What the decoder hands to the endpointer, read by read. */
  function Reads(carry: seq<byte>, chunks: seq<seq<byte>>): seq<seq<Sample>>
    decreases |chunks|
  {
    if chunks == [] then [] else
      var (samples, carry') := Feed(carry, chunks[0]);
      [samples] + Reads(carry', chunks[1..])
  }

  lemma {:induction false} ReadsAreDecoded(carry: seq<byte>, chunks: seq<seq<byte>>)
    ensures Flatten(Reads(carry, chunks)) == FeedAll(carry, chunks).0
    decreases |chunks|
  {
    if chunks != [] {
      ReadsAreDecoded(Feed(carry, chunks[0]).1, chunks[1..]);
    }
  }

  lemma {:induction false} SubmitsConcat(a: seq<Action>, b: seq<Action>)
    ensures SubmitsOf(a + b) == SubmitsOf(a) + SubmitsOf(b)
    decreases |b|
  {
    if b == [] {
      assert a + b == a;
    } else {
      var n := |b| - 1;
      assert a + b == (a + b[..n]) + [b[n]] && b == b[..n] + [b[n]];
      SubmitsConcat(a, b[..n]);
      SubmitsSnoc(a + b[..n], b[n]);
      SubmitsSnoc(b[..n], b[n]);
    }
  }

  lemma {:induction false} SubmitsOfSubmits(segments: seq<Segment>)
    ensures SubmitsOf(Submits(segments)) == segments
    decreases |segments|
  {
    if segments != [] {
      var n := |segments| - 1;
      assert Submits(segments) == Submits(segments[..n]) + [Submit(segments[n])];
      SubmitsOfSubmits(segments[..n]);
      SubmitsSnoc(Submits(segments[..n]), Submit(segments[n]));
    }
  }

  lemma ReadSubmits(c: Config, s: EndpointState, samples: seq<Sample>)
    requires c.rate >= 50
    ensures SubmitsOf(ReadActions(c, s, samples)) == Push(c, s, samples).1
  {
    var (after, segments) := Push(c, s, samples);
    hide Push, SubmitsOf;
    SubmitsOfSubmits(segments);
    if after.sawSpeech {
      SubmitsSnoc(Submits(segments), Publish(Segment(after.buf, after.totalSamples)));
    } else {
      assert ReadActions(c, s, samples) == Submits(segments);
    }
  }

  /** The snapshots a script publishes. */
  function PublishesOf(script: seq<Action>): seq<Segment> {
    if script == [] then [] else
      PublishesOf(script[..|script| - 1])
      + if script[|script| - 1].Publish? then [script[|script| - 1].segment] else []
  }

  lemma PublishesSnoc(script: seq<Action>, action: Action)
    ensures PublishesOf(script + [action]) == PublishesOf(script) + if action.Publish? then [action.segment] else []
  {
    assert (script + [action])[..|script|] == script;
  }

  lemma {:induction false} PublishesConcat(a: seq<Action>, b: seq<Action>)
    ensures PublishesOf(a + b) == PublishesOf(a) + PublishesOf(b)
    decreases |b|
  {
    if b == [] {
      assert a + b == a;
    } else {
      var n := |b| - 1;
      assert a + b == (a + b[..n]) + [b[n]] && b == b[..n] + [b[n]];
      PublishesConcat(a, b[..n]);
      PublishesSnoc(a + b[..n], b[n]);
      PublishesSnoc(b[..n], b[n]);
    }
  }

  lemma {:induction false} SubmitsPublishNothing(segments: seq<Segment>)
    ensures PublishesOf(Submits(segments)) == []
    decreases |segments|
  {
    if segments != [] {
      var n := |segments| - 1;
      assert Submits(segments) == Submits(segments[..n]) + [Submit(segments[n])];
      SubmitsPublishNothing(segments[..n]);
      PublishesSnoc(Submits(segments[..n]), Submit(segments[n]));
    }
  }

  lemma ReadPublishes(c: Config, s: EndpointState, samples: seq<Sample>)
    requires c.rate >= 50
    ensures PublishesOf(ReadActions(c, s, samples)) == Live(Push(c, s, samples).0)
  {
    var (after, segments) := Push(c, s, samples);
    hide Push, PublishesOf;
    SubmitsPublishNothing(segments);
    if after.sawSpeech {
      PublishesSnoc(Submits(segments), Publish(Segment(after.buf, after.totalSamples)));
    } else {
      assert ReadActions(c, s, samples) == Submits(segments);
    }
  }

  /** What is live after each read, in order. */
  function LiveWindows(c: Config, s: EndpointState, inputs: seq<seq<Sample>>): seq<Segment>
    requires c.rate >= 50
  {
    if inputs == [] then []
    else LiveWindows(c, s, inputs[..|inputs| - 1]) + Live(PushedAll(c, s, inputs))
  }

  lemma {:induction false} LiveWindowsCons(c: Config, s: EndpointState, first: seq<Sample>, rest: seq<seq<Sample>>)
    requires c.rate >= 50
    ensures LiveWindows(c, s, [first] + rest)
         == Live(Push(c, s, first).0) + LiveWindows(c, Push(c, s, first).0, rest)
    decreases |rest|
  {
    var all := [first] + rest;
    hide Push, Live;
    if rest == [] {
      assert all == [first] && all[..0] == [];
      assert PushedAll(c, s, all) == PushedAll(c, Push(c, s, first).0, all[1..]);
    } else {
      var most := rest[..|rest| - 1];
      assert all[..|all| - 1] == [first] + most && all[1..] == rest;
      LiveWindowsCons(c, s, first, most);
    }
  }

  /** And after every read the loop publishes exactly what is live. */
  lemma {:induction false} ScriptPublishes(c: Config, carry: seq<byte>, s: EndpointState, chunks: seq<seq<byte>>)
    requires c.rate >= 50
    ensures PublishesOf(Script(c, carry, s, chunks)) == LiveWindows(c, s, Reads(carry, chunks))
    decreases |chunks|
  {
    if chunks == [] {
      SubmitsPublishNothing(List(Flush(c, s).1));
    } else {
      var (samples, carry') := Feed(carry, chunks[0]);
      var after := Push(c, s, samples).0;
      hide Feed, Push, PublishesOf, LiveWindows;
      ScriptPublishes(c, carry', after, chunks[1..]);
      ReadPublishes(c, s, samples);
      PublishesConcat(ReadActions(c, s, samples), Script(c, carry', after, chunks[1..]));
      assert Reads(carry, chunks) == [samples] + Reads(carry', chunks[1..]);
      LiveWindowsCons(c, s, samples, Reads(carry', chunks[1..]));
    }
  }

  /** A stream of whole samples has the loop submit exactly the endpointer's segments. */
  lemma {:induction false} ScriptSubmits(c: Config, carry: seq<byte>, s: EndpointState, chunks: seq<seq<byte>>)
    requires c.rate >= 50 && FeedAll(carry, chunks).1 == []
    ensures SubmitsOf(Script(c, carry, s, chunks)) == Session(c, s, Reads(carry, chunks)).1
    decreases |chunks|
  {
    if chunks == [] {
      SubmitsOfSubmits(List(Flush(c, s).1));
    } else {
      var (samples, carry') := Feed(carry, chunks[0]);
      var after := Push(c, s, samples).0;
      hide Feed, Push, SubmitsOf;
      ScriptSubmits(c, carry', after, chunks[1..]);
      ReadSubmits(c, s, samples);
      SubmitsConcat(ReadActions(c, s, samples), Script(c, carry', after, chunks[1..]));
      assert Reads(carry, chunks) == [samples] + Reads(carry', chunks[1..]);
    }
  }

  /** The whole helper, for any byte stream, any cutting into reads and any interleaving:
      lines in order, a partial strictly past every final before it, finals as submitted; and
      when a session over whole samples returns without error, the finals are those of the
      one way to cut the stream's frames. */
  lemma SessionKeepsOrder(c: Config, chunks: seq<seq<byte>>, run: seq<Move>)
      returns (windows: seq<Frames>, rest: Frames)
    requires ValidConfig(c) && Exec(Script(c, [], INITIAL, chunks), run).Some?
    ensures Flatten(Reads([], chunks)) == Decode(Flatten(chunks))
    ensures Cuts(c, FramesOf(c, Reads([], chunks)), windows, rest)
    ensures var s := Exec(Script(c, [], INITIAL, chunks), run).value;
            && (forall i, j :: 0 <= i < j < |s.lines| ==>
                  s.lines[i].segment.endSamples <= s.lines[j].segment.endSamples)
            && (forall i, j :: 0 <= i < j < |s.lines| && s.lines[i].isFinal && !s.lines[j].isFinal ==>
                  s.lines[i].segment.endSamples < s.lines[j].segment.endSamples)
            && FinalLines(s.lines) <= s.submitted
            && (s.reader == Returned && s.failed == None && |Flatten(chunks)| % 2 == 0 ==>
                  FinalLines(s.lines) == SegmentsOf(c, windows) + Kept(c, rest, |Decode(Flatten(chunks))|))
  {
    hide Exec, Script, FinalLines, SubmitsOf, Cuts, SegmentsOf, Kept, Session, FeedAll, Reads, FramesOf;
    var none: seq<byte> := [];
    ScriptIsOrdered(c, none, INITIAL, chunks);
    WorkerKeepsItsPromise(Script(c, none, INITIAL, chunks), run);
    ReadsAreDecoded(none, chunks);
    SplitIndependence(none, chunks);
    assert none + Flatten(chunks) == Flatten(chunks);
    windows, rest := SessionMakesTheCuts(c, Reads(none, chunks));
    if |Flatten(chunks)| % 2 == 0 {
      LeftoverLast(Flatten(chunks));
      ScriptSubmits(c, none, INITIAL, chunks);
    }
  }
}
