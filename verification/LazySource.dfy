/** The lazily opened source of internal/lane/source.go: Next, Close and cancellation as
    interleaved steps over the shared fields. Calls are named by number; the context of a
    Next call has the call's number. */
module LazySource {
  import opened Wrappers

  datatype Error = ClosedPipe | OpenFailed | NoFrames | Missing | Ended | CloseFailed

  /** Where a Next call is; the phases from Check to Record are inside openOnce. */
  datatype Next =
    | AtOnce
    | Check
    | Calling
    | Opened(frames: bool, errors: set<Error>)
    | Install(frames: bool, errors: set<Error>, ended: bool)
    | Abandon
    | Abandoning
    | Record(failed: bool)
    | AfterOnce
    | Reading
    | Failed(errors: set<Error>)
    | Serving

  datatype Closer = Holding | Closing | Returned

  datatype Once = Fresh | Busy(owner: nat) | Complete

  datatype Caller = Opener(n: nat) | ByClose(c: nat)

  /** The sync.OnceValue around the source's Close. */
  datatype CloseOnce = NotStarted | InProgress(caller: Caller) | Finished(failed: bool)

  /** The fields the calls share, and two of history: Open returned a source, and how often
      that source's Close was called. */
  datatype Fields = Fields(
    once: Once,
    installed: bool,
    published: bool,
    openErr: set<Error>,
    closed: bool,
    closeOnce: CloseOnce,
    received: bool,
    closes: nat)

  datatype State = State(f: Fields, nexts: map<nat, Next>, closers: map<nat, Closer>, cancelled: set<nat>)

  const START := State(Fields(Fresh, false, false, {}, false, NotStarted, false, 0), map[], map[], {})

  /** What the outside decides: whether Open returned a source and an error, and whether the
      source's Close failed. */
  datatype Outcome = Outcome(frames: bool, failed: bool)

  datatype Move =
    | Cancel(n: nat)
    | CallNext(n: nat)
    | StepNext(n: nat, outcome: Outcome)
    | CallClose(c: nat)
    | StepClose(c: nat, outcome: Outcome)

  function IfSo(condition: bool, error: Error): set<Error> { if condition then {error} else {} }

  predicate NextEnabled(f: Fields, phase: Next) {
    match phase
    case AtOnce => !f.once.Busy?
    case Abandon => !f.closeOnce.InProgress?
    case Failed(_) => false
    case Serving => false
    case _ => true
  }

  /** One step of Next call n, between two synchronisation points. */
  function NextStep(f: Fields, n: nat, phase: Next, ended: bool, outcome: Outcome): (Fields, Next)
    requires NextEnabled(f, phase)
  {
    match phase
    case AtOnce => if f.once == Fresh then (f.(once := Busy(n)), Check) else (f, AfterOnce)
    case Check =>
      if f.closed then (f.(openErr := {ClosedPipe}, once := Complete), AfterOnce) else (f, Calling)
    case Calling =>
      (f.(received := outcome.frames),
       Opened(outcome.frames, IfSo(outcome.failed, OpenFailed) + IfSo(!outcome.frames && !outcome.failed, NoFrames)))
    case Opened(frames, errors) => (f, Install(frames, errors, ended))
    case Install(frames, errors, endedThen) =>
      if errors == {} && !endedThen && !f.closed then
        (f.(installed := frames, published := frames, once := Complete), AfterOnce)
      else
        var g := f.(installed := frames, openErr := errors + IfSo(f.closed, ClosedPipe) + IfSo(endedThen, Ended));
        if frames then (g, Abandon) else (g.(once := Complete), AfterOnce)
    case Abandon =>
      if f.closeOnce.Finished? then (f, Record(f.closeOnce.failed))
      else (f.(closeOnce := InProgress(Opener(n)), closes := f.closes + 1), Abandoning)
    case Abandoning => (f.(closeOnce := Finished(outcome.failed)), Record(outcome.failed))
    case Record(failed) => (f.(openErr := f.openErr + IfSo(failed, CloseFailed), once := Complete), AfterOnce)
    case AfterOnce => (f, if ended then Failed({Ended}) else Reading)
    case Reading =>
      (f, if f.openErr != {} then Failed(f.openErr) else if f.closed then Failed({ClosedPipe})
          else if !f.published then Failed({Missing}) else Serving)
  }

  predicate CloserEnabled(f: Fields, phase: Closer) {
    match phase
    case Holding => !f.closeOnce.InProgress?
    case Closing => true
    case Returned => false
  }

  function CloserStep(f: Fields, c: nat, phase: Closer, outcome: Outcome): (Fields, Closer)
    requires CloserEnabled(f, phase)
  {
    match phase
    case Holding =>
      if f.closeOnce.Finished? then (f, Returned)
      else (f.(closeOnce := InProgress(ByClose(c)), closes := f.closes + 1), Closing)
    case Closing => (f.(closeOnce := Finished(outcome.failed)), Returned)
  }

  predicate Enabled(s: State, move: Move) {
    match move
    case Cancel(_) => true
    case CallNext(n) => n !in s.nexts
    case StepNext(n, _) => n in s.nexts && NextEnabled(s.f, s.nexts[n])
    case CallClose(c) => c !in s.closers
    case StepClose(c, _) => c in s.closers && CloserEnabled(s.f, s.closers[c])
  }

  function Apply(s: State, move: Move): State
    requires Enabled(s, move)
  {
    match move
    case Cancel(n) => s.(cancelled := s.cancelled + {n})
    case CallNext(n) => s.(nexts := s.nexts[n := if n in s.cancelled then Failed({Ended}) else AtOnce])
    case StepNext(n, outcome) =>
      var (f, phase) := NextStep(s.f, n, s.nexts[n], n in s.cancelled, outcome);
      s.(f := f, nexts := s.nexts[n := phase])
    case CallClose(c) =>
      s.(f := s.f.(closed := true), closers := s.closers[c := if s.f.installed then Holding else Returned])
    case StepClose(c, outcome) =>
      var (f, phase) := CloserStep(s.f, c, s.closers[c], outcome);
      s.(f := f, closers := s.closers[c := phase])
  }

  function Exec(run: seq<Move>): Option<State> {
    if run == [] then Some(START) else
      var before := Exec(run[..|run| - 1]);
      if before.Some? && Enabled(before.value, run[|run| - 1])
      then Some(Apply(before.value, run[|run| - 1])) else None
  }

  // ---- the invariant ------------------------------------------------------------------

  predicate Untouched(f: Fields) {
    !f.installed && !f.published && f.openErr == {} && f.closeOnce == NotStarted
  }

  predicate Abandoned(f: Fields) { f.received && f.installed && !f.published && f.openErr != {} }

  predicate InOpen(phase: Next) {
    phase.Check? || phase.Calling? || phase.Opened? || phase.Install? || phase.Abandon? || phase.Abandoning?
    || phase.Record?
  }

  /** What is known of the source, by the phase of the call inside open. */
  predicate OpenerAt(f: Fields, phase: Next) {
    match phase
    case Check => !f.received && Untouched(f)
    case Calling => !f.received && Untouched(f)
    case Opened(frames, errors) =>
      f.received == frames && (errors == {} ==> frames) && Missing !in errors && Untouched(f)
    case Install(frames, errors, _) =>
      f.received == frames && (errors == {} ==> frames) && Missing !in errors && Untouched(f)
    case Abandon => Abandoned(f)
    case Abandoning => Abandoned(f)
    case Record(failed) => Abandoned(f) && f.closeOnce == Finished(failed)
    case Failed(errors) => Missing !in errors && errors != {}
    case _ => true
  }

  /** What a Next call's phase says about the fields. */
  predicate NextFits(f: Fields, n: nat, phase: Next) {
    && (InOpen(phase) <==> f.once == Busy(n))
    && (phase.AfterOnce? || phase.Reading? || phase.Serving? ==> f.once == Complete)
    && (phase.Serving? ==> f.published)
    && (phase.Abandoning? <==> f.closeOnce == InProgress(Opener(n)))
    && OpenerAt(f, phase)
  }

  /** What a Close call's phase says about the fields. */
  predicate CloserFits(f: Fields, c: nat, phase: Closer) {
    && f.closed
    && (phase.Returned? || f.installed)
    && (phase.Closing? <==> f.closeOnce == InProgress(ByClose(c)))
    && (phase.Returned? && f.published ==> f.closeOnce.Finished?)
  }

  /** What holds of the fields alone. */
  predicate FieldsFit(f: Fields) {
    && (f.once == Fresh ==> !f.received && Untouched(f))
    && (f.once == Complete ==>
          && f.installed == f.received && (f.published <==> f.openErr == {})
          && (f.received && !f.published ==>
                f.closeOnce.Finished? && (f.closeOnce.failed ==> CloseFailed in f.openErr)))
    && (f.published ==> f.received && f.once == Complete)
    && (f.published && !f.closed ==> f.closeOnce == NotStarted)
    && f.closes == (if f.closeOnce == NotStarted then 0 else 1)
    && (f.closeOnce != NotStarted ==> f.received)
    && (f.installed ==> f.received)
    && Missing !in f.openErr
  }

  /** Whoever holds one of the two onces is a call that was made. */
  predicate OwnersExist(s: State) {
    && (s.f.once.Busy? ==> s.f.once.owner in s.nexts)
    && (s.f.closeOnce.InProgress? ==>
          match s.f.closeOnce.caller case Opener(n) => n in s.nexts case ByClose(c) => c in s.closers)
  }

  ghost predicate Inv(s: State) {
    && FieldsFit(s.f) && OwnersExist(s)
    && (forall n: nat :: n in s.nexts ==> NextFits(s.f, n, s.nexts[n]))
    && (forall c: nat :: c in s.closers ==> CloserFits(s.f, c, s.closers[c]))
  }

  /** A step of Next call n keeps what every call knows. */
  lemma NextStepFits(f: Fields, n: nat, phase: Next, ended: bool, outcome: Outcome)
    requires FieldsFit(f) && NextFits(f, n, phase) && NextEnabled(f, phase)
    ensures var (g, next) := NextStep(f, n, phase, ended, outcome);
            FieldsFit(g) && NextFits(g, n, next)
  {
  }

  lemma NextStepAndNext(f: Fields, n: nat, phase: Next, ended: bool, outcome: Outcome, m: nat, other: Next)
    requires NextFits(f, n, phase) && NextEnabled(f, phase)
    requires m != n && NextFits(f, m, other)
    ensures NextFits(NextStep(f, n, phase, ended, outcome).0, m, other)
  {
  }

  lemma NextStepAndCloser(f: Fields, n: nat, phase: Next, ended: bool, outcome: Outcome, c: nat, other: Closer)
    requires NextFits(f, n, phase) && NextEnabled(f, phase) && CloserFits(f, c, other)
    ensures CloserFits(NextStep(f, n, phase, ended, outcome).0, c, other)
  {
  }

  /** A step of Close call c likewise. */
  lemma CloserStepFits(f: Fields, c: nat, phase: Closer, outcome: Outcome)
    requires FieldsFit(f) && CloserFits(f, c, phase) && CloserEnabled(f, phase)
    ensures var (g, next) := CloserStep(f, c, phase, outcome); FieldsFit(g) && CloserFits(g, c, next)
  {
  }

  lemma CloserStepAndNext(f: Fields, c: nat, phase: Closer, outcome: Outcome, m: nat, other: Next)
    requires FieldsFit(f) && CloserFits(f, c, phase) && CloserEnabled(f, phase) && NextFits(f, m, other)
    ensures NextFits(CloserStep(f, c, phase, outcome).0, m, other)
  {
  }

  lemma CloserStepAndCloser(f: Fields, c: nat, phase: Closer, outcome: Outcome, d: nat, other: Closer)
    requires CloserFits(f, c, phase) && CloserEnabled(f, phase) && d != c && CloserFits(f, d, other)
    ensures CloserFits(CloserStep(f, c, phase, outcome).0, d, other)
  {
  }

  lemma StepKeepsInv(s: State, move: Move)
    requires Inv(s) && Enabled(s, move)
    ensures Inv(Apply(s, move))
  {
    match move
    case Cancel(_) =>
    case CallNext(n) => assert NextFits(s.f, n, AtOnce) && NextFits(s.f, n, Failed({Ended}));
    case StepNext(n, outcome) =>
      hide NextStep, FieldsFit, NextFits, CloserFits;
      NextStepFits(s.f, n, s.nexts[n], n in s.cancelled, outcome);
      forall m: nat | m in s.nexts && m != n {
        NextStepAndNext(s.f, n, s.nexts[n], n in s.cancelled, outcome, m, s.nexts[m]);
      }
      forall c: nat | c in s.closers {
        NextStepAndCloser(s.f, n, s.nexts[n], n in s.cancelled, outcome, c, s.closers[c]);
      }
      NextOwners(s, n, outcome);
    case CallClose(c) =>
    case StepClose(c, outcome) =>
      hide CloserStep, FieldsFit, NextFits, CloserFits;
      CloserStepFits(s.f, c, s.closers[c], outcome);
      forall m: nat | m in s.nexts { CloserStepAndNext(s.f, c, s.closers[c], outcome, m, s.nexts[m]); }
      forall d: nat | d in s.closers && d != c { CloserStepAndCloser(s.f, c, s.closers[c], outcome, d, s.closers[d]); }
      CloserOwners(s, c, outcome);
  }

  lemma NextOwners(s: State, n: nat, outcome: Outcome)
    requires OwnersExist(s) && Enabled(s, StepNext(n, outcome))
    ensures OwnersExist(Apply(s, StepNext(n, outcome)))
  {
  }

  lemma CloserOwners(s: State, c: nat, outcome: Outcome)
    requires OwnersExist(s) && Enabled(s, StepClose(c, outcome))
    ensures OwnersExist(Apply(s, StepClose(c, outcome)))
  {
  }

  lemma {:induction false} InvOverRuns(run: seq<Move>)
    requires Exec(run).Some?
    ensures Inv(Exec(run).value)
    decreases |run|
  {
    if run != [] {
      InvOverRuns(run[..|run| - 1]);
      StepKeepsInv(Exec(run[..|run| - 1]).value, run[|run| - 1]);
    }
  }

  // ---- the promises -------------------------------------------------------------------

  /** In every interleaving: a source is closed at most once; when open has finished, it is
      published exactly when there is no open error, closed if it was not published, a
      failure of that close being part of the open error, and closed once any Close call has
      returned; a published source nobody asked to close is open; and a Next that fails has
      an error, never the "returned no frames" one. */
  lemma SourceIsOwned(run: seq<Move>)
    requires Exec(run).Some?
    ensures var s := Exec(run).value;
            && s.f.closes <= 1
            && (s.f.closes == 1 ==> s.f.received)
            && (s.f.once == Complete ==> (s.f.published <==> s.f.openErr == {}))
            && (s.f.once == Complete && s.f.received && !s.f.published ==>
                  s.f.closes == 1 && s.f.closeOnce.Finished?
                  && (s.f.closeOnce.failed ==> CloseFailed in s.f.openErr))
            && (s.f.once == Complete && s.f.received
                && (exists c: nat :: c in s.closers && s.closers[c] == Returned) ==>
                  s.f.closes == 1 && s.f.closeOnce.Finished?)
            && (s.f.published && !s.f.closed ==> s.f.closes == 0)
            && (forall n: nat :: n in s.nexts && s.nexts[n].Failed? ==>
                  s.nexts[n].errors != {} && Missing !in s.nexts[n].errors)
  {
    InvOverRuns(run);
  }

  /** A source is published, and a Next call reads from it, only in a step taken before any
      Close call, and published only if the opener saw its context alive after Open. */
  lemma PublishedAndServedInTime(run: seq<Move>, move: Move)
    requires Exec(run).Some? && Enabled(Exec(run).value, move)
    ensures var s := Exec(run).value; var t := Apply(s, move);
            && (t.f.published && !s.f.published ==>
                  && move.StepNext? && s.nexts[move.n].Install? && !s.nexts[move.n].ended && !s.f.closed
                  && s.nexts[move.n].errors == {})
            && (forall n: nat :: n in t.nexts && t.nexts[n] == Serving && !(n in s.nexts && s.nexts[n] == Serving) ==>
                  !s.f.closed && s.f.published)
  {
    InvOverRuns(run);
    var s := Exec(run).value;
    if move.StepNext? { assert NextFits(s.f, move.n, s.nexts[move.n]); }
  }

  // ---- what open came to, told by the run ----------------------------------------------

  /** A Close call was made. */
  predicate CloseCalled(run: seq<Move>) { exists k :: 0 <= k < |run| && run[k].CallClose? }

  /** The phase that the last step of the run, if it is one of a Next call, started from. */
  function SteppedFrom(run: seq<Move>): Option<Next> {
    if run == [] || !run[|run| - 1].StepNext? then None else
      var before := Exec(run[..|run| - 1]);
      if before.Some? && run[|run| - 1].n in before.value.nexts then Some(before.value.nexts[run[|run| - 1].n])
      else None
  }

  /** What the ingress returned, if it has been called. */
  function OpenResult(run: seq<Move>): Option<Outcome> {
    if run == [] then None
    else if SteppedFrom(run) == Some(Calling) then Some(run[|run| - 1].outcome)
    else OpenResult(run[..|run| - 1])
  }

  /** The opener's context had ended when it looked after that. */
  predicate EndedAfterOpen(run: seq<Move>) {
    if run == [] then false
    else if SteppedFrom(run).Some? && SteppedFrom(run).value.Opened? then
      Cancel(run[|run| - 1].n) in run[..|run| - 1]
    else EndedAfterOpen(run[..|run| - 1])
  }

  /** A Close call had come when it decided what to do with the source. */
  predicate ClosedAtDecision(run: seq<Move>) {
    if run == [] then false
    else if SteppedFrom(run).Some? && SteppedFrom(run).value.Install? then CloseCalled(run[..|run| - 1])
    else ClosedAtDecision(run[..|run| - 1])
  }

  function ReturnedErrors(o: Outcome): set<Error> {
    IfSo(o.failed, OpenFailed) + IfSo(!o.frames && !o.failed, NoFrames)
  }

  /** Everything that stood against publishing. */
  function Objections(run: seq<Move>, o: Outcome): set<Error> {
    ReturnedErrors(o) + IfSo(ClosedAtDecision(run), ClosedPipe) + IfSo(EndedAfterOpen(run), Ended)
  }

  /** closed and cancelled are what the calls made of them. */
  ghost predicate Recorded(run: seq<Move>, s: State) {
    (s.f.closed <==> CloseCalled(run)) && forall n: nat :: n in s.cancelled <==> Cancel(n) in run
  }

  lemma {:induction false} RecordedOverRuns(run: seq<Move>)
    requires Exec(run).Some?
    ensures Recorded(run, Exec(run).value)
    decreases |run|
  {
    if run != [] {
      var before, move := run[..|run| - 1], run[|run| - 1];
      RecordedOverRuns(before);
      assert run == before + [move];
      StepRecorded(before, Exec(before).value, move);
    }
  }

  lemma StepRecorded(run: seq<Move>, s: State, move: Move)
    requires Recorded(run, s) && Enabled(s, move)
    ensures Recorded(run + [move], Apply(s, move))
  {
    CloseCalledSnoc(run, move);
    if move.StepNext? { ClosedStays(s.f, move.n, s.nexts[move.n], move.n in s.cancelled, move.outcome); }
    hide CloseCalled, NextStep;
    forall n: nat ensures n in Apply(s, move).cancelled <==> Cancel(n) in run + [move] {
      assert Cancel(n) in run + [move] <==> Cancel(n) in run || Cancel(n) == move;
    }
  }

  lemma ClosedStays(f: Fields, n: nat, phase: Next, ended: bool, outcome: Outcome)
    requires NextEnabled(f, phase)
    ensures NextStep(f, n, phase, ended, outcome).0.closed == f.closed
  {
  }

  lemma CloseCalledSnoc(run: seq<Move>, move: Move)
    ensures CloseCalled(run + [move]) <==> CloseCalled(run) || move.CallClose?
  {
    var all := run + [move];
    assert all[|run|] == move;
    if k :| 0 <= k < |run| && run[k].CallClose? { assert all[k].CallClose?; }
  }

  /** A close that failed while the opener itself was closing. */
  function OwnFailure(f: Fields): set<Error> { IfSo(f.closeOnce == Finished(true), CloseFailed) }

  /** How far the opening call has come with what the ingress returned. */
  predicate Told(f: Fields, phase: Next, result: Option<Outcome>, ended: bool, closed: bool) {
    match phase
    case Check => result == None && !ended && !closed
    case Calling => result == None && !ended && !closed
    case Opened(frames, errors) =>
      result.Some? && result.value.frames == frames && errors == ReturnedErrors(result.value) && !ended && !closed
    case Install(frames, errors, endedThen) =>
      result.Some? && result.value.frames == frames && errors == ReturnedErrors(result.value)
      && endedThen == ended && !closed
    case Abandon => Judged(f, result, ended, closed)
    case Abandoning => Judged(f, result, ended, closed)
    case Record(_) => Judged(f, result, ended, closed)
    case _ => true
  }

  predicate Judged(f: Fields, result: Option<Outcome>, ended: bool, closed: bool) {
    && result.Some? && result.value.frames
    && f.openErr == ReturnedErrors(result.value) + IfSo(closed, ClosedPipe) + IfSo(ended, Ended) != {}
  }

  /** And what is left of it once open has finished. */
  predicate Settled(f: Fields, result: Option<Outcome>, ended: bool, closed: bool) {
    match result
    case None => f.openErr == {ClosedPipe} && !f.published
    case Some(o) =>
      var against := ReturnedErrors(o) + IfSo(closed, ClosedPipe) + IfSo(ended, Ended);
      && (f.published <==> against == {})
      && f.openErr == against + (if against != {} && o.frames then OwnFailure(f) else {})
      && (against != {} && o.frames ==> f.closeOnce.Finished?)
  }

  ghost predicate Tells(run: seq<Move>, s: State) {
    var result, ended, closed := OpenResult(run), EndedAfterOpen(run), ClosedAtDecision(run);
    && (s.f.once == Fresh ==> result == None && !ended && !closed)
    && (s.f.once.Busy? && s.f.once.owner in s.nexts ==> Told(s.f, s.nexts[s.f.once.owner], result, ended, closed))
    && (s.f.once == Complete ==> Settled(s.f, result, ended, closed))
  }

  /** One step of a Next call, apart from the run: what the three facts become. */
  lemma StepTells(f: Fields, n: nat, phase: Next, now: bool, outcome: Outcome,
                  result: Option<Outcome>, ended: bool, closed: bool)
    requires FieldsFit(f) && NextFits(f, n, phase) && NextEnabled(f, phase)
    requires f.once == Fresh ==> result == None && !ended && !closed
    requires f.once == Busy(n) ==> Told(f, phase, result, ended, closed)
    requires f.once == Complete ==> Settled(f, result, ended, closed)
    ensures var (g, next) := NextStep(f, n, phase, now, outcome);
            var result' := if phase.Calling? then Some(outcome) else result;
            var ended' := if phase.Opened? then now else ended;
            var closed' := if phase.Install? then f.closed else closed;
            && (g.once == Fresh ==> result' == None && !ended' && !closed')
            && (g.once.Busy? ==> g.once == Busy(n) && Told(g, next, result', ended', closed'))
            && (g.once == Complete ==> Settled(g, result', ended', closed'))
  {
  }

  lemma SameTold(f: Fields, g: Fields, result: Option<Outcome>, ended: bool, closed: bool)
    requires g == f.(closed := true)
    ensures forall phase :: Told(f, phase, result, ended, closed) ==> Told(g, phase, result, ended, closed)
    ensures Settled(f, result, ended, closed) ==> Settled(g, result, ended, closed)
  {
  }

  lemma CloserTells(f: Fields, c: nat, phase: Closer, outcome: Outcome,
                    result: Option<Outcome>, ended: bool, closed: bool)
    requires CloserFits(f, c, phase) && CloserEnabled(f, phase)
    requires f.once == Complete ==> Settled(f, result, ended, closed)
    ensures var g := CloserStep(f, c, phase, outcome).0;
            && g.once == f.once
            && (forall next :: Told(f, next, result, ended, closed) ==> Told(g, next, result, ended, closed))
            && (g.once == Complete ==> Settled(g, result, ended, closed))
  {
  }

  /** The facts of a run one step longer. */
  lemma FactsSnoc(run: seq<Move>, move: Move)
    requires Exec(run).Some? && Enabled(Exec(run).value, move)
    ensures var phase := if move.StepNext? then Exec(run).value.nexts[move.n] else AtOnce;
            && OpenResult(run + [move]) == (if phase.Calling? then Some(move.outcome) else OpenResult(run))
            && EndedAfterOpen(run + [move]) == (if phase.Opened? then Cancel(move.n) in run else EndedAfterOpen(run))
            && ClosedAtDecision(run + [move]) == (if phase.Install? then CloseCalled(run) else ClosedAtDecision(run))
  {
    assert (run + [move])[..|run|] == run;
  }

  lemma {:induction false} TellsOverRuns(run: seq<Move>)
    requires Exec(run).Some?
    ensures Tells(run, Exec(run).value)
    decreases |run|
  {
    if run != [] {
      var before, move := run[..|run| - 1], run[|run| - 1];
      TellsOverRuns(before);
      InvOverRuns(before);
      RecordedOverRuns(before);
      FactsSnoc(before, move);
      assert run == before + [move];
      TellsNext(before, Exec(before).value, move);
    }
  }

  lemma TellsNext(run: seq<Move>, s: State, move: Move)
    requires Exec(run) == Some(s) && Inv(s) && Recorded(run, s) && Tells(run, s) && Enabled(s, move)
    ensures Tells(run + [move], Apply(s, move))
  {
    FactsSnoc(run, move);
    var result, ended, closed := OpenResult(run), EndedAfterOpen(run), ClosedAtDecision(run);
    hide OpenResult, EndedAfterOpen, ClosedAtDecision, Exec, CloseCalled, FieldsFit, Told, Settled, CloserFits;
    match move
    case Cancel(_) =>
    case CallNext(_) =>
    case StepNext(n, outcome) =>
      assert NextFits(s.f, n, s.nexts[n]);
      hide NextFits;
      StepTells(s.f, n, s.nexts[n], n in s.cancelled, outcome, result, ended, closed);
    case CallClose(_) => SameTold(s.f, s.f.(closed := true), result, ended, closed);
    case StepClose(c, outcome) => CloserTells(s.f, c, s.closers[c], outcome, result, ended, closed);
  }

  /** Once open has finished: without a call of the ingress, for a Close came first, the
      error is exactly the closed pipe; otherwise the source is published exactly when the
      ingress returned one without an error, the opener's context was alive and no Close had
      come, and the error is exactly what stood against it and the failure of the close that
      followed. */
  lemma OpenEndsExactly(run: seq<Move>)
    requires Exec(run).Some? && Exec(run).value.f.once == Complete
    ensures var f := Exec(run).value.f;
            match OpenResult(run)
            case None => f.openErr == {ClosedPipe} && !f.published
            case Some(o) =>
              && (f.published <==> o == Outcome(true, false) && !ClosedAtDecision(run) && !EndedAfterOpen(run))
              && (f.published ==> f.openErr == {})
              && (!f.published ==>
                    && Objections(run, o) != {}
                    && f.openErr == Objections(run, o) + IfSo(o.frames && f.closeOnce == Finished(true), CloseFailed))
  {
    TellsOverRuns(run);
    hide OpenResult, EndedAfterOpen, ClosedAtDecision;
    var f, result := Exec(run).value.f, OpenResult(run);
    if result.Some? { ObjectionsMean(result.value, ClosedAtDecision(run), EndedAfterOpen(run)); }
  }

  lemma ObjectionsMean(o: Outcome, closed: bool, ended: bool)
    ensures ReturnedErrors(o) + IfSo(closed, ClosedPipe) + IfSo(ended, Ended) == {}
            <==> o == Outcome(true, false) && !closed && !ended
  {
    assert closed ==> ClosedPipe in IfSo(closed, ClosedPipe);
    assert ended ==> Ended in IfSo(ended, Ended);
    assert o.failed ==> OpenFailed in ReturnedErrors(o);
    assert !o.frames && !o.failed ==> NoFrames in ReturnedErrors(o);
  }

  /** The answer of a Next call past open: the context's end, the open error as it is, the
      closed pipe when there is none but a Close has come, and the source's own Next in every
      other case. */
  lemma NextIsAnswered(run: seq<Move>, n: nat, outcome: Outcome)
    requires Exec(run).Some? && Enabled(Exec(run).value, StepNext(n, outcome))
    ensures var s := Exec(run).value;
            var answer := Apply(s, StepNext(n, outcome)).nexts[n];
            && (s.nexts[n].AfterOnce? ==> answer == if Cancel(n) in run then Failed({Ended}) else Reading)
            && (s.nexts[n].Reading? ==>
                  answer == if s.f.openErr != {} then Failed(s.f.openErr)
                            else if CloseCalled(run) then Failed({ClosedPipe}) else Serving)
  {
    InvOverRuns(run);
    RecordedOverRuns(run);
    var s := Exec(run).value;
    assert NextFits(s.f, n, s.nexts[n]);
    hide CloseCalled;
  }

  /** A call's own steps, one after the other. */
  function Alone(n: nat, steps: nat, outcome: Outcome): seq<Move> {
    if steps == 0 then [CallNext(n)] else Alone(n, steps - 1, outcome) + [StepNext(n, outcome)]
  }

  /** After so many of them the call is in this phase over these fields. */
  ghost predicate StandsAt(run: seq<Move>, n: nat, steps: nat, o: Outcome, f: Fields, phase: Next) {
    var end := Exec(run + Alone(n, steps, o));
    end.Some? && end.value.f == f && n !in end.value.cancelled && n in end.value.nexts && end.value.nexts[n] == phase
  }

  lemma StandsFirst(run: seq<Move>, n: nat, o: Outcome)
    requires Exec(run).Some? && n !in Exec(run).value.nexts && n !in Exec(run).value.cancelled
    ensures StandsAt(run, n, 0, o, Exec(run).value.f, AtOnce)
  {
    var all := run + Alone(n, 0, o);
    assert all == run + [CallNext(n)] && all[..|all| - 1] == run;
  }

  lemma StandsNext(run: seq<Move>, n: nat, steps: nat, o: Outcome, f: Fields, phase: Next)
    requires StandsAt(run, n, steps, o, f, phase) && NextEnabled(f, phase)
    ensures var (g, next) := NextStep(f, n, phase, false, o); StandsAt(run, n, steps + 1, o, g, next)
  {
    hide NextStep;
    var before, all := run + Alone(n, steps, o), run + Alone(n, steps + 1, o);
    assert all == before + [StepNext(n, o)] && all[..|all| - 1] == before;
  }

  lemma NothingYet(run: seq<Move>, n: nat)
    requires Exec(run).Some? && !CloseCalled(run) && Cancel(n) !in run
    ensures var s := Exec(run).value; FieldsFit(s.f) && !s.f.closed && n !in s.cancelled
  {
    InvOverRuns(run);
    RecordedOverRuns(run);
  }

  /** From any state in which open has not begun and no Close has come, the first Next whose
      ingress returns a source publishes it and is served. */
  lemma FirstNextIsServed(run: seq<Move>, n: nat)
    requires Exec(run).Some? && Exec(run).value.f.once == Fresh && !CloseCalled(run)
    requires n !in Exec(run).value.nexts && Cancel(n) !in run
    ensures var end := Exec(run + Alone(n, 7, Outcome(true, false)));
            end.Some? && end.value.f.published && n in end.value.nexts && end.value.nexts[n] == Serving
  {
    var o, f := Outcome(true, false), Exec(run).value.f;
    NothingYet(run, n);
    hide Exec, Alone, CloseCalled, StandsAt, FieldsFit;
    var opening := f.(once := Busy(n));
    var received := opening.(received := true);
    var published := received.(installed := true, published := true, once := Complete);
    OpeningSteps(f, n);
    PublishedSteps(published, n, o);
    hide NextStep, NextEnabled;
    StandsFirst(run, n, o);
    StandsNext(run, n, 0, o, f, AtOnce);
    StandsNext(run, n, 1, o, opening, Check);
    StandsNext(run, n, 2, o, opening, Calling);
    StandsNext(run, n, 3, o, received, Opened(true, {}));
    StandsNext(run, n, 4, o, received, Install(true, {}, false));
    StandsNext(run, n, 5, o, published, AfterOnce);
    StandsNext(run, n, 6, o, published, Reading);
    StandsMeans(run, n, 7, o, published, Serving);
  }

  lemma OpeningSteps(f: Fields, n: nat)
    requires FieldsFit(f) && f.once == Fresh && !f.closed
    ensures var o := Outcome(true, false);
            var opening := f.(once := Busy(n));
            var received := opening.(received := true);
            var published := received.(installed := true, published := true, once := Complete);
            && NextEnabled(f, AtOnce) && NextStep(f, n, AtOnce, false, o) == (opening, Check)
            && NextEnabled(opening, Check) && NextStep(opening, n, Check, false, o) == (opening, Calling)
            && NextEnabled(opening, Calling)
            && NextStep(opening, n, Calling, false, o) == (received, Opened(true, {}))
            && NextEnabled(received, Opened(true, {}))
            && NextStep(received, n, Opened(true, {}), false, o) == (received, Install(true, {}, false))
            && NextEnabled(received, Install(true, {}, false))
            && NextStep(received, n, Install(true, {}, false), false, o) == (published, AfterOnce)
            && published.openErr == {}
  {
    assert IfSo(false, OpenFailed) + IfSo(false, NoFrames) == {};
  }

  lemma PublishedSteps(f: Fields, n: nat, o: Outcome)
    requires f.once == Complete && f.published && f.openErr == {} && !f.closed
    ensures NextEnabled(f, AtOnce) && NextStep(f, n, AtOnce, false, o) == (f, AfterOnce)
    ensures NextEnabled(f, AfterOnce) && NextStep(f, n, AfterOnce, false, o) == (f, Reading)
    ensures NextEnabled(f, Reading) && NextStep(f, n, Reading, false, o) == (f, Serving)
  {
  }

  lemma StandsMeans(run: seq<Move>, n: nat, steps: nat, o: Outcome, f: Fields, phase: Next)
    requires StandsAt(run, n, steps, o, f, phase)
    ensures var end := Exec(run + Alone(n, steps, o));
            end.Some? && end.value.f == f && n in end.value.nexts && end.value.nexts[n] == phase
  {
  }

  /** And every Next after that until a Close comes. */
  lemma LaterNextIsServed(run: seq<Move>, n: nat, outcome: Outcome)
    requires Exec(run).Some? && Exec(run).value.f.published && !CloseCalled(run)
    requires n !in Exec(run).value.nexts && Cancel(n) !in run
    ensures var end := Exec(run + Alone(n, 3, outcome));
            end.Some? && n in end.value.nexts && end.value.nexts[n] == Serving
  {
    var f := Exec(run).value.f;
    NothingYet(run, n);
    PublishedSteps(f, n, outcome);
    hide Exec, Alone, CloseCalled, StandsAt, NextStep, NextEnabled;
    StandsFirst(run, n, outcome);
    StandsNext(run, n, 0, outcome, f, AtOnce);
    StandsNext(run, n, 1, outcome, f, AfterOnce);
    StandsNext(run, n, 2, outcome, f, Reading);
    StandsMeans(run, n, 3, outcome, f, Serving);
  }

  ghost predicate NeverOpens(s: State) {
    s.f.closed && !s.f.received && forall n: nat :: n in s.nexts ==> !s.nexts[n].Calling?
  }

  lemma StaysShut(s: State, move: Move)
    requires NeverOpens(s) && Enabled(s, move)
    ensures NeverOpens(Apply(s, move))
  {
  }

  /** Close prevents a future open: if it comes before the first Next, Open is never called. */
  lemma {:induction false} CloseFirst(run: seq<Move>, rest: seq<Move>)
    requires Exec(run).Some? && Exec(run).value.f.closed && Exec(run).value.f.once == Fresh
    requires Exec(run + rest).Some?
    ensures NeverOpens(Exec(run + rest).value)
    decreases |rest|
  {
    if rest == [] {
      assert run + rest == run;
      InvOverRuns(run);
      var s := Exec(run).value;
      forall n: nat | n in s.nexts ensures !s.nexts[n].Calling? { assert NextFits(s.f, n, s.nexts[n]); }
    } else {
      assert (run + rest)[..|run + rest| - 1] == run + rest[..|rest| - 1];
      CloseFirst(run, rest[..|rest| - 1]);
      hide NeverOpens, Apply, Enabled;
      StaysShut(Exec(run + rest[..|rest| - 1]).value, rest[|rest| - 1]);
    }
  }

  /** While some call has not returned, some call can step: Open and the source's Close are
      the only things waited for. */
  lemma SomeCallCanStep(run: seq<Move>)
    requires Exec(run).Some?
    requires var s := Exec(run).value;
             || (exists n: nat :: n in s.nexts && !s.nexts[n].Failed? && !s.nexts[n].Serving?)
             || (exists c: nat :: c in s.closers && !s.closers[c].Returned?)
    ensures exists move: Move :: (move.StepNext? || move.StepClose?) && Enabled(Exec(run).value, move)
  {
    InvOverRuns(run);
    var s := Exec(run).value;
    var outcome := Outcome(true, false);
    if s.f.closeOnce.InProgress? {
      match s.f.closeOnce.caller
      case Opener(n) => assert NextFits(s.f, n, s.nexts[n]) && Enabled(s, StepNext(n, outcome));
      case ByClose(c) => assert CloserFits(s.f, c, s.closers[c]) && Enabled(s, StepClose(c, outcome));
    } else if s.f.once.Busy? {
      var n := s.f.once.owner;
      assert NextFits(s.f, n, s.nexts[n]) && Enabled(s, StepNext(n, outcome));
    } else if n: nat :| n in s.nexts && !s.nexts[n].Failed? && !s.nexts[n].Serving? {
      assert Enabled(s, StepNext(n, outcome));
    } else {
      var c: nat :| c in s.closers && !s.closers[c].Returned?;
      assert Enabled(s, StepClose(c, outcome));
    }
  }
}
