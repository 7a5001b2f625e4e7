/** The bounded worker pool of internal/dispatch/dispatch.go and its Close handshake, as
    interleaved steps of submitters, workers and closers. A job is named by its Submit call. */
module Pool {
  import opened Wrappers

  datatype Worker = Idle | Running(job: nat) | Exited

  /** The first Close call: not made yet, waiting for the accepted work, waiting for the
      workers, returned. */
  datatype Closer = Open | Draining | Joining | Closed

  datatype State = State(
    workers: seq<Worker>,
    queue: seq<nat>,
    inflight: int,
    closer: Closer,
    // Submit calls: inside their select, returned nil, returned ctx.Err(), returned ErrClosed
    accepted: set<nat>,
    enqueued: set<nat>,
    cancelled: set<nat>,
    refused: set<nat>,
    // jobs whose function has returned, in that order
    ran: seq<nat>)

  function Start(workers: nat): State {
    State(seq(workers, _ => Idle), [], 0, Open, {}, {}, {}, {}, [])
  }

  predicate IsClosed(s: State) { s.closer != Open }

  /** The done channel is closed. */
  predicate IsDone(s: State) { s.closer == Joining || s.closer == Closed }

  function Called(s: State): set<nat> {
    s.accepted + s.enqueued + s.cancelled + s.refused
  }

  datatype Move =
    | Accept(id: nat) | Refuse(id: nat) | Enqueue(id: nat) | Cancel(id: nat)
    | Take(worker: nat) | Finish(worker: nat) | Stop(worker: nat)
    | CloseFirst | CloseAgain | Drained | Joined

  predicate AllExited(workers: seq<Worker>) { forall w: nat :: w < |workers| ==> workers[w] == Exited }

  predicate Enabled(capacity: nat, s: State, move: Move) {
    match move
    case Accept(id) => id !in Called(s) && !IsClosed(s)
    case Refuse(id) => id !in Called(s) && IsClosed(s)
    case Enqueue(id) => id in s.accepted && |s.queue| < capacity
    case Cancel(id) => id in s.accepted
    case Take(w) => w < |s.workers| && s.workers[w] == Idle && s.queue != []
    case Finish(w) => w < |s.workers| && s.workers[w].Running?
    case Stop(w) => w < |s.workers| && s.workers[w] == Idle && IsDone(s)
    case CloseFirst => !IsClosed(s)
    case CloseAgain => IsClosed(s)
    case Drained => s.closer == Draining && s.inflight == 0
    case Joined => s.closer == Joining && AllExited(s.workers)
  }

  function Apply(capacity: nat, s: State, move: Move): State
    requires Enabled(capacity, s, move)
  {
    match move
    case Accept(id) => s.(accepted := s.accepted + {id}, inflight := s.inflight + 1)
    case Refuse(id) => s.(refused := s.refused + {id})
    case Enqueue(id) => s.(accepted := s.accepted - {id}, enqueued := s.enqueued + {id}, queue := s.queue + [id])
    case Cancel(id) => s.(accepted := s.accepted - {id}, cancelled := s.cancelled + {id}, inflight := s.inflight - 1)
    case Take(w) => s.(workers := s.workers[w := Running(s.queue[0])], queue := s.queue[1..])
    case Finish(w) => s.(workers := s.workers[w := Idle], ran := s.ran + [s.workers[w].job], inflight := s.inflight - 1)
    case Stop(w) => s.(workers := s.workers[w := Exited])
    case CloseFirst => s.(closer := Draining)
    case CloseAgain => s
    case Drained => s.(closer := Joining)
    case Joined => s.(closer := Closed)
  }

  function Exec(workers: nat, capacity: nat, run: seq<Move>): Option<State> {
    if run == [] then Some(Start(workers)) else
      var before := Exec(workers, capacity, run[..|run| - 1]);
      if before.Some? && Enabled(capacity, before.value, run[|run| - 1])
      then Some(Apply(capacity, before.value, run[|run| - 1])) else None
  }

  // ---- the invariant ------------------------------------------------------------------

  function Held(w: Worker): multiset<nat> {
    if w.Running? then multiset{w.job} else multiset{}
  }

  /** The jobs the workers are running. */
  function Busy(workers: seq<Worker>): multiset<nat> {
    if workers == [] then multiset{} else Held(workers[0]) + Busy(workers[1..])
  }

  lemma {:induction false} BusyUpdate(workers: seq<Worker>, w: nat, phase: Worker)
    requires w < |workers|
    ensures Busy(workers[w := phase]) + Held(workers[w]) == Busy(workers) + Held(phase)
    decreases |workers|
  {
    hide Held;
    if w == 0 {
      assert workers[w := phase][1..] == workers[1..];
      Exchanged(Held(phase), Busy(workers[1..]), Held(workers[0]));
    } else {
      assert workers[w := phase][1..] == workers[1..][w - 1 := phase];
      BusyUpdate(workers[1..], w - 1, phase);
      var before, after := Busy(workers[1..]), Busy(workers[1..][w - 1 := phase]);
      BothJoined(Held(workers[0]), after, Held(workers[w]), before, Held(phase));
    }
  }

  lemma Exchanged(a: multiset<nat>, b: multiset<nat>, c: multiset<nat>)
    ensures (a + b) + c == (c + b) + a
  {
  }

  lemma BothJoined(head: multiset<nat>, a: multiset<nat>, x: multiset<nat>, b: multiset<nat>, y: multiset<nat>)
    requires a + x == b + y
    ensures (head + a) + x == (head + b) + y
  {
    assert (head + a) + x == head + (a + x);
    assert (head + b) + y == head + (b + y);
  }

  lemma BusyTake(workers: seq<Worker>, w: nat, job: nat)
    requires w < |workers| && workers[w] == Idle
    ensures Busy(workers[w := Running(job)]) == Busy(workers) + multiset{job}
  {
    BusyUpdate(workers, w, Running(job));
  }

  lemma BusyFinish(workers: seq<Worker>, w: nat)
    requires w < |workers| && workers[w].Running?
    ensures Busy(workers) == Busy(workers[w := Idle]) + multiset{workers[w].job}
  {
    BusyUpdate(workers, w, Idle);
  }

  lemma BusyStop(workers: seq<Worker>, w: nat)
    requires w < |workers| && workers[w] == Idle
    ensures Busy(workers[w := Exited]) == Busy(workers)
  {
    BusyUpdate(workers, w, Exited);
    assert Busy(workers) + multiset{} == Busy(workers);
  }

  lemma BusyHead(workers: seq<Worker>)
    requires workers != [] && workers[0].Running?
    ensures |Busy(workers)| > 0
  {
  }

  lemma {:induction false} BusyNone(workers: seq<Worker>)
    requires Busy(workers) == multiset{}
    ensures forall w: nat :: w < |workers| ==> !workers[w].Running?
  {
    if workers != [] {
      if workers[0].Running? { BusyHead(workers); }
      BusyNone(workers[1..]);
      assert workers == [workers[0]] + workers[1..];
    }
  }

  lemma {:induction false} BusySome(workers: seq<Worker>)
    requires Busy(workers) != multiset{}
    ensures exists w: nat :: w < |workers| && workers[w].Running?
  {
    if !workers[0].Running? {
      BusySome(workers[1..]);
      var w: nat :| w < |workers[1..]| && workers[1..][w].Running?;
      assert workers[w + 1].Running?;
    }
  }

  lemma {:induction false} IdleAreNotBusy(workers: nat)
    ensures Busy(Start(workers).workers) == multiset{}
    decreases workers
  {
    if workers > 0 {
      IdleAreNotBusy(workers - 1);
      assert Start(workers).workers[1..] == Start(workers - 1).workers;
    }
  }

  /** Every job whose Submit returned nil is in exactly one place: queued, running or ran. */
  ghost predicate EachOnce(s: State) {
    multiset(s.queue) + Busy(s.workers) + multiset(s.ran) == multiset(s.enqueued)
  }

  /** The counter counts what is accepted and not finished. */
  ghost predicate Counted(s: State) {
    s.inflight == |s.accepted| + |s.queue| + |Busy(s.workers)|
  }

  ghost predicate Apart(s: State) {
    && s.accepted !! s.enqueued && s.accepted !! s.cancelled && s.accepted !! s.refused
    && s.enqueued !! s.cancelled && s.enqueued !! s.refused && s.cancelled !! s.refused
  }

  ghost predicate Handshake(s: State) {
    && (IsDone(s) ==> s.inflight == 0)
    && (forall w: nat :: w < |s.workers| && s.workers[w] == Exited ==> IsDone(s))
    && (s.closer == Closed ==> AllExited(s.workers))
  }

  ghost predicate Inv(s: State) {
    EachOnce(s) && Counted(s) && Apart(s) && Handshake(s)
  }

  lemma StepKeepsOnce(capacity: nat, s: State, move: Move)
    requires EachOnce(s) && Apart(s) && Enabled(capacity, s, move)
    ensures EachOnce(Apply(capacity, s, move))
  {
    hide Busy;
    var t := Apply(capacity, s, move);
    match move
    case Enqueue(id) =>
      assert multiset(t.enqueued) == multiset(s.enqueued) + multiset{id};
    case Take(w) => TakeKeepsOnce(capacity, s, w);
    case Finish(w) => FinishKeepsOnce(capacity, s, w);
    case Stop(w) => BusyStop(s.workers, w);
    case _ =>
  }

  lemma TakeKeepsOnce(capacity: nat, s: State, w: nat)
    requires EachOnce(s) && Enabled(capacity, s, Take(w))
    ensures EachOnce(Apply(capacity, s, Take(w)))
  {
    hide Busy;
    BusyTake(s.workers, w, s.queue[0]);
    assert s.queue == [s.queue[0]] + s.queue[1..];
  }

  lemma FinishKeepsOnce(capacity: nat, s: State, w: nat)
    requires EachOnce(s) && Enabled(capacity, s, Finish(w))
    ensures EachOnce(Apply(capacity, s, Finish(w)))
  {
    hide Busy;
    BusyFinish(s.workers, w);
  }

  lemma StepKeepsCount(capacity: nat, s: State, move: Move)
    requires Counted(s) && Apart(s) && Enabled(capacity, s, move)
    ensures Counted(Apply(capacity, s, move))
  {
    hide Busy;
    match move
    case Take(w) => BusyTake(s.workers, w, s.queue[0]);
    case Finish(w) => BusyFinish(s.workers, w);
    case Stop(w) => BusyStop(s.workers, w);
    case _ =>
  }

  /** Once done is closed nothing is accepted, queued or running. */
  lemma NothingLeft(s: State)
    requires Counted(s) && s.inflight == 0
    ensures s.accepted == {} && s.queue == [] && Busy(s.workers) == multiset{}
    ensures forall w: nat :: w < |s.workers| ==> !s.workers[w].Running?
  {
    BusyNone(s.workers);
  }

  lemma StepKeepsApart(capacity: nat, s: State, move: Move)
    requires Apart(s) && Enabled(capacity, s, move)
    ensures Apart(Apply(capacity, s, move))
  {
  }

  lemma StepKeepsHandshake(capacity: nat, s: State, move: Move)
    requires Counted(s) && Handshake(s) && Enabled(capacity, s, move)
    ensures Handshake(Apply(capacity, s, move))
  {
    if IsDone(s) { NothingLeft(s); }
    hide Counted;
    var t := Apply(capacity, s, move);
    match move
    case Take(w) => assert !IsDone(s);
    case Finish(w) => assert !IsDone(s);
    case Stop(w) => assert s.closer != Closed;
    case _ =>
  }

  lemma StartIsFine(workers: nat)
    ensures Inv(Start(workers))
  {
    IdleAreNotBusy(workers);
  }

  lemma {:induction false} InvOverRuns(workers: nat, capacity: nat, run: seq<Move>)
    requires Exec(workers, capacity, run).Some?
    ensures Inv(Exec(workers, capacity, run).value)
    ensures |Exec(workers, capacity, run).value.workers| == workers
    decreases |run|
  {
    hide EachOnce, Counted, Apart, Handshake;
    StartIsFine(workers);
    if run != [] {
      var s, move := Exec(workers, capacity, run[..|run| - 1]).value, run[|run| - 1];
      InvOverRuns(workers, capacity, run[..|run| - 1]);
      StepKeepsOnce(capacity, s, move);
      StepKeepsCount(capacity, s, move);
      StepKeepsApart(capacity, s, move);
      StepKeepsHandshake(capacity, s, move);
    }
  }

  // ---- the promises -------------------------------------------------------------------

  /** In every interleaving: the counter is exact, no job runs twice, only a job whose
      Submit returned nil ever runs, and once the first Close has returned each such job
      has run exactly once. */
  lemma PoolKeepsItsPromise(workers: nat, capacity: nat, run: seq<Move>)
    requires Exec(workers, capacity, run).Some?
    ensures var s := Exec(workers, capacity, run).value;
            && Counted(s)
            && (forall id: nat :: multiset(s.ran)[id] <= 1)
            && (forall id: nat :: id in s.ran ==> id in s.enqueued && id !in s.cancelled && id !in s.refused)
            && (s.closer == Closed ==>
                  s.accepted == {} && forall id: nat :: multiset(s.ran)[id] == if id in s.enqueued then 1 else 0)
  {
    InvOverRuns(workers, capacity, run);
    var s := Exec(workers, capacity, run).value;
    forall id: nat ensures multiset(s.ran)[id] <= multiset(s.enqueued)[id] <= 1 {
      assert multiset(s.enqueued)[id] == multiset(s.queue)[id] + Busy(s.workers)[id] + multiset(s.ran)[id];
    }
    forall id: nat | id in s.ran ensures id in s.enqueued {
      assert multiset(s.ran)[id] > 0;
    }
    if s.closer == Closed {
      assert s.queue == [] && Busy(s.workers) == multiset{};
    }
  }

  /** While accepted work is outstanding, a submitter, a worker or a finishing job can
      move: no lost wake-up, no deadlock. */
  lemma WorkCanMove(workers: nat, capacity: nat, run: seq<Move>)
    requires workers > 0 && capacity > 0
    requires Exec(workers, capacity, run).Some? && Exec(workers, capacity, run).value.inflight > 0
    ensures exists move: Move :: (move.Enqueue? || move.Take? || move.Finish?)
                           && Enabled(capacity, Exec(workers, capacity, run).value, move)
  {
    InvOverRuns(workers, capacity, run);
    var s := Exec(workers, capacity, run).value;
    if Busy(s.workers) != multiset{} {
      BusySome(s.workers);
      var w: nat :| w < |s.workers| && s.workers[w].Running?;
      assert Enabled(capacity, s, Finish(w));
    } else if s.queue != [] {
      BusyNone(s.workers);
      assert Enabled(capacity, s, Take(0));
    } else {
      var id :| id in s.accepted;
      assert Enabled(capacity, s, Enqueue(id));
    }
  }

  /** The jobs enqueued, in order. */
  function Enqueued(run: seq<Move>): seq<nat> {
    if run == [] then [] else
      Enqueued(run[..|run| - 1]) + if run[|run| - 1].Enqueue? then [run[|run| - 1].id] else []
  }

  /** How many a worker has taken. */
  function Takes(run: seq<Move>): nat {
    if run == [] then 0 else Takes(run[..|run| - 1]) + if run[|run| - 1].Take? then 1 else 0
  }

  /** The queue never holds more than its capacity, and jobs leave it in the order in which
      they came: it is what is left of those enqueued. */
  lemma {:induction false} QueueIsFifo(workers: nat, capacity: nat, run: seq<Move>)
    requires Exec(workers, capacity, run).Some?
    ensures var queue := Exec(workers, capacity, run).value.queue;
            |queue| <= capacity && Takes(run) <= |Enqueued(run)| && queue == Enqueued(run)[Takes(run)..]
    decreases |run|
  {
    if run != [] {
      QueueIsFifo(workers, capacity, run[..|run| - 1]);
    }
  }

  /** So a worker starts the oldest job that waits. */
  lemma OldestStarts(workers: nat, capacity: nat, run: seq<Move>, w: nat)
    requires Exec(workers, capacity, run).Some? && Enabled(capacity, Exec(workers, capacity, run).value, Take(w))
    ensures var t := Apply(capacity, Exec(workers, capacity, run).value, Take(w));
            Takes(run) < |Enqueued(run)| && w < |t.workers| && t.workers[w] == Running(Enqueued(run)[Takes(run)])
  {
    QueueIsFifo(workers, capacity, run);
  }

  /** A first Submit is accepted exactly until Close is called, and refused from then on. */
  lemma SubmitIsAnswered(workers: nat, capacity: nat, run: seq<Move>, id: nat)
    requires Exec(workers, capacity, run).Some? && id !in Called(Exec(workers, capacity, run).value)
    ensures var s := Exec(workers, capacity, run).value;
            && (Enabled(capacity, s, Accept(id)) <==> CloseFirst !in run)
            && (Enabled(capacity, s, Refuse(id)) <==> CloseFirst in run)
  {
    ClosedFromClose(workers, capacity, run);
  }

  lemma {:induction false} ClosedFromClose(workers: nat, capacity: nat, run: seq<Move>)
    requires Exec(workers, capacity, run).Some?
    ensures IsClosed(Exec(workers, capacity, run).value) <==> CloseFirst in run
    decreases |run|
  {
    if run != [] {
      ClosedFromClose(workers, capacity, run[..|run| - 1]);
      assert run == run[..|run| - 1] + [run[|run| - 1]];
    }
  }

  // ---- Close returns ------------------------------------------------------------------

  function Alive(workers: seq<Worker>): nat {
    if workers == [] then 0 else (if workers[0] == Exited then 0 else 1) + Alive(workers[1..])
  }

  lemma {:induction false} AliveUpdate(workers: seq<Worker>, w: nat, phase: Worker)
    requires w < |workers|
    ensures Alive(workers[w := phase]) + (if workers[w] == Exited then 0 else 1)
         == Alive(workers) + (if phase == Exited then 0 else 1)
    decreases |workers|
  {
    if w == 0 {
      assert workers[w := phase][1..] == workers[1..];
    } else {
      assert workers[w := phase][1..] == workers[1..][w - 1 := phase];
      AliveUpdate(workers[1..], w - 1, phase);
    }
  }

  /** What is left to do once Close was called. */
  function Remaining(s: State): nat {
    3 * |s.accepted| + 2 * |s.queue| + |Busy(s.workers)| + Alive(s.workers)
    + match s.closer case Open => 3 case Draining => 2 case Joining => 1 case Closed => 0
  }

  /** After Close was called every step but a refused call uses up some of it. */
  lemma ClosingMakesProgress(capacity: nat, s: State, move: Move)
    requires Enabled(capacity, s, move) && !move.Accept? && !move.Refuse? && !move.CloseAgain?
    ensures Remaining(Apply(capacity, s, move)) < Remaining(s)
  {
    hide Busy, Alive;
    match move
    case Take(w) => TakingMakesProgress(capacity, s, w);
    case Finish(w) => FinishingMakesProgress(capacity, s, w);
    case Stop(w) => StoppingMakesProgress(capacity, s, w);
    case _ =>
  }

  lemma StoppingMakesProgress(capacity: nat, s: State, w: nat)
    requires Enabled(capacity, s, Stop(w))
    ensures Remaining(Apply(capacity, s, Stop(w))) < Remaining(s)
  {
    hide Busy, Alive;
    BusyStop(s.workers, w);
    AliveUpdate(s.workers, w, Exited);
  }

  lemma TakingMakesProgress(capacity: nat, s: State, w: nat)
    requires Enabled(capacity, s, Take(w))
    ensures Remaining(Apply(capacity, s, Take(w))) < Remaining(s)
  {
    hide Busy, Alive;
    BusyTake(s.workers, w, s.queue[0]);
    AliveUpdate(s.workers, w, Running(s.queue[0]));
  }

  lemma FinishingMakesProgress(capacity: nat, s: State, w: nat)
    requires Enabled(capacity, s, Finish(w))
    ensures Remaining(Apply(capacity, s, Finish(w))) < Remaining(s)
  {
    hide Busy, Alive;
    BusyFinish(s.workers, w);
    AliveUpdate(s.workers, w, Idle);
  }

  /** And until Close has returned such a step is there: with jobs that end, Close returns. */
  lemma ClosingCanMove(workers: nat, capacity: nat, run: seq<Move>)
    requires workers > 0 && capacity > 0
    requires Exec(workers, capacity, run).Some? && IsClosed(Exec(workers, capacity, run).value)
    requires Exec(workers, capacity, run).value.closer != Closed
    ensures exists move: Move :: !move.Accept? && !move.Refuse? && !move.CloseAgain?
                           && Enabled(capacity, Exec(workers, capacity, run).value, move)
  {
    InvOverRuns(workers, capacity, run);
    var s := Exec(workers, capacity, run).value;
    if s.inflight > 0 {
      WorkCanMove(workers, capacity, run);
    } else if s.closer == Draining {
      assert Enabled(capacity, s, Drained);
    } else if AllExited(s.workers) {
      assert Enabled(capacity, s, Joined);
    } else {
      var w: nat :| w < |s.workers| && s.workers[w] != Exited;
      NothingLeft(s);
      assert Enabled(capacity, s, Stop(w));
    }
  }
}
