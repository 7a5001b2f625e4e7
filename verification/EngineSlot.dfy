/** The single operation slot of internal/control/engine.go: begin, Progress, finish and
    Shutdown as atomic steps under the mutex. An operation is named by its begin call. */
module EngineSlot {
  import opened Wrappers

  datatype Phase = Download | Verify | Install | Done | Error

  /** What the dashboard polls. */
  datatype Operation = Operation(id: nat, phase: Phase)

  /** Shutdown: not called, joining, returned nil. */
  datatype Join = Open | Joining | Joined

  /** running are the operations whose body runs, ending those that have released the slot
      and still have to leave the wait group; begun, refused and failed (the operations whose body
      returned an error) are history. */
  datatype State = State(
    op: Option<Operation>,
    opActive: bool,
    ops: int,
    join: Join,
    running: set<nat>,
    ending: set<nat>,
    begun: set<nat>,
    refused: set<nat>,
    failed: set<nat>)

  const START := State(None, false, 0, Open, {}, {}, {}, {}, {})

  /** A progress report comes from any goroutine at any time, after its operation too; the
      installer reports no error phase. */
  datatype Move =
    | Begin(id: nat) | Progress(phase: Phase) | Finish(id: nat, failed: bool) | Leave(id: nat)
    | Shutdown | Join

  predicate Halted(s: State) { s.join != Open }

  predicate Enabled(s: State, move: Move) {
    match move
    case Begin(id) => id !in s.begun && id !in s.refused
    case Progress(phase) => !phase.Error?
    case Finish(id, _) => id in s.running
    case Leave(id) => id in s.ending
    case Shutdown => true
    case Join => s.join == Joining && s.ops == 0
  }

  function Apply(s: State, move: Move): State
    requires Enabled(s, move)
  {
    match move
    case Begin(id) =>
      if Halted(s) || s.opActive then s.(refused := s.refused + {id})
      else s.(op := Some(Operation(id, Download)), opActive := true, ops := s.ops + 1,
              running := s.running + {id}, begun := s.begun + {id})
    case Progress(phase) =>
      if phase == Done || !s.opActive || s.op.None? then s
      else s.(op := Some(s.op.value.(phase := phase)))
    case Finish(id, failed) =>
      s.(op := if s.op.Some? then Some(s.op.value.(phase := if failed then Error else Done)) else None,
         opActive := false, running := s.running - {id}, ending := s.ending + {id},
         failed := if failed then s.failed + {id} else s.failed)
    case Leave(id) => s.(ops := s.ops - 1, ending := s.ending - {id})
    case Shutdown => if Halted(s) then s else s.(join := Joining)
    case Join => s.(join := Joined)
  }

  function Exec(run: seq<Move>): Option<State> {
    if run == [] then Some(START) else
      var before := Exec(run[..|run| - 1]);
      if before.Some? && Enabled(before.value, run[|run| - 1])
      then Some(Apply(before.value, run[|run| - 1])) else None
  }

  /** The slot's operation is the one that runs, the polled phase is terminal exactly when
      the slot is free, and the wait group counts what has not left it. */
  ghost predicate Inv(s: State) {
    && (if s.opActive then s.op.Some? && s.running == {s.op.value.id} else s.running == {})
    && (s.op.Some? ==> (s.op.value.phase.Done? || s.op.value.phase.Error? <==> !s.opActive))
    && s.ops == |s.running| + |s.ending|
    && s.running !! s.ending && s.running <= s.begun && s.ending <= s.begun
    && (s.join == Joined ==> s.ops == 0)
    && (s.op.Some? ==> s.op.value.id in s.begun)
    && s.failed <= s.begun && s.failed !! s.running
    && (s.op.Some? && !s.opActive ==> (s.op.value.phase.Error? <==> s.op.value.id in s.failed))
  }

  lemma StepKeepsInv(s: State, move: Move)
    requires Inv(s) && Enabled(s, move)
    ensures Inv(Apply(s, move))
  {
    match move
    case Begin(id) => BeginKeepsInv(s, id);
    case Finish(id, failed) => FinishKeepsInv(s, id, failed);
    case Leave(id) => LeaveKeepsInv(s, id);
    case _ =>
  }

  lemma BeginKeepsInv(s: State, id: nat)
    requires Inv(s) && Enabled(s, Begin(id))
    ensures Inv(Apply(s, Begin(id)))
  {
  }

  lemma FinishKeepsInv(s: State, id: nat, failed: bool)
    requires Inv(s) && Enabled(s, Finish(id, failed))
    ensures Inv(Apply(s, Finish(id, failed)))
  {
  }

  lemma LeaveKeepsInv(s: State, id: nat)
    requires Inv(s) && Enabled(s, Leave(id))
    ensures Inv(Apply(s, Leave(id)))
  {
  }

  lemma {:induction false} InvOverRuns(run: seq<Move>)
    requires Exec(run).Some?
    ensures Inv(Exec(run).value)
    decreases |run|
  {
    if run != [] {
      InvOverRuns(run[..|run| - 1]);
      StepKeepsInv(Exec(run[..|run| - 1]).value, run[|run| - 1]);
    }
  }

  /** In every interleaving at most one operation runs, the polled phase is terminal exactly
      when none does and an error exactly when the operation failed, and when Shutdown has
      returned nil nothing runs or is still ending. */
  lemma OneOperation(run: seq<Move>)
    requires Exec(run).Some?
    ensures var s := Exec(run).value;
            && (forall a, b :: a in s.running && b in s.running ==> a == b)
            && (s.op.Some? ==> (s.op.value.phase.Done? || s.op.value.phase.Error? <==> s.running == {}))
            && (s.op.Some? && s.running == {} ==> (s.op.value.phase.Error? <==> s.op.value.id in s.failed))
            && s.ops == |s.running + s.ending|
            && (s.join == Joined ==> s.running == {} && s.ending == {})
  {
    InvOverRuns(run);
  }

  lemma {:induction false} HaltedFromShutdown(run: seq<Move>)
    requires Exec(run).Some?
    ensures Halted(Exec(run).value) <==> Shutdown in run
    decreases |run|
  {
    if run != [] {
      HaltedFromShutdown(run[..|run| - 1]);
      assert run == run[..|run| - 1] + [run[|run| - 1]];
    }
  }

  /** An operation begins exactly when none runs and Shutdown was not called: then it is the
      one polled, downloading, and counted; otherwise nothing but the refusal happens. */
  lemma BeginsIfFree(run: seq<Move>, id: nat)
    requires Exec(run).Some? && Enabled(Exec(run).value, Begin(id))
    ensures var s := Exec(run).value; var t := Apply(s, Begin(id));
            if s.running == {} && Shutdown !in run
            then t.running == {id} && t.op == Some(Operation(id, Download)) && t.ops == s.ops + 1
            else t == s.(refused := s.refused + {id})
  {
    InvOverRuns(run);
    HaltedFromShutdown(run);
  }

  /** A report of a phase in progress shows as the polled phase of the operation that runs,
      and as nothing when none does. */
  lemma ReportShows(run: seq<Move>, phase: Phase)
    requires Exec(run).Some? && phase in {Download, Verify, Install}
    ensures Enabled(Exec(run).value, Progress(phase))
    ensures var s := Exec(run).value; var t := Apply(s, Progress(phase));
            && t == s.(op := t.op)
            && (forall id :: s.running == {id} ==> t.op == Some(Operation(id, phase)))
            && (s.running == {} ==> t.op == s.op)
  {
    InvOverRuns(run);
    var s := Exec(run).value;
    forall id | s.running == {id} ensures s.op.Some? && s.op.value.id == id {
      assert id in s.running;
    }
  }

  /** When an operation ends its result is polled until the next begins, and the slot is
      free. */
  lemma FinishFrees(run: seq<Move>, id: nat, failed: bool)
    requires Exec(run).Some? && Enabled(Exec(run).value, Finish(id, failed))
    ensures var t := Apply(Exec(run).value, Finish(id, failed));
            t.op == Some(Operation(id, if failed then Error else Done)) && t.running == {} && id in t.ending
  {
    InvOverRuns(run);
  }

  /** After halt the join cannot gain work: what has begun stays what it was, and the wait
      group never rises. */
  lemma {:induction false} HaltIsFinal(run: seq<Move>, rest: seq<Move>)
    requires Exec(run).Some? && Halted(Exec(run).value) && Exec(run + rest).Some?
    ensures var s, t := Exec(run).value, Exec(run + rest).value;
            Halted(t) && t.begun == s.begun && t.ops <= s.ops && t.running <= s.running
    decreases |rest|
  {
    if rest == [] {
      assert run + rest == run;
    } else {
      var all := run + rest;
      assert all[..|all| - 1] == run + rest[..|rest| - 1];
      hide Enabled, Apply;
      HaltIsFinal(run, rest[..|rest| - 1]);
      HaltStays(Exec(all[..|all| - 1]).value, all[|all| - 1]);
    }
  }

  lemma HaltStays(s: State, move: Move)
    requires Halted(s) && Enabled(s, move)
    ensures var t := Apply(s, move); Halted(t) && t.begun == s.begun && t.ops <= s.ops && t.running <= s.running
  {
  }

  /** And it ends: while Shutdown is joining, an operation can finish or leave, or the join
      can return. */
  lemma JoinCanMove(run: seq<Move>)
    requires Exec(run).Some? && Exec(run).value.join == Joining
    ensures exists move: Move :: (move.Finish? || move.Leave? || move.Join?) && Enabled(Exec(run).value, move)
  {
    InvOverRuns(run);
    var s := Exec(run).value;
    if id :| id in s.running {
      assert Enabled(s, Finish(id, false));
    } else if id :| id in s.ending {
      assert Enabled(s, Leave(id));
    } else {
      assert s.running == {} && s.ending == {};
      assert Enabled(s, Join);
    }
  }
}
