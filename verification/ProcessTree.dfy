/** Descendant termination over a process snapshot: internal/procio/tree_windows.go. */
module ProcessTree {
  type Pid = x: int | 0 <= x < 0x1_0000_0000

  /** Parent to children as the snapshot lists them; stale parent ids can make it cyclic. */
  type Snapshot = map<Pid, seq<Pid>>

  function Children(snap: Snapshot, pid: Pid): seq<Pid> {
    if pid in snap then snap[pid] else []
  }

  lemma ChildrenAreListed(snap: Snapshot, parent: Pid, child: Pid)
    ensures child in Children(snap, parent) <==> parent in snap && child in snap[parent]
  {
  }

  /** Every pid that is somebody's child: what bounds the recursion. */
  function Listed(snap: Snapshot): set<Pid> {
    set parent, child | parent in snap && child in snap[parent] :: child
  }

  ghost predicate Path(snap: Snapshot, p: seq<Pid>) {
    |p| >= 2 && forall i :: 0 < i < |p| ==> p[i] in Children(snap, p[i - 1])
  }

  /** b is a descendant of a: one or more child steps lead from a to b. */
  ghost predicate Reaches(snap: Snapshot, a: Pid, b: Pid) {
    exists p :: Path(snap, p) && p[0] == a && p[|p| - 1] == b
  }

  lemma ChildReached(snap: Snapshot, a: Pid, b: Pid)
    requires b in Children(snap, a)
    ensures Reaches(snap, a, b)
  {
    assert Path(snap, [a, b]);
  }

  lemma ReachesChild(snap: Snapshot, a: Pid, b: Pid, c: Pid)
    requires Reaches(snap, a, b) && c in Children(snap, b)
    ensures Reaches(snap, a, c)
  {
    var p :| Path(snap, p) && p[0] == a && p[|p| - 1] == b;
    assert Path(snap, p + [c]);
  }

  function Elements(s: seq<Pid>): set<Pid> {
    set x | x in s
  }

  ghost predicate Distinct(s: seq<Pid>) {
    forall i, j :: 0 <= i < j < |s| ==> s[i] != s[j]
  }

  /** The processes whose termination reports an error, in the order attempted. */
  function Failing(attempts: seq<Pid>, refusing: set<Pid>): seq<Pid> {
    if attempts == [] then []
    else Failing(attempts[..|attempts| - 1], refusing)
         + if attempts[|attempts| - 1] in refusing then [attempts[|attempts| - 1]] else []
  }

  /** Those attempts that are refused, each as often as it was made. */
  lemma {:induction false} FailingMeans(attempts: seq<Pid>, refusing: set<Pid>, x: Pid)
    ensures multiset(Failing(attempts, refusing))[x] == if x in refusing then multiset(attempts)[x] else 0
    decreases |attempts|
  {
    if attempts != [] {
      var before, last := attempts[..|attempts| - 1], attempts[|attempts| - 1];
      FailingMeans(before, refusing, x);
      assert attempts == before + [last];
    }
  }

  lemma {:induction false} FailingConcat(a: seq<Pid>, b: seq<Pid>, refusing: set<Pid>)
    ensures Failing(a + b, refusing) == Failing(a, refusing) + Failing(b, refusing)
  {
    if b == [] {
      assert a + b == a;
    } else {
      assert (a + b)[..|a + b| - 1] == a + b[..|b| - 1];
      FailingConcat(a, b[..|b| - 1], refusing);
    }
  }

  /** The state between two calls of the walk. `open` holds the pids whose branch is still
      being walked: seen, and not attempted yet. A child is attempted before its parent
      unless it is itself an ancestor of that parent. */
  ghost predicate WalkState(snap: Snapshot, seen: set<Pid>, attempts: seq<Pid>, open: set<Pid>) {
    && seen == open + Elements(attempts) && open !! Elements(attempts)
    && Distinct(attempts)
    && (forall i, c :: 0 <= i < |attempts| && c in Children(snap, attempts[i]) ==> c in seen)
    && (forall i, c :: 0 <= i < |attempts| && c in Children(snap, attempts[i]) ==>
          c in attempts[..i] || Reaches(snap, c, attempts[i]))
  }

  lemma CloseBranch(snap: Snapshot, seen: set<Pid>, attempts: seq<Pid>, open: set<Pid>, pid: Pid)
    requires pid !in open && WalkState(snap, seen, attempts, open + {pid})
    requires forall g :: g in open ==> Reaches(snap, g, pid)
    requires forall c :: c in Children(snap, pid) ==> c in seen
    ensures WalkState(snap, seen, attempts + [pid], open)
  {
    var all := attempts + [pid];
    assert Elements(all) == Elements(attempts) + {pid};
    forall i, c | 0 <= i < |all| && c in Children(snap, all[i])
      ensures c in all[..i] || Reaches(snap, c, all[i])
    {
      if i < |attempts| {
        assert all[..i] == attempts[..i];
      } else if c == pid {
        ChildReached(snap, pid, pid);
      } else {
        assert all[..i] == attempts;
      }
    }
  }

  class Walker {
    const snap: Snapshot
    const refusing: set<Pid>
    var seen: set<Pid>
    var attempts: seq<Pid>

    constructor (snap: Snapshot, refusing: set<Pid>, root: Pid)
      ensures this.snap == snap && this.refusing == refusing
      ensures seen == {root} && attempts == []
    {
      this.snap := snap;
      this.refusing := refusing;
      seen := {root};
      attempts := [];
    }

    /** terminateWindowsBranch: children first, then the process itself; an error of one
        process never stops the walk. */
    method TerminateBranch(pid: Pid, ghost open: set<Pid>) returns (errs: seq<Pid>)
      requires WalkState(snap, seen, attempts, open)
      requires pid in Listed(snap)
      requires forall g :: g in open ==> Reaches(snap, g, pid)
      modifies this
      ensures WalkState(snap, seen, attempts, open) && pid in seen && old(seen) <= seen
      ensures Grown(snap, pid, old(attempts), attempts, true)
      ensures errs == Failing(attempts[|old(attempts)|..], refusing)
      decreases Listed(snap) - seen, 1
    {
      hide WalkState, Grown, Failing, Reaches;
      if pid in seen {
        NothingGrown(snap, pid, attempts, true, refusing);
        return [];
      }
      OpenBranch(snap, seen, attempts, open, pid);
      seen := seen + {pid};
      errs := TerminateChildren(pid, open + {pid});
      CloseBranch(snap, seen, attempts, open, pid);
      GrownByItself(snap, pid, old(attempts), attempts, refusing);
      attempts := attempts + [pid];
      errs := errs + if pid in refusing then [pid] else [];
    }

    /** The loop over one process's children, shared by the root and every branch. */
    method TerminateChildren(pid: Pid, ghost open: set<Pid>) returns (errs: seq<Pid>)
      requires WalkState(snap, seen, attempts, open) && pid in open
      requires forall g :: g in open ==> g == pid || Reaches(snap, g, pid)
      modifies this
      ensures WalkState(snap, seen, attempts, open) && old(seen) <= seen
      ensures forall c :: c in Children(snap, pid) ==> c in seen
      ensures Grown(snap, pid, old(attempts), attempts, false)
      ensures errs == Failing(attempts[|old(attempts)|..], refusing)
      decreases Listed(snap) - seen, 2
    {
      hide WalkState, Grown, Failing, Reaches;
      NothingGrown(snap, pid, attempts, false, refusing);
      errs := [];
      var children := Children(snap, pid);
      for k := 0 to |children|
        invariant WalkState(snap, seen, attempts, open) && old(seen) <= seen
        invariant forall j :: 0 <= j < k ==> children[j] in seen
        invariant Grown(snap, pid, old(attempts), attempts, false) && |old(attempts)| <= |attempts|
        invariant errs == Failing(attempts[|old(attempts)|..], refusing)
      {
        ghost var before := attempts;
        OpenReachChild(snap, open, pid, children[k]);
        var more := TerminateBranch(children[k], open);
        GrownByChild(snap, pid, children[k], old(attempts), before, attempts);
        FailuresAddUp(snap, pid, children[k], old(attempts), before, attempts, refusing);
        errs := errs + more;
      }
    }
  }

  /** attempts extends before by descendants of pid, and by pid itself when inclusive. */
  ghost predicate Grown(snap: Snapshot, pid: Pid, before: seq<Pid>, attempts: seq<Pid>, inclusive: bool) {
    && before <= attempts
    && forall i :: |before| <= i < |attempts| ==>
         (inclusive && attempts[i] == pid) || Reaches(snap, pid, attempts[i])
  }

  lemma NothingGrown(snap: Snapshot, pid: Pid, attempts: seq<Pid>, inclusive: bool, refusing: set<Pid>)
    ensures Grown(snap, pid, attempts, attempts, inclusive) && Failing(attempts[|attempts|..], refusing) == []
  {
  }

  lemma OpenBranch(snap: Snapshot, seen: set<Pid>, attempts: seq<Pid>, open: set<Pid>, pid: Pid)
    requires WalkState(snap, seen, attempts, open) && pid !in seen
    ensures WalkState(snap, seen + {pid}, attempts, open + {pid}) && pid !in open
  {
    hide Reaches;
  }

  lemma GrownByItself(snap: Snapshot, pid: Pid, before: seq<Pid>, attempts: seq<Pid>, refusing: set<Pid>)
    requires Grown(snap, pid, before, attempts, false)
    ensures Grown(snap, pid, before, attempts + [pid], true) && |before| <= |attempts|
    ensures Failing((attempts + [pid])[|before|..], refusing)
         == Failing(attempts[|before|..], refusing) + if pid in refusing then [pid] else []
  {
    hide Reaches;
    var grown := attempts[|before|..];
    assert (attempts + [pid])[|before|..] == grown + [pid] && (grown + [pid])[..|grown|] == grown;
  }

  lemma ReachedThroughChild(snap: Snapshot, pid: Pid, child: Pid, x: Pid)
    requires child in Children(snap, pid) && Reaches(snap, child, x)
    ensures Reaches(snap, pid, x)
  {
    var p :| Path(snap, p) && p[0] == child && p[|p| - 1] == x;
    assert Path(snap, [pid] + p);
  }

  lemma GrownByChild(snap: Snapshot, pid: Pid, child: Pid, start: seq<Pid>, before: seq<Pid>, attempts: seq<Pid>)
    requires child in Children(snap, pid)
    requires Grown(snap, pid, start, before, false) && Grown(snap, child, before, attempts, true)
    ensures Grown(snap, pid, start, attempts, false)
  {
    hide Reaches;
    ChildReached(snap, pid, child);
    forall i | |start| <= i < |attempts| ensures Reaches(snap, pid, attempts[i]) {
      if i < |before| {
        assert attempts[i] == before[i];
      } else if attempts[i] != child {
        ReachedThroughChild(snap, pid, child, attempts[i]);
      }
    }
  }

  lemma FailuresAddUp(snap: Snapshot, pid: Pid, child: Pid, start: seq<Pid>, before: seq<Pid>, attempts: seq<Pid>,
                      refusing: set<Pid>)
    requires Grown(snap, pid, start, before, false) && Grown(snap, child, before, attempts, true)
    ensures start <= before <= attempts
    ensures Failing(attempts[|start|..], refusing)
         == Failing(before[|start|..], refusing) + Failing(attempts[|before|..], refusing)
  {
    hide Failing;
    assert attempts[|start|..] == before[|start|..] + attempts[|before|..];
    FailingConcat(before[|start|..], attempts[|before|..], refusing);
  }

  lemma OpenReachChild(snap: Snapshot, open: set<Pid>, pid: Pid, child: Pid)
    requires forall g :: g in open ==> g == pid || Reaches(snap, g, pid)
    requires child in Children(snap, pid)
    ensures forall g :: g in open ==> Reaches(snap, g, child)
    ensures child in Listed(snap)
  {
    ChildReached(snap, pid, child);
    forall g | g in open && g != pid ensures Reaches(snap, g, child) {
      ReachesChild(snap, g, pid, child);
    }
    assert pid in snap && child in snap[pid];
  }

  /** What the finished walk guarantees about the pids it attempted, in order. */
  ghost predicate Attempted(snap: Snapshot, root: Pid, attempts: seq<Pid>) {
    && Distinct(attempts)
    && (forall x :: x in attempts <==> x != root && Reaches(snap, root, x))
    && (forall i, c :: 0 <= i < |attempts| && c in Children(snap, attempts[i]) ==>
          c in attempts[..i] || Reaches(snap, c, attempts[i]))
  }

  lemma {:induction false} ClosedUnderReach(snap: Snapshot, closed: set<Pid>, p: seq<Pid>)
    requires Path(snap, p) && p[0] in closed
    requires forall x, c :: x in closed && c in Children(snap, x) ==> c in closed
    ensures p[|p| - 1] in closed
  {
    assert p[1] in closed;
    if |p| > 2 {
      assert Path(snap, p[1..]);
      ClosedUnderReach(snap, closed, p[1..]);
    }
  }

  lemma WalkReachesAll(snap: Snapshot, root: Pid, seen: set<Pid>, attempts: seq<Pid>)
    requires WalkState(snap, seen, attempts, {root})
    requires forall c :: c in Children(snap, root) ==> c in seen
    requires forall x :: x in attempts ==> Reaches(snap, root, x)
    ensures Attempted(snap, root, attempts)
  {
    forall x | x != root && Reaches(snap, root, x) ensures x in attempts {
      var p :| Path(snap, p) && p[0] == root && p[|p| - 1] == x;
      forall y, c | y in seen && c in Children(snap, y) ensures c in seen {
        if y != root {
          var i :| 0 <= i < |attempts| && attempts[i] == y;
        }
      }
      ClosedUnderReach(snap, seen, p);
    }
  }

  /** terminateWindowsDescendants: terminates for every snapshot, cyclic or not, and
      attempts each descendant of the root exactly once and never the root, whatever
      individual terminations report. */
  method TerminateDescendants(snap: Snapshot, pid: Pid, refusing: set<Pid>)
      returns (attempts: seq<Pid>, errs: seq<Pid>)
    ensures pid == 0 ==> attempts == []
    ensures pid != 0 ==> Attempted(snap, pid, attempts)
    ensures errs == Failing(attempts, refusing)
  {
    if |snap| == 0 || pid == 0 {
      if |snap| == 0 {
        NothingReached(snap, pid);
      }
      return [], [];
    }
    var walker := new Walker(snap, refusing, pid);
    errs := walker.TerminateChildren(pid, {pid});
    attempts := walker.attempts;
    WalkReachesAll(snap, pid, walker.seen, attempts);
  }

  lemma NothingReached(snap: Snapshot, root: Pid)
    requires |snap| == 0
    ensures forall x :: !Reaches(snap, root, x)
  {
    forall p ensures !Path(snap, p) {
      if |p| >= 2 {
        assert p[1] !in Children(snap, p[0]);
      }
    }
  }

  /** On a snapshot without cycles below the root, a process is attempted only after all
      its descendants. */
  lemma {:induction false} DescendantsFirst(snap: Snapshot, root: Pid, attempts: seq<Pid>, i: nat, p: seq<Pid>)
    requires Attempted(snap, root, attempts) && i < |attempts|
    requires forall x :: Reaches(snap, root, x) ==> !Reaches(snap, x, x)
    requires Path(snap, p) && p[0] == attempts[i]
    ensures p[|p| - 1] in attempts[..i]
    decreases |p|
  {
    var child := p[1];
    NotBackwards(snap, root, attempts[i], child);
    var j :| 0 <= j < i && attempts[j] == child;
    if |p| > 2 {
      assert Path(snap, p[1..]);
      DescendantsFirst(snap, root, attempts, j, p[1..]);
    }
  }

  lemma DescendantsBeforeAncestors(snap: Snapshot, root: Pid, attempts: seq<Pid>)
    requires Attempted(snap, root, attempts)
    requires forall x :: Reaches(snap, root, x) ==> !Reaches(snap, x, x)
    ensures forall i, d :: 0 <= i < |attempts| && Reaches(snap, attempts[i], d) ==> d in attempts[..i]
  {
    forall i, d | 0 <= i < |attempts| && Reaches(snap, attempts[i], d) ensures d in attempts[..i] {
      var p :| Path(snap, p) && p[0] == attempts[i] && p[|p| - 1] == d;
      DescendantsFirst(snap, root, attempts, i, p);
    }
  }

  lemma NotBackwards(snap: Snapshot, root: Pid, x: Pid, child: Pid)
    requires Reaches(snap, root, x) && child in Children(snap, x)
    requires forall y :: Reaches(snap, root, y) ==> !Reaches(snap, y, y)
    ensures !Reaches(snap, child, x)
  {
    if Reaches(snap, child, x) {
      ReachesChild(snap, child, x, child);
      ReachesChild(snap, root, x, child);
    }
  }
}
