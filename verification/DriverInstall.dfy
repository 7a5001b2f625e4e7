/** installPayload of internal/devices/devices.go: activate a staged driver with rollback,
    each filesystem step of which may fail. */
module DriverInstall {
  import opened Wrappers

  /** A driver directory with the checksum of its payload, whole or partly removed. */
  datatype Tree = Whole(sum: nat) | Broken(sum: nat)

  /** What is on disk: the driver's path, the trees left in backup directories, and the
      marker's checksum. */
  datatype Site = Site(dest: Option<Tree>, kept: multiset<Tree>, marker: Option<nat>)

  datatype State = Skipped | Installed | Failed

  /** What happens to one step. Partly is a removal that stops half-way or a marker left
      empty; Late is a marker written whole by a write that then reports an error. */
  datatype Outcome = Ok | Fail | Partly | Late

  /** What each step of one install meets, in the order of the source; a step that is not
      reached meets nothing. */
  datatype Plan = Plan(
    look: Outcome,
    stage: Outcome,
    makeBackup: Outcome,
    inspect: Outcome,
    setAside: Outcome,
    activate: Outcome,
    mark: Outcome,
    dropActive: Outcome,
    putBack: Outcome,
    dropBackup: Outcome,
    dropStage: Outcome)

  const QUIET := Plan(Ok, Ok, Ok, Ok, Ok, Ok, Ok, Ok, Ok, Ok, Ok)

  /** What the skip test relies on: the marker names the whole payload at the path. */
  ghost predicate Consistent(site: Site) {
    site.marker.Some? && site.dest.Some? ==> site.dest == Some(Whole(site.marker.value))
  }

  predicate Skips(plan: Plan, site: Site, sum: nat) {
    plan.look == Ok && site.marker == Some(sum) && site.dest.Some?
  }

  /** The new payload is at the driver's path and its marker is to be written. */
  predicate Activates(plan: Plan, site: Site, sum: nat) {
    && !Skips(plan, site, sum)
    && plan.stage == Ok && plan.makeBackup == Ok && plan.inspect == Ok
    && (site.dest.Some? ==> plan.setAside == Ok) && plan.activate == Ok
  }

  /** The failures after which the marker names something other than the whole payload at
      the path: it was written late, and the rollback put another driver back or stopped
      inside the removal; or it was not written, and the rollback left the new payload,
      whole or in part, under the marker of another. */
  predicate Spoils(plan: Plan, site: Site, sum: nat) {
    && Activates(plan, site, sum)
    && match plan.mark
       case Late =>
         || plan.dropActive == Partly
         || (plan.dropActive == Ok && plan.putBack == Ok && site.dest.Some? && site.dest != Some(Whole(sum)))
       case Fail =>
         && plan.dropActive != Ok && site.marker.Some?
         && (plan.dropActive == Partly || site.marker != Some(sum))
       case _ => false
  }

  class Installer {
    var site: Site

    constructor (site: Site)
      ensures this.site == site
    {
      this.site := site;
    }

    /** Rename of a tree to the driver's path, where nothing is. */
    method MoveToDest(tree: Tree, met: Outcome) returns (ok: bool)
      modifies this
      ensures ok == (met == Ok)
      ensures site == if ok then old(site).(dest := Some(tree)) else old(site)
    {
      ok := met == Ok;
      if ok { site := site.(dest := Some(tree)); }
    }

    /** backupPayload: the previous driver is moved aside; on error nothing has moved. */
    method Backup(plan: Plan) returns (ok: bool, previous: Option<Tree>)
      modifies this
      ensures ok <==> plan.makeBackup == Ok && plan.inspect == Ok && (old(site.dest).Some? ==> plan.setAside == Ok)
      ensures ok ==> previous == old(site.dest) && site == old(site).(dest := None)
      ensures !ok ==> site == old(site)
    {
      if plan.makeBackup != Ok { return false, None; }
      if plan.inspect != Ok { return false, None; }
      if site.dest == None { return true, None; }
      if plan.setAside != Ok { return false, None; }
      previous := site.dest;
      site := site.(dest := None);
      ok := true;
    }

    /** restorePayload. It succeeds exactly when the path was cleared and what was there
        before, if anything, could be moved back. */
    method Restore(previous: Option<Tree>, dropActive: bool, plan: Plan) returns (ok: bool)
      requires dropActive <==> site.dest.Some?
      modifies this
      ensures ok <==> (dropActive ==> plan.dropActive == Ok) && (previous.Some? ==> plan.putBack == Ok)
      ensures site == old(site).(dest := site.dest)
      ensures ok ==> site.dest == previous
      ensures !ok && dropActive && plan.dropActive == Partly ==> site.dest == Some(Broken(old(site.dest).value.sum))
      ensures !ok && dropActive && plan.dropActive in {Fail, Late} ==> site.dest == old(site.dest)
      ensures !ok && (dropActive ==> plan.dropActive == Ok) ==> site.dest == None
    {
      if dropActive {
        match plan.dropActive
        case Ok => site := site.(dest := None);
        case Partly =>
          site := site.(dest := Some(Broken(site.dest.value.sum)));
          return false;
        case _ => return false;
      }
      if previous == None { return true; }
      ok := MoveToDest(previous.value, plan.putBack);
    }

    /** The deferred removal of the backup directory. */
    method RemoveBackup(previous: Option<Tree>, met: Outcome) returns (ok: bool)
      modifies this
      ensures ok == (met == Ok)
      ensures site.dest == old(site.dest) && site.marker == old(site.marker) && old(site.kept) <= site.kept
      ensures ok || previous == None ==> site == old(site)
    {
      ok := met == Ok;
      if !ok && previous.Some? {
        site := site.(kept :=
          site.kept + multiset{if met == Partly then Broken(previous.value.sum) else previous.value});
      }
    }

    /** Install the payload with the given checksum. Whatever fails, the previous driver is
        at its path, or kept in its backup, or has been replaced by the whole new one with
        its marker written. clean says that no cleanup failed: then a failure has put the
        driver back. The marker can be trusted afterwards unless the failure spoils it. */
    method InstallPayload(sum: nat, plan: Plan) returns (state: State, clean: bool)
      modifies this
      ensures state == Skipped <==> Skips(plan, old(site), sum)
      ensures state == Installed <==> Activates(plan, old(site), sum) && plan.mark == Ok
      ensures state == Skipped ==> site == old(site)
      ensures state == Installed ==> site.dest == Some(Whole(sum)) && site.marker == Some(sum)
      ensures state == Failed ==>
                && site.marker == Marked(plan, old(site), sum)
                && (site.dest == old(site.dest)
                    || (old(site.dest).Some? ==> old(site.dest).value in site.kept))
      ensures Activates(plan, old(site), sum) && plan.mark != Ok ==>
                && site.dest == Left(plan, old(site.dest), sum)
                && (clean <==> PutsBack(plan, old(site.dest)) && plan.dropBackup == plan.dropStage == Ok)
      ensures old(site.kept) <= site.kept
      ensures state == Failed && clean ==> site == old(site).(marker := site.marker)
      ensures plan == QUIET ==> clean && site.kept == old(site.kept)
      ensures old(Consistent(site)) ==> (Consistent(site) <==> !Spoils(plan, old(site), sum))
    {
      if plan.look == Ok && site.marker == Some(sum) && site.dest.Some? { return Skipped, true; }
      if plan.stage != Ok { return Failed, true; }
      var backed, previous := Backup(plan);
      if backed {
        state, clean := Activate(sum, previous, plan);
      } else {
        state, clean := Failed, true;
      }
      clean := clean && plan.dropStage == Ok;
    }

    /** From the moment the previous driver, if any, is in its backup. */
    method Activate(sum: nat, previous: Option<Tree>, plan: Plan) returns (state: State, clean: bool)
      requires site.dest == None
      modifies this
      ensures state == if plan.activate == Ok && plan.mark == Ok then Installed else Failed
      ensures state == Installed ==> site.dest == Some(Whole(sum)) && site.marker == Some(sum)
      ensures state == Failed ==>
                && site.marker
                   == (if plan.activate == Ok then Written(plan.mark, old(site.marker), sum) else old(site.marker))
                && (site.dest == previous || (previous.Some? ==> previous.value in site.kept))
      ensures plan.activate != Ok ==> site.dest == previous || site.dest == None
      ensures plan.activate == Ok && plan.mark != Ok ==> site.dest == Left(plan, previous, sum)
      ensures plan.activate == Ok && plan.mark != Ok ==> (clean <==> PutsBack(plan, previous) && plan.dropBackup == Ok)
      ensures old(site.kept) <= site.kept
      ensures state == Failed && clean ==> site == old(site).(dest := previous, marker := site.marker)
      ensures plan == QUIET ==> clean && site.kept == old(site.kept)
    {
      var activated := MoveToDest(Whole(sum), plan.activate);
      if !activated {
        var restored := Restore(previous, false, plan);
        clean := Settle(previous, restored, false, plan);
        return Failed, clean;
      }
      if plan.mark != Ok {
        if plan.mark == Partly { site := site.(marker := None); }
        if plan.mark == Late { site := site.(marker := Some(sum)); }
        var restored := Restore(previous, true, plan);
        clean := Settle(previous, restored, false, plan);
        return Failed, clean;
      }
      site := site.(marker := Some(sum));
      clean := Settle(previous, true, true, plan);
      state := Installed;
    }

    /** The deferred part: the backup is dropped unless a restore left the only copy there. */
    method Settle(previous: Option<Tree>, restored: bool, replaced: bool, plan: Plan) returns (clean: bool)
      modifies this
      ensures site.dest == old(site.dest) && site.marker == old(site.marker) && old(site.kept) <= site.kept
      ensures clean <==> restored && plan.dropBackup == Ok
      ensures !restored && previous.Some? ==> previous.value in site.kept
      ensures clean ==> site == old(site)
    {
      if restored {
        clean := RemoveBackup(if replaced then previous else None, plan.dropBackup);
      } else {
        clean := false;
        if previous.Some? { site := site.(kept := site.kept + multiset{previous.value}); }
      }
    }

    /** Any number of installs, failing anywhere: a whole driver is never lost. */
    method InstallAll(sums: seq<nat>, plans: seq<Plan>)
      requires |plans| == |sums|
      modifies this
      ensures old(SomeWhole(site)) ==> SomeWhole(site)
    {
      for k := 0 to |sums|
        invariant old(SomeWhole(site)) ==> SomeWhole(site)
      {
        ghost var before := site;
        var state, clean := InstallPayload(sums[k], plans[k]);
        if SomeWhole(before) { StillWhole(before, site, sums[k]); }
      }
    }

    /** An install that may fail, and then one that does not: the second is skipped over
        something other than its payload exactly when the first spoiled the marker in its
        name. */
    method InstallAgain(sum: nat, plan: Plan, again: nat) returns (first: State, second: State)
      requires Consistent(site)
      modifies this
      ensures second == Skipped && site.dest != Some(Whole(again)) <==>
                Spoils(plan, old(site), sum) && Marked(plan, old(site), sum) == Some(again)
      ensures second == Installed ==> site.dest == Some(Whole(again)) && site.marker == Some(again)
      ensures second != Failed
    {
      var cleanFirst, cleanSecond;
      first, cleanFirst := InstallPayload(sum, plan);
      second, cleanSecond := InstallPayload(again, QUIET);
    }
  }

  /** The marker after its write met the given outcome. */
  function Written(met: Outcome, marker: Option<nat>, sum: nat): Option<nat> {
    match met
    case Fail => marker
    case Partly => None
    case _ => Some(sum)
  }

  /** The marker after an install that was not skipped. */
  function Marked(plan: Plan, site: Site, sum: nat): Option<nat> {
    if Activates(plan, site, sum) then Written(plan.mark, site.marker, sum) else site.marker
  }

  /** A rollback after a marker error succeeds. */
  predicate PutsBack(plan: Plan, previous: Option<Tree>) {
    plan.dropActive == Ok && (previous.Some? ==> plan.putBack == Ok)
  }

  /** What such a rollback leaves at the driver's path. */
  function Left(plan: Plan, previous: Option<Tree>, sum: nat): Option<Tree> {
    match plan.dropActive
    case Ok => if PutsBack(plan, previous) then previous else None
    case Partly => Some(Broken(sum))
    case _ => Some(Whole(sum))
  }

  /** One late marker error with the rollback done: the old driver stays, and the next
      install of the new one is skipped. */
  method LateMarker(installer: Installer, a: nat, b: nat) returns (first: State, second: State)
    requires a != b && installer.site == Site(Some(Whole(a)), multiset{}, Some(a))
    modifies installer
    ensures first == Failed && second == Skipped
    ensures installer.site == Site(Some(Whole(a)), multiset{}, Some(b))
  {
    var clean;
    first, clean := installer.InstallPayload(b, QUIET.(mark := Late));
    second, clean := installer.InstallPayload(b, QUIET);
  }

  /** The same with the removal of the new payload cut short: what is left of it passes for
      the whole. */
  method HalfRemoved(installer: Installer, a: nat, b: nat) returns (first: State, second: State)
    requires a != b && installer.site == Site(Some(Whole(a)), multiset{}, Some(a))
    modifies installer
    ensures first == Failed && second == Skipped && installer.site.dest == Some(Broken(b))
  {
    var clean;
    first, clean := installer.InstallPayload(b, QUIET.(mark := Late, dropActive := Partly));
    second, clean := installer.InstallPayload(b, QUIET);
  }

  /** As the condition says: from a driver installed and recorded, a late marker error, with
      the rollback whole or cut short, spoils the marker in the name of the new payload. */
  lemma LateMarkerSpoils(a: nat, b: nat, dropActive: Outcome, kept: multiset<Tree>)
    requires a != b && dropActive in {Ok, Partly}
    ensures var plan := QUIET.(mark := Late, dropActive := dropActive);
            var site := Site(Some(Whole(a)), kept, Some(a));
            Consistent(site) && Spoils(plan, site, b) && Marked(plan, site, b) == Some(b)
  {
  }

  ghost predicate IsWhole(site: Site, sum: nat) { site.dest == Some(Whole(sum)) || Whole(sum) in site.kept }

  ghost predicate SomeWhole(site: Site) { exists sum: nat :: IsWhole(site, sum) }

  lemma StillWhole(before: Site, after: Site, sum: nat)
    requires SomeWhole(before) && before.kept <= after.kept
    requires after.dest == before.dest || after.dest == Some(Whole(sum))
             || (before.dest.Some? ==> before.dest.value in after.kept)
    ensures SomeWhole(after)
  {
    var s: nat :| IsWhole(before, s);
    assert Whole(s) in before.kept ==> Whole(s) in after.kept;
    assert IsWhole(after, s) || IsWhole(after, sum);
  }
}
