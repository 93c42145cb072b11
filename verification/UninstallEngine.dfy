/** The engine that runs the uninstall protocol step by step, with power for so many steps. */
module UninstallEngines {
  import opened Prelude
  import opened Journals
  import opened Trees
  import opened Walks
  import opened Uninstall

  datatype Ending = Finished(outcome: Outcome) | Stopped

  predicate EndsAs(s: Site, power: nat, walk: Walk, s': Site, left: nat, ending: Ending) {
    && Took(s, power, walk.steps, s', left, ending != Stopped)
    && (ending != Stopped ==> ending == Finished(walk.outcome))
  }

  class UninstallEngine {
    var site: Site
    var power: nat

    constructor (site: Site, power: nat)
      ensures this.site == site && this.power == power
    {
      this.site := site;
      this.power := power;
    }

    /** One durable step, if there is power left for it. */
    method Step(next: Site) returns (ok: bool)
      modifies this
      ensures Took(old(site), old(power), [next], site, power, ok)
    {
      ok := power > 0;
      if ok {
        site := next;
        power := power - 1;
      }
    }

    method TwoSteps(first: Site, second: Site) returns (ok: bool)
      modifies this
      ensures Took(old(site), old(power), [first, second], site, power, ok)
    {
      ok := Step(first);
      ghost var s1, p1, ok1 := site, power, ok;
      if ok {
        ok := Step(second);
      }
      TookBoth(old(site), old(power), [first], s1, p1, ok1, [second], site, power, ok);
      assert [first] + [second] == [first, second];
    }

    method PersistJournal(phase: Phase, wide: bool) returns (ok: bool)
      modifies this
      ensures Took(old(site), old(power), AppendRecord(old(site), phase, wide), site, power, ok)
    {
      hide Took, AppendSteps, Append;
      ghost var s, p, steps := site, power, AppendRecord(site, phase, wide);
      var files := AppendSteps(site.journal, phase, wide);
      var i := 0;
      ok := true;
      TookNothing(s, p, steps);
      while ok && i < |files|
        invariant 0 <= i <= |files| == |steps|
        invariant Took(s, p, steps[..i], site, power, ok)
        invariant ok ==> site == s.(journal := site.journal)
        decreases |files| - i
      {
        ghost var s1, p1 := site, power;
        ok := Step(site.(journal := Some(files[i])));
        TookOneMore(s, p, steps, i, s1, p1, site, power, ok);
        TookToTheEnd(s1, p1, steps[i], site, power, ok);
        i := i + 1;
      }
      TookInAll(s, p, steps, i, site, power, ok);
    }

    /** `begin`: nothing to move is not an error, and opens no journal. */
    method BeginUninstall(wide: bool) returns (isOpen: bool, ok: bool)
      modifies this
      ensures Took(old(site), old(power), Begin(old(site), wide), site, power, ok)
      ensures isOpen == old(site).target.Some?
    {
      isOpen, ok := site.target.Some?, true;
      if !isOpen {
        return;
      }
      ghost var s, p, intent := site, power, AppendRecord(site, Intent, wide);
      ghost var moved := End(s, intent).(target := None, quarantine := s.target);
      ok := PersistJournal(Intent, wide);
      ghost var s1, p1, ok1 := site, power, ok;
      if ok {
        ok := Step(site.(target := None, quarantine := site.target));
      }
      TookBoth(s, p, intent, s1, p1, ok1, [moved], site, power, ok);
      ghost var s2, p2, ok2 := site, power, ok;
      if ok {
        ok := PersistJournal(Moved, wide);
      }
      TookBoth(s, p, intent + [moved], s2, p2, ok2, AppendRecord(moved, Moved, wide), site, power, ok);
    }

    method FinalizeUninstall(debris: Tree) returns (ending: Ending)
      modifies this
      ensures EndsAs(old(site), old(power), Finalize(old(site), debris), site, power, ending)
    {
      if site.journal.None? {
        return Finished(InvalidJournal);
      }
      var reading := ReadLatest(site.journal.value.lines);
      if !reading.Latest? {
        return Finished(InvalidJournal);
      }
      if site.target.Some? {
        return Finished(if site.quarantine.Some? then AmbiguousFilesystemState else CatalogCommitNotReflected);
      }
      ghost var s, p := site, power;
      ghost var removed := if s.quarantine.None? then []
                           else [s.(quarantine := Some(debris)), s.(quarantine := None)];
      var ok := true;
      if site.quarantine.Some? {
        ok := TwoSteps(site.(quarantine := Some(debris)), site.(quarantine := None));
      }
      ghost var s1, p1, ok1 := site, power, ok;
      if ok {
        ok := Step(site.(journal := None));
      }
      TookBoth(s, p, removed, s1, p1, ok1, [End(s, removed).(journal := None)], site, power, ok);
      return if ok then Finished(Finalized) else Stopped;
    }

    method RollBackUninstall() returns (ending: Ending)
      modifies this
      ensures EndsAs(old(site), old(power), RollBack(old(site)), site, power, ending)
    {
      if site.journal.None? {
        return Finished(InvalidJournal);
      }
      var reading := ReadLatest(site.journal.value.lines);
      if !reading.Latest? {
        return Finished(InvalidJournal);
      }
      var ok: bool;
      match (site.target.Some?, site.quarantine.Some?) {
        case (false, true) =>
          ok := TwoSteps(site.(target := site.quarantine, quarantine := None),
                         site.(target := site.quarantine, quarantine := None, journal := None));
          return if ok then Finished(RolledBack) else Stopped;
        case (true, false) =>
          ok := Step(site.(journal := None));
          return if ok then Finished(RolledBack) else Stopped;
        case (true, true) =>
          return Finished(AmbiguousFilesystemState);
        case (false, false) =>
          return Finished(UnrecoverableTransaction);
      }
    }

    /** `recover_pending` and the decision by catalog row, for one journal. */
    method ReconcileRecovery(debris: Tree) returns (ending: Ending)
      modifies this
      ensures EndsAs(old(site), old(power), Reconcile(old(site), debris), site, power, ending)
    {
      if site.journal.None? {
        return Finished(NothingOpen);
      }
      var reading := ReadLatest(site.journal.value.lines);
      if !reading.Latest? {
        return Finished(InvalidJournal);
      }
      match (site.target.Some?, site.quarantine.Some?) {
        case (true, false) =>
          if reading.value == Intent {
            var ok := Step(site.(journal := None));
            return if ok then Finished(CleanedIntent) else Stopped;
          }
          return Finished(AmbiguousFilesystemState);
        case (true, true) =>
          return Finished(AmbiguousFilesystemState);
        case (false, false) =>
          if reading.value != Moved {
            return Finished(AmbiguousFilesystemState);
          }
        case (false, true) =>
      }
      if site.row.Some? {
        ending := RollBackUninstall();
      } else {
        ending := FinalizeUninstall(debris);
      }
    }

    /** The uninstall command over filesystem and catalog. */
    method UninstallSkill(wide: bool, catalogFails: bool, debris: Tree) returns (ok: bool)
      modifies this
      ensures Took(old(site), old(power), Command(old(site), wide, catalogFails, debris), site, power, ok)
      ensures AtRest(old(site)) && old(power) >= MANY_STEPS ==> ok
      ensures AtRest(old(site)) && ok && old(site).row.Some? && !catalogFails ==> site == Site(None, None, None, None)
      ensures AtRest(old(site)) && ok && (old(site).row.None? || catalogFails) ==> site == old(site)
    {
      if AtRest(site) {
        CommandCompletes(site, wide, catalogFails, debris);
      }
      if site.row.None? {
        return true;
      }
      ghost var s, p, begun := site, power, Begin(site, wide);
      ghost var quarantined := End(s, begun);
      var isOpen;
      isOpen, ok := BeginUninstall(wide);
      ghost var s1, p1, ok1 := site, power, ok;
      if catalogFails {
        if ok {
          var ending := ReconcileRecovery(debris);
          ok := ending != Stopped;
        }
        TookBoth(s, p, begun, s1, p1, ok1, Reconcile(quarantined, debris).steps, site, power, ok);
        return;
      }
      ghost var forgotten := quarantined.(row := None);
      if ok {
        ok := Step(site.(row := None));
      }
      TookBoth(s, p, begun, s1, p1, ok1, [forgotten], site, power, ok);
      ghost var s2, p2, ok2 := site, power, ok;
      if ok && isOpen {
        var ending := FinalizeUninstall(debris);
        ok := ending != Stopped;
      }
      ghost var rest := if s.target.Some? then Finalize(forgotten, debris).steps else [];
      TookBoth(s, p, begun + [forgotten], s2, p2, ok2, rest, site, power, ok);
    }
  }
}
