/**
  The crash-safe deployment protocol: the durable states one target passes through while a
  deployment, a recovery or a start-up replay runs. Every element of a walk is a state in which
  the process may stop; a removed tree is seen once half removed, an appended journal record
  once torn and once unterminated.
*/
module Deployment {
  import opened Prelude
  import opened Journals
  import opened Trees
  import opened Walks

  datatype Phase = Intent | Prepared | OldMoved | Activated

  /**
    Everything durable about one deployment target: its journal file, the three directory slots
    under the agent's skill root, and the catalog row (by the tree its hash stands for).
  */
  datatype Target = Target(
    journal: Option<File<Phase>>,
    destination: Option<Tree>,
    staging: Option<Tree>,
    backup: Option<Tree>,
    row: Option<Tree>)

  /**
    What every journal record of one transaction repeats. The paths in it may hold characters of
    several bytes, and then `wide` is true.
  */
  datatype Job = Job(snapshot: Tree, replacedExisting: bool, wide: bool)

  /** How recovery ends; `InvalidJournal` stands for every read error. */
  datatype Outcome = Committed | RolledBack | Unrecoverable | VerificationFailed | InvalidJournal

  datatype Walk = Walk(steps: seq<Target>, outcome: Outcome)

  // ---- Primitives -------------------------------------------------------------------------

  /** Verification accepts a slot exactly when it holds the snapshot's tree. */
  predicate Verifies(slot: Option<Tree>, snapshot: Tree) {
    slot == Some(snapshot)
  }

  function AppendRecord(t: Target, phase: Phase, wide: bool): (steps: seq<Target>)
    ensures |steps| == |AppendSteps(t.journal, phase, wide)|
    ensures End(t, steps) == t.(journal := Some(Append(t.journal, phase)))
  {
    AppendIsLastStep(t.journal, phase, wide);
    var files := AppendSteps(t.journal, phase, wide);
    seq(|files|, i requires 0 <= i < |files| => t.(journal := Some(files[i])))
  }

  function RemoveJournal(t: Target): seq<Target> {
    [t.(journal := None)]
  }

  function RemoveDestination(t: Target, debris: Tree): seq<Target> {
    if t.destination.None? then [] else [t.(destination := Some(debris)), t.(destination := None)]
  }

  function RemoveStaging(t: Target, debris: Tree): seq<Target> {
    if t.staging.None? then [] else [t.(staging := Some(debris)), t.(staging := None)]
  }

  function RemoveBackup(t: Target, debris: Tree): seq<Target> {
    if t.backup.None? then [] else [t.(backup := Some(debris)), t.(backup := None)]
  }

  /** `restore_backup`, where it applies: the backup is renamed over an absent destination. */
  function RestoreBackup(t: Target): seq<Target> {
    [t.(destination := t.backup, backup := None)]
  }

  // ---- Recovery ---------------------------------------------------------------------------

  function ReadJournal(t: Target): Reading<Phase> {
    if t.journal.None? then Empty else Read(t.journal.value.lines)
  }

  function ThenRestore(t: Target, steps: seq<Target>): seq<Target> {
    steps + RestoreBackup(End(t, steps))
  }

  function ThenRemoveJournal(t: Target, steps: seq<Target>): seq<Target> {
    steps + RemoveJournal(End(t, steps))
  }

  /** Record Activated durably, and only then destroy the backup. */
  function Settle(t: Target, wide: bool, debris: Tree): seq<Target> {
    var recorded := AppendRecord(t, Activated, wide);
    recorded + RemoveBackup(End(t, recorded), debris)
  }

  function ThenSettle(t: Target, steps: seq<Target>, wide: bool, debris: Tree): seq<Target> {
    steps + Settle(End(t, steps), wide, debris)
  }

  function ActivateVerifiedStaging(t: Target, job: Job, debris: Tree): Walk {
    if !Verifies(t.staging, job.snapshot) then
      if t.backup.Some? then
        Walk(ThenRemoveJournal(t, ThenRestore(t, RemoveStaging(t, debris))), RolledBack)
      else
        Walk([], VerificationFailed)
    else
      var renamed := t.(destination := t.staging, staging := None);
      Walk([renamed] + Settle(renamed, job.wide, debris), Committed)
  }

  function VerifyActiveOrRestoreBackup(t: Target, job: Job, debris: Tree): Walk {
    if Verifies(t.destination, job.snapshot) then
      Walk(ThenSettle(t, RemoveStaging(t, debris), job.wide, debris), Committed)
    else if t.backup.Some? then
      Walk(ThenRemoveJournal(t, ThenRestore(t, RemoveDestination(t, debris))), RolledBack)
    else
      Walk([], VerificationFailed)
  }

  function VerifyActiveWithoutBackup(t: Target, job: Job, debris: Tree): Walk {
    if Verifies(t.destination, job.snapshot) then
      Walk(AppendRecord(t, Activated, job.wide), Committed)
    else
      Walk(ThenRemoveJournal(t, RemoveDestination(t, debris)), RolledBack)
  }

  /** The recovery table: phase, `replaced_existing`, and which slots exist. */
  function RecoverOne(t: Target, job: Job, debris: Tree): Walk {
    var d, s, b := t.destination.Some?, t.staging.Some?, t.backup.Some?;
    match ReadJournal(t)
    case Empty => Walk([], InvalidJournal)
    case Malformed => Walk([], InvalidJournal)
    case Unreadable => Walk([], InvalidJournal)
    case Latest(Intent) =>
      if b then Walk([], Unrecoverable)
      else Walk(ThenRemoveJournal(t, RemoveStaging(t, debris)), RolledBack)
    case Latest(Prepared) =>
      if job.replacedExisting then
        if d && s && !b then
          Walk(ThenRemoveJournal(t, RemoveStaging(t, debris)), RolledBack)
        else if !d && s && b then
          ActivateVerifiedStaging(t, job, debris)
        else if d && !s && b then
          VerifyActiveOrRestoreBackup(t, job, debris)
        else if !d && !s && b then
          Walk(ThenRemoveJournal(t, RestoreBackup(t)), RolledBack)
        else
          Walk([], Unrecoverable)
      else if !d && s && !b then
        Walk(ThenRemoveJournal(t, RemoveStaging(t, debris)), RolledBack)
      else if d && !s && !b then
        VerifyActiveWithoutBackup(t, job, debris)
      else
        Walk([], Unrecoverable)
    case Latest(OldMoved) =>
      if !d && s && b then
        ActivateVerifiedStaging(t, job, debris)
      else if d && !s && b then
        VerifyActiveOrRestoreBackup(t, job, debris)
      else if !d && !s && b then
        Walk(ThenRemoveJournal(t, RestoreBackup(t)), RolledBack)
      else
        Walk([], Unrecoverable)
    case Latest(Activated) =>
      if !d then
        if b then Walk(ThenRemoveJournal(t, RestoreBackup(t)), RolledBack)
        else Walk([], Unrecoverable)
      else if s then
        Walk([], Unrecoverable)
      else
        VerifyActiveOrRestoreBackup(t, job, debris)
  }

  // ---- Deployment -------------------------------------------------------------------------

  /**
    What the world does to one run of `deploy`: what the staging slot holds when it is verified
    (materialization can fail, the tree can be damaged), whether the Prepared append fails, after
    how many of its sub-steps (perhaps all, if only its sync fails), whether clean-up removals work,
    what the destination holds when it is verified, and what a half-removed tree looks like.
  */
  datatype Circumstances = Circumstances(
    staged: Option<Tree>,
    preparedFails: Option<nat>,
    cleanUpWorks: bool,
    active: Option<Tree>,
    debris: Tree)

  /** The error handler around materialization: best-effort clean-up, errors ignored. */
  function AbandonStaging(t: Target, c: Circumstances): seq<Target> {
    ThenRemoveJournal(t, if c.cleanUpWorks then RemoveStaging(t, c.debris)
                         else RemoveStaging(t, c.debris)[..if t.staging.Some? then 1 else 0])
  }

  /** Up to the durable Prepared record; the flag says whether that was reached. */
  function Prepare(t: Target, job: Job, c: Circumstances): (seq<Target>, bool) {
    var intent := AppendRecord(t, Intent, job.wide);
    var empty := End(t, intent);
    var staged := [empty.(staging := Some(c.debris)), empty.(staging := c.staged)];
    var ready := End(empty, staged);
    if !Verifies(ready.staging, job.snapshot) then
      (intent + staged + AbandonStaging(ready, c), false)
    else
      var prepared := AppendRecord(ready, Prepared, job.wide);
      if c.preparedFails.Some? then
        var torn := Taken(prepared, c.preparedFails.value);
        (intent + staged + torn + AbandonStaging(End(ready, torn), c), false)
      else
        (intent + staged + prepared, true)
  }

  /** Moving the old target aside, activating the candidate and checking it. */
  function Activate(t: Target, job: Job, c: Circumstances): Walk {
    var moved := t.(destination := None, backup := t.destination);
    var aside := if job.replacedExisting then [moved] + AppendRecord(moved, OldMoved, job.wide) else [];
    var clear := End(t, aside);
    var renamed := clear.(destination := clear.staging, staging := None);
    var found := renamed.(destination := c.active);
    var swapped := aside + [renamed, found];
    if Verifies(found.destination, job.snapshot) then
      Walk(swapped + Settle(found, job.wide, c.debris), Committed)
    else if job.replacedExisting && found.backup.Some? then
      Walk(swapped + ThenRemoveJournal(found,
             ThenRestore(found, RemoveDestination(found, c.debris))), VerificationFailed)
    else
      Walk(swapped + ThenRemoveJournal(found, RemoveDestination(found, c.debris)), VerificationFailed)
  }

  function Deploy(t: Target, job: Job, c: Circumstances): Walk {
    var (steps, ready) := Prepare(t, job, c);
    if !ready then Walk(steps, VerificationFailed)
    else
      var walk := Activate(End(t, steps), job, c);
      Walk(steps + walk.steps, walk.outcome)
  }

  // ---- The catalog half -------------------------------------------------------------------

  /** `acknowledge_catalog_commit` accepts a durable Activated record over settled slots. */
  predicate Acknowledgeable(t: Target, job: Job) {
    && ReadJournal(t) == Latest(Activated)
    && t.destination.Some? && t.staging.None? && t.backup.None?
    && Verifies(t.destination, job.snapshot)
  }

  function Acknowledge(t: Target, job: Job): seq<Target> {
    if Acknowledgeable(t, job) then RemoveJournal(t) else []
  }

  /** Verify once more, write the catalog row, acknowledge. */
  function CommitCatalog(t: Target, job: Job): seq<Target> {
    if !Verifies(t.destination, job.snapshot) then []
    else
      var recorded := t.(row := Some(job.snapshot));
      [recorded] + Acknowledge(recorded, job)
  }

  /** One deployment command: the filesystem half, then the catalog half. */
  function Install(t: Target, job: Job, c: Circumstances): Walk {
    var walk := Deploy(t, job, c);
    if walk.outcome == Committed then
      Walk(walk.steps + CommitCatalog(End(t, walk.steps), job), Committed)
    else walk
  }

  /** One start-up over an open journal: recovery, then catalog replay of what it committed. */
  function StartUp(t: Target, job: Job, debris: Tree): Walk {
    var walk := RecoverOne(t, job, debris);
    if walk.outcome == Committed then
      Walk(walk.steps + CommitCatalog(End(t, walk.steps), job), Committed)
    else walk
  }
}
