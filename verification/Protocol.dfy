/**
 The daemon's control loop as a transition system.

 One step is one lock-protected section of `StateStore` or one fallible call of
 `reconcile_once`; every fallible call may fail. Puts and the reconcile that holds the
 apply lock interleave freely, the runtime directory may be edited from outside and the
 process may crash and restart at any point.
 */
module Protocol {
  import opened Base
  import opened ConfigHash
  import opened Model
  import opened Text

  /**
   A deployment: settings, and the pure functions the loop calls. `digest` is the hash of a
   directory at a root, `render` the renderer, `accepts` the state validation and
   `driftReason` the text that explains a drift.
   */
  datatype Config = Config(
    dryRun: bool,
    stagingRoot: string,
    runtimeRoot: string,
    digest: (string, Tree) -> string,
    render: ControlPlaneState -> Tree,
    accepts: ControlPlaneState -> bool,
    driftReason: (Option<string>, Option<string>) -> string)

  // ----- put_state -----

  /** Revisions are 64-bit and wrap, as they do in a release build. */
  function NextRevision(r: U64): U64
  {
    if r == MAX_U64 then 0 else r + 1
  }

  function PutOutcome(cfg: Config, current: ControlPlaneState, expected: U64,
                      draft: ControlPlaneState): Result<ControlPlaneState>
  {
    if current.revision != expected then
      Err(Conflict(expected, current.revision))
    else if Trim(RustSpace, draft.updatedBy) == "" then
      Err(InvalidInput("updatedBy must be non-empty"))
    else
      var next := draft.(schemaVersion := current.schemaVersion, revision := NextRevision(current.revision));
      if cfg.accepts(next) then Ok(next) else Err(InvalidInput("state rejected"))
  }

  // ----- the status writes -----

  function BootStatus(revision: U64): RuntimeStatus
  {
    RuntimeStatus(revision, revision, InSync, None, None)
  }

  function PendingStatus(s: RuntimeStatus, revision: U64): RuntimeStatus
  {
    s.(desiredRevision := revision, syncState := PendingApply, lastError := None)
  }

  function ApplyingStatus(s: RuntimeStatus): RuntimeStatus
  {
    s.(syncState := Applying, lastError := None)
  }

  function InSyncStatus(s: RuntimeStatus, revision: U64, hash: string): RuntimeStatus
  {
    s.(observedRevision := revision, desiredRevision := revision, syncState := InSync,
       activeConfigHash := Some(hash), lastError := None)
  }

  function DegradedStatus(s: RuntimeStatus, error: string): RuntimeStatus
  {
    s.(syncState := Degraded, lastError := Some(error))
  }

  function OutOfSyncStatus(s: RuntimeStatus, details: string): RuntimeStatus
  {
    s.(syncState := OutOfSync, lastError := Some(details))
  }

  // ----- drift -----

  function RuntimeHash(cfg: Config, runtime: Option<Tree>): Option<string>
  {
    if runtime.None? then None
    else Some(cfg.digest(cfg.runtimeRoot, runtime.value))
  }

  /** The hash that rendering `st` into the staging directory returns. */
  function ConfigHashOf(cfg: Config, st: ControlPlaneState): string
  {
    cfg.digest(cfg.stagingRoot, cfg.render(st))
  }

  predicate Drift(expected: Option<string>, actual: Option<string>)
  {
    actual.None? ||
    match (expected, actual)
    case (Some(e), Some(a)) => e != a
    case (Some(_), None) => true
    case (None, Some(_)) => true
    case _ => false
  }

  predicate Skips(seen: RuntimeStatus, target: ControlPlaneState, actual: Option<string>)
  {
    seen.observedRevision >= target.revision && !Drift(seen.activeConfigHash, actual)
  }

  // ----- the state of the system -----

  /** Where the put that holds the state lock stands. */
  datatype PutPhase =
    | NoPut
    | Writing(next: ControlPlaneState)     // about to rename the new state.json into place
    | Written(next: ControlPlaneState)     // on disk, not yet in memory
    | Installed(next: ControlPlaneState)   // in memory, status not yet written

  /** The call the reconcile that holds the apply lock is about to make. */
  datatype Stage =
    | ReadStatus
    | HashRuntime(seen: RuntimeStatus)
    | MarkDrift(reason: string)
    | MarkApplying
    | Render
    | Test
    | Backup
    | MakeParent
    | ClearPrevious
    | MoveRuntime
    | MoveStaging
    | Restore(cause: string)
    | DropPrevious
    | Reload
    | MarkInSync
    | MarkDegraded(error: string)

  datatype Reconcile = Idle | At(stage: Stage, target: ControlPlaneState)

  datatype Sys = Sys(
    disk: ControlPlaneState,       // state.json
    mem: ControlPlaneState,
    status: RuntimeStatus,
    put: PutPhase,
    rec: Reconcile,
    runtime: Option<Tree>,
    previous: Option<Tree>,        // the `.previous` sibling of the runtime directory
    staging: Option<Tree>)

  datatype Action =
    | BeginPut(expected: U64, draft: ControlPlaneState)   // checks pass, the put keeps the state lock
    | RejectPut(expected: U64, draft: ControlPlaneState)  // checks fail, the lock is released
    | PutGoesOn
    | PutFails                                            // the file write or the rename fails
    | StartReconcile                                      // take the apply lock and read the state
    | Succeed                                             // the call of the current stage succeeds
    | Fail(error: string)                                 // the call of the current stage fails
    | Scratch(tree: Option<Tree>)                         // the call of the current stage is part way
    | Edit(tree: Option<Tree>)                            // somebody else changes the runtime directory
    | Crash                                               // the process dies and starts again

  predicate CanRenameOnto(dir: Option<Tree>)
  {
    dir.None? || dir.value == map[]
  }

  predicate PartOf(part: Tree, whole: Tree)
  {
    forall p :: p in part ==> p in whole && part[p] == whole[p]
  }

  predicate CanSucceed(s: Sys)
    requires s.rec.At?
  {
    match s.rec.stage
    case MoveStaging => CanRenameOnto(s.runtime)
    case Restore(_) => s.previous.None? || CanRenameOnto(s.runtime)
    case _ => true
  }

  predicate CanFail(cfg: Config, s: Sys)
    requires s.rec.At?
  {
    match s.rec.stage
    case HashRuntime(_) => s.runtime.Some?
    case Render | Backup | MakeParent | MoveStaging => true
    case Test | Reload => !cfg.dryRun
    case ClearPrevious | Restore(_) | DropPrevious => s.previous.Some?
    case MoveRuntime => s.runtime.Some?
    case _ => false
  }

  predicate CanScratch(s: Sys, tree: Option<Tree>)
    requires s.rec.At?
  {
    match s.rec.stage
    case Render => true
    case ClearPrevious | DropPrevious =>
      s.previous.Some? && tree.Some? && PartOf(tree.value, s.previous.value)
    case _ => false
  }

  predicate Enabled(cfg: Config, s: Sys, a: Action)
  {
    match a
    case BeginPut(expected, draft) => s.put.NoPut? && PutOutcome(cfg, s.mem, expected, draft).Ok?
    case RejectPut(expected, draft) => s.put.NoPut? && PutOutcome(cfg, s.mem, expected, draft).Err?
    case PutGoesOn => !s.put.NoPut?
    case PutFails => s.put.Writing?
    case StartReconcile => s.rec.Idle? && s.put.NoPut?
    case Succeed => s.rec.At? && CanSucceed(s)
    case Fail(_) => s.rec.At? && CanFail(cfg, s)
    case Scratch(tree) => s.rec.At? && CanScratch(s, tree)
    case Edit(_) => true
    case Crash => true
  }

  function Go(s: Sys, stage: Stage): Sys
    requires s.rec.At?
  {
    s.(rec := At(stage, s.rec.target))
  }

  /** The put's next step; it holds the state lock until its status write is done. */
  function AfterPutStep(s: Sys): Sys
    requires !s.put.NoPut?
  {
    match s.put
    case Writing(next) => s.(disk := next, put := Written(next))
    case Written(next) => s.(mem := next, put := Installed(next))
    case Installed(next) => s.(status := PendingStatus(s.status, next.revision), put := NoPut)
  }

  function AfterCompare(cfg: Config, s: Sys, seen: RuntimeStatus): Sys
    requires s.rec.At?
  {
    var actual := RuntimeHash(cfg, s.runtime);
    if Skips(seen, s.rec.target, actual) then s.(rec := Idle)
    else if Drift(seen.activeConfigHash, actual) then
      Go(s, MarkDrift(cfg.driftReason(seen.activeConfigHash, actual)))
    else Go(s, MarkApplying)
  }

  function AfterSuccess(cfg: Config, s: Sys): Sys
    requires s.rec.At?
  {
    var target := s.rec.target;
    match s.rec.stage
    case ReadStatus => Go(s, HashRuntime(s.status))
    case HashRuntime(seen) => AfterCompare(cfg, s, seen)
    case MarkDrift(reason) => Go(s.(status := OutOfSyncStatus(s.status, reason)), MarkApplying)
    case MarkApplying => Go(s.(status := ApplyingStatus(s.status)), Render)
    case Render => Go(s.(staging := Some(cfg.render(target))), Test)
    case Test => Go(s, Backup)
    case Backup => Go(s, MakeParent)
    case MakeParent => Go(s, ClearPrevious)
    case ClearPrevious => Go(s.(previous := None), MoveRuntime)
    case MoveRuntime =>
      if s.runtime.Some? then Go(s.(previous := s.runtime, runtime := None), MoveStaging)
      else Go(s, MoveStaging)
    case MoveStaging => Go(s.(runtime := s.staging, staging := None), DropPrevious)
    case Restore(cause) =>
      if s.previous.Some? then Go(s.(runtime := s.previous, previous := None), MarkDegraded(cause))
      else Go(s, MarkDegraded(cause))
    case DropPrevious => Go(s.(previous := None), Reload)
    case Reload => Go(s, MarkInSync)
    case MarkInSync =>
      s.(status := InSyncStatus(s.status, target.revision, ConfigHashOf(cfg, target)), rec := Idle)
    case MarkDegraded(error) => s.(status := DegradedStatus(s.status, error), rec := Idle)
  }

  function AfterFailure(s: Sys, error: string): Sys
    requires s.rec.At?
  {
    match s.rec.stage
    case HashRuntime(_) => s.(rec := Idle)           // returned before any status write
    case MoveStaging => Go(s, Restore(error))
    case Restore(cause) => Go(s, MarkDegraded(cause)) // the restore error is ignored
    case _ => Go(s, MarkDegraded(error))
  }

  function Reboot(s: Sys): Sys
  {
    s.(mem := s.disk, status := BootStatus(s.disk.revision), put := NoPut, rec := Idle)
  }

  function Next(cfg: Config, s: Sys, a: Action): Sys
    requires Enabled(cfg, s, a)
  {
    match a
    case BeginPut(expected, draft) => s.(put := Writing(PutOutcome(cfg, s.mem, expected, draft).value))
    case RejectPut(_, _) => s
    case PutGoesOn => AfterPutStep(s)
    case PutFails => s.(put := NoPut)
    case StartReconcile => s.(rec := At(ReadStatus, s.mem))
    case Succeed => AfterSuccess(cfg, s)
    case Fail(error) => AfterFailure(s, error)
    case Scratch(tree) => if s.rec.stage.Render? then s.(staging := tree) else s.(previous := tree)
    case Edit(tree) => s.(runtime := tree)
    case Crash => Reboot(s)
  }

  /** What `load_or_init` leaves: the stored state, all revisions equal, nothing observed yet. */
  ghost predicate Initial(cfg: Config, s: Sys)
  {
    && cfg.accepts(s.disk)
    && s == Reboot(s)
  }

  // ----- runs -----

  ghost predicate StepAt(cfg: Config, tr: seq<Sys>, acts: seq<Action>, i: int)
    requires |tr| == |acts| + 1
  {
    0 <= i < |acts| ==> Enabled(cfg, tr[i], acts[i]) && tr[i + 1] == Next(cfg, tr[i], acts[i])
  }

  /** `tr` is the run that the actions `acts` make from `tr[0]`. */
  ghost predicate Run(cfg: Config, tr: seq<Sys>, acts: seq<Action>)
  {
    && |tr| == |acts| + 1
    && forall i :: StepAt(cfg, tr, acts, i)
  }

  /** Here a put stores the revision after the last one, which wraps around. */
  predicate Wraps(s: Sys, a: Action)
  {
    a.PutGoesOn? && s.put.Writing? && s.mem.revision == MAX_U64
  }

  ghost predicate NoWrap(tr: seq<Sys>, acts: seq<Action>)
    requires |tr| == |acts| + 1
  {
    forall i :: 0 <= i < |acts| ==> !Wraps(tr[i], acts[i])
  }

  predicate StageIs(s: Sys, stage: Stage)
  {
    s.rec.At? && s.rec.stage == stage
  }

  /** The step that records success. */
  predicate RecordsInSync(s: Sys, a: Action)
  {
    a.Succeed? && StageIs(s, MarkInSync)
  }

  /** The step that makes the staging directory the runtime directory. */
  predicate Switches(s: Sys, a: Action)
  {
    a.Succeed? && StageIs(s, MoveStaging)
  }
}
