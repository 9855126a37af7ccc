/**
 The state store and the apply service as the objects they are. Each method is shown to make a
 run of `Protocol`: its ghost result `acts` lists the protocol's actions, `Play` replays them.
 How each fallible call ends is an argument.
 */
module Daemon {
  import opened Base
  import opened ConfigHash
  import opened Deployment
  import opened Model
  import opened Ordering
  import opened Protocol
  import opened ProtocolPipeline
  import opened ProtocolPlay
  import opened Text
  import Renderer
  import Validation

  // ----- what one reconcile does -----

  /** The reconcile's own actions `acts`, and nobody else's, lead from `s` to `now`. */
  ghost predicate Does(cfg: Config, s: Sys, acts: seq<Action>, now: Sys)
  {
    && (forall i :: 0 <= i < |acts| ==> acts[i].Succeed? || acts[i].Fail? || acts[i].Scratch?)
    && Play(cfg, s, acts) == Some(now)
  }

  lemma DoesSucceed(cfg: Config, s: Sys, acts: seq<Action>, now: Sys)
    requires Does(cfg, s, acts, now) && now.rec.At? && CanSucceed(now)
    ensures Does(cfg, s, acts + [Succeed], AfterSuccess(cfg, now))
  {
    hide Play, AfterSuccess, CanSucceed;
    PlayMore(cfg, s, acts, now, Succeed);
  }

  lemma DoesFail(cfg: Config, s: Sys, acts: seq<Action>, now: Sys, error: string)
    requires Does(cfg, s, acts, now) && now.rec.At? && CanFail(cfg, now)
    ensures Does(cfg, s, acts + [Fail(error)], AfterFailure(now, error))
  {
    hide Play, AfterFailure, CanFail;
    PlayMore(cfg, s, acts, now, Fail(error));
  }

  lemma DoesPart(cfg: Config, s: Sys, acts: seq<Action>, now: Sys, tree: Option<Tree>)
    requires Does(cfg, s, acts, now) && now.rec.At? && CanScratch(now, tree)
    ensures Does(cfg, s, acts + [Scratch(tree)],
                 if now.rec.stage.Render? then now.(staging := tree) else now.(previous := tree))
  {
    hide Play, CanScratch;
    PlayMore(cfg, s, acts, now, Scratch(tree));
  }

  lemma DoesCompare(cfg: Config, s: Sys, acts: seq<Action>, now: Sys, seen: RuntimeStatus, actual: Option<string>)
    requires Does(cfg, s, acts, now) && StageIs(now, Stage.HashRuntime(seen)) && actual == RuntimeHash(cfg, now.runtime)
    ensures var expected, target := seen.activeConfigHash, now.rec.target;
            Does(cfg, s, acts + [Succeed],
                 now.(rec := if Skips(seen, target, actual) then Idle
                             else if Drift(expected, actual)
                             then At(MarkDrift(cfg.driftReason(expected, actual)), target)
                             else At(Stage.MarkApplying, target)))
  {
    hide Does, Skips, Drift;
    DoesSucceed(cfg, s, acts, now);
  }

  lemma DoesMarkDrift(cfg: Config, s: Sys, acts: seq<Action>, now: Sys, reason: string)
    requires Does(cfg, s, acts, now) && StageIs(now, MarkDrift(reason))
    ensures Does(cfg, s, acts + [Succeed],
                 now.(status := OutOfSyncStatus(now.status, reason), rec := At(Stage.MarkApplying, now.rec.target)))
  {
    hide Does;
    DoesSucceed(cfg, s, acts, now);
  }

  lemma DoesMarkApplying(cfg: Config, s: Sys, acts: seq<Action>, now: Sys)
    requires Does(cfg, s, acts, now) && StageIs(now, Stage.MarkApplying)
    ensures Does(cfg, s, acts + [Succeed],
                 now.(status := ApplyingStatus(now.status), rec := At(Stage.Render, now.rec.target)))
  {
    hide Does;
    DoesSucceed(cfg, s, acts, now);
  }

  lemma DoesFinish(cfg: Config, s: Sys, acts: seq<Action>, now: Sys)
    requires Does(cfg, s, acts, now) && now.rec.At? && (now.rec.stage.MarkInSync? || now.rec.stage.MarkDegraded?)
    ensures var target := now.rec.target;
            Does(cfg, s, acts + [Succeed],
                 now.(rec := Idle,
                      status := if now.rec.stage.MarkInSync?
                                then InSyncStatus(now.status, target.revision, ConfigHashOf(cfg, target))
                                else DegradedStatus(now.status, now.rec.stage.error)))
  {
    hide Does, ConfigHashOf;
    DoesSucceed(cfg, s, acts, now);
  }

  lemma DoesNotHash(cfg: Config, s: Sys, acts: seq<Action>, now: Sys, error: string)
    requires Does(cfg, s, acts, now) && now.rec.At? && now.rec.stage.HashRuntime? && now.runtime.Some?
    ensures Does(cfg, s, acts + [Fail(error)], now.(rec := Idle))
  {
    hide Does;
    DoesFail(cfg, s, acts, now, error);
  }

  // ----- the disk -----

  datatype Stored = Missing | Unreadable | Holds(state: ControlPlaneState)

  class Disk {
    var stateFile: Stored
    var runtime: Option<Tree>
    var previous: Option<Tree>
    var staging: Option<Tree>

    constructor(stateFile: Stored, runtime: Option<Tree>, previous: Option<Tree>, staging: Option<Tree>)
      ensures this.stateFile == stateFile && this.runtime == runtime
      ensures this.previous == previous && this.staging == staging
    {
      this.stateFile, this.runtime, this.previous, this.staging := stateFile, runtime, previous, staging;
    }
  }

  /** How a call ends; an error carries its text. */
  type Fault = Option<string>

  // ----- the state store -----

  class StateStore {
    var state: ControlPlaneState
    var status: RuntimeStatus
    const disk: Disk

    constructor(disk: Disk, state: ControlPlaneState)
      ensures this.disk == disk && this.state == state && this.status == BootStatus(state.revision)
    {
      this.disk, this.state, this.status := disk, state, BootStatus(state.revision);
    }

    /** The system as the protocol sees it, with no put under way. */
    ghost function View(rec: Reconcile): Sys
      requires disk.stateFile.Holds?
      reads this, disk
    {
      Sys(disk.stateFile.state, state, status, NoPut, rec, disk.runtime, disk.previous, disk.staging)
    }

    /** Loads a valid state or creates the first one; a file that is unreadable or invalid stops the start. */
    static method LoadOrInit(disk: Disk, fault: Fault) returns (r: Result<StateStore>)
      modifies disk`stateFile
      ensures r.Ok? <==> fault.None? && match old(disk.stateFile) {
                           case Missing => true
                           case Unreadable => false
                           case Holds(st) => Validation.ValidState(st)
                         }
      ensures r.Ok? ==> fresh(r.value) && r.value.disk == disk && disk.stateFile == Holds(r.value.state)
      ensures r.Ok? ==>
                r.value.state == if old(disk.stateFile).Missing? then ControlPlaneState("1.0.0", 0, "bootstrap", [])
                                 else old(disk.stateFile).state
      ensures r.Ok? ==> forall cfg :: Validates(cfg) ==> Initial(cfg, r.value.View(Idle))
      ensures r.Err? ==> disk.stateFile == old(disk.stateFile)
    {
      if fault.Some? {
        return Err(Io(fault.value));
      }
      var st;
      match disk.stateFile {
        case Missing =>
          st := INITIAL_STATE;
          disk.stateFile := Holds(st);
        case Unreadable =>
          return Err(Internal("state.json cannot be parsed"));
        case Holds(found) =>
          st := found;
      }
      var checked := Validation.ValidateState(st);
      if checked.Err? {
        return Err(checked.error);
      }
      var store := new StateStore(disk, st);
      return Ok(store);
    }

    /**
     A compare-and-swap on the revision. It succeeds exactly when the protocol's checks pass and
     the file is written, then disk, memory and status all name the new revision; otherwise
     nothing changes. Whatever a reconcile is doing meanwhile, `acts` is the put's part of the run.
     */
    method PutState(ghost cfg: Config, ghost rec: Reconcile, expected: U64, draft: ControlPlaneState, fault: Fault)
      returns (r: Result<ControlPlaneState>, ghost acts: seq<Action>)
      requires disk.stateFile.Holds? && Validates(cfg)
      modifies this, disk`stateFile
      ensures var next := ControlPlaneState(old(state).schemaVersion, (old(state).revision + 1) % (MAX_U64 + 1),
                                            draft.updatedBy, draft.servers);
              && (r.Ok? <==> && old(state).revision == expected && !AllSpace(RustSpace, draft.updatedBy)
                             && Validation.ValidState(next) && fault.None?)
              && (r.Ok? ==> r.value == state == next && disk.stateFile == Holds(next))
      ensures r.Ok? <==> PutOutcome(cfg, old(state), expected, draft).Ok? && fault.None?
      ensures r.Ok? ==> r == PutOutcome(cfg, old(state), expected, draft)
      ensures r.Ok? ==> status == PendingStatus(old(status), r.value.revision)
      ensures old(state).revision != expected ==> r == Err(Conflict(expected, old(state).revision))
      ensures r.Err? && old(state).revision == expected ==>
                if PutOutcome(cfg, old(state), expected, draft).Ok? then fault.Some? && r == Err(Io(fault.value))
                else r.error.InvalidInput?
      ensures r.Err? ==> state == old(state) && status == old(status) && disk.stateFile == old(disk.stateFile)
      ensures disk.stateFile.Holds? && Play(cfg, old(View(rec)), acts) == Some(View(rec))
      ensures acts == PutActs(cfg, old(state), expected, draft, fault.None?)
    {
      hide Play, Validation.ValidState, PutActs, Trim, AllSpace;
      PutOutcomeExact(cfg, state, expected, draft);
      acts := PutActs(cfg, state, expected, draft, fault.None?);
      PlayPutActs(cfg, View(rec), expected, draft, fault.None?);
      if state.revision != expected {
        return Err(Conflict(expected, state.revision)), acts;
      }
      if Trim(RustSpace, draft.updatedBy) == "" {
        return Err(InvalidInput("updatedBy must be non-empty")), acts;
      }
      var next := draft.(schemaVersion := state.schemaVersion, revision := NextRevision(state.revision));
      var checked := Validation.ValidateState(next);
      if checked.Err? {
        return Err(checked.error), acts;
      }
      if fault.Some? {
        return Err(Io(fault.value)), acts;
      }
      disk.stateFile := Holds(next);
      state := next;
      status := status.(desiredRevision := next.revision, syncState := PendingApply, lastError := None);
      return Ok(next), acts;
    }

    method MarkApplying()
      modifies this`status
      ensures status == ApplyingStatus(old(status))
    {
      status := status.(syncState := Applying, lastError := None);
    }

    method MarkInSync(revision: U64, hash: string)
      modifies this`status
      ensures status == InSyncStatus(old(status), revision, hash)
    {
      status := RuntimeStatus(revision, revision, InSync, Some(hash), None);
    }

    method MarkDegraded(error: string)
      modifies this`status
      ensures status == DegradedStatus(old(status), error)
    {
      status := status.(syncState := Degraded, lastError := Some(error));
    }

    method MarkOutOfSync(details: string)
      modifies this`status
      ensures status == OutOfSyncStatus(old(status), details)
    {
      status := status.(syncState := OutOfSync, lastError := Some(details));
    }
  }

  ghost predicate Validates(cfg: Config)
  {
    forall st: ControlPlaneState :: cfg.accepts(st) <==> Validation.ValidState(st)
  }

  // ----- the apply service -----

  /**
   How the calls of one reconcile end, and how the two directories it hashes are listed. A removal
   that fails keeps the files at `kept`.
   */
  datatype Faults = Faults(
    hash: Fault,
    render: Fault, scratch: Option<Tree>,
    test: Fault,
    backup: Fault,
    makeParent: Fault,
    clearPrevious: Fault, kept: set<Path>,
    moveRuntime: Fault,
    moveStaging: Fault,
    restore: Fault,
    dropPrevious: Fault,
    reload: Fault,
    runtimeListing: Entry,
    stagingListing: Entry)

  function First(a: Fault, b: Fault): Fault
  {
    if a.Some? then a else b
  }

  function When(applies: bool, fault: Fault): Fault
  {
    if applies then fault else None
  }

  /** The stage after one that a single call makes up. */
  function AfterStage(stage: Stage): Stage
  {
    match stage
    case Test => Backup
    case Backup => MakeParent
    case ClearPrevious => MoveRuntime
    case DropPrevious => Reload
    case _ => Stage.MarkInSync
  }

  /** The first fault that the directory switch meets. */
  function CommitFault(f: Faults, hasPrevious: bool, hasRuntime: bool): Fault
  {
    First(f.makeParent, First(When(hasPrevious, f.clearPrevious), First(When(hasRuntime, f.moveRuntime),
      First(f.moveStaging, When(hasRuntime, f.dropPrevious)))))
  }

  /** The first fault that the pipeline meets, by what exists when it begins. */
  function PipelineFault(f: Faults, dryRun: bool, hasPrevious: bool, hasRuntime: bool): Fault
  {
    First(f.render, First(When(!dryRun, f.test), First(f.backup,
      First(CommitFault(f, hasPrevious, hasRuntime), When(!dryRun, f.reload)))))
  }

  /** The first fault up to the switch; only later ones leave the new tree in place. */
  function SwitchFault(f: Faults, dryRun: bool, hasPrevious: bool, hasRuntime: bool): Fault
  {
    PipelineFault(f.(dropPrevious := None, reload := None), dryRun, hasPrevious, hasRuntime)
  }

  /** The pipeline meets no fault exactly if each call it makes succeeds; a dry run leaves out test and reload. */
  lemma PipelineFaultExact(f: Faults, dryRun: bool, hasPrevious: bool, hasRuntime: bool)
    ensures PipelineFault(f, dryRun, hasPrevious, hasRuntime).None? <==>
              && f.render.None? && (dryRun || f.test.None?) && f.backup.None? && f.makeParent.None?
              && (!hasPrevious || f.clearPrevious.None?) && (!hasRuntime || f.moveRuntime.None?)
              && f.moveStaging.None? && (!hasRuntime || f.dropPrevious.None?) && (dryRun || f.reload.None?)
    ensures f.render.Some? ==> PipelineFault(f, dryRun, hasPrevious, hasRuntime) == f.render
    ensures f.render.None? && !dryRun && f.test.Some? ==> PipelineFault(f, dryRun, hasPrevious, hasRuntime) == f.test
    ensures f.render.None? && (dryRun || f.test.None?) && f.backup.Some? ==>
              PipelineFault(f, dryRun, hasPrevious, hasRuntime) == f.backup
  {
  }

  class ApplyService {
    const store: StateStore
    const disk: Disk
    const settings: Settings
    const hash: string -> string

    constructor(store: StateStore, settings: Settings, hash: string -> string)
      ensures this.store == store && this.disk == store.disk && this.settings == settings && this.hash == hash
      ensures store.disk.stateFile.Holds? ==> Valid()
    {
      this.store, this.disk, this.settings, this.hash := store, store.disk, settings, hash;
    }

    ghost predicate Valid()
      reads store, disk
    {
      disk == store.disk && disk.stateFile.Holds?
    }

    ghost function Cfg(): Config
    {
      Deployed(hash, RootPrefixed, settings)
    }

    /** The reconcile that began in `start` has done `acts` and is now at `stage`. */
    ghost predicate Reached(start: Sys, acts: seq<Action>, stage: Stage, target: ControlPlaneState)
      requires Valid()
      reads store, disk
    {
      Does(Cfg(), start, acts, store.View(At(stage, target)))
    }

    /** Removes `.previous` if there is one; a failure may leave part of it. */
    method RemovePrevious(fault: Fault, kept: set<Path>, ghost start: Sys, ghost acts: seq<Action>,
                          ghost stage: Stage, ghost target: ControlPlaneState)
      returns (failed: Fault, ghost acts': seq<Action>)
      requires Valid() && Reached(start, acts, stage, target) && (stage.ClearPrevious? || stage.DropPrevious?)
      modifies disk`previous
      ensures failed == if old(disk.previous).Some? then fault else None
      ensures failed.None? ==> disk.previous.None?
                               && Reached(start, acts', AfterStage(stage), target)
      ensures failed.Some? ==> Reached(start, acts', Stage.MarkDegraded(failed.value), target)
    {
      hide Does, Next, Enabled, Deployed;
      ghost var now := store.View(At(stage, target));
      if disk.previous.Some? && fault.Some? {
        failed := fault;
        var left := map p | p in disk.previous.value && p in kept :: disk.previous.value[p];
        disk.previous := Some(left);
        DoesPart(Cfg(), start, acts, now, Some(left));
        acts' := acts + [Scratch(Some(left))];
        DoesFail(Cfg(), start, acts', now.(previous := Some(left)), fault.value);
        acts' := acts' + [Fail(fault.value)];
      } else {
        failed := None;
        disk.previous := None;
        DoesSucceed(Cfg(), start, acts, now);
        acts' := acts + [Succeed];
      }
    }

    /**
     The directory switch. It fails with the runtime directory as it was, moved aside and back, or
     left in `.previous`; or, if only the last removal fails, with the new tree already in place.
     */
    method CommitStaging(faults: Faults, ghost start: Sys, ghost acts: seq<Action>, ghost target: ControlPlaneState)
      returns (failed: Fault, ghost acts': seq<Action>)
      requires Valid() && Reached(start, acts, Stage.MakeParent, target) && disk.staging.Some?
      modifies disk`runtime, disk`previous, disk`staging
      ensures failed == CommitFault(faults, old(disk.previous).Some?, old(disk.runtime).Some?)
      ensures var early := CommitFault(faults.(dropPrevious := None), old(disk.previous).Some?,
              old(disk.runtime).Some?);
              if early.None? then disk.runtime == old(disk.staging)
              else faults.restore.None? ==> disk.runtime == old(disk.runtime)
      ensures failed.None? ==> disk.runtime == old(disk.staging) && disk.previous.None?
      ensures disk.runtime in {old(disk.runtime), old(disk.staging), None}
      ensures disk.runtime.None? && old(disk.runtime).Some? ==> disk.previous == old(disk.runtime)
      ensures failed.None? ==> Reached(start, acts', Stage.Reload, target)
      ensures failed.Some? ==> Reached(start, acts', Stage.MarkDegraded(failed.value), target)
    {
      hide Does, Next, Enabled, Deployed;
      acts' := acts;
      if faults.makeParent.Some? {
        DoesFail(Cfg(), start, acts', store.View(At(Stage.MakeParent, target)), faults.makeParent.value);
        return faults.makeParent, acts' + [Fail(faults.makeParent.value)];
      }
      DoesSucceed(Cfg(), start, acts', store.View(At(Stage.MakeParent, target)));
      acts' := acts' + [Succeed];
      failed, acts' := RemovePrevious(faults.clearPrevious, faults.kept, start, acts', Stage.ClearPrevious, target);
      if failed.Some? {
        return;
      }
      failed, acts' := MoveAside(faults.moveRuntime, start, acts', target);
      if failed.Some? {
        return;
      }
      failed, acts' := MoveIn(faults, start, acts', target);
      if failed.Some? {
        return;
      }
      failed, acts' := RemovePrevious(faults.dropPrevious, faults.kept, start, acts', Stage.DropPrevious, target);
    }

    method MoveAside(fault: Fault, ghost start: Sys, ghost acts: seq<Action>, ghost target: ControlPlaneState)
      returns (failed: Fault, ghost acts': seq<Action>)
      requires Valid() && Reached(start, acts, Stage.MoveRuntime, target) && disk.previous.None?
      modifies disk`runtime, disk`previous
      ensures failed == if old(disk.runtime).Some? then fault else None
      ensures failed.None? ==> disk.runtime.None? && disk.previous == old(disk.runtime)
                               && Reached(start, acts', Stage.MoveStaging, target)
      ensures failed.Some? ==>
              disk.runtime == old(disk.runtime) && Reached(start, acts', Stage.MarkDegraded(failed.value), target)
    {
      hide Does, Next, Enabled, Deployed;
      ghost var now := store.View(At(Stage.MoveRuntime, target));
      if disk.runtime.Some? && fault.Some? {
        DoesFail(Cfg(), start, acts, now, fault.value);
        return fault, acts + [Fail(fault.value)];
      }
      if disk.runtime.Some? {
        disk.previous, disk.runtime := disk.runtime, None;
      }
      DoesSucceed(Cfg(), start, acts, now);
      return None, acts + [Succeed];
    }

    /** Staging becomes runtime; if that fails the old tree is moved back, and a failure to do so is ignored. */
    method MoveIn(faults: Faults, ghost start: Sys, ghost acts: seq<Action>, ghost target: ControlPlaneState)
      returns (failed: Fault, ghost acts': seq<Action>)
      requires Valid() && Reached(start, acts, Stage.MoveStaging, target) && disk.runtime.None?
      modifies disk`runtime, disk`previous, disk`staging
      ensures failed == faults.moveStaging
      ensures failed.None? ==> disk.runtime == old(disk.staging) && disk.previous == old(disk.previous)
                               && Reached(start, acts', Stage.DropPrevious, target)
      ensures failed.Some? ==>
              (disk.runtime == old(disk.previous) || (disk.runtime.None? && disk.previous == old(disk.previous)))
                               && Reached(start, acts', Stage.MarkDegraded(failed.value), target)
      ensures failed.Some? && faults.restore.None? ==> disk.runtime == old(disk.previous) && disk.previous.None?
    {
      hide Does, Next, Enabled, Deployed;
      ghost var now := store.View(At(Stage.MoveStaging, target));
      failed := faults.moveStaging;
      if failed.None? {
        disk.runtime, disk.staging := disk.staging, None;
        DoesSucceed(Cfg(), start, acts, now);
        acts' := acts + [Succeed];
        return;
      }
      DoesFail(Cfg(), start, acts, now, failed.value);
      acts', now := acts + [Fail(failed.value)], store.View(At(Restore(failed.value), target));
      if disk.previous.Some? && faults.restore.Some? {
        DoesFail(Cfg(), start, acts', now, faults.restore.value);
        acts' := acts' + [Fail(faults.restore.value)];
      } else {
        if disk.previous.Some? {
          disk.runtime, disk.previous := disk.previous, None;
        }
        DoesSucceed(Cfg(), start, acts', now);
        acts' := acts' + [Succeed];
      }
    }

    /** Renders into staging; a failure may leave anything there. */
    method RenderStaging(faults: Faults, target: ControlPlaneState, ghost start: Sys, ghost acts: seq<Action>)
      returns (r: Result<string>, ghost acts': seq<Action>)
      requires Valid() && Reached(start, acts, Stage.Render, target)
      requires Shows(faults.stagingListing, Renderer.Render(target))
      modifies disk`staging
      ensures r.Ok? <==> faults.render.None?
      ensures r.Ok? ==> r.value == ConfigHashOf(Cfg(), target) && disk.staging == Some(Cfg().render(target))
                        && Reached(start, acts', Stage.Test, target)
      ensures r.Err? ==>
                r == Failed(faults.render) && Reached(start, acts', Stage.MarkDegraded(faults.render.value), target)
    {
      hide Does, Next, Enabled, Renderer.Render, TreeBytes;
      ghost var now := store.View(At(Stage.Render, target));
      if faults.render.Some? {
        disk.staging := faults.scratch;
        DoesPart(Cfg(), start, acts, now, faults.scratch);
        acts' := acts + [Scratch(faults.scratch)];
        DoesFail(Cfg(), start, acts', now.(staging := faults.scratch), faults.render.value);
        return Failed(faults.render), acts' + [Fail(faults.render.value)];
      }
      var tree := Renderer.RenderToStaging(target);
      disk.staging := Some(tree);
      DoesSucceed(Cfg(), start, acts, now);
      var digest := HashDirectory(hash, RootPrefixed, settings.stagingRoot, faults.stagingListing);
      return Ok(digest), acts + [Succeed];
    }

    /** A shell command that a dry run leaves out, or that always runs: the test, the backup, the reload. */
    method RunStage(skipped: bool, fault: Fault, ghost stage: Stage, ghost target: ControlPlaneState,
                    ghost start: Sys, ghost acts: seq<Action>)
      returns (failed: Fault, ghost acts': seq<Action>)
      requires Valid() && Reached(start, acts, stage, target) && (stage.Test? || stage.Backup? || stage.Reload?)
      requires skipped == (!stage.Backup? && settings.dryRun)
      ensures failed == if skipped then None else fault
      ensures failed.None? ==>
              Reached(start, acts', AfterStage(stage), target)
      ensures failed.Some? ==> Reached(start, acts', Stage.MarkDegraded(failed.value), target)
    {
      hide Does, Next, Enabled;
      ghost var now := store.View(At(stage, target));
      if !skipped && fault.Some? {
        DoesFail(Cfg(), start, acts, now, fault.value);
        return fault, acts + [Fail(fault.value)];
      }
      DoesSucceed(Cfg(), start, acts, now);
      return None, acts + [Succeed];
    }

    /** Render, test, back up, switch, reload: the first failure ends it. */
    method Pipeline(faults: Faults, target: ControlPlaneState, ghost start: Sys, ghost acts: seq<Action>)
      returns (r: Result<string>, ghost acts': seq<Action>)
      requires Valid() && Reached(start, acts, Stage.Render, target)
      requires Shows(faults.stagingListing, Renderer.Render(target))
      modifies disk`runtime, disk`previous, disk`staging
      ensures r.Ok? ==> r.value == ConfigHashOf(Cfg(), target) && disk.runtime == Some(Cfg().render(target))
                        && Reached(start, acts', Stage.MarkInSync, target)
      ensures var fault := PipelineFault(faults, settings.dryRun, old(disk.previous).Some?, old(disk.runtime).Some?);
              (r.Err? <==> fault.Some?) && (r.Err? ==> r == Failed(fault))
      ensures r.Err? ==> Reached(start, acts', Stage.MarkDegraded(r.error.message), target)
      ensures var early := SwitchFault(faults, settings.dryRun, old(disk.previous).Some?, old(disk.runtime).Some?);
              if early.None? then disk.runtime == Some(Cfg().render(target))
              else faults.restore.None? ==> disk.runtime == old(disk.runtime)
      ensures disk.runtime in {old(disk.runtime), Some(Cfg().render(target)), None}
      ensures disk.runtime.None? && old(disk.runtime).Some? ==> disk.previous == old(disk.runtime)
    {
      hide Does, Next, Enabled, Deployed, ConfigHashOf, Shows, Renderer.Render;
      var failed: Fault;
      r, acts' := RenderStaging(faults, target, start, acts);
      if r.Err? {
        return;
      }
      failed, acts' := RunStage(settings.dryRun, faults.test, Stage.Test, target, start, acts');
      if failed.Some? {
        return Failed(failed), acts';
      }
      failed, acts' := RunStage(false, faults.backup, Stage.Backup, target, start, acts');
      if failed.Some? {
        return Failed(failed), acts';
      }
      failed, acts' := CommitStaging(faults, start, acts', target);
      if failed.Some? {
        return Failed(failed), acts';
      }
      failed, acts' := RunStage(settings.dryRun, faults.reload, Stage.Reload, target, start, acts');
      if failed.Some? {
        return Failed(failed), acts';
      }
    }

    /** The hash of the runtime directory, if it exists. */
    method HashRuntime(fault: Fault, listing: Entry) returns (r: Result<Option<string>>)
      requires Valid() && (disk.runtime.Some? ==> Shows(listing, disk.runtime.value))
      ensures r.Err? <==> disk.runtime.Some? && fault.Some?
      ensures r.Err? ==> r == Failed(fault)
      ensures r.Ok? ==> r.value == RuntimeHash(Cfg(), disk.runtime)
    {
      if disk.runtime.None? {
        return Ok(None);
      }
      if fault.Some? {
        return Failed(fault);
      }
      var digest := HashDirectory(hash, RootPrefixed, settings.runtimeRoot, listing);
      return Ok(Some(digest));
    }

    /**
     `reconcile_once`, alone. It makes a run of the protocol and ends in one of four ways: the
     runtime directory cannot be read and nothing changes; it is skipped and nothing changes,
     exactly when nothing is behind and no drift is seen; it converges on the state it read; or the
     pipeline's first fault is returned and recorded, with the revisions and the hash kept. A fault
     up to the switch leaves the old tree in place, unless putting it back fails too, and then it is
     in `.previous`; a later fault leaves the new tree in place.
     */
    method ReconcileOnce(faults: Faults) returns (r: Result<Unit>, ghost acts: seq<Action>)
      requires Valid() && (disk.runtime.Some? ==> Shows(faults.runtimeListing, disk.runtime.value))
      requires Shows(faults.stagingListing, Renderer.Render(store.state))
      modifies store`status, disk`runtime, disk`previous, disk`staging
      ensures Valid() && Does(Cfg(), Next(Cfg(), old(store.View(Idle)), StartReconcile), acts, store.View(Idle))
      ensures old(disk.runtime).Some? && faults.hash.Some? ==>
              r == Failed(faults.hash) && store.View(Idle) == old(store.View(Idle))
      ensures var fault := PipelineFault(faults, settings.dryRun, old(disk.previous).Some?, old(disk.runtime).Some?);
              old(disk.runtime).None? || faults.hash.None? ==>
                if Skips(old(store.status), store.state, RuntimeHash(Cfg(), old(disk.runtime))) then
                  r.Ok? && store.View(Idle) == old(store.View(Idle))
                else if fault.None? then
                  r.Ok? && Converged(Cfg(), store.View(Idle))
                else
                  r == Failed(fault) && store.status == DegradedStatus(old(store.status), fault.value)
      ensures var early := SwitchFault(faults, settings.dryRun, old(disk.previous).Some?, old(disk.runtime).Some?);
              !(old(disk.runtime).Some? && faults.hash.Some?)
              && !Skips(old(store.status), store.state, RuntimeHash(Cfg(), old(disk.runtime))) ==>
                if early.None? then disk.runtime == Some(Cfg().render(store.state))
                else faults.restore.None? ==> disk.runtime == old(disk.runtime)
      ensures disk.runtime in {old(disk.runtime), Some(Cfg().render(store.state)), None}
      ensures disk.runtime.None? && old(disk.runtime).Some? ==> disk.previous == old(disk.runtime)
    {
      hide Does, Next, Enabled, Deployed, ConfigHashOf, RuntimeHash, Skips, Shows, Renderer.Render;
      var state, status := store.state, store.status;
      FirstReads(Cfg(), store.View(Idle));
      ghost var start := Next(Cfg(), store.View(Idle), StartReconcile);
      acts := [Succeed];
      var runtimeHash := HashRuntime(faults.hash, faults.runtimeListing);
      if runtimeHash.Err? {
        DoesNotHash(Cfg(), start, acts, store.View(At(Stage.HashRuntime(status), state)), faults.hash.value);
        return Failed(faults.hash), acts + [Fail(faults.hash.value)];
      }
      var skipped;
      skipped, acts := Compare(state, status, runtimeHash.value, start, acts);
      if skipped {
        return Ok(Unit), acts;
      }
      r, acts := Apply(faults, state, start, acts);
    }

    /** The pipeline and the status write that ends it. */
    method Apply(faults: Faults, target: ControlPlaneState, ghost start: Sys, ghost acts: seq<Action>)
      returns (r: Result<Unit>, ghost acts': seq<Action>)
      requires Valid() && Reached(start, acts, Stage.Render, target) && target == store.state
      requires Shows(faults.stagingListing, Renderer.Render(target))
      modifies store`status, disk`runtime, disk`previous, disk`staging
      ensures Valid() && Does(Cfg(), start, acts', store.View(Idle))
      ensures var fault := PipelineFault(faults, settings.dryRun, old(disk.previous).Some?, old(disk.runtime).Some?);
              if fault.None? then r.Ok? && Converged(Cfg(), store.View(Idle))
              else r == Failed(fault) && store.status == DegradedStatus(old(store.status), fault.value)
      ensures var early := SwitchFault(faults, settings.dryRun, old(disk.previous).Some?, old(disk.runtime).Some?);
              if early.None? then disk.runtime == Some(Cfg().render(target))
              else faults.restore.None? ==> disk.runtime == old(disk.runtime)
      ensures disk.runtime in {old(disk.runtime), Some(Cfg().render(target)), None}
      ensures disk.runtime.None? && old(disk.runtime).Some? ==> disk.previous == old(disk.runtime)
    {
      hide Does, Next, Enabled, Deployed, ConfigHashOf, Shows, Renderer.Render, PipelineFault, SwitchFault;
      var hash;
      hash, acts' := Pipeline(faults, target, start, acts);
      if hash.Ok? {
        DoesFinish(Cfg(), start, acts', store.View(At(Stage.MarkInSync, target)));
        store.MarkInSync(target.revision, hash.value);
        return Ok(Unit), acts' + [Succeed];
      }
      DoesFinish(Cfg(), start, acts', store.View(At(Stage.MarkDegraded(hash.error.message), target)));
      store.MarkDegraded(hash.error.message);
      return Err(hash.error), acts' + [Succeed];
    }

    /** Skips, or records the drift if there is one and begins to apply. */
    method Compare(state: ControlPlaneState, status: RuntimeStatus, actual: Option<string>, ghost start: Sys,
                   ghost acts: seq<Action>)
      returns (skipped: bool, ghost acts': seq<Action>)
      requires Valid() && Reached(start, acts, Stage.HashRuntime(status), state)
      requires status == store.status && actual == RuntimeHash(Cfg(), disk.runtime)
      modifies store`status
      ensures skipped == Skips(status, state, actual)
      ensures skipped ==> store.status == status && Does(Cfg(), start, acts', store.View(Idle))
      ensures !skipped ==> store.status == ApplyingStatus(status) && Reached(start, acts', Stage.Render, state)
    {
      hide Does, Next, Enabled, Deployed, RuntimeHash, DriftReason, Drift;
      var reason := DriftReason(settings.runtimeRoot, status.activeConfigHash, actual);
      DeployedReason(hash, RootPrefixed, settings, status.activeConfigHash, actual);
      DoesCompare(Cfg(), start, acts, store.View(At(Stage.HashRuntime(status), state)), status, actual);
      acts' := acts + [Succeed];
      var drift := Drift(status.activeConfigHash, actual);
      if status.observedRevision >= state.revision && !drift {
        return true, acts';
      }
      if drift {
        DoesMarkDrift(Cfg(), start, acts', store.View(At(MarkDrift(reason), state)), reason);
        acts' := acts' + [Succeed];
        store.MarkOutOfSync(reason);
      }
      DoesMarkApplying(Cfg(), start, acts', store.View(At(Stage.MarkApplying, state)));
      store.MarkApplying();
      return false, acts' + [Succeed];
    }
  }

  function Failed<T>(fault: Fault): Result<T>
    requires fault.Some?
  {
    Err(Internal(fault.value))
  }

  /** A reconcile takes the lock and reads the state, then the status. */
  lemma FirstReads(cfg: Config, s: Sys)
    requires s.rec.Idle? && s.put.NoPut?
    ensures Enabled(cfg, s, StartReconcile)
    ensures Does(cfg, Next(cfg, s, StartReconcile), [Succeed], s.(rec := At(Stage.HashRuntime(s.status), s.mem)))
  {
    var start := Next(cfg, s, StartReconcile);
    assert Does(cfg, start, [], start);
    DoesSucceed(cfg, start, [], start);
    assert [] + [Succeed] == [Succeed];
  }
}
