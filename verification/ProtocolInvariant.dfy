/** What every step of the control loop keeps. */
module ProtocolInvariant {
  import opened Base
  import opened Model
  import opened Protocol

  ghost predicate PutInv(cfg: Config, s: Sys)
  {
    && cfg.accepts(s.mem) && cfg.accepts(s.disk)
    && match s.put
       case NoPut => s.disk == s.mem
       case Writing(next) => s.disk == s.mem && next.revision == NextRevision(s.mem.revision) && cfg.accepts(next)
       case Written(next) => s.disk == next && next.revision == s.mem.revision + 1
       case Installed(next) => s.disk == s.mem == next && s.status.desiredRevision < next.revision
  }

  /** The revision that a settled status may name as desired. */
  function SettledRevision(s: Sys): int
  {
    if s.put.Installed? then s.mem.revision - 1 else s.mem.revision
  }

  ghost predicate StatusInv(s: Sys)
  {
    && s.status.observedRevision <= s.status.desiredRevision <= s.mem.revision
    && (s.status.desiredRevision == s.status.observedRevision || s.status.desiredRevision == SettledRevision(s))
    && (s.status.syncState.InSync? ==>
          s.status.desiredRevision == s.status.observedRevision && s.status.lastError.None?)
  }

  ghost predicate ReconcileInv(s: Sys)
  {
    s.rec.At? ==>
      && s.status.observedRevision <= s.rec.target.revision <= s.mem.revision
      && (s.rec.target.revision == s.mem.revision ==> s.rec.target == s.mem)
      && (s.put.Installed? ==> s.rec.target.revision < s.mem.revision)
      && (s.rec.stage.HashRuntime? ==>
            && s.rec.stage.seen.observedRevision == s.status.observedRevision
            && s.rec.stage.seen.activeConfigHash == s.status.activeConfigHash)
  }

  predicate HoldsStaging(stage: Stage)
  {
    stage in {Test, Backup, MakeParent, ClearPrevious, MoveRuntime, MoveStaging} || stage.Restore?
  }

  /** From the end of rendering to the switch, staging is exactly the rendering of the target. */
  ghost predicate StagingInv(cfg: Config, s: Sys)
  {
    s.rec.At? && HoldsStaging(s.rec.stage) ==> s.staging == Some(cfg.render(s.rec.target))
  }

  ghost predicate Produced(cfg: Config, hash: string)
  {
    exists st: ControlPlaneState :: hash == ConfigHashOf(cfg, st)
  }

  /** Every recorded hash is the staging hash of some rendered state. */
  ghost predicate HashInv(cfg: Config, s: Sys)
  {
    s.status.activeConfigHash.Some? ==> Produced(cfg, s.status.activeConfigHash.value)
  }

  ghost predicate Inv(cfg: Config, s: Sys)
  {
    PutInv(cfg, s) && StatusInv(s) && ReconcileInv(s) && StagingInv(cfg, s) && HashInv(cfg, s)
  }

  lemma InitialInv(cfg: Config, s: Sys)
    requires Initial(cfg, s)
    ensures Inv(cfg, s)
  {
  }

  lemma PutStepInv(cfg: Config, s: Sys, a: Action)
    requires Inv(cfg, s) && Enabled(cfg, s, a) && !Wraps(s, a)
    requires a.BeginPut? || a.RejectPut? || a.PutGoesOn? || a.PutFails?
    ensures Inv(cfg, Next(cfg, s, a))
  {
  }

  predicate StatusStage(stage: Stage)
  {
    stage in {MarkApplying, MarkInSync} || stage.MarkDrift? || stage.MarkDegraded?
  }

  lemma StatusStageInv(cfg: Config, s: Sys)
    requires Inv(cfg, s) && Enabled(cfg, s, Succeed) && StatusStage(s.rec.stage)
    ensures Inv(cfg, Next(cfg, s, Succeed))
  {
    if s.rec.stage.MarkInSync? {
      assert Produced(cfg, ConfigHashOf(cfg, s.rec.target));
    }
  }

  predicate ReadStage(stage: Stage)
  {
    stage.ReadStatus? || stage.HashRuntime?
  }

  lemma ReadStageInv(cfg: Config, s: Sys)
    requires Inv(cfg, s) && Enabled(cfg, s, Succeed) && ReadStage(s.rec.stage)
    ensures Inv(cfg, Next(cfg, s, Succeed))
  {
    var s' := Next(cfg, s, Succeed);
    assert s'.status == s.status && s'.put == s.put && s'.mem == s.mem && s'.disk == s.disk;
  }

  lemma DirectoryStageInv(cfg: Config, s: Sys)
    requires Inv(cfg, s) && Enabled(cfg, s, Succeed)
    requires !StatusStage(s.rec.stage) && !ReadStage(s.rec.stage)
    ensures Inv(cfg, Next(cfg, s, Succeed))
  {
    var s' := Next(cfg, s, Succeed);
    assert s'.status == s.status && s'.put == s.put && s'.mem == s.mem && s'.disk == s.disk;
  }

  lemma OtherStepInv(cfg: Config, s: Sys, a: Action)
    requires Inv(cfg, s) && Enabled(cfg, s, a)
    requires a.StartReconcile? || a.Fail? || a.Scratch? || a.Edit? || a.Crash?
    ensures Inv(cfg, Next(cfg, s, a))
  {
  }

  lemma StepInv(cfg: Config, s: Sys, a: Action)
    requires Inv(cfg, s) && Enabled(cfg, s, a) && !Wraps(s, a)
    ensures Inv(cfg, Next(cfg, s, a))
  {
    match a
    case BeginPut(_, _) | RejectPut(_, _) | PutGoesOn | PutFails => PutStepInv(cfg, s, a);
    case Succeed =>
      if StatusStage(s.rec.stage) { StatusStageInv(cfg, s); }
      else if ReadStage(s.rec.stage) { ReadStageInv(cfg, s); }
      else { DirectoryStageInv(cfg, s); }
    case StartReconcile | Fail(_) | Scratch(_) | Edit(_) | Crash => OtherStepInv(cfg, s, a);
  }
}
