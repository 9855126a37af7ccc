/** The directory switch under failures and crashes. */
module ProtocolSwitch {
  import opened Base
  import opened ConfigHash
  import opened Model
  import opened Protocol
  import opened ProtocolInvariant
  import opened ProtocolPipeline
  import opened ProtocolRuns

  /** The old tree or the new one is complete in its place, or the old one waits in `.previous`. */
  ghost predicate Recoverable(cfg: Config, s: Sys, was: Tree, target: ControlPlaneState)
  {
    || s.runtime == Some(was)
    || s.runtime == Some(cfg.render(target))
    || (s.runtime.None? && s.previous == Some(was))
  }

  /** What the directories hold at each stage of a reconcile that found `was` in place. */
  ghost predicate SwitchInv(cfg: Config, s: Sys, was: Tree, target: ControlPlaneState)
  {
    match s.rec
    case Idle => Recoverable(cfg, s, was, target)
    case At(stage, t) =>
      && t == target
      && (HoldsStaging(stage) ==> s.staging == Some(cfg.render(target)))
      && match stage
         case MoveStaging | Restore(_) => s.runtime.None? && s.previous == Some(was)
         case DropPrevious | Reload | MarkInSync => s.runtime == Some(cfg.render(target))
         case MarkDegraded(_) => Recoverable(cfg, s, was, target)
         case _ => s.runtime == Some(was)
  }

  lemma SwitchStep(cfg: Config, s: Sys, a: Action, was: Tree, target: ControlPlaneState)
    requires SwitchInv(cfg, s, was, target) && Enabled(cfg, s, a) && !a.Edit? && !a.StartReconcile?
    ensures SwitchInv(cfg, Next(cfg, s, a), was, target)
  {
  }

  /** A run whose first step starts a reconcile and in which no second one starts and nobody edits. */
  ghost predicate OneReconcile(cfg: Config, tr: seq<Sys>, acts: seq<Action>)
  {
    && Run(cfg, tr, acts) && acts != [] && acts[0].StartReconcile?
    && forall m :: 1 <= m < |acts| ==> !acts[m].StartReconcile? && !acts[m].Edit?
  }

  lemma {:induction false} SwitchRun(cfg: Config, tr: seq<Sys>, acts: seq<Action>, was: Tree, i: nat)
    requires OneReconcile(cfg, tr, acts) && 1 <= i < |tr| && tr[0].runtime == Some(was)
    ensures SwitchInv(cfg, tr[i], was, tr[0].mem)
  {
    if i == 1 {
      assert StepAt(cfg, tr, acts, 0);
    } else {
      hide Next, Enabled, SwitchInv;
      assert StepAt(cfg, tr, acts, i - 1);
      SwitchRun(cfg, tr, acts, was, i - 1);
      SwitchStep(cfg, tr[i - 1], acts[i - 1], was, tr[0].mem);
    }
  }

  /**
   If the runtime directory exists when a reconcile starts, then at every point of it, and after
   any failure or crash, the complete old tree or the complete new tree can be found: the runtime
   directory never holds a mixture, and while it is missing `.previous` holds the old tree.
   */
  lemma CrashSafeSwitch(cfg: Config, tr: seq<Sys>, acts: seq<Action>, was: Tree, i: nat)
    requires OneReconcile(cfg, tr, acts) && i < |tr| && tr[0].runtime == Some(was)
    ensures Recoverable(cfg, tr[i], was, tr[0].mem)
    ensures tr[i].runtime in {None, Some(was), Some(cfg.render(tr[0].mem))}
    ensures tr[i].runtime.None? ==> tr[i].previous == Some(was)
  {
    if i > 0 {
      SwitchRun(cfg, tr, acts, was, i);
    }
  }

  /** A finished reconcile has a runtime directory, and an unfinished one while it is not between the two renames. */
  ghost predicate InPlace(s: Sys)
  {
    s.runtime.Some? || (s.rec.At? && (s.rec.stage.MoveStaging? || s.rec.stage.Restore?) && s.previous.Some?)
  }

  lemma InPlaceStep(cfg: Config, s: Sys, a: Action)
    requires Enabled(cfg, s, a) && InPlace(s) && !a.Edit? && !a.Crash?
    requires s.rec.At? && HoldsStaging(s.rec.stage) ==> s.staging.Some?
    requires s.rec.At? && s.rec.stage.Restore? ==> !a.Fail?
    ensures InPlace(Next(cfg, s, a))
  {
  }

  lemma StagingHeld(cfg: Config, s: Sys, was: Tree, target: ControlPlaneState)
    requires SwitchInv(cfg, s, was, target) && s.rec.At? && HoldsStaging(s.rec.stage)
    ensures s.staging.Some?
  {
  }

  /**
   A reconcile that found a runtime directory leaves one, whatever fails, unless the process crashes
   or the old tree cannot be moved back.
   */
  lemma {:induction false} MissingOnlyIfRestoreFails(cfg: Config, tr: seq<Sys>, acts: seq<Action>, was: Tree, i: nat)
    requires OneReconcile(cfg, tr, acts) && i < |tr| && tr[0].runtime == Some(was)
    requires forall m :: 0 <= m < i ==> !acts[m].Crash?
    requires forall m :: 1 <= m < i && acts[m].Fail? ==> !(tr[m].rec.At? && tr[m].rec.stage.Restore?)
    ensures InPlace(tr[i])
    ensures tr[i].rec.Idle? ==> tr[i].runtime.Some?
  {
    if i == 1 {
      assert StepAt(cfg, tr, acts, 0);
    } else if i > 1 {
      var h := i - 1;
      MissingOnlyIfRestoreFails(cfg, tr, acts, was, h);
      assert StepAt(cfg, tr, acts, h);
      SwitchRun(cfg, tr, acts, was, h);
      hide Next, Enabled, SwitchInv, HoldsStaging;
      if tr[h].rec.At? && HoldsStaging(tr[h].rec.stage) {
        StagingHeld(cfg, tr[h], was, tr[0].mem);
      }
      InPlaceStep(cfg, tr[h], acts[h]);
    }
  }

  lemma DegradingStep(cfg: Config, s: Sys, a: Action, error: string)
    requires Enabled(cfg, s, a) && StageIs(s, MarkDegraded(error)) && !a.Crash?
    ensures var s' := Next(cfg, s, a);
            && s'.runtime == (if a.Edit? then a.tree else s.runtime)
            && s'.status.observedRevision == s.status.observedRevision
            && s'.status.activeConfigHash == s.status.activeConfigHash
            && if a.Succeed? then s'.rec.Idle? && s'.status == DegradedStatus(s.status, error)
               else StageIs(s', MarkDegraded(error))
  {
  }

  /** Between a failure and the status write, only edits touch the runtime directory. */
  lemma {:induction false} Degrading(cfg: Config, tr: seq<Sys>, acts: seq<Action>, i: nat, j: nat, error: string)
    requires Run(cfg, tr, acts) && i <= j < |tr| && StageIs(tr[i], MarkDegraded(error))
    requires forall m :: i <= m < j ==> !acts[m].Succeed? && !acts[m].Crash?
    ensures StageIs(tr[j], MarkDegraded(error)) && tr[j].runtime == AfterEdits(acts, i, j, tr[i].runtime)
    ensures tr[j].status.observedRevision == tr[i].status.observedRevision
    ensures tr[j].status.activeConfigHash == tr[i].status.activeConfigHash
    decreases j - i
  {
    if i < j {
      hide Next, Enabled, StageIs;
      Degrading(cfg, tr, acts, i, j - 1, error);
      assert StepAt(cfg, tr, acts, j - 1);
      DegradingStep(cfg, tr[j - 1], acts[j - 1], error);
    }
  }

  lemma {:induction false} EditsTwice(acts: seq<Action>, i: nat, k: nat, j: nat, tree: Option<Tree>)
    requires i <= k <= j <= |acts|
    ensures AfterEdits(acts, i, j, tree) == AfterEdits(acts, k, j, AfterEdits(acts, i, k, tree))
  {
    if k < j {
      EditsTwice(acts, i, k, j - 1, tree);
    }
  }

  lemma ReloadFailureStep(cfg: Config, s: Sys, a: Action)
    requires Enabled(cfg, s, a) && StageIs(s, Reload) && a.Fail?
    ensures Next(cfg, s, a) == s.(rec := At(MarkDegraded(a.error), s.rec.target))
  {
  }

  /**
   A failed reload is not rolled back, in any history: when its error is recorded at `j`, the new
   tree that was switched in is still in place, but for edits, the status is degraded with that
   error, and the observed revision and the hash are the old ones.
   */
  lemma ReloadFailureKeepsNewTree(cfg: Config, tr: seq<Sys>, acts: seq<Action>, i: nat, j: nat) returns (p: Pipeline)
    requires History(cfg, tr, acts) && i < j < |acts| && StageIs(tr[i], Reload) && acts[i].Fail? && acts[j].Succeed?
    requires forall m :: i < m < j ==> !acts[m].Succeed? && !acts[m].Crash?
    ensures Began(tr, acts, p.began, i) && p.switched < i && Switches(tr[p.switched], acts[p.switched])
    ensures tr[j + 1].runtime == AfterEdits(acts, p.switched + 1, j, Some(cfg.render(tr[p.began].mem)))
    ensures tr[j + 1].status.syncState.Degraded? && tr[j + 1].status.lastError == Some(acts[i].error)
    ensures tr[j + 1].status.observedRevision == tr[i].status.observedRevision
    ensures tr[j + 1].status.activeConfigHash == tr[i].status.activeConfigHash
  {
    p := PipelineHistory(cfg, tr, acts, i);
    hide Next, Enabled, PipelineOf, Began;
    var error, tree := acts[i].error, Some(cfg.render(tr[p.began].mem));
    assert StepAt(cfg, tr, acts, i) && StepAt(cfg, tr, acts, j);
    ReloadFailureStep(cfg, tr[i], acts[i]);
    Degrading(cfg, tr, acts, i + 1, j, error);
    DegradingStep(cfg, tr[j], acts[j], error);
    EditsTwice(acts, p.switched + 1, i + 1, j, tree);
  }

  /** Every single-reconcile run from `s` keeps the old tree or the new one within reach. */
  ghost predicate AlwaysRecoverable(cfg: Config, s: Sys, was: Tree)
  {
    forall tr, acts, i: nat :: OneReconcile(cfg, tr, acts) && tr[0] == s && i < |tr| ==>
      Recoverable(cfg, tr[i], was, s.mem)
  }

  /** Without a runtime directory each stage up to the switch may succeed, and `.previous` is cleared on the way. */
  ghost predicate Losing(s: Sys)
  {
    s.rec.At? && 0 <= Rank(s.rec.stage) <= 10 && s.runtime.None? && (Rank(s.rec.stage) > 8 ==> s.previous.None?)
  }

  lemma LosingStep(cfg: Config, s: Sys)
    requires Losing(s) && !s.rec.stage.MoveStaging?
    ensures Enabled(cfg, s, Succeed) && Losing(Next(cfg, s, Succeed))
    ensures Rank(Next(cfg, s, Succeed).rec.stage) > Rank(s.rec.stage)
  {
  }

  lemma {:induction false} LoseFrom(cfg: Config, tr: seq<Sys>, acts: seq<Action>)
    returns (tr': seq<Sys>, acts': seq<Action>)
    requires OneReconcile(cfg, tr, acts) && Losing(tr[|acts|])
    ensures OneReconcile(cfg, tr', acts') && tr'[0] == tr[0]
    ensures tr'[|acts'|].runtime.None? && tr'[|acts'|].previous.None?
    decreases 10 - Rank(tr[|acts|].rec.stage)
  {
    var s := tr[|acts|];
    if s.rec.stage.MoveStaging? {
      return tr, acts;
    }
    hide Next, Enabled;
    LosingStep(cfg, s);
    tr', acts' := tr + [Next(cfg, s, Succeed)], acts + [Succeed];
    forall i ensures StepAt(cfg, tr', acts', i)
    {
      assert StepAt(cfg, tr, acts, i);
    }
    tr', acts' := LoseFrom(cfg, tr', acts');
  }

  /** A run that clears `.previous` and then cannot move staging into place. */
  lemma LosingRun(cfg: Config, s: Sys) returns (tr: seq<Sys>, acts: seq<Action>)
    requires s.rec.Idle? && s.put.NoPut? && s.runtime.None?
    ensures OneReconcile(cfg, tr, acts) && tr[0] == s
    ensures var last := tr[|acts|]; last.runtime.None? && last.previous.None?
  {
    tr, acts := LoseFrom(cfg, [s, Next(cfg, s, StartReconcile)], [StartReconcile]);
  }

  /**
   The guarantee holds exactly when the runtime directory exists at the start: a reconcile that
   finds it missing first deletes `.previous`, which may be the only copy of the old tree.
   */
  lemma RecoverableIff(cfg: Config, s: Sys, was: Tree)
    requires s.rec.Idle? && s.put.NoPut?
    requires if s.runtime.Some? then s.runtime == Some(was) else s.previous == Some(was)
    ensures AlwaysRecoverable(cfg, s, was) <==> s.runtime.Some?
  {
    if s.runtime.Some? {
      forall tr, acts, i: nat | OneReconcile(cfg, tr, acts) && tr[0] == s && i < |tr|
        ensures Recoverable(cfg, tr[i], was, s.mem)
      {
        CrashSafeSwitch(cfg, tr, acts, was, i);
      }
    } else {
      var tr, acts := LosingRun(cfg, s);
      assert !Recoverable(cfg, tr[|acts|], was, s.mem);
    }
  }

  // ----- many reconciles -----

  /** The tree in place at `i`, or the rendering of a state that a reconcile since `i` has read. */
  ghost predicate Whole(cfg: Config, tr: seq<Sys>, acts: seq<Action>, i: nat, j: nat, tree: Tree)
    requires |tr| == |acts| + 1 && i <= j < |tr|
  {
    || tr[i].runtime == Some(tree)
    || exists b :: i <= b < j && acts[b].StartReconcile? && cfg.render(tr[b].mem) == tree
  }

  /** A whole tree is in place, or waits in `.previous` while the place is empty. */
  ghost predicate HoldsWhole(cfg: Config, tr: seq<Sys>, acts: seq<Action>, i: nat, j: nat)
    requires |tr| == |acts| + 1 && i <= j < |tr|
  {
    if tr[j].runtime.Some? then Whole(cfg, tr, acts, i, j, tr[j].runtime.value)
    else tr[j].previous.Some? && Whole(cfg, tr, acts, i, j, tr[j].previous.value)
  }

  lemma IdleStep(cfg: Config, s: Sys, a: Action)
    requires Enabled(cfg, s, a) && s.rec.Idle? && !a.Edit? && !a.StartReconcile?
    ensures var s' := Next(cfg, s, a); s'.rec.Idle? && s'.runtime == s.runtime
  {
  }

  lemma StartStep(cfg: Config, s: Sys, was: Tree)
    requires Enabled(cfg, s, StartReconcile) && s.runtime == Some(was)
    ensures SwitchInv(cfg, Next(cfg, s, StartReconcile), was, s.mem)
  {
  }

  lemma StaysWhole(cfg: Config, tr: seq<Sys>, acts: seq<Action>, i: nat, j: nat, tree: Tree)
    requires |tr| == |acts| + 1 && i <= j < |acts| && Whole(cfg, tr, acts, i, j, tree)
    ensures Whole(cfg, tr, acts, i, j + 1, tree)
  {
  }

  /** Where the whole trees are: untouched before the first reconcile, then as the switch leaves them. */
  lemma {:induction false} WholeRun(cfg: Config, tr: seq<Sys>, acts: seq<Action>, i: nat, j: nat)
    returns (started: bool, was: Tree, target: ControlPlaneState)
    requires Run(cfg, tr, acts) && i <= j < |tr| && tr[i].rec.Idle? && tr[i].runtime.Some?
    requires forall m :: i <= m < j ==> !acts[m].Edit? && (acts[m].StartReconcile? ==> tr[m].runtime.Some?)
    ensures Whole(cfg, tr, acts, i, j, was)
    ensures if started then SwitchInv(cfg, tr[j], was, target) && Whole(cfg, tr, acts, i, j, cfg.render(target))
            else tr[j].rec.Idle? && tr[j].runtime == Some(was)
    decreases j - i
  {
    if i == j {
      return false, tr[i].runtime.value, tr[i].mem;
    }
    var h := j - 1;
    started, was, target := WholeRun(cfg, tr, acts, i, h);
    assert StepAt(cfg, tr, acts, h);
    StaysWhole(cfg, tr, acts, i, h, was);
    if started {
      StaysWhole(cfg, tr, acts, i, h, cfg.render(target));
    }
    hide Next, Enabled;
    if acts[h].StartReconcile? {
      assert tr[h].rec.Idle? by { StartsIdle(cfg, tr[h]); }
      assert tr[h].runtime.value in {was, cfg.render(target)};
      was, target, started := tr[h].runtime.value, tr[h].mem, true;
      StartStep(cfg, tr[h], was);
    } else if started {
      hide SwitchInv;
      SwitchStep(cfg, tr[h], acts[h], was, target);
    } else {
      IdleStep(cfg, tr[h], acts[h]);
    }
  }

  lemma StartsIdle(cfg: Config, s: Sys)
    requires Enabled(cfg, s, StartReconcile)
    ensures s.rec.Idle?
  {
  }

  /**
   Over any number of reconciles, puts, failures and crashes, without edits, a whole tree is lost
   only if some reconcile begins with the runtime directory missing.
   */
  lemma LostOnlyIfMissingAtStart(cfg: Config, tr: seq<Sys>, acts: seq<Action>, i: nat, j: nat)
    requires Run(cfg, tr, acts) && i <= j < |tr| && tr[i].rec.Idle? && tr[i].runtime.Some?
    requires forall m :: i <= m < j ==> !acts[m].Edit?
    ensures HoldsWhole(cfg, tr, acts, i, j) || exists b :: i <= b < j && acts[b].StartReconcile? && tr[b].runtime.None?
  {
    if forall b :: i <= b < j && acts[b].StartReconcile? ==> tr[b].runtime.Some? {
      hide Whole;
      var started, was, target := WholeRun(cfg, tr, acts, i, j);
    }
  }
}
