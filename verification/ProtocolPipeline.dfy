/** The status, the order of the pipeline and convergence, over whole runs. */
module ProtocolPipeline {
  import opened Base
  import opened ConfigHash
  import opened Model
  import opened Protocol
  import opened ProtocolInvariant
  import opened ProtocolPlay
  import opened ProtocolRuns

  // ----- pipelines -----

  function Rank(stage: Stage): int
  {
    match stage
    case ReadStatus => 0
    case HashRuntime(_) => 1
    case MarkDrift(_) => 2
    case MarkApplying => 3
    case Render => 4
    case Test => 5
    case Backup => 6
    case MakeParent => 7
    case ClearPrevious => 8
    case MoveRuntime => 9
    case MoveStaging => 10
    case Restore(_) => 11
    case DropPrevious => 12
    case Reload => 13
    case MarkInSync => 14
    case MarkDegraded(_) => -1
  }

  /** Where in a run the reconcile that is active at some point made its decisive steps. */
  datatype Pipeline = Pipeline(began: nat, tested: nat, backedUp: nat, switched: nat, reloaded: nat)

  predicate Succeeds(s: Sys, a: Action, stage: Stage)
  {
    a.Succeed? && StageIs(s, stage)
  }

  ghost predicate Began(tr: seq<Sys>, acts: seq<Action>, b: nat, i: nat)
    requires |tr| == |acts| + 1 && i < |tr|
  {
    && b < i && acts[b].StartReconcile? && tr[i].rec.At?
    && (forall m :: b < m <= i ==> tr[m].rec.At? && tr[m].rec.target == tr[b].mem)
    && (forall m :: b < m < i ==> !acts[m].StartReconcile? && !acts[m].Crash?)
  }

  /** The runtime directory after the edits in `[i, j)`, which replace `tree`. */
  function AfterEdits(acts: seq<Action>, i: nat, j: nat, tree: Option<Tree>): Option<Tree>
    requires j <= |acts|
    decreases j
  {
    if j <= i then tree
    else if acts[j - 1].Edit? then acts[j - 1].tree
    else AfterEdits(acts, i, j - 1, tree)
  }

  lemma {:induction false} NoEdits(acts: seq<Action>, i: nat, j: nat, tree: Option<Tree>)
    requires j <= |acts| && forall m :: i <= m < j ==> !acts[m].Edit?
    ensures AfterEdits(acts, i, j, tree) == tree
  {
    if i < j {
      NoEdits(acts, i, j - 1, tree);
    }
  }

  ghost predicate PipelineOf(cfg: Config, tr: seq<Sys>, acts: seq<Action>, i: nat, p: Pipeline)
    requires |tr| == |acts| + 1 && i < |tr|
  {
    && Began(tr, acts, p.began, i)
    && var tree := Some(cfg.render(tr[i].rec.target));
       var rank := Rank(tr[i].rec.stage);
       && (rank > 5 ==> p.began < p.tested < i && Succeeds(tr[p.tested], acts[p.tested], Test)
                        && tr[p.tested].staging == tree)
       && (rank > 6 ==> p.tested < p.backedUp < i && Succeeds(tr[p.backedUp], acts[p.backedUp], Backup)
                        && tr[p.backedUp].disk.revision >= tr[i].rec.target.revision)
       && (rank > 11 ==> p.backedUp < p.switched < i && Switches(tr[p.switched], acts[p.switched])
                         && tr[p.switched].staging == tree
                         && tr[i].runtime == AfterEdits(acts, p.switched + 1, i, tree))
       && (rank > 13 ==> p.switched < p.reloaded < i && Succeeds(tr[p.reloaded], acts[p.reloaded], Reload))
  }

  /** A reconcile moves on by one stage at a time and only its start changes its target. */
  lemma StageStep(cfg: Config, s: Sys, a: Action)
    requires Inv(cfg, s) && Enabled(cfg, s, a) && Next(cfg, s, a).rec.At?
    ensures var s' := Next(cfg, s, a);
            if a.StartReconcile? then s.rec.Idle? && s'.rec == At(ReadStatus, s.mem) else
              s.rec.At? && s'.rec.target == s.rec.target && !a.Crash? &&
              var rank, rank' := Rank(s.rec.stage), Rank(s'.rec.stage);
              && (rank' > 5 ==> rank > 5 || (Succeeds(s, a, Test) && s.staging == Some(cfg.render(s.rec.target))))
              && (rank' > 6 ==> rank > 6 || (Succeeds(s, a, Backup) && s.disk.revision >= s.rec.target.revision))
              && (rank' > 11 ==> rank > 11 || (Switches(s, a) && s.staging == Some(cfg.render(s.rec.target))))
              && (Switches(s, a) ==> rank == 10 && s'.runtime == s.staging)
              && (rank > 11 && rank' > 11 ==> s'.runtime == if a.Edit? then a.tree else s.runtime)
              && (rank' > 13 ==> rank > 13 || Succeeds(s, a, Reload))
  {
  }

  lemma BeganStep(tr: seq<Sys>, acts: seq<Action>, b: nat, h: nat)
    requires |tr| == |acts| + 1 && h < |acts| && Began(tr, acts, b, h)
    requires tr[h + 1].rec.At? && tr[h + 1].rec.target == tr[h].rec.target
    requires !acts[h].StartReconcile? && !acts[h].Crash?
    ensures Began(tr, acts, b, h + 1) && b < h
  {
  }

  /** Whatever a reconcile has reached, the earlier stages succeeded in the same reconcile, in order. */
  lemma {:induction false} PipelineHistory(cfg: Config, tr: seq<Sys>, acts: seq<Action>, i: nat) returns (p: Pipeline)
    requires History(cfg, tr, acts) && i < |tr| && tr[i].rec.At?
    ensures PipelineOf(cfg, tr, acts, i, p)
  {
    hide Next, Enabled, Inv, Wraps;
    var h := i - 1;
    HistoryInv(cfg, tr, acts, h);
    assert StepAt(cfg, tr, acts, h);
    StageStep(cfg, tr[h], acts[h]);
    if acts[h].StartReconcile? {
      p := Pipeline(h, 0, 0, 0, 0);
    } else {
      hide Succeeds, Switches, Rank, Began;
      var q := PipelineHistory(cfg, tr, acts, h);
      BeganStep(tr, acts, q.began, h);
      var before, a := tr[h], acts[h];
      p := q.(
        tested := if Succeeds(before, a, Test) then h else q.tested,
        backedUp := if Succeeds(before, a, Backup) then h else q.backedUp,
        switched := if Switches(before, a) then h else q.switched,
        reloaded := if Succeeds(before, a, Reload) then h else q.reloaded);
    }
  }

  /** Each switch installs a tree that this reconcile tested and backed up before. */
  lemma SwitchTestedAndBackedUp(cfg: Config, tr: seq<Sys>, acts: seq<Action>, i: nat) returns (p: Pipeline)
    requires History(cfg, tr, acts) && i < |acts| && Switches(tr[i], acts[i])
    ensures p.began < p.tested < p.backedUp < i && Began(tr, acts, p.began, i)
    ensures Succeeds(tr[p.tested], acts[p.tested], Test) && tr[p.tested].staging == tr[i].staging == tr[i + 1].runtime
    ensures Succeeds(tr[p.backedUp], acts[p.backedUp], Backup)
    ensures tr[p.backedUp].disk.revision >= tr[i].rec.target.revision
  {
    p := PipelineHistory(cfg, tr, acts, i);
    HistoryInv(cfg, tr, acts, i);
    assert StepAt(cfg, tr, acts, i);
  }

  /** Only a success and a restart touch the observed revision and the active hash. */
  lemma StepRecords(cfg: Config, s: Sys, a: Action)
    requires Inv(cfg, s) && Enabled(cfg, s, a)
    ensures var s' := Next(cfg, s, a);
            && (a.Crash? ==> s'.status.activeConfigHash.None?)
            && (RecordsInSync(s, a) ==>
                  && s.rec.At? && s'.rec.Idle?
                  && s'.status.activeConfigHash == Some(ConfigHashOf(cfg, s.rec.target))
                  && s'.status.observedRevision == s.rec.target.revision)
            && (!a.Crash? && !RecordsInSync(s, a) ==>
                  && s'.status.activeConfigHash == s.status.activeConfigHash
                  && s'.status.observedRevision == s.status.observedRevision)
  {
  }

  /**
   Between restarts the observed revision and the active hash change only when a reconcile that
   switched, after its test and backup, also reloaded.
   */
  lemma ObservedNeedsFullPipeline(cfg: Config, tr: seq<Sys>, acts: seq<Action>, i: nat) returns (p: Pipeline)
    requires History(cfg, tr, acts) && i < |acts| && !acts[i].Crash?
    requires tr[i + 1].status.observedRevision != tr[i].status.observedRevision
             || tr[i + 1].status.activeConfigHash != tr[i].status.activeConfigHash
    ensures p.began < p.tested < p.backedUp < p.switched < p.reloaded < i && Began(tr, acts, p.began, i)
    ensures Succeeds(tr[p.tested], acts[p.tested], Test) && Succeeds(tr[p.backedUp], acts[p.backedUp], Backup)
    ensures Switches(tr[p.switched], acts[p.switched]) && Succeeds(tr[p.reloaded], acts[p.reloaded], Reload)
    ensures tr[p.tested].staging == tr[p.switched].staging == Some(cfg.render(tr[p.began].mem))
    ensures tr[p.backedUp].disk.revision >= tr[p.began].mem.revision
    ensures tr[i + 1].status.observedRevision == tr[p.began].mem.revision
    ensures tr[i + 1].status.activeConfigHash == Some(ConfigHashOf(cfg, tr[p.began].mem))
  {
    HistoryInv(cfg, tr, acts, i);
    assert StepAt(cfg, tr, acts, i);
    StepRecords(cfg, tr[i], acts[i]);
    p := PipelineHistory(cfg, tr, acts, i);
  }

  predicate BeforeCommit(rec: Reconcile)
  {
    rec.Idle? || Rank(rec.stage) <= 6
  }

  lemma EarlyStep(cfg: Config, s: Sys, a: Action)
    requires Inv(cfg, s) && Enabled(cfg, s, a) && BeforeCommit(s.rec)
    requires !a.Edit? && !a.Crash? && !Succeeds(s, a, Backup)
    ensures var s' := Next(cfg, s, a);
            && BeforeCommit(s'.rec) && s'.runtime == s.runtime && s'.previous == s.previous
            && s'.status.observedRevision == s.status.observedRevision
            && s'.status.activeConfigHash == s.status.activeConfigHash
  {
  }

  /**
   Reconciles that fail in render, test or backup, any number of them and with any puts in
   between, leave the runtime tree, the observed revision and the active hash as they were.
   */
  lemma {:induction false} EarlyFailuresChangeNothing(cfg: Config, tr: seq<Sys>, acts: seq<Action>, i: nat, j: nat)
    requires History(cfg, tr, acts) && i <= j < |tr| && tr[i].rec.Idle?
    requires forall m :: i <= m < j ==> !acts[m].Edit? && !acts[m].Crash? && !Succeeds(tr[m], acts[m], Backup)
    ensures BeforeCommit(tr[j].rec)
    ensures tr[j].runtime == tr[i].runtime && tr[j].previous == tr[i].previous
    ensures tr[j].status.observedRevision == tr[i].status.observedRevision
    ensures tr[j].status.activeConfigHash == tr[i].status.activeConfigHash
    decreases j - i
  {
    if i < j {
      hide Next, Enabled, Inv, BeforeCommit;
      EarlyFailuresChangeNothing(cfg, tr, acts, i, j - 1);
      HistoryInv(cfg, tr, acts, j - 1);
      assert StepAt(cfg, tr, acts, j - 1);
      EarlyStep(cfg, tr[j - 1], acts[j - 1]);
    }
  }

  // ----- convergence -----

  ghost predicate NoPutsFrom(tr: seq<Sys>, acts: seq<Action>, i: nat)
    requires |tr| == |acts| + 1 && i < |tr|
  {
    tr[i].put.NoPut? && forall m :: i <= m < |acts| ==> !acts[m].BeginPut?
  }

  lemma {:induction false} QuietMemory(cfg: Config, tr: seq<Sys>, acts: seq<Action>, i: nat, j: nat)
    requires History(cfg, tr, acts) && i <= j < |tr| && NoPutsFrom(tr, acts, i)
    ensures tr[j].put.NoPut? && tr[j].mem == tr[i].mem
    decreases j - i
  {
    if i < j {
      QuietMemory(cfg, tr, acts, i, j - 1);
      HistoryInv(cfg, tr, acts, j - 1);
      assert StepAt(cfg, tr, acts, j - 1);
      StepRevisions(cfg, tr[j - 1], acts[j - 1]);
    }
  }

  ghost predicate Converged(cfg: Config, s: Sys)
  {
    && s.status.observedRevision == s.status.desiredRevision == s.mem.revision
    && s.status.syncState.InSync? && s.status.lastError.None?
    && s.status.activeConfigHash == Some(ConfigHashOf(cfg, s.mem))
    && s.runtime == Some(cfg.render(s.mem))
    && s.rec.Idle? && s.put.NoPut?
  }

  /**
   A reconcile that reads the state after the last put and succeeds, with nobody editing the
   runtime directory meanwhile, leaves the daemon converged on that put.
   */
  lemma Convergence(cfg: Config, tr: seq<Sys>, acts: seq<Action>, i: nat, b: nat, k: nat)
    requires History(cfg, tr, acts) && i <= b < k < |acts| && NoPutsFrom(tr, acts, i)
    requires Began(tr, acts, b, k) && RecordsInSync(tr[k], acts[k])
    requires forall m :: b <= m < k ==> !acts[m].Edit?
    ensures Converged(cfg, tr[k + 1]) && tr[k + 1].mem == tr[i].mem
  {
    assert StepAt(cfg, tr, acts, k);
    hide Inv, PipelineOf, Enabled, Rank;
    QuietMemory(cfg, tr, acts, i, b);
    QuietMemory(cfg, tr, acts, i, k + 1);
    var p := PipelineHistory(cfg, tr, acts, k);
    NoEdits(acts, p.switched + 1, k, Some(cfg.render(tr[b].mem)));
  }

  /**
   After the last put at most one success can still record an older revision: every later
   success began after the first one and converges.
   */
  lemma OnlyOneStaleSuccess(cfg: Config, tr: seq<Sys>, acts: seq<Action>, i: nat, k: nat, k': nat)
    returns (b: nat)
    requires History(cfg, tr, acts) && i <= k < k' < |acts| && NoPutsFrom(tr, acts, i)
    requires RecordsInSync(tr[k], acts[k]) && RecordsInSync(tr[k'], acts[k'])
    requires forall m :: k < m < k' ==> !acts[m].Edit?
    ensures k < b < k' && Began(tr, acts, b, k') && Converged(cfg, tr[k' + 1]) && tr[k' + 1].mem == tr[i].mem
  {
    var p := PipelineHistory(cfg, tr, acts, k');
    b := p.began;
    assert StepAt(cfg, tr, acts, k);
    assert tr[k + 1].rec.Idle?;
    Convergence(cfg, tr, acts, i, b, k');
  }

  /** Once the last put has been applied, IN_SYNC is never stale again, through edits and crashes. */
  lemma StaysConverged(cfg: Config, tr: seq<Sys>, acts: seq<Action>, i: nat, k: nat, j: nat)
    requires History(cfg, tr, acts) && i <= k <= j < |tr| && NoPutsFrom(tr, acts, i)
    requires tr[k].status.observedRevision == tr[i].mem.revision
    ensures tr[j].status.observedRevision == tr[j].status.desiredRevision == tr[j].mem.revision
    ensures tr[j].mem == tr[i].mem
  {
    QuietMemory(cfg, tr, acts, i, j);
    RevisionsMonotone(cfg, tr, acts, k, j);
    RevisionsOrdered(cfg, tr, acts, j);
  }

  // ----- the status -----

  /** IN_SYNC although the settled state is newer than what was applied. */
  predicate Stale(s: Sys)
  {
    s.status.syncState.InSync? && !s.put.Installed? && s.status.observedRevision < s.mem.revision
  }

  /**
   Outside a put's last step, the desired revision is the observed one or the current one;
   IN_SYNC means that desired equals observed and that there is no error.
   */
  lemma SettledStatus(cfg: Config, tr: seq<Sys>, acts: seq<Action>, i: nat)
    requires History(cfg, tr, acts) && i < |tr|
    ensures var s := tr[i];
            && (!s.put.Installed? ==>
                  s.status.desiredRevision == s.status.observedRevision || s.status.desiredRevision == s.mem.revision)
            && (s.status.syncState.InSync? ==>
                  s.status.desiredRevision == s.status.observedRevision && s.status.lastError.None?)
  {
    HistoryInv(cfg, tr, acts, i);
  }

  lemma StaleStep(cfg: Config, s: Sys, a: Action)
    requires Inv(cfg, s) && Enabled(cfg, s, a) && !Wraps(s, a)
    requires !Stale(s) && Stale(Next(cfg, s, a))
    ensures RecordsInSync(s, a) && s.rec.target.revision < s.mem.revision
  {
  }

  lemma {:induction false} FindAdoption(cfg: Config, tr: seq<Sys>, acts: seq<Action>, b: nat, k: nat) returns (m: nat)
    requires History(cfg, tr, acts) && b < k < |tr| && tr[b].mem.revision < tr[k].mem.revision
    ensures b <= m < k && Adopts(tr[m], acts[m])
    decreases k - b
  {
    hide Next, Enabled, Inv, Adopts;
    HistoryInv(cfg, tr, acts, k - 1);
    assert StepAt(cfg, tr, acts, k - 1);
    StepRevisions(cfg, tr[k - 1], acts[k - 1]);
    if Adopts(tr[k - 1], acts[k - 1]) {
      m := k - 1;
    } else {
      m := FindAdoption(cfg, tr, acts, b, k - 1);
    }
  }

  /** A stale IN_SYNC arises only when a put was installed while the apply that recorded it was running. */
  lemma StaleMeansOvertaken(cfg: Config, tr: seq<Sys>, acts: seq<Action>, i: nat) returns (b: nat, m: nat)
    requires History(cfg, tr, acts) && i < |acts| && !Stale(tr[i]) && Stale(tr[i + 1])
    ensures RecordsInSync(tr[i], acts[i]) && Began(tr, acts, b, i)
    ensures b <= m < i && acts[m].PutGoesOn? && tr[m].put.Written?
  {
    HistoryInv(cfg, tr, acts, i);
    assert StepAt(cfg, tr, acts, i);
    StaleStep(cfg, tr[i], acts[i]);
    var p := PipelineHistory(cfg, tr, acts, i);
    b := p.began;
    assert StepAt(cfg, tr, acts, b);
    m := FindAdoption(cfg, tr, acts, b, i);
  }

  /** A reconcile that starts behind the state is not skipped, whatever the hashes are. */
  lemma BehindNeverSkips(cfg: Config, tr: seq<Sys>, acts: seq<Action>, b: nat, i: nat)
    requires History(cfg, tr, acts) && i < |acts| && Began(tr, acts, b, i)
    requires tr[b].status.observedRevision < tr[b].mem.revision
    requires tr[i].rec.stage.HashRuntime? && acts[i].Succeed?
    ensures tr[i + 1].rec.At?
  {
    HistoryInv(cfg, tr, acts, i);
    assert StepAt(cfg, tr, acts, i);
    ObservedWhileEarly(cfg, tr, acts, b, i);
  }

  lemma {:induction false} ObservedWhileEarly(cfg: Config, tr: seq<Sys>, acts: seq<Action>, b: nat, i: nat)
    requires History(cfg, tr, acts) && i < |tr| && Began(tr, acts, b, i)
    ensures tr[i].status.observedRevision == tr[b].status.observedRevision
    ensures tr[i].status.activeConfigHash == tr[b].status.activeConfigHash
    decreases i - b
  {
    hide Next, Enabled, Inv;
    if b == i - 1 {
      assert StepAt(cfg, tr, acts, b);
      HistoryInv(cfg, tr, acts, b);
      StepRecords(cfg, tr[b], acts[b]);
    } else {
      assert StepAt(cfg, tr, acts, i - 1);
      HistoryInv(cfg, tr, acts, i - 1);
      ObservedWhileEarly(cfg, tr, acts, b, i - 1);
      StepRecords(cfg, tr[i - 1], acts[i - 1]);
    }
  }

  lemma RecordsStale(cfg: Config, s: Sys, before: Sys)
    requires Inv(cfg, before) && StageIs(before, MarkInSync) && before.mem.revision < s.mem.revision
    requires s.rec == before.rec && s.put.NoPut?
    ensures Enabled(cfg, s, Succeed) && Stale(Next(cfg, s, Succeed))
    ensures Next(cfg, s, Succeed).status.desiredRevision < s.mem.revision
    ensures Next(cfg, s, Succeed).mem == s.mem
  {
  }

  lemma PutRevision(cfg: Config, current: ControlPlaneState, expected: U64, draft: ControlPlaneState)
    requires PutOutcome(cfg, current, expected, draft).Ok? && current.revision < MAX_U64
    ensures PutOutcome(cfg, current, expected, draft).value.revision == current.revision + 1
  {
  }

  lemma PutNeverWraps(cfg: Config, tr: seq<Sys>, acts: seq<Action>)
    requires Run(cfg, tr, acts) && tr[0].mem.revision < MAX_U64
    requires |acts| == 5 && acts[0].BeginPut? && acts[4].Succeed? && acts[1] == acts[2] == acts[3] == PutGoesOn
    ensures NoWrap(tr, acts)
  {
    hide Next, Enabled;
    assert StepAt(cfg, tr, acts, 0) && StepAt(cfg, tr, acts, 1) && StepAt(cfg, tr, acts, 2);
    PutPhases(cfg, tr[0], acts[0]);
    PutPhases(cfg, tr[1], acts[1]);
    PutPhases(cfg, tr[2], acts[2]);
  }

  lemma PutPhases(cfg: Config, s: Sys, a: Action)
    requires Enabled(cfg, s, a)
    ensures a.BeginPut? ==> Next(cfg, s, a).put.Writing? && Next(cfg, s, a).mem == s.mem
    ensures a.PutGoesOn? && s.put.Writing? ==> Next(cfg, s, a).put.Written?
    ensures a.PutGoesOn? && s.put.Written? ==> Next(cfg, s, a).put.Installed?
  {
  }

  /**
   A put can be hidden: from every state about to record success, an accepted put that completes
   first leaves IN_SYNC with the desired revision behind the state.
   */
  lemma PutCanBeHidden(cfg: Config, s: Sys, draft: ControlPlaneState)
    returns (tr: seq<Sys>, acts: seq<Action>)
    requires Inv(cfg, s) && StageIs(s, MarkInSync) && s.put.NoPut? && s.mem.revision < MAX_U64
    requires PutOutcome(cfg, s.mem, s.mem.revision, draft).Ok?
    ensures Run(cfg, tr, acts) && tr[0] == s && NoWrap(tr, acts)
    ensures Stale(tr[|acts|]) && tr[|acts|].status.desiredRevision < tr[|acts|].mem.revision
  {
    hide Play, PutOutcome, Inv, CanSucceed;
    var next := PutOutcome(cfg, s.mem, s.mem.revision, draft).value;
    PutRevision(cfg, s.mem, s.mem.revision, draft);
    var put := [BeginPut(s.mem.revision, draft), PutGoesOn, PutGoesOn, PutGoesOn];
    PlayPut(cfg, s, s.mem.revision, draft, next);
    var ready := Play(cfg, s, put).value;
    RecordsStale(cfg, ready, s);
    PlayMore(cfg, s, put, ready, Succeed);
    acts := put + [Succeed];
    tr := PlayIsRun(cfg, s, acts);
    PutNeverWraps(cfg, tr, acts);
  }
}
