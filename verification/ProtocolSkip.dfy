/** When a reconcile is skipped. */
module ProtocolSkip {
  import opened Base
  import opened ConfigHash
  import opened Model
  import opened Protocol
  import opened ProtocolInvariant
  import opened ProtocolPipeline
  import opened ProtocolRuns
  import opened ProtocolStatus

  /** The comparison step that decides whether a reconcile is skipped. */
  predicate Compares(s: Sys, a: Action)
  {
    a.Succeed? && s.rec.At? && s.rec.stage.HashRuntime?
  }

  /** The staging hash of the rendering of `st` is the hash of the runtime directory as it stands. */
  ghost predicate HashesMeet(cfg: Config, st: ControlPlaneState, runtime: Option<Tree>)
  {
    runtime.Some? && cfg.digest(cfg.stagingRoot, cfg.render(st)) == cfg.digest(cfg.runtimeRoot, runtime.value)
  }

  /** Since the last start a reconcile has succeeded, and the last one applied exactly `st`. */
  ghost predicate LastApplied(tr: seq<Sys>, acts: seq<Action>, i: nat, st: ControlPlaneState)
    requires |tr| == |acts| + 1 && i < |tr|
  {
    exists k: nat ::
      && k < i && RecordsInSync(tr[k], acts[k]) && tr[k].rec.target == st
      && forall m :: k < m < i ==> !RecordsInSync(tr[m], acts[m]) && !acts[m].Crash?
  }

  lemma CompareStep(cfg: Config, s: Sys, a: Action)
    requires Inv(cfg, s) && Enabled(cfg, s, a) && Compares(s, a)
    ensures var s' := Next(cfg, s, a);
            if && s.status.observedRevision == s.rec.target.revision
               && s.status.activeConfigHash.Some? && s.runtime.Some?
               && s.status.activeConfigHash.value == cfg.digest(cfg.runtimeRoot, s.runtime.value)
            then s' == s.(rec := Idle)
            else s'.rec.At?
    ensures (Next(cfg, s, a).rec.At? && Next(cfg, s, a).rec.stage.MarkDrift?) <==>
              !(s.status.activeConfigHash.Some? && s.runtime.Some?
                && s.status.activeConfigHash.value == cfg.digest(cfg.runtimeRoot, s.runtime.value))
  {
  }

  lemma {:induction false} HashRecorded(cfg: Config, tr: seq<Sys>, acts: seq<Action>, k: nat, i: nat)
    requires History(cfg, tr, acts) && k < i < |tr| && RecordsInSync(tr[k], acts[k])
    requires forall m :: k < m < i ==> !RecordsInSync(tr[m], acts[m]) && !acts[m].Crash?
    ensures tr[i].status.activeConfigHash == Some(ConfigHashOf(cfg, tr[k].rec.target))
    ensures tr[i].status.observedRevision == tr[k].rec.target.revision
    decreases i - k
  {
    hide Next, Enabled, Inv, RecordsInSync, ConfigHashOf;
    HistoryInv(cfg, tr, acts, i - 1);
    assert StepAt(cfg, tr, acts, i - 1);
    StepRecords(cfg, tr[i - 1], acts[i - 1]);
    if k < i - 1 {
      HashRecorded(cfg, tr, acts, k, i - 1);
    }
  }

  /** One revision names one state, so targets of one revision are equal. */
  lemma SameTarget(cfg: Config, tr: seq<Sys>, acts: seq<Action>, k: nat, i: nat)
    requires History(cfg, tr, acts) && k <= i < |tr| && tr[k].rec.At? && tr[i].rec.At?
    ensures tr[k].rec.target.revision == tr[i].rec.target.revision ==> tr[k].rec.target == tr[i].rec.target
  {
    hide Next, Enabled, Inv;
    var p := PipelineHistory(cfg, tr, acts, k);
    var q := PipelineHistory(cfg, tr, acts, i);
    if p.began <= q.began {
      RevisionsMonotone(cfg, tr, acts, p.began, q.began);
    } else {
      RevisionsMonotone(cfg, tr, acts, q.began, p.began);
    }
  }

  /**
   A reconcile is skipped, and then leaves everything as it was, exactly when the last success since
   the last start applied the very state it has read and that state's staging hash is the hash of
   the runtime directory as it stands.
   */
  lemma SkipIff(cfg: Config, tr: seq<Sys>, acts: seq<Action>, i: nat)
    requires History(cfg, tr, acts) && i < |acts| && Compares(tr[i], acts[i])
    ensures tr[i + 1].rec.Idle? <==>
              LastApplied(tr, acts, i, tr[i].rec.target) && HashesMeet(cfg, tr[i].rec.target, tr[i].runtime)
    ensures tr[i + 1].rec.Idle? ==> tr[i + 1] == tr[i].(rec := Idle)
  {
    hide Next, Enabled, Inv;
    var s := tr[i];
    HistoryInv(cfg, tr, acts, i);
    assert StepAt(cfg, tr, acts, i);
    CompareStep(cfg, s, acts[i]);
    if s.status.activeConfigHash.Some? {
      var b, k := RecordedHash(cfg, tr, acts, i);
      SameTarget(cfg, tr, acts, k, i);
    }
    if LastApplied(tr, acts, i, s.rec.target) {
      AppliedIsRecorded(cfg, tr, acts, i, s.rec.target);
    }
  }

  lemma AppliedIsRecorded(cfg: Config, tr: seq<Sys>, acts: seq<Action>, i: nat, st: ControlPlaneState)
    requires History(cfg, tr, acts) && i < |tr| && LastApplied(tr, acts, i, st)
    ensures tr[i].status.activeConfigHash == Some(ConfigHashOf(cfg, st)) && tr[i].status.observedRevision == st.revision
  {
    var k: nat :| && k < i && RecordsInSync(tr[k], acts[k]) && tr[k].rec.target == st
                  && forall m :: k < m < i ==> !RecordsInSync(tr[m], acts[m]) && !acts[m].Crash?;
    hide Next, Enabled, Inv, RecordsInSync, ConfigHashOf;
    HashRecorded(cfg, tr, acts, k, i);
  }

  /** The runtime directory has the hash of the state that the last success since the last start applied. */
  ghost predicate RuntimeIsAsApplied(cfg: Config, tr: seq<Sys>, acts: seq<Action>, i: nat)
    requires |tr| == |acts| + 1 && i < |tr|
  {
    exists st :: LastApplied(tr, acts, i, st) && HashesMeet(cfg, st, tr[i].runtime)
  }

  /** Drift is reported exactly when the runtime directory does not have the hash of what was applied last. */
  lemma DriftIff(cfg: Config, tr: seq<Sys>, acts: seq<Action>, i: nat)
    requires History(cfg, tr, acts) && i < |acts| && Compares(tr[i], acts[i])
    ensures tr[i + 1].rec.At? && tr[i + 1].rec.stage.MarkDrift? <==> !RuntimeIsAsApplied(cfg, tr, acts, i)
  {
    hide Next, Enabled, Inv;
    HistoryInv(cfg, tr, acts, i);
    assert StepAt(cfg, tr, acts, i);
    CompareStep(cfg, tr[i], acts[i]);
    if tr[i].status.activeConfigHash.Some? {
      var b, k := RecordedHash(cfg, tr, acts, i);
      assert LastApplied(tr, acts, i, tr[b].mem) by { assert tr[k].rec.target == tr[b].mem; }
    }
    forall st | LastApplied(tr, acts, i, st) ensures tr[i].status.activeConfigHash == Some(ConfigHashOf(cfg, st))
    {
      AppliedIsRecorded(cfg, tr, acts, i, st);
    }
  }

  /** No staging hash is the hash of a runtime directory. */
  ghost predicate HashesNeverMeet(cfg: Config)
  {
    forall st: ControlPlaneState, tree: Tree ::
      cfg.digest(cfg.stagingRoot, cfg.render(st)) != cfg.digest(cfg.runtimeRoot, tree)
  }

  /** If staging hashes and runtime hashes never meet, every comparison of every run reports drift. */
  lemma NeverSkips(cfg: Config, tr: seq<Sys>, acts: seq<Action>, i: nat)
    requires History(cfg, tr, acts) && HashesNeverMeet(cfg)
    requires i < |acts| && Compares(tr[i], acts[i])
    ensures tr[i + 1].rec.At? && tr[i + 1].rec.stage.MarkDrift?
  {
    hide LastApplied, Compares;
    DriftIff(cfg, tr, acts, i);
  }

  /** After a start no reconcile is skipped before the first success, for any hash whatsoever. */
  lemma NoSkipBeforeFirstSuccess(cfg: Config, tr: seq<Sys>, acts: seq<Action>, c: nat, i: nat)
    requires History(cfg, tr, acts) && c <= i < |acts| && (c == 0 || acts[c - 1].Crash?)
    requires forall m :: c <= m < i ==> !RecordsInSync(tr[m], acts[m])
    requires Compares(tr[i], acts[i])
    ensures tr[i + 1].rec.At? && tr[i + 1].rec.stage.MarkDrift?
  {
    DriftIff(cfg, tr, acts, i);
    forall st ensures !LastApplied(tr, acts, i, st)
    {
      hide Next, Enabled;
      assert c > 0 ==> acts[c - 1].Crash?;
    }
  }

  /**
   A reconcile that finds the daemon converged is a no-op exactly when the two hashes of the
   rendering, under the staging root and under the runtime root, are the same.
   */
  lemma IdempotentIff(cfg: Config, tr: seq<Sys>, acts: seq<Action>, k: nat)
    requires Run(cfg, tr, acts) && k + 3 <= |acts| && Converged(cfg, tr[k])
    requires acts[k].StartReconcile? && acts[k + 1].Succeed? && acts[k + 2].Succeed?
    ensures tr[k + 3] == tr[k] <==> HashesMeet(cfg, tr[k].mem, Some(cfg.render(tr[k].mem)))
    ensures tr[k + 3] != tr[k] ==> tr[k + 3].rec.At? && tr[k + 3].rec.stage.MarkDrift?
  {
    assert StepAt(cfg, tr, acts, k) && StepAt(cfg, tr, acts, k + 1) && StepAt(cfg, tr, acts, k + 2);
  }

  /** So it is for the reconcile after a quiet success. */
  lemma SecondReconcileIff(cfg: Config, tr: seq<Sys>, acts: seq<Action>, i: nat, b: nat, k: nat)
    requires History(cfg, tr, acts) && i <= b < k && k + 4 <= |acts| && NoPutsFrom(tr, acts, i)
    requires Began(tr, acts, b, k) && RecordsInSync(tr[k], acts[k])
    requires forall m :: b <= m < k ==> !acts[m].Edit?
    requires acts[k + 1].StartReconcile? && acts[k + 2].Succeed? && acts[k + 3].Succeed?
    ensures tr[k + 4] == tr[k + 1] <==> HashesMeet(cfg, tr[i].mem, Some(cfg.render(tr[i].mem)))
  {
    hide Began, RecordsInSync, Converged, HashesMeet;
    Convergence(cfg, tr, acts, i, b, k);
    IdempotentIff(cfg, tr, acts, k + 1);
  }

  /** A tree has one hash, wherever it stands. */
  ghost predicate RootFree(cfg: Config)
  {
    forall tree: Tree :: cfg.digest(cfg.stagingRoot, tree) == cfg.digest(cfg.runtimeRoot, tree)
  }

  /** If the hash did not depend on the root, reconciling a converged daemon would change nothing. */
  lemma RootFreeHashIsIdempotent(cfg: Config, tr: seq<Sys>, acts: seq<Action>, k: nat)
    requires RootFree(cfg) && Run(cfg, tr, acts) && k + 3 <= |acts| && Converged(cfg, tr[k])
    requires acts[k].StartReconcile? && acts[k + 1].Succeed? && acts[k + 2].Succeed?
    ensures tr[k + 3] == tr[k]
  {
    hide Converged;
    IdempotentIff(cfg, tr, acts, k);
    assert cfg.digest(cfg.stagingRoot, cfg.render(tr[k].mem)) == cfg.digest(cfg.runtimeRoot, cfg.render(tr[k].mem));
  }
}
