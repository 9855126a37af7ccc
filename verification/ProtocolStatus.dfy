/** What the status says about the runtime directory, over whole runs. */
module ProtocolStatus {
  import opened Base
  import opened ConfigHash
  import opened Model
  import opened Protocol
  import opened ProtocolInvariant
  import opened ProtocolPipeline
  import opened ProtocolRuns

  // ----- the recorded hash -----

  /**
   A recorded hash and the observed revision beside it are those of the state that the last
   success, since the last start, had read.
   */
  lemma {:induction false} RecordedHash(cfg: Config, tr: seq<Sys>, acts: seq<Action>, i: nat) returns (b: nat, k: nat)
    requires History(cfg, tr, acts) && i < |tr| && tr[i].status.activeConfigHash.Some?
    ensures k < i && Began(tr, acts, b, k) && RecordsInSync(tr[k], acts[k])
    ensures tr[i].status.activeConfigHash == Some(ConfigHashOf(cfg, tr[b].mem))
    ensures tr[i].status.observedRevision == tr[b].mem.revision
    ensures forall m :: k < m < i ==> !RecordsInSync(tr[m], acts[m]) && !acts[m].Crash?
  {
    hide Next, Enabled, Inv, ConfigHashOf, RecordsInSync;
    var h := i - 1;
    HistoryInv(cfg, tr, acts, h);
    assert StepAt(cfg, tr, acts, h);
    StepRecords(cfg, tr[h], acts[h]);
    if RecordsInSync(tr[h], acts[h]) {
      var p := PipelineHistory(cfg, tr, acts, h);
      b, k := p.began, h;
    } else {
      b, k := RecordedHash(cfg, tr, acts, h);
    }
  }

  // ----- what IN_SYNC means -----

  /** While the status is IN_SYNC no reconcile has begun to apply. */
  predicate InSyncIsQuiet(s: Sys)
  {
    s.status.syncState.InSync? ==> s.rec.Idle? || 0 <= Rank(s.rec.stage) <= 3
  }

  lemma StepInSync(cfg: Config, s: Sys, a: Action)
    requires Inv(cfg, s) && Enabled(cfg, s, a) && InSyncIsQuiet(s)
    ensures var s' := Next(cfg, s, a);
            && InSyncIsQuiet(s')
            && (a.Crash? ==> s'.status == BootStatus(s'.mem.revision))
            && (s'.status.syncState.InSync? && !a.Crash? ==>
                  && (RecordsInSync(s, a) || (s.status.syncState.InSync? && s'.status == s.status))
                  && s'.runtime == if a.Edit? then a.tree else s.runtime)
  {
  }

  lemma {:induction false} AlwaysQuiet(cfg: Config, tr: seq<Sys>, acts: seq<Action>, i: nat)
    requires History(cfg, tr, acts) && i < |tr|
    ensures InSyncIsQuiet(tr[i])
  {
    if i > 0 {
      hide Next, Enabled, Inv, InSyncIsQuiet;
      AlwaysQuiet(cfg, tr, acts, i - 1);
      HistoryInv(cfg, tr, acts, i - 1);
      assert StepAt(cfg, tr, acts, i - 1);
      StepInSync(cfg, tr[i - 1], acts[i - 1]);
    }
  }

  /**
   IN_SYNC with a recorded hash: it was written by the success at `k` of the pipeline `p`, it names
   the state that `p` had read, and the runtime directory holds the rendering of that state,
   unless somebody edited it after the switch, and then what the last edit left.
   */
  lemma {:induction false} InSyncMeans(cfg: Config, tr: seq<Sys>, acts: seq<Action>, i: nat)
    returns (p: Pipeline, k: nat)
    requires History(cfg, tr, acts) && i < |tr|
    requires tr[i].status.syncState.InSync? && tr[i].status.activeConfigHash.Some?
    ensures k < i && Began(tr, acts, p.began, k) && RecordsInSync(tr[k], acts[k])
    ensures p.began < p.switched < k && Switches(tr[p.switched], acts[p.switched])
    ensures tr[i].status.observedRevision == tr[p.began].mem.revision
    ensures tr[i].status.activeConfigHash == Some(ConfigHashOf(cfg, tr[p.began].mem))
    ensures tr[i].runtime == AfterEdits(acts, p.switched + 1, i, Some(cfg.render(tr[p.began].mem)))
  {
    hide Next, Enabled, Inv, ConfigHashOf, RecordsInSync, InSyncIsQuiet;
    var h := i - 1;
    HistoryInv(cfg, tr, acts, h);
    AlwaysQuiet(cfg, tr, acts, h);
    assert StepAt(cfg, tr, acts, h);
    StepRecords(cfg, tr[h], acts[h]);
    StepInSync(cfg, tr[h], acts[h]);
    if RecordsInSync(tr[h], acts[h]) {
      p := PipelineHistory(cfg, tr, acts, h);
      k := h;
      RecordsLast(tr[h], acts[h]);
    } else {
      p, k := InSyncMeans(cfg, tr, acts, h);
    }
  }

  lemma RecordsLast(s: Sys, a: Action)
    requires RecordsInSync(s, a)
    ensures Rank(s.rec.stage) == 14 && !a.Edit?
  {
  }

  /**
   So, if nobody has edited the runtime directory since the switch, IN_SYNC with a recorded hash
   tells the truth about the current state exactly when the current state renders like the one
   applied; this is so whenever the observed revision is the current one.
   */
  lemma InSyncIsTrueIff(cfg: Config, tr: seq<Sys>, acts: seq<Action>, i: nat) returns (p: Pipeline, k: nat)
    requires History(cfg, tr, acts) && i < |tr|
    requires tr[i].status.syncState.InSync? && tr[i].status.activeConfigHash.Some?
    ensures k < i && Began(tr, acts, p.began, k) && RecordsInSync(tr[k], acts[k])
    ensures p.began < p.switched < k && Switches(tr[p.switched], acts[p.switched])
    ensures (forall m :: p.switched < m < i ==> !acts[m].Edit?) ==>
              (tr[i].runtime == Some(cfg.render(tr[i].mem)) <==> cfg.render(tr[p.began].mem) == cfg.render(tr[i].mem))
    ensures tr[i].status.observedRevision == tr[i].mem.revision ==> tr[p.began].mem == tr[i].mem
  {
    hide Next, Enabled, Inv, ConfigHashOf, RecordsInSync, AfterEdits;
    p, k := InSyncMeans(cfg, tr, acts, i);
    if forall m :: p.switched < m < i ==> !acts[m].Edit? {
      NoEdits(acts, p.switched + 1, i, Some(cfg.render(tr[p.began].mem)));
    }
    RevisionsMonotone(cfg, tr, acts, p.began, i);
  }

  /**
   IN_SYNC without a recorded hash is the status that a start at `c` wrote: no reconcile has
   succeeded since, and the runtime directory is as the start found it, but for edits.
   */
  lemma {:induction false} InSyncAtStart(cfg: Config, tr: seq<Sys>, acts: seq<Action>, i: nat) returns (c: nat)
    requires History(cfg, tr, acts) && i < |tr|
    requires tr[i].status.syncState.InSync? && tr[i].status.activeConfigHash.None?
    ensures c <= i && (c == 0 || acts[c - 1].Crash?) && tr[i].status == BootStatus(tr[c].mem.revision)
    ensures forall m :: c <= m < i ==> !RecordsInSync(tr[m], acts[m]) && !acts[m].Crash?
    ensures tr[i].runtime == AfterEdits(acts, c, i, tr[c].runtime)
  {
    hide Next, Enabled, Inv, ConfigHashOf, RecordsInSync, InSyncIsQuiet;
    if i == 0 {
      return 0;
    }
    var h := i - 1;
    HistoryInv(cfg, tr, acts, h);
    AlwaysQuiet(cfg, tr, acts, h);
    assert StepAt(cfg, tr, acts, h);
    StepInSync(cfg, tr[h], acts[h]);
    if acts[h].Crash? {
      return i;
    }
    StepRecords(cfg, tr[h], acts[h]);
    c := InSyncAtStart(cfg, tr, acts, h);
  }

  // ----- where IN_SYNC says nothing -----

  /** Every start says IN_SYNC, whatever the runtime directory holds. */
  lemma StartSaysInSync(cfg: Config, st: ControlPlaneState, runtime: Option<Tree>) returns (s: Sys)
    requires cfg.accepts(st)
    ensures History(cfg, [s], []) && s.mem == st && s.runtime == runtime
    ensures s.status.syncState.InSync? && s.status.activeConfigHash.None?
  {
    s := Sys(st, st, BootStatus(st.revision), NoPut, Idle, runtime, None, None);
  }

  lemma OneMoreStep(cfg: Config, tr: seq<Sys>, acts: seq<Action>, a: Action)
    requires History(cfg, tr, acts) && Enabled(cfg, tr[|acts|], a) && !a.PutGoesOn?
    ensures History(cfg, tr + [Next(cfg, tr[|acts|], a)], acts + [a])
  {
    hide Next, Enabled;
    var tr', acts' := tr + [Next(cfg, tr[|acts|], a)], acts + [a];
    forall i ensures StepAt(cfg, tr', acts', i)
    {
      assert StepAt(cfg, tr, acts, i);
    }
  }

  /** So does every restart after a crash, between the two renames of a switch as well. */
  lemma RestartSaysInSync(cfg: Config, tr: seq<Sys>, acts: seq<Action>) returns (s: Sys)
    requires History(cfg, tr, acts)
    ensures History(cfg, tr + [s], acts + [Crash])
    ensures s.status.syncState.InSync? && s.status.activeConfigHash.None? && s.runtime == tr[|acts|].runtime
  {
    s := Next(cfg, tr[|acts|], Crash);
    OneMoreStep(cfg, tr, acts, Crash);
  }

  /** And an edit of the runtime directory leaves the status as it was. */
  lemma EditGoesUnnoticed(cfg: Config, tr: seq<Sys>, acts: seq<Action>, tree: Option<Tree>) returns (s: Sys)
    requires History(cfg, tr, acts)
    ensures History(cfg, tr + [s], acts + [Edit(tree)])
    ensures s.status == tr[|acts|].status && s.mem == tr[|acts|].mem && s.runtime == tree
  {
    s := Next(cfg, tr[|acts|], Edit(tree));
    OneMoreStep(cfg, tr, acts, Edit(tree));
  }

  // ----- the hidden put -----

  /**
   A success leaves a stale IN_SYNC exactly when a put installed a newer state while it was applying
   and no put is about to write its status.
   */
  lemma StaleIff(cfg: Config, tr: seq<Sys>, acts: seq<Action>, i: nat) returns (b: nat)
    requires History(cfg, tr, acts) && i < |acts| && RecordsInSync(tr[i], acts[i])
    ensures Began(tr, acts, b, i)
    ensures Stale(tr[i + 1]) <==>
              !tr[i].put.Installed? && exists m :: b <= m < i && Adopts(tr[m], acts[m])
  {
    var p := PipelineHistory(cfg, tr, acts, i);
    b := p.began;
    assert StepAt(cfg, tr, acts, i);
    hide Next, Enabled, Inv, Adopts, PipelineOf;
    GapFreeChain(cfg, tr, acts, b, i);
    NoAdoptions(tr, acts, b, i);
  }

  // ----- the desired revision -----

  lemma StepDesired(cfg: Config, s: Sys, a: Action)
    requires Inv(cfg, s) && Enabled(cfg, s, a) && !Wraps(s, a)
    ensures Next(cfg, s, a).status.desiredRevision < s.status.desiredRevision <==>
              RecordsInSync(s, a) && s.rec.target.revision < s.status.desiredRevision
  {
  }

  lemma StepTarget(cfg: Config, s: Sys, a: Action)
    requires Inv(cfg, s) && Enabled(cfg, s, a) && !Wraps(s, a) && !a.Crash? && !RecordsInSync(s, a)
    ensures var s' := Next(cfg, s, a);
            && (Acknowledges(s, a) ==> s'.status.desiredRevision == s.mem.revision)
            && (!Acknowledges(s, a) ==> s'.status.desiredRevision == s.status.desiredRevision)
            && (a.StartReconcile? ==> s'.status.desiredRevision <= s.mem.revision)
  {
  }

  /** During an apply the desired revision passes its target exactly when a put is acknowledged. */
  lemma {:induction false} DesiredDuringApply(cfg: Config, tr: seq<Sys>, acts: seq<Action>, b: nat, i: nat)
    requires History(cfg, tr, acts) && i < |tr| && Began(tr, acts, b, i)
    ensures tr[b].mem.revision < tr[i].status.desiredRevision <==>
              exists m :: b <= m < i && Acknowledges(tr[m], acts[m])
    decreases i - b
  {
    hide Next, Enabled, Inv, Acknowledges;
    var h := i - 1;
    HistoryInv(cfg, tr, acts, h);
    assert StepAt(cfg, tr, acts, h);
    StepRecords(cfg, tr[h], acts[h]);
    StepTarget(cfg, tr[h], acts[h]);
    if b == h {
      StartAcknowledgesNothing(tr[h], acts[h]);
    } else {
      DesiredDuringApply(cfg, tr, acts, b, h);
      RevisionsMonotone(cfg, tr, acts, b, h);
      if Acknowledges(tr[h], acts[h]) {
        NewerThanTarget(cfg, tr, acts, b, h);
      }
    }
  }

  lemma StartAcknowledgesNothing(s: Sys, a: Action)
    requires a.StartReconcile?
    ensures !Acknowledges(s, a)
  {
  }

  /** A put acknowledged during an apply is newer than its target, since none was installed when it began. */
  lemma NewerThanTarget(cfg: Config, tr: seq<Sys>, acts: seq<Action>, b: nat, h: nat)
    requires History(cfg, tr, acts) && h < |acts| && Began(tr, acts, b, h) && Acknowledges(tr[h], acts[h])
    ensures tr[b].mem.revision < tr[h].mem.revision
  {
    HistoryInv(cfg, tr, acts, h);
  }

  /** A success takes the desired revision back exactly when a put was acknowledged while it was applying. */
  lemma DesiredDropsIff(cfg: Config, tr: seq<Sys>, acts: seq<Action>, b: nat, i: nat)
    requires History(cfg, tr, acts) && i < |acts| && RecordsInSync(tr[i], acts[i]) && Began(tr, acts, b, i)
    ensures tr[i + 1].status.desiredRevision < tr[i].status.desiredRevision <==>
              exists m :: b <= m < i && Acknowledges(tr[m], acts[m])
  {
    hide Next, Enabled, Inv, Acknowledges;
    HistoryInv(cfg, tr, acts, i);
    assert StepAt(cfg, tr, acts, i);
    StepDesired(cfg, tr[i], acts[i]);
    DesiredDuringApply(cfg, tr, acts, b, i);
  }

  /** Nothing else takes it back: every decrease is a success that overtook an acknowledged put. */
  lemma DesiredDropsWhenOvertaken(cfg: Config, tr: seq<Sys>, acts: seq<Action>, i: nat)
    returns (b: nat, n: nat, m: nat)
    requires History(cfg, tr, acts) && i < |acts|
    requires tr[i + 1].status.desiredRevision < tr[i].status.desiredRevision
    ensures RecordsInSync(tr[i], acts[i]) && Began(tr, acts, b, i)
    ensures b <= m < i && acts[m].PutGoesOn? && tr[m].put.Written?
    ensures b <= n < i && Acknowledges(tr[n], acts[n])
  {
    hide Next, Enabled, Inv, Acknowledges;
    HistoryInv(cfg, tr, acts, i);
    assert StepAt(cfg, tr, acts, i);
    StepDesired(cfg, tr[i], acts[i]);
    var p := PipelineHistory(cfg, tr, acts, i);
    b := p.began;
    DesiredDropsIff(cfg, tr, acts, b, i);
    n :| b <= n < i && Acknowledges(tr[n], acts[n]);
    RevisionsOrdered(cfg, tr, acts, i);
    m := FindAdoption(cfg, tr, acts, b, i);
    assert !acts[m].Crash? by { assert m == b || b < m < i; }
  }
}
