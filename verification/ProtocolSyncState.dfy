/** Which step writes which status, and what the sync state says about the past. */
module ProtocolSyncState {
  import opened Base
  import opened Model
  import opened Protocol
  import opened ProtocolInvariant
  import opened ProtocolPipeline
  import opened ProtocolRuns

  /** The steps that write the status. */
  predicate WritesStatus(s: Sys, a: Action)
  {
    || Acknowledges(s, a)
    || a.Crash?
    || (a.Succeed? && s.rec.At? && match s.rec.stage
                                   case MarkDrift(_) | MarkApplying | MarkInSync | MarkDegraded(_) => true
                                   case _ => false)
  }

  /**
   The whole status after every step. An acknowledged put makes it PENDING_APPLY and desires the new
   revision; drift makes it OUT_OF_SYNC and names the reason; the apply makes it APPLYING, then
   IN_SYNC on what it read or DEGRADED with its error; a restart makes it IN_SYNC on the stored
   revision with no hash. Every other step leaves it alone.
   */
  lemma StatusAfter(cfg: Config, s: Sys, a: Action)
    requires Inv(cfg, s) && Enabled(cfg, s, a)
    ensures var before, after := s.status, Next(cfg, s, a).status;
            var desired, observed, hash := before.desiredRevision, before.observedRevision, before.activeConfigHash;
            if !WritesStatus(s, a) then after == before
            else if a.PutGoesOn? then after == RuntimeStatus(s.mem.revision, observed, PendingApply, hash, None)
            else if a.Crash? then after == RuntimeStatus(s.disk.revision, s.disk.revision, InSync, None, None)
            else match s.rec.stage
                 case MarkDrift(reason) => after == RuntimeStatus(desired, observed, OutOfSync, hash, Some(reason))
                 case MarkApplying => after == RuntimeStatus(desired, observed, Applying, hash, None)
                 case MarkDegraded(error) => after == RuntimeStatus(desired, observed, Degraded, hash, Some(error))
                 case _ =>
                   var target := s.rec.target;
                   after == RuntimeStatus(target.revision, target.revision, InSync,
                                          Some(cfg.digest(cfg.stagingRoot, cfg.render(target))), None)
  {
  }

  /** Between two writes the status stays. */
  lemma {:induction false} StatusStays(cfg: Config, tr: seq<Sys>, acts: seq<Action>, i: nat, j: nat)
    requires History(cfg, tr, acts) && i <= j < |tr| && forall m :: i <= m < j ==> !WritesStatus(tr[m], acts[m])
    ensures tr[j].status == tr[i].status
    decreases j - i
  {
    if i < j {
      hide Next, Enabled, Inv, WritesStatus;
      StatusStays(cfg, tr, acts, i, j - 1);
      HistoryInv(cfg, tr, acts, j - 1);
      assert StepAt(cfg, tr, acts, j - 1);
      StatusAfter(cfg, tr[j - 1], acts[j - 1]);
    }
  }

  /** A reconcile has begun to apply and has not finished. */
  predicate Applies(rec: Reconcile)
  {
    rec.At? && (Rank(rec.stage) > 3 || rec.stage.MarkDegraded?)
  }

  lemma StepApplies(cfg: Config, s: Sys, a: Action)
    requires Inv(cfg, s) && Enabled(cfg, s, a) && Applies(Next(cfg, s, a).rec)
    ensures Applies(s.rec) || Succeeds(s, a, MarkApplying)
    ensures Applies(s.rec) ==> !a.Crash? && !a.StartReconcile? && !Succeeds(s, a, MarkApplying)
    ensures Applies(s.rec) && !Acknowledges(s, a) ==> !WritesStatus(s, a)
    ensures Acknowledges(s, a) ==> a.PutGoesOn? && WritesStatus(s, a)
  {
  }

  /**
   While a reconcile applies, the status has no error and is APPLYING, or PENDING_APPLY exactly if a
   put was acknowledged since the apply began at `w`.
   */
  lemma {:induction false} ApplyingMeans(cfg: Config, tr: seq<Sys>, acts: seq<Action>, i: nat) returns (w: nat)
    requires History(cfg, tr, acts) && i < |tr| && Applies(tr[i].rec)
    ensures w < i && Succeeds(tr[w], acts[w], MarkApplying) && forall m :: w < m <= i ==> Applies(tr[m].rec)
    ensures tr[i].status.lastError == None
    ensures tr[i].status.syncState
            == if exists m :: w < m < i && Acknowledges(tr[m], acts[m]) then PendingApply else Applying
  {
    assert i > 0;
    hide Next, Enabled, Inv, Applies, WritesStatus, Acknowledges;
    var h := i - 1;
    HistoryInv(cfg, tr, acts, h);
    assert StepAt(cfg, tr, acts, h);
    StepApplies(cfg, tr[h], acts[h]);
    StatusAfter(cfg, tr[h], acts[h]);
    if Applies(tr[h].rec) {
      w := ApplyingMeans(cfg, tr, acts, h);
    } else {
      w := h;
      assert WritesStatus(tr[h], acts[h]) by { MarksApplying(tr[h], acts[h]); }
    }
  }

  lemma MarksApplying(s: Sys, a: Action)
    requires Succeeds(s, a, MarkApplying)
    ensures WritesStatus(s, a)
  {
  }
}
