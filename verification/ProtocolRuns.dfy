/** What holds over whole runs of the control loop, in every interleaving. */
module ProtocolRuns {
  import opened Base
  import opened Model
  import opened Protocol
  import opened ProtocolInvariant
  import opened ProtocolPlay

  /** A run from a started daemon in which no put wraps the revision counter. */
  ghost predicate History(cfg: Config, tr: seq<Sys>, acts: seq<Action>)
  {
    Run(cfg, tr, acts) && Initial(cfg, tr[0]) && NoWrap(tr, acts)
  }

  lemma HistoryInv(cfg: Config, tr: seq<Sys>, acts: seq<Action>, i: nat)
    requires History(cfg, tr, acts) && i < |tr|
    ensures Inv(cfg, tr[i])
  {
    hide Inv, Wraps, Initial;
    InvBeforeWrap(cfg, tr, acts, i);
  }

  /** A run too short to exhaust the 64-bit counter does not wrap. */
  lemma {:induction false} ShortRunsNeverWrap(cfg: Config, tr: seq<Sys>, acts: seq<Action>, i: nat)
    requires Run(cfg, tr, acts) && Initial(cfg, tr[0])
    requires tr[0].mem.revision + |acts| <= MAX_U64 && i <= |acts|
    ensures Inv(cfg, tr[i]) && tr[i].mem.revision <= tr[i].disk.revision <= tr[0].mem.revision + i
    ensures i < |acts| ==> !Wraps(tr[i], acts[i])
  {
    if i == 0 {
      InitialInv(cfg, tr[0]);
    } else {
      hide Next, Enabled;
      ShortRunsNeverWrap(cfg, tr, acts, i - 1);
      assert StepAt(cfg, tr, acts, i - 1);
      StepInv(cfg, tr[i - 1], acts[i - 1]);
      StepRevisions(cfg, tr[i - 1], acts[i - 1]);
    }
  }

  /** The hypothesis is needed: at the last revision every accepted put breaks the order of the revisions. */
  lemma WrapBreaksOrder(cfg: Config, s: Sys, draft: ControlPlaneState) returns (tr: seq<Sys>, acts: seq<Action>)
    requires Initial(cfg, s) && s.mem.revision == MAX_U64 && PutOutcome(cfg, s.mem, MAX_U64, draft).Ok?
    ensures Run(cfg, tr, acts) && tr[0] == s && !NoWrap(tr, acts)
    ensures tr[|acts|].status.desiredRevision < tr[|acts|].status.observedRevision && tr[|acts|].mem.revision == 0
  {
    PlayPut(cfg, s, MAX_U64, draft, PutOutcome(cfg, s.mem, MAX_U64, draft).value);
    acts := [BeginPut(MAX_U64, draft), PutGoesOn, PutGoesOn, PutGoesOn];
    hide Play;
    tr := PlayIsRun(cfg, s, acts);
    assert StepAt(cfg, tr, acts, 0) && Wraps(tr[1], acts[1]);
  }

  // ----- revisions -----

  /** A new state becomes visible: a put installs it, or a restart finds it on disk. */
  predicate Adopts(s: Sys, a: Action)
  {
    s.put.Written? && (a.PutGoesOn? || a.Crash?)
  }

  lemma StepRevisions(cfg: Config, s: Sys, a: Action)
    requires Inv(cfg, s) && Enabled(cfg, s, a) && !Wraps(s, a)
    ensures var s' := Next(cfg, s, a);
            && s.status.observedRevision <= s'.status.observedRevision
            && (s'.disk == s.disk || s'.disk.revision == s.disk.revision + 1)
            && (if Adopts(s, a) then s'.mem == s.put.next && s'.mem.revision == s.mem.revision + 1 else s'.mem == s.mem)
  {
  }

  /**
   In every state of every interleaving the four revisions are ordered, and the file is
   ahead of memory by at most one, only while a put holds the state lock.
   */
  lemma RevisionsOrdered(cfg: Config, tr: seq<Sys>, acts: seq<Action>, i: nat)
    requires History(cfg, tr, acts) && i < |tr|
    ensures var s := tr[i];
            && s.status.observedRevision <= s.status.desiredRevision <= s.mem.revision <= s.disk.revision
            && s.disk.revision <= s.mem.revision + 1
            && (s.disk.revision == s.mem.revision + 1 <==> s.put.Written?)
  {
    HistoryInv(cfg, tr, acts, i);
  }

  ghost predicate Ordered(s: Sys)
  {
    s.status.observedRevision <= s.status.desiredRevision <= s.mem.revision <= s.disk.revision
  }

  lemma WrapStep(cfg: Config, s: Sys, a: Action)
    requires Inv(cfg, s) && Enabled(cfg, s, a) && Wraps(s, a)
    ensures !Ordered(Next(cfg, s, a))
  {
  }

  lemma {:induction false} FirstWrap(tr: seq<Sys>, acts: seq<Action>, n: nat) returns (k: nat)
    requires |tr| == |acts| + 1 && n < |acts| && Wraps(tr[n], acts[n])
    ensures k <= n && Wraps(tr[k], acts[k]) && forall m :: 0 <= m < k ==> !Wraps(tr[m], acts[m])
  {
    if m: nat :| m < n && Wraps(tr[m], acts[m]) {
      k := FirstWrap(tr, acts, m);
    } else {
      k := n;
    }
  }

  lemma {:induction false} InvBeforeWrap(cfg: Config, tr: seq<Sys>, acts: seq<Action>, k: nat)
    requires Run(cfg, tr, acts) && Initial(cfg, tr[0]) && k < |tr|
    requires forall m :: 0 <= m < k ==> !Wraps(tr[m], acts[m])
    ensures Inv(cfg, tr[k])
  {
    hide Next, Enabled, Inv, Wraps;
    if k == 0 {
      InitialInv(cfg, tr[0]);
    } else {
      InvBeforeWrap(cfg, tr, acts, k - 1);
      assert StepAt(cfg, tr, acts, k - 1);
      StepInv(cfg, tr[k - 1], acts[k - 1]);
    }
  }

  /** From a start, the revisions are ordered in every state of a run exactly if no put stores a wrapped revision. */
  lemma OrderedIffNoWrap(cfg: Config, tr: seq<Sys>, acts: seq<Action>)
    requires Run(cfg, tr, acts) && Initial(cfg, tr[0])
    ensures (forall i :: 0 <= i < |tr| ==> Ordered(tr[i])) <==> NoWrap(tr, acts)
  {
    hide Next, Enabled, Inv, Wraps, Initial;
    if NoWrap(tr, acts) {
      forall i | 0 <= i < |tr| ensures Ordered(tr[i])
      {
        RevisionsOrdered(cfg, tr, acts, i);
      }
    } else {
      var n: nat :| n < |acts| && Wraps(tr[n], acts[n]);
      var k := FirstWrap(tr, acts, n);
      InvBeforeWrap(cfg, tr, acts, k);
      assert StepAt(cfg, tr, acts, k);
      WrapStep(cfg, tr[k], acts[k]);
    }
  }

  /** Along a run the observed, memory and disk revisions never decrease, and a revision names one state only. */
  lemma {:induction false} RevisionsMonotone(cfg: Config, tr: seq<Sys>, acts: seq<Action>, i: nat, j: nat)
    requires History(cfg, tr, acts) && i <= j < |tr|
    ensures tr[i].status.observedRevision <= tr[j].status.observedRevision
    ensures tr[i].mem.revision <= tr[j].mem.revision && tr[i].disk.revision <= tr[j].disk.revision
    ensures tr[i].mem.revision == tr[j].mem.revision ==> tr[i].mem == tr[j].mem
    ensures tr[i].disk.revision == tr[j].disk.revision ==> tr[i].disk == tr[j].disk
    decreases j - i
  {
    hide Next, Enabled, Inv, Wraps;
    if i < j {
      RevisionsMonotone(cfg, tr, acts, i, j - 1);
      HistoryInv(cfg, tr, acts, j - 1);
      assert StepAt(cfg, tr, acts, j - 1);
      StepRevisions(cfg, tr[j - 1], acts[j - 1]);
    }
  }

  function Adoptions(tr: seq<Sys>, acts: seq<Action>, i: nat, j: nat): nat
    requires i <= j <= |acts| && |tr| == |acts| + 1
    decreases j - i
  {
    if i == j then 0 else Adoptions(tr, acts, i, j - 1) + (if Adopts(tr[j - 1], acts[j - 1]) then 1 else 0)
  }

  /** Accepted states form a gap-free chain: the revision counts the adoptions. */
  lemma {:induction false} GapFreeChain(cfg: Config, tr: seq<Sys>, acts: seq<Action>, i: nat, j: nat)
    requires History(cfg, tr, acts) && i <= j < |tr|
    ensures tr[j].mem.revision == tr[i].mem.revision + Adoptions(tr, acts, i, j)
    decreases j - i
  {
    hide Next, Enabled, Inv, Wraps;
    if i < j {
      GapFreeChain(cfg, tr, acts, i, j - 1);
      HistoryInv(cfg, tr, acts, j - 1);
      assert StepAt(cfg, tr, acts, j - 1);
      StepRevisions(cfg, tr[j - 1], acts[j - 1]);
    }
  }

  /** Every revision has exactly one winner. */
  lemma OneWinnerPerRevision(cfg: Config, tr: seq<Sys>, acts: seq<Action>, i: nat, j: nat)
    requires History(cfg, tr, acts) && i < j < |acts|
    requires Adopts(tr[i], acts[i]) && Adopts(tr[j], acts[j])
    ensures tr[i + 1].mem.revision < tr[j + 1].mem.revision
  {
    RevisionsMonotone(cfg, tr, acts, i + 1, j);
    HistoryInv(cfg, tr, acts, j);
    assert StepAt(cfg, tr, acts, i) && StepAt(cfg, tr, acts, j);
    StepRevisions(cfg, tr[j], acts[j]);
  }

  lemma {:induction false} NoAdoptions(tr: seq<Sys>, acts: seq<Action>, i: nat, j: nat)
    requires i <= j <= |acts| && |tr| == |acts| + 1
    ensures Adoptions(tr, acts, i, j) == 0 <==> forall m :: i <= m < j ==> !Adopts(tr[m], acts[m])
    decreases j - i
  {
    if i < j {
      NoAdoptions(tr, acts, i, j - 1);
    }
  }

  /**
   A draft sent with the revision read at `i` meets a conflict at `j` exactly when some other
   state was adopted in between.
   */
  lemma ConflictIffOvertaken(cfg: Config, tr: seq<Sys>, acts: seq<Action>, i: nat, j: nat, draft: ControlPlaneState)
    requires History(cfg, tr, acts) && i <= j < |tr|
    ensures var outcome := PutOutcome(cfg, tr[j].mem, tr[i].mem.revision, draft);
            outcome.Err? && outcome.error.Conflict? <==> exists m :: i <= m < j && Adopts(tr[m], acts[m])
  {
    GapFreeChain(cfg, tr, acts, i, j);
    NoAdoptions(tr, acts, i, j);
  }

  /** The step that acknowledges a put. */
  predicate Acknowledges(s: Sys, a: Action)
  {
    a.PutGoesOn? && s.put.Installed?
  }

  /** An acknowledged state is never lost: later files and memories hold it or a later revision. */
  lemma AcknowledgedSurvives(cfg: Config, tr: seq<Sys>, acts: seq<Action>, i: nat, j: nat)
    requires History(cfg, tr, acts) && i < |acts| && Acknowledges(tr[i], acts[i]) && i < j < |tr|
    ensures tr[j].disk.revision >= tr[i].put.next.revision && tr[j].mem.revision >= tr[i].put.next.revision
    ensures tr[j].disk.revision == tr[i].put.next.revision ==> tr[j].disk == tr[i].put.next
    ensures tr[j].mem.revision == tr[i].put.next.revision ==> tr[j].mem == tr[i].put.next
    ensures cfg.accepts(tr[j].disk) && cfg.accepts(tr[j].mem)
  {
    HistoryInv(cfg, tr, acts, i);
    HistoryInv(cfg, tr, acts, j);
    RevisionsMonotone(cfg, tr, acts, i, j);
  }
}
