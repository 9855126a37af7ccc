/**
 The SSH connection manager as an event machine: callers, the events of every client it ever
 created, abort signals, the promise callback and shutdown interleave in any order.
 */
module SshConnection {
  import opened Base

  type ClientId = nat
  type Signal = nat

  /** How the connect attempt of a client was settled; `settled` is `outcome != Pending`. */
  datatype Outcome = Pending | Ready | Errored | Aborted

  /** A client, the signal its attempt listens to, and whether it emitted error or close after ready. */
  datatype Client = Client(signal: Option<Signal>, outcome: Outcome, broken: bool)

  datatype Manager = Manager(
    active: Option<ClientId>,
    promise: Option<ClientId>,     // the client of the in-flight `connectPromise`
    shuttingDown: bool,
    waiting: nat,                  // the calls of `shutdown` that wait for their client to close
    clients: seq<Client>,          // every client created so far
    fired: set<Signal>)            // the abort signals that have fired

  datatype Event =
    | GetClient(signal: Option<Signal>)
    | ClientReady(id: ClientId)
    | ClientError(id: ClientId)
    | ClientClose(id: ClientId)
    | Abort(fired: Signal)
    | PromiseDone                  // the `finally` callback of the settled promise
    | Shutdown
    | ShutdownDone                 // close or timeout ends a shutdown that waits
    | Deliver(caller: nat)         // a caller's own promise takes over the settled result

  datatype Answer = Refused | Reuses(id: ClientId) | Starts(id: ClientId) | Joins(id: ClientId)

  const INITIAL := Manager(None, None, false, 0, [], {})

  predicate HasFired(m: Manager, signal: Option<Signal>)
  {
    signal.Some? && signal.value in m.fired
  }

  /** What `getClient` gives its caller. */
  function Ask(m: Manager): Answer
  {
    if m.shuttingDown then Refused
    else if m.active.Some? then Reuses(m.active.value)
    else if m.promise.Some? then Joins(m.promise.value)
    else Starts(|m.clients|)
  }

  function Settle(m: Manager, id: ClientId, outcome: Outcome): Manager
    requires id < |m.clients|
  {
    m.(clients := m.clients[id := m.clients[id].(outcome := outcome)])
  }

  /** Error or close of a client that had become ready. */
  function Invalidate(m: Manager, id: ClientId): Manager
    requires id < |m.clients|
  {
    m.(clients := m.clients[id := m.clients[id].(broken := true)],
       active := if m.active == Some(id) then None else m.active)
  }

  predicate CanHappen(m: Manager, e: Event)
  {
    match e
    case ClientReady(id) => id < |m.clients|
    case ClientError(id) => id < |m.clients|
    case ClientClose(id) => id < |m.clients|
    case Abort(fired) => fired !in m.fired
    case ShutdownDone => m.waiting > 0
    case PromiseDone => m.promise.Some? && m.promise.value < |m.clients|
        && m.clients[m.promise.value].outcome != Pending
    case _ => true
  }

  function Next(m: Manager, e: Event): Manager
    requires CanHappen(m, e)
  {
    match e
    case GetClient(signal) =>
      if Ask(m).Starts? then
        // a signal that has already fired settles the attempt before it connects
        m.(promise := Some(|m.clients|),
           clients := m.clients + [Client(signal, if HasFired(m, signal) then Aborted else Pending, false)])
      else m
    case ClientReady(id) =>
      if m.clients[id].outcome.Pending? then Settle(m, id, Ready).(active := Some(id)) else m
    case ClientError(id) =>
      if m.clients[id].outcome.Pending? then Settle(m, id, Errored)
      else if m.clients[id].outcome.Ready? then Invalidate(m, id)
      else m
    case ClientClose(id) =>
      if m.clients[id].outcome.Ready? then Invalidate(m, id) else m
    case Abort(fired) => AbortAll(m, fired)
    case PromiseDone => m.(promise := None)
    case Shutdown =>
      if m.active.Some? then m.(active := None, shuttingDown := true, waiting := m.waiting + 1)
      else m.(shuttingDown := false)
    case ShutdownDone => m.(shuttingDown := false, waiting := m.waiting - 1)
    case Deliver(_) => m
  }

  /** Every attempt that listens to the signal and is not settled is aborted. */
  function AbortAll(m: Manager, fired: Signal): Manager
  {
    m.(fired := m.fired + {fired},
       clients := seq(|m.clients|, i requires 0 <= i < |m.clients| =>
         var c := m.clients[i];
         if c.signal == Some(fired) && c.outcome.Pending? then c.(outcome := Aborted) else c))
  }

  // ----- what every event keeps -----

  /** Only the attempt of the in-flight promise can be unsettled. */
  ghost predicate SingleFlight(m: Manager)
  {
    && (forall i :: 0 <= i < |m.clients| && m.clients[i].outcome.Pending? ==> m.promise == Some(i))
    && (m.promise.Some? ==> m.promise.value < |m.clients|)
  }

  /** The active client became ready and has emitted neither error nor close since. */
  ghost predicate ActiveIsSound(m: Manager)
  {
    m.active.Some? ==>
      m.active.value < |m.clients| && m.clients[m.active.value].outcome.Ready? && !m.clients[m.active.value].broken
  }

  /** A client is broken only after it was ready. */
  ghost predicate BrokenWasReady(m: Manager)
  {
    forall i :: 0 <= i < |m.clients| && m.clients[i].broken ==> m.clients[i].outcome.Ready?
  }

  ghost predicate NoneInFlight(m: Manager)
  {
    forall i :: 0 <= i < |m.clients| ==> m.clients[i].outcome != Pending
  }

  /** Beside an active client, or while the shutdown flag is set, no attempt is unsettled. */
  ghost predicate FlagsExcludeFlight(m: Manager)
  {
    && (m.active.Some? || m.shuttingDown ==> NoneInFlight(m))
    && (m.shuttingDown ==> m.active.None? && m.waiting > 0)
  }

  /** An attempt whose signal has fired is settled. */
  ghost predicate FiredIsSettled(m: Manager)
  {
    forall i :: 0 <= i < |m.clients| && HasFired(m, m.clients[i].signal) ==> m.clients[i].outcome != Pending
  }

  ghost predicate Inv(m: Manager)
  {
    SingleFlight(m) && ActiveIsSound(m) && BrokenWasReady(m) && FlagsExcludeFlight(m) && FiredIsSettled(m)
  }

  ghost predicate StepAt(tr: seq<Manager>, events: seq<Event>, i: int)
    requires |tr| == |events| + 1
  {
    0 <= i < |events| ==> CanHappen(tr[i], events[i]) && tr[i + 1] == Next(tr[i], events[i])
  }

  ghost predicate Run(tr: seq<Manager>, events: seq<Event>)
  {
    |tr| == |events| + 1 && tr[0] == INITIAL && forall i :: StepAt(tr, events, i)
  }

  lemma StepOutcomes(m: Manager, e: Event)
    requires Inv(m) && CanHappen(m, e)
    ensures |m.clients| <= |Next(m, e).clients|
    ensures forall i :: 0 <= i < |m.clients| && m.clients[i].outcome != Pending ==>
                          Next(m, e).clients[i].outcome == m.clients[i].outcome
    ensures forall i :: 0 <= i < |m.clients| && m.clients[i].broken ==> Next(m, e).clients[i].broken
  {
  }

  lemma StepSingleFlight(m: Manager, e: Event)
    requires Inv(m) && CanHappen(m, e)
    ensures SingleFlight(Next(m, e))
  {
  }

  lemma StepFlags(m: Manager, e: Event)
    requires Inv(m) && CanHappen(m, e)
    ensures FlagsExcludeFlight(Next(m, e)) && FiredIsSettled(Next(m, e))
  {
  }

  lemma StepActive(m: Manager, e: Event)
    requires Inv(m) && CanHappen(m, e)
    ensures ActiveIsSound(Next(m, e)) && BrokenWasReady(Next(m, e))
  {
    hide SingleFlight, FlagsExcludeFlight, FiredIsSettled;
  }

  lemma StepInv(m: Manager, e: Event)
    requires Inv(m) && CanHappen(m, e)
    ensures Inv(Next(m, e))
  {
    hide Next, CanHappen;
    StepSingleFlight(m, e);
    StepActive(m, e);
    StepFlags(m, e);
  }

  lemma {:induction false} RunInv(tr: seq<Manager>, events: seq<Event>, i: nat)
    requires Run(tr, events) && i < |tr|
    ensures Inv(tr[i])
  {
    if i > 0 {
      hide Next, CanHappen, Inv;
      RunInv(tr, events, i - 1);
      assert StepAt(tr, events, i - 1);
      StepInv(tr[i - 1], events[i - 1]);
    }
  }

  /** Over every order of events at most one attempt is unsettled, and then every caller joins it. */
  lemma AtMostOneInFlight(tr: seq<Manager>, events: seq<Event>, i: nat, c: ClientId, d: ClientId)
    requires Run(tr, events) && i < |tr| && c < |tr[i].clients| && d < |tr[i].clients|
    requires tr[i].clients[c].outcome.Pending? && tr[i].clients[d].outcome.Pending?
    ensures c == d
    ensures tr[i].active.None? && !tr[i].shuttingDown && Ask(tr[i]) == Joins(c)
  {
    RunInv(tr, events, i);
  }

  /** A caller starts a new attempt only when none is in flight, no client is active and no shutdown runs. */
  lemma StartsOnlyWhenIdle(tr: seq<Manager>, events: seq<Event>, i: nat)
    requires Run(tr, events) && i < |tr| && Ask(tr[i]).Starts?
    ensures tr[i].active.None? && !tr[i].shuttingDown
    ensures forall c :: 0 <= c < |tr[i].clients| ==> tr[i].clients[c].outcome != Pending
  {
    RunInv(tr, events, i);
  }

  lemma {:induction false} OutcomeKept(tr: seq<Manager>, events: seq<Event>, i: nat, j: nat, c: ClientId)
    requires Run(tr, events) && i <= j < |tr| && c < |tr[i].clients| && tr[i].clients[c].outcome != Pending
    ensures c < |tr[j].clients| && tr[j].clients[c].outcome == tr[i].clients[c].outcome
    ensures tr[i].clients[c].broken ==> tr[j].clients[c].broken
    decreases j - i
  {
    if i < j {
      hide Next, CanHappen, Inv;
      OutcomeKept(tr, events, i, j - 1, c);
      RunInv(tr, events, j - 1);
      assert StepAt(tr, events, j - 1);
      StepOutcomes(tr[j - 1], events[j - 1]);
    }
  }

  /** Once settled, an attempt keeps its outcome, and an aborted or failed one never becomes active. */
  lemma SettledForGood(tr: seq<Manager>, events: seq<Event>, i: nat, j: nat, c: ClientId)
    requires Run(tr, events) && i <= j < |tr| && c < |tr[i].clients| && tr[i].clients[c].outcome != Pending
    ensures c < |tr[j].clients| && tr[j].clients[c].outcome == tr[i].clients[c].outcome
    ensures tr[i].clients[c].outcome in {Errored, Aborted} ==> tr[j].active != Some(c)
    ensures tr[i].clients[c].broken ==> tr[j].active != Some(c)
  {
    OutcomeKept(tr, events, i, j, c);
    RunInv(tr, events, j);
  }

  lemma Activation(m: Manager, e: Event)
    requires Inv(m) && CanHappen(m, e) && Next(m, e).active.Some? && Next(m, e).active != m.active
    ensures e == ClientReady(Next(m, e).active.value) && Next(m, e).active.value < |m.clients|
    ensures m.clients[Next(m, e).active.value].outcome.Pending?
    ensures m.promise == Next(m, e).active
  {
  }

  lemma StaysActive(m: Manager, e: Event)
    requires Inv(m) && CanHappen(m, e) && m.active.Some? && Next(m, e).active == m.active
    ensures e != ClientError(m.active.value) && e != ClientClose(m.active.value) && e != Shutdown
  {
  }

  /**
   The active client became ready at some point, in an attempt that was unsettled until then, and
   since then it emitted neither error nor close and nobody called shutdown.
   */
  lemma {:induction false} ActiveBecameReady(tr: seq<Manager>, events: seq<Event>, i: nat) returns (k: nat)
    requires Run(tr, events) && i < |tr| && tr[i].active.Some?
    ensures var c := tr[i].active.value;
            && k < i && events[k] == ClientReady(c) && c < |tr[k].clients| && tr[k].clients[c].outcome.Pending?
            && forall m :: k < m < i ==>
               events[m] != ClientError(c) && events[m] != ClientClose(c) && events[m] != Shutdown
  {
    hide Next, CanHappen, Inv;
    var h := i - 1;
    RunInv(tr, events, h);
    assert StepAt(tr, events, h);
    if tr[h].active == tr[i].active {
      k := ActiveBecameReady(tr, events, h);
      StaysActive(tr[h], events[h]);
    } else {
      Activation(tr[h], events[h]);
      k := h;
    }
  }

  /** The events that take the active client away. */
  predicate Retires(c: ClientId, e: Event)
  {
    e == ClientError(c) || e == ClientClose(c) || e == Shutdown
  }

  lemma StepKeepsActive(m: Manager, e: Event, c: ClientId)
    requires Inv(m) && CanHappen(m, e) && m.active == Some(c) && !Retires(c, e)
    ensures Next(m, e).active == Some(c)
  {
  }

  lemma StepActivates(m: Manager, c: ClientId)
    requires c < |m.clients| && m.clients[c].outcome.Pending?
    ensures CanHappen(m, ClientReady(c)) && Next(m, ClientReady(c)).active == Some(c)
  {
  }

  lemma {:induction false} StaysActiveUntil(tr: seq<Manager>, events: seq<Event>, i: nat, j: nat, c: ClientId)
    requires Run(tr, events) && i <= j < |tr| && tr[i].active == Some(c)
    requires forall m :: i <= m < j ==> !Retires(c, events[m])
    ensures tr[j].active == Some(c)
    decreases j - i
  {
    if i < j {
      hide Next, CanHappen, Inv, Retires;
      StaysActiveUntil(tr, events, i, j - 1, c);
      RunInv(tr, events, j - 1);
      assert StepAt(tr, events, j - 1);
      StepKeepsActive(tr[j - 1], events[j - 1], c);
    }
  }

  /** At `k` the client of an unsettled attempt becomes ready, and nothing retires it before `j`. */
  ghost predicate ReadySince(tr: seq<Manager>, events: seq<Event>, k: nat, j: nat, c: ClientId)
    requires |tr| == |events| + 1 && j < |tr|
  {
    && k < j && events[k] == ClientReady(c) && c < |tr[k].clients| && tr[k].clients[c].outcome.Pending?
    && forall m :: k < m < j ==> !Retires(c, events[m])
  }

  /** A client is active exactly if it became ready and since then neither failed, nor closed, nor was shut down. */
  lemma ActiveIff(tr: seq<Manager>, events: seq<Event>, j: nat, c: ClientId)
    requires Run(tr, events) && j < |tr|
    ensures tr[j].active == Some(c) <==> exists k :: ReadySince(tr, events, k, j, c)
  {
    if tr[j].active == Some(c) {
      var k := ActiveBecameReady(tr, events, j);
      assert ReadySince(tr, events, k, j, c);
    }
    if k: nat :| ReadySince(tr, events, k, j, c) {
      assert StepAt(tr, events, k);
      StepActivates(tr[k], c);
      StaysActiveUntil(tr, events, k + 1, j, c);
    }
  }

  /**
   What a caller is told: nothing but a refusal while the shutdown flag is set, else the active client
   if there is one, else the attempt in flight, else a new attempt.
   */
  lemma AnswerExact(m: Manager)
    ensures Ask(m).Refused? <==> m.shuttingDown
    ensures Ask(m).Reuses? <==> !m.shuttingDown && m.active.Some?
    ensures Ask(m).Joins? <==> !m.shuttingDown && m.active.None? && m.promise.Some?
    ensures Ask(m).Reuses? ==> m.active == Some(Ask(m).id)
    ensures Ask(m).Joins? ==> m.promise == Some(Ask(m).id)
  {
  }

  lemma {:induction false} PendingBefore(tr: seq<Manager>, events: seq<Event>, i: nat, j: nat, c: ClientId)
    requires Run(tr, events) && i <= j < |tr| && c < |tr[i].clients| && c < |tr[j].clients|
            && tr[j].clients[c].outcome.Pending?
    ensures tr[i].clients[c].outcome.Pending?
  {
    if tr[i].clients[c].outcome != Pending {
      SettledForGood(tr, events, i, j, c);
    }
  }

  // ----- shutdown -----

  /** No client ever becomes active while the shutdown flag is set. */
  lemma NeverActivatesWhileShuttingDown(tr: seq<Manager>, events: seq<Event>, j: nat)
    requires Run(tr, events) && j < |events|
    requires tr[j + 1].active.Some? && tr[j + 1].active != tr[j].active
    ensures !tr[j].shuttingDown && !tr[j + 1].shuttingDown
  {
    hide Next, CanHappen;
    RunInv(tr, events, j);
    RunInv(tr, events, j + 1);
    assert StepAt(tr, events, j);
    Activation(tr[j], events[j]);
  }

  /** A shutdown that meets an attempt in flight finds no client to end: it changes nothing and does not wait. */
  lemma ShutdownMissesAttempt(tr: seq<Manager>, events: seq<Event>, i: nat, c: ClientId)
    requires Run(tr, events) && i < |events| && events[i] == Shutdown
    requires c < |tr[i].clients| && tr[i].clients[c].outcome.Pending?
    ensures tr[i].active.None? && tr[i + 1] == tr[i]
  {
    RunInv(tr, events, i);
    assert StepAt(tr, events, i);
  }

  lemma OneMore(tr: seq<Manager>, events: seq<Event>, e: Event)
    requires Run(tr, events) && CanHappen(tr[|events|], e)
    ensures Run(tr + [Next(tr[|events|], e)], events + [e])
  {
    var tr', events' := tr + [Next(tr[|events|], e)], events + [e];
    forall i ensures StepAt(tr', events', i)
    {
      hide Next, CanHappen;
      assert StepAt(tr, events, i);
    }
  }

  /** So whatever attempt is in flight, its client can become active after the shutdown. */
  lemma InFlightOutlivesShutdown(tr: seq<Manager>, events: seq<Event>, c: ClientId) returns (tr': seq<Manager>)
    requires Run(tr, events) && c < |tr[|events|].clients| && tr[|events|].clients[c].outcome.Pending?
    ensures Run(tr', events + [Shutdown] + [ClientReady(c)])
    ensures tr'[..|tr|] == tr && tr'[|tr|] == tr[|events|] && tr'[|tr| + 1].active == Some(c)
  {
    var s1 := Next(tr[|events|], Shutdown);
    OneMore(tr, events, Shutdown);
    tr' := tr + [s1];
    ShutdownMissesAttempt(tr', events + [Shutdown], |events|, c);
    OneMore(tr', events + [Shutdown], ClientReady(c));
    tr' := tr' + [Next(s1, ClientReady(c))];
  }

  /** A call of `shutdown` while an earlier one still waits. */
  predicate Overlaps(m: Manager, e: Event)
  {
    e.Shutdown? && m.waiting > 0
  }

  lemma StepWaiting(m: Manager, e: Event)
    requires Inv(m) && CanHappen(m, e) && !Overlaps(m, e) && m.waiting <= 1 && (m.waiting > 0 ==> m.shuttingDown)
    ensures Next(m, e).waiting <= 1 && (Next(m, e).waiting > 0 ==> Next(m, e).shuttingDown)
  {
  }

  lemma {:induction false} WaitingIsFlagged(tr: seq<Manager>, events: seq<Event>, i: nat)
    requires Run(tr, events) && i < |tr| && forall k :: 0 <= k < i ==> !Overlaps(tr[k], events[k])
    ensures tr[i].waiting <= 1 && (tr[i].waiting > 0 <==> tr[i].shuttingDown)
  {
    hide Next, CanHappen, Overlaps;
    RunInv(tr, events, i);
    if i > 0 {
      WaitingIsFlagged(tr, events, i - 1);
      RunInv(tr, events, i - 1);
      assert StepAt(tr, events, i - 1);
      StepWaiting(tr[i - 1], events[i - 1]);
    }
  }

  /** A client becomes active while a shutdown waits only after overlapping shutdowns. */
  lemma ActivationNeedsOverlap(tr: seq<Manager>, events: seq<Event>, j: nat)
    requires Run(tr, events) && j < |events| && tr[j].waiting > 0
    requires tr[j + 1].active.Some? && tr[j + 1].active != tr[j].active
    ensures exists i :: 0 <= i < j && Overlaps(tr[i], events[i])
  {
    NeverActivatesWhileShuttingDown(tr, events, j);
    if forall i :: 0 <= i < j ==> !Overlaps(tr[i], events[i]) {
      WaitingIsFlagged(tr, events, j);
    }
  }

  lemma StartAndReady(tr: seq<Manager>, events: seq<Event>) returns (tr': seq<Manager>, more: seq<Event>)
    requires Run(tr, events)
    requires var s := tr[|events|]; !s.shuttingDown && s.active.None? && s.promise.None?
    ensures Run(tr', events + more) && tr'[..|tr|] == tr && Shutdown !in more && ShutdownDone !in more
    ensures var end := tr'[|events + more|]; end.waiting == tr[|events|].waiting && end.active.Some?
  {
    var s0 := tr[|events|];
    var c := |s0.clients|;
    more := [GetClient(None), ClientReady(c)];
    var s1 := Next(s0, GetClient(None));
    OneMore(tr, events, GetClient(None));
    OneMore(tr + [s1], events + [GetClient(None)], ClientReady(c));
    tr' := tr + [s1] + [Next(s1, ClientReady(c))];
    assert events + more == events + [GetClient(None)] + [ClientReady(c)];
  }

  lemma ReadyNow(tr: seq<Manager>, events: seq<Event>, c: ClientId) returns (tr': seq<Manager>)
    requires Run(tr, events) && c < |tr[|events|].clients| && tr[|events|].clients[c].outcome.Pending?
    ensures Run(tr', events + [ClientReady(c)]) && tr'[..|tr|] == tr
    ensures tr'[|tr|].waiting == tr[|events|].waiting && tr'[|tr|].active == Some(c)
  {
    OneMore(tr, events, ClientReady(c));
    tr' := tr + [Next(tr[|events|], ClientReady(c))];
  }

  /** With no client active and the flag not set, a client can become active, no shutdown being called or ended. */
  lemma CanActivate(tr: seq<Manager>, events: seq<Event>) returns (tr': seq<Manager>, more: seq<Event>)
    requires Run(tr, events) && !tr[|events|].shuttingDown && tr[|events|].active.None?
    ensures Run(tr', events + more) && tr'[..|tr|] == tr && Shutdown !in more && ShutdownDone !in more
    ensures var end := tr'[|events + more|]; end.waiting == tr[|events|].waiting && end.active.Some?
  {
    var s := tr[|events|];
    RunInv(tr, events, |events|);
    if s.promise.None? {
      tr', more := StartAndReady(tr, events);
    } else if s.clients[s.promise.value].outcome.Pending? {
      more := [ClientReady(s.promise.value)];
      tr' := ReadyNow(tr, events, s.promise.value);
    } else {
      OneMore(tr, events, PromiseDone);
      var tr1, events1 := tr + [Next(s, PromiseDone)], events + [PromiseDone];
      hide CanHappen;
      tr', more := StartAndReady(tr1, events1);
      assert events + ([PromiseDone] + more) == events1 + more;
      assert tr'[..|tr|] == tr1[..|tr|] == tr;
      more := [PromiseDone] + more;
    }
  }

  lemma StepOverlap(m: Manager)
    requires Inv(m) && m.shuttingDown
    ensures CanHappen(m, Shutdown) && Next(m, Shutdown) == m.(shuttingDown := false) && m.waiting > 0
  {
  }

  /**
   And then it can: the first overlap clears the flag although a shutdown waits, so every run that
   ends with it extends, with no shutdown called or ended, to one with a client active meanwhile.
   */
  lemma OverlapReopens(tr: seq<Manager>, events: seq<Event>) returns (tr': seq<Manager>, more: seq<Event>)
    requires Run(tr, events) && events != [] && Overlaps(tr[|events| - 1], events[|events| - 1])
    requires forall k :: 0 <= k < |events| - 1 ==> !Overlaps(tr[k], events[k])
    ensures Run(tr', events + more) && tr'[..|tr|] == tr && Shutdown !in more && ShutdownDone !in more
    ensures var end := tr'[|events + more|]; end.waiting > 0 && end.active.Some?
  {
    var n := |events| - 1;
    assert StepAt(tr, events, n) && events[n] == Shutdown && tr[n].waiting > 0;
    hide Next, CanHappen, Overlaps;
    WaitingIsFlagged(tr, events, n);
    RunInv(tr, events, n);
    StepOverlap(tr[n]);
    tr', more := CanActivate(tr, events);
  }

  /** So every run that has the flag set extends, with one more shutdown and none ended, to such a state. */
  lemma FlagCanBeCleared(tr: seq<Manager>, events: seq<Event>) returns (tr': seq<Manager>, more: seq<Event>)
    requires Run(tr, events) && tr[|events|].shuttingDown
    ensures Run(tr', events + more) && tr'[..|tr|] == tr && ShutdownDone !in more
    ensures var end := tr'[|events + more|]; end.waiting > 0 && end.active.Some?
  {
    hide Next, CanHappen, Overlaps;
    var s := tr[|events|];
    RunInv(tr, events, |events|);
    StepOverlap(s);
    OneMore(tr, events, Shutdown);
    var tr1, events1 := tr + [Next(s, Shutdown)], events + [Shutdown];
    tr', more := CanActivate(tr1, events1);
    assert events + ([Shutdown] + more) == events1 + more;
    assert tr'[..|tr|] == tr1[..|tr|] == tr;
    more := [Shutdown] + more;
  }

  lemma {:induction false} FindStart(tr: seq<Manager>, events: seq<Event>, i: nat, j: nat, c: ClientId) returns (k: nat)
    requires Run(tr, events) && i < j < |tr| && |tr[i].clients| <= c < |tr[j].clients|
    ensures i <= k < j && events[k].GetClient? && Ask(tr[k]) == Starts(c)
    decreases j - i
  {
    assert StepAt(tr, events, j - 1);
    if c < |tr[j - 1].clients| {
      hide Next, CanHappen;
      k := FindStart(tr, events, i, j - 1, c);
    } else {
      k := j - 1;
    }
  }

  /**
   After a shutdown a client becomes active exactly by becoming ready in an attempt that was in
   flight at the shutdown, or that a caller started later, while no shutdown was running.
   */
  lemma ActiveAfterShutdown(tr: seq<Manager>, events: seq<Event>, i: nat, j: nat) returns (k: nat)
    requires Run(tr, events) && i < j < |events| && events[i] == Shutdown
    requires tr[j + 1].active.Some? && tr[j + 1].active != tr[j].active
    ensures var c := tr[j + 1].active.value;
            && events[j] == ClientReady(c)
            && (if c < |tr[i].clients| then tr[i].clients[c].outcome.Pending?
                else i < k < j && events[k].GetClient? && Ask(tr[k]) == Starts(c) && !tr[k].shuttingDown)
  {
    RunInv(tr, events, j);
    assert StepAt(tr, events, i) && StepAt(tr, events, j);
    Activation(tr[j], events[j]);
    var c := tr[j + 1].active.value;
    k := 0;
    if c < |tr[i].clients| {
      PendingBefore(tr, events, i, j, c);
    } else {
      k := FindStart(tr, events, i, j, c);
      assert events[i] == Shutdown;
    }
  }

  // ----- how an attempt ends -----

  /** The events that settle an unsettled attempt; a close before ready is none of them. */
  predicate Settles(client: Client, c: ClientId, e: Event)
  {
    e == ClientReady(c) || e == ClientError(c) || (e.Abort? && client.signal == Some(e.fired))
  }

  function Verdict(e: Event): Outcome
  {
    match e
    case ClientReady(_) => Ready
    case ClientError(_) => Errored
    case _ => Aborted
  }

  lemma StepVerdict(m: Manager, e: Event, c: ClientId)
    requires CanHappen(m, e) && c < |m.clients| && m.clients[c].outcome.Pending?
    ensures c < |Next(m, e).clients| && Next(m, e).clients[c].signal == m.clients[c].signal
    ensures Next(m, e).clients[c].outcome == if Settles(m.clients[c], c, e) then Verdict(e) else Pending
  {
  }

  ghost predicate FirstSettles(tr: seq<Manager>, events: seq<Event>, i: nat, m: nat, c: ClientId)
    requires |tr| == |events| + 1 && i < |tr| && c < |tr[i].clients|
  {
    && i <= m < |events| && Settles(tr[i].clients[c], c, events[m])
    && forall k :: i <= k < m ==> !Settles(tr[i].clients[c], c, events[k])
  }

  lemma {:induction false} UnsettledSince(tr: seq<Manager>, events: seq<Event>, i: nat, j: nat, c: ClientId)
    requires Run(tr, events) && i <= j < |tr| && c < |tr[i].clients| && tr[i].clients[c].outcome.Pending?
    requires forall k :: i <= k < j ==> !Settles(tr[i].clients[c], c, events[k])
    ensures c < |tr[j].clients| && tr[j].clients[c].outcome.Pending?
            && tr[j].clients[c].signal == tr[i].clients[c].signal
    decreases j - i
  {
    if i < j {
      hide Next, CanHappen;
      UnsettledSince(tr, events, i, j - 1, c);
      assert StepAt(tr, events, j - 1);
      StepVerdict(tr[j - 1], events[j - 1], c);
    }
  }

  /** The first event that settles an attempt decides its outcome for good. */
  lemma FirstDecides(tr: seq<Manager>, events: seq<Event>, i: nat, m: nat, j: nat, c: ClientId)
    requires Run(tr, events) && i < |tr| && c < |tr[i].clients| && tr[i].clients[c].outcome.Pending?
    requires FirstSettles(tr, events, i, m, c) && m < j < |tr|
    ensures c < |tr[j].clients| && tr[j].clients[c].outcome == Verdict(events[m])
  {
    hide Next, CanHappen;
    UnsettledSince(tr, events, i, m, c);
    assert StepAt(tr, events, m);
    StepVerdict(tr[m], events[m], c);
    OutcomeKept(tr, events, m + 1, j, c);
  }

  lemma {:induction false} FindFirst(tr: seq<Manager>, events: seq<Event>, i: nat, n: nat, c: ClientId) returns (m: nat)
    requires |tr| == |events| + 1 && i < |tr| && c < |tr[i].clients| && i <= n < |events|
    requires Settles(tr[i].clients[c], c, events[n])
    ensures m <= n && FirstSettles(tr, events, i, m, c)
  {
    if k: nat :| i <= k < n && Settles(tr[i].clients[c], c, events[k]) {
      m := FindFirst(tr, events, i, k, c);
    } else {
      m := n;
    }
  }

  /** The first event in `[i, j)` that settles the attempt gives it the outcome `o`. */
  ghost predicate SettledAs(tr: seq<Manager>, events: seq<Event>, i: nat, j: nat, c: ClientId, o: Outcome)
    requires |tr| == |events| + 1 && i < |tr| && c < |tr[i].clients|
  {
    exists m: nat :: m < j && FirstSettles(tr, events, i, m, c) && Verdict(events[m]) == o
  }

  /**
   An attempt unsettled at `i` is unsettled at `j` exactly when its client emitted neither ready nor
   error in between and its signal did not fire; whatever closes meanwhile does not settle it.
   Otherwise it has the outcome of the first of these events.
   */
  lemma UnsettledIff(tr: seq<Manager>, events: seq<Event>, i: nat, j: nat, c: ClientId)
    requires Run(tr, events) && i <= j < |tr| && c < |tr[i].clients| && tr[i].clients[c].outcome.Pending?
    ensures c < |tr[j].clients|
    ensures tr[j].clients[c].outcome.Pending? <==> forall k :: i <= k < j ==> !Settles(tr[i].clients[c], c, events[k])
    ensures forall o :: SettledAs(tr, events, i, j, c, o) <==> tr[j].clients[c].outcome == o && o != Pending
  {
    hide Settles;
    if n: nat :| i <= n < j && Settles(tr[i].clients[c], c, events[n]) {
      var m := FindFirst(tr, events, i, n, c);
      FirstDecides(tr, events, i, m, j, c);
      VerdictSettles(events[m]);
      forall m' | i <= m' < j && FirstSettles(tr, events, i, m', c) ensures m' == m { }
    } else {
      UnsettledSince(tr, events, i, j, c);
    }
  }

  lemma VerdictSettles(e: Event)
    ensures Verdict(e) != Pending
  {
  }

  // ----- when a client is broken -----

  /** An error or a close of a client that had become ready. */
  predicate Breaks(m: Manager, c: ClientId, e: Event)
  {
    && c < |m.clients| && m.clients[c].outcome.Ready?
    && (e == ClientError(c) || e == ClientClose(c))
  }

  lemma StepBroken(m: Manager, e: Event, c: ClientId)
    requires Inv(m) && CanHappen(m, e) && c < |Next(m, e).clients|
    ensures Next(m, e).clients[c].broken <==> (c < |m.clients| && m.clients[c].broken) || Breaks(m, c, e)
  {
  }

  /** A client is broken exactly if it emitted an error or a close at some point after it was ready. */
  lemma {:induction false} BrokenIff(tr: seq<Manager>, events: seq<Event>, j: nat, c: ClientId)
    requires Run(tr, events) && j < |tr| && c < |tr[j].clients|
    ensures tr[j].clients[c].broken <==> exists k :: 0 <= k < j && Breaks(tr[k], c, events[k])
  {
    if j > 0 {
      hide Next, CanHappen, Inv, Breaks;
      RunInv(tr, events, j - 1);
      assert StepAt(tr, events, j - 1);
      StepBroken(tr[j - 1], events[j - 1], c);
      if c < |tr[j - 1].clients| {
        BrokenIff(tr, events, j - 1, c);
      } else if k :| 0 <= k < j - 1 && Breaks(tr[k], c, events[k]) {
        BreaksExisting(tr, events, k, j - 1, c);
      }
    }
  }

  lemma BreaksExisting(tr: seq<Manager>, events: seq<Event>, k: nat, j: nat, c: ClientId)
    requires Run(tr, events) && k <= j < |tr| && k < |events| && Breaks(tr[k], c, events[k])
    ensures c < |tr[j].clients|
  {
    hide Next, CanHappen, Inv;
    OutcomeKept(tr, events, k, j, c);
  }

  // ----- the imperative form -----

  class SSHConnectionManager {
    var activeClient: Option<ClientId>
    var connectPromise: Option<ClientId>
    var shuttingDown: bool
    var clients: seq<Client>
    var fired: set<Signal>      // the state of the abort signals, which callers own
    ghost var waiting: nat

    ghost function State(): Manager
      reads this
    {
      Manager(activeClient, connectPromise, shuttingDown, waiting, clients, fired)
    }

    ghost predicate Valid()
      reads this
    {
      Inv(State())
    }

    constructor ()
      ensures State() == INITIAL && Valid()
    {
      activeClient, connectPromise, shuttingDown, clients := None, None, false, [];
      fired, waiting := {}, 0;
    }

    method GetClient(signal: Option<Signal>) returns (answer: Answer)
      requires Valid()
      modifies this`clients, this`connectPromise
      ensures Valid() && State() == Next(old(State()), Event.GetClient(signal)) && answer == Ask(old(State()))
    {
      StepInv(State(), Event.GetClient(signal));
      if shuttingDown {
        return Refused;
      }
      if activeClient.Some? {
        return Reuses(activeClient.value);
      }
      if connectPromise.None? {
        var id := Connect(signal);
        connectPromise := Some(id);
        return Starts(id);
      }
      return Joins(connectPromise.value);
    }

    method Connect(signal: Option<Signal>) returns (id: ClientId)
      modifies this`clients
      ensures id == |old(clients)|
      ensures clients == old(clients)
              + [Client(signal, if HasFired(old(State()), signal) then Aborted else Pending, false)]
    {
      id := |clients|;
      var settled := Pending;
      if signal.Some? && signal.value in fired {
        settled := Aborted;
      }
      clients := clients + [Client(signal, settled, false)];
    }

    method OnReady(id: ClientId)
      requires Valid() && id < |clients|
      modifies this
      ensures Valid() && State() == Next(old(State()), ClientReady(id))
    {
      StepInv(State(), ClientReady(id));
      if clients[id].outcome.Pending? {
        clients := clients[id := clients[id].(outcome := Ready)];
        activeClient := Some(id);
      }
    }

    method OnError(id: ClientId)
      requires Valid() && id < |clients|
      modifies this
      ensures Valid() && State() == Next(old(State()), ClientError(id))
    {
      StepInv(State(), ClientError(id));
      if clients[id].outcome.Pending? {
        clients := clients[id := clients[id].(outcome := Errored)];
      } else if clients[id].outcome.Ready? {
        clients := clients[id := clients[id].(broken := true)];
        if activeClient == Some(id) {
          activeClient := None;
        }
      }
    }

    method OnClose(id: ClientId)
      requires Valid() && id < |clients|
      modifies this
      ensures Valid() && State() == Next(old(State()), ClientClose(id))
    {
      StepInv(State(), ClientClose(id));
      if clients[id].outcome.Ready? {
        clients := clients[id := clients[id].(broken := true)];
        if activeClient == Some(id) {
          activeClient := None;
        }
      }
    }

    /** The abort listeners of every attempt that uses the signal. */
    method OnAbort(signal: Signal)
      requires Valid() && signal !in fired
      modifies this`clients, this`fired
      ensures Valid() && State() == Next(old(State()), Abort(signal))
    {
      StepInv(State(), Abort(signal));
      ghost var before := clients;
      ghost var aborted := AbortAll(State(), signal).clients;
      fired := fired + {signal};
      for i := 0 to |clients|
        invariant |clients| == |before| == |aborted| && fired == old(fired) + {signal}
        invariant forall k :: 0 <= k < |before| ==> clients[k] == if k < i then aborted[k] else before[k]
      {
        if clients[i].signal == Some(signal) && clients[i].outcome.Pending? {
          clients := clients[i := clients[i].(outcome := Aborted)];
        }
      }
      assert clients == aborted;
    }

    method OnPromiseDone()
      requires Valid() && CanHappen(State(), PromiseDone)
      modifies this`connectPromise
      ensures Valid() && State() == Next(old(State()), PromiseDone)
    {
      StepInv(State(), PromiseDone);
      connectPromise := None;
    }

    /** The synchronous part of `shutdown`; `waits` says whether it then waits for the client to close. */
    method Shutdown() returns (waits: bool)
      requires Valid()
      modifies this`activeClient, this`shuttingDown, this`waiting
      ensures Valid() && State() == Next(old(State()), Event.Shutdown) && waits == old(activeClient).Some?
    {
      StepInv(State(), Event.Shutdown);
      shuttingDown := true;
      var client := activeClient;
      activeClient := None;
      waits := client.Some?;
      if !waits {
        shuttingDown := false;
        return;
      }
      waiting := waiting + 1;
    }

    /** The rest of a `shutdown` that waited. */
    method FinishShutdown()
      requires Valid() && waiting > 0
      modifies this`shuttingDown, this`waiting
      ensures Valid() && State() == Next(old(State()), ShutdownDone)
    {
      StepInv(State(), ShutdownDone);
      waiting := waiting - 1;
      shuttingDown := false;
    }
  }
}
