/**
 What the callers of `getClient` receive. Each waits for its attempt through `withAbort`: its own
 signal withdraws it at once, otherwise it takes over the attempt's result some time after the
 shared promise is done.
 */
module SshCallers {
  import opened Base
  import opened SshConnection

  datatype Received =
    | TurnedAway                  // asked while the shutdown flag was set
    | Waiting
    | Withdrawn                   // its own signal fired
    | Got(id: ClientId)
    | Denied(outcome: Outcome)    // the attempt it waited for failed

  datatype Caller = Caller(signal: Option<Signal>, attempt: Option<ClientId>, received: Received)

  function NewCaller(m: Manager, signal: Option<Signal>): Caller
  {
    match Ask(m)
    case Refused => Caller(signal, None, TurnedAway)
    case Reuses(id) => Caller(signal, None, Got(id))
    case Starts(c) => Caller(signal, Some(c), if HasFired(m, signal) then Withdrawn else Waiting)
    case Joins(c) => Caller(signal, Some(c), if HasFired(m, signal) then Withdrawn else Waiting)
  }

  /** Caller `k`'s promise can take over: the shared promise of its attempt is done. */
  predicate TakesOver(m: Manager, caller: Caller, k: nat, e: Event)
  {
    && e == Deliver(k) && caller.attempt.Some? && m.promise != caller.attempt
    && caller.attempt.value < |m.clients|
  }

  function Handed(m: Manager, c: ClientId): Received
    requires c < |m.clients|
  {
    if m.clients[c].outcome.Ready? then Got(c) else Denied(m.clients[c].outcome)
  }

  function CallerStep(m: Manager, caller: Caller, k: nat, e: Event): Caller
  {
    if caller.received != Waiting then caller
    else if e.Abort? && caller.signal == Some(e.fired) then caller.(received := Withdrawn)
    else if TakesOver(m, caller, k, e) then caller.(received := Handed(m, caller.attempt.value))
    else caller
  }

  /** The callers so far, in the order in which they asked. */
  function Callers(tr: seq<Manager>, events: seq<Event>, i: nat): seq<Caller>
    requires |tr| == |events| + 1 && i <= |events|
  {
    if i == 0 then []
    else
      var before, m, e := Callers(tr, events, i - 1), tr[i - 1], events[i - 1];
      var after := seq(|before|, k requires 0 <= k < |before| => CallerStep(m, before[k], k, e));
      if e.GetClient? then after + [NewCaller(m, e.signal)] else after
  }

  // ----- the fate of one caller -----

  /** The caller that asks at `g` starts or joins attempt `c`. */
  ghost predicate AsksFor(tr: seq<Manager>, events: seq<Event>, g: nat, c: ClientId)
    requires |tr| == |events| + 1
  {
    g < |events| && events[g].GetClient? && (Ask(tr[g]) == Starts(c) || Ask(tr[g]) == Joins(c))
  }

  /** The events that end the waiting of caller `k` for attempt `c`. */
  predicate Decides(m: Manager, own: Option<Signal>, c: ClientId, k: nat, e: Event)
  {
    (e.Abort? && own == Some(e.fired)) || (e == Deliver(k) && m.promise != Some(c))
  }

  ghost predicate FirstDecisive(tr: seq<Manager>, events: seq<Event>, g: nat, m: nat, c: ClientId)
    requires |tr| == |events| + 1 && AsksFor(tr, events, g, c)
  {
    var own, k := events[g].signal, |Callers(tr, events, g)|;
    && g < m < |events| && Decides(tr[m], own, c, k, events[m])
    && forall n :: g < n < m ==> !Decides(tr[n], own, c, k, events[n])
  }

  lemma CallerAt(tr: seq<Manager>, events: seq<Event>, k: nat, j: nat)
    requires |tr| == |events| + 1 && 0 < j <= |events| && k < |Callers(tr, events, j - 1)|
    ensures k < |Callers(tr, events, j)|
    ensures Callers(tr, events, j)[k] == CallerStep(tr[j - 1], Callers(tr, events, j - 1)[k], k, events[j - 1])
  {
    hide CallerStep, NewCaller;
  }

  lemma {:induction false} AttemptExists(tr: seq<Manager>, events: seq<Event>, g: nat, j: nat, c: ClientId)
    requires Run(tr, events) && AsksFor(tr, events, g, c) && g < j < |tr|
    ensures c < |tr[j].clients|
    decreases j - g
  {
    RunInv(tr, events, g);
    assert StepAt(tr, events, g);
    if g + 1 < j {
      AttemptExists(tr, events, g, j - 1, c);
      RunInv(tr, events, j - 1);
      assert StepAt(tr, events, j - 1);
      hide Next, CanHappen;
      StepOutcomes(tr[j - 1], events[j - 1]);
    }
  }

  lemma Arrival(tr: seq<Manager>, events: seq<Event>, g: nat, c: ClientId)
    requires |tr| == |events| + 1 && AsksFor(tr, events, g, c)
    ensures var k, own := |Callers(tr, events, g)|, events[g].signal;
            && k < |Callers(tr, events, g + 1)|
            && Callers(tr, events, g + 1)[k]
               == Caller(own, Some(c), if HasFired(tr[g], own) then Withdrawn else Waiting)
  {
    hide CallerStep;
  }

  lemma {:induction false} WaitsUntil(tr: seq<Manager>, events: seq<Event>, g: nat, j: nat, c: ClientId)
    requires Run(tr, events) && AsksFor(tr, events, g, c) && g < j < |tr| && !HasFired(tr[g], events[g].signal)
    requires forall n :: g < n < j ==> !Decides(tr[n], events[g].signal, c, |Callers(tr, events, g)|, events[n])
    ensures var k := |Callers(tr, events, g)|;
            k < |Callers(tr, events, j)| && Callers(tr, events, j)[k] == Caller(events[g].signal, Some(c), Waiting)
    decreases j - g
  {
    hide Callers;
    Arrival(tr, events, g, c);
    if g + 1 < j {
      WaitsUntil(tr, events, g, j - 1, c);
      CallerAt(tr, events, |Callers(tr, events, g)|, j);
    }
  }

  lemma {:induction false} ReceivedKept(tr: seq<Manager>, events: seq<Event>, k: nat, i: nat, j: nat)
    requires |tr| == |events| + 1 && i <= j <= |events| && k < |Callers(tr, events, i)|
    requires Callers(tr, events, i)[k].received != Waiting
    ensures k < |Callers(tr, events, j)| && Callers(tr, events, j)[k] == Callers(tr, events, i)[k]
    decreases j - i
  {
    hide Callers;
    if i < j {
      ReceivedKept(tr, events, k, i, j - 1);
      CallerAt(tr, events, k, j);
    }
  }

  /** The first decisive event settles what the caller receives, for good. */
  lemma FateDecided(tr: seq<Manager>, events: seq<Event>, g: nat, m: nat, j: nat, c: ClientId)
    requires Run(tr, events) && AsksFor(tr, events, g, c) && !HasFired(tr[g], events[g].signal)
    requires FirstDecisive(tr, events, g, m, c) && m < j < |tr|
    ensures c < |tr[m].clients| && |Callers(tr, events, g)| < |Callers(tr, events, j)|
    ensures Callers(tr, events, j)[|Callers(tr, events, g)|].received
            == if events[m].Abort? then Withdrawn else Handed(tr[m], c)
  {
    hide Callers;
    var k := |Callers(tr, events, g)|;
    WaitsUntil(tr, events, g, m, c);
    AttemptExists(tr, events, g, m, c);
    CallerAt(tr, events, k, m + 1);
    RunInv(tr, events, m);
    ReceivedKept(tr, events, k, m + 1, j);
  }

  lemma {:induction false} FindDecisive(tr: seq<Manager>, events: seq<Event>, g: nat, n: nat, c: ClientId)
    returns (m: nat)
    requires |tr| == |events| + 1 && AsksFor(tr, events, g, c) && g < n < |events|
    requires Decides(tr[n], events[g].signal, c, |Callers(tr, events, g)|, events[n])
    ensures m <= n && FirstDecisive(tr, events, g, m, c)
  {
    hide Callers, Decides;
    if x: nat :| g < x < n && Decides(tr[x], events[g].signal, c, |Callers(tr, events, g)|, events[x]) {
      m := FindDecisive(tr, events, g, x, c);
    } else {
      m := n;
    }
  }

  // ----- rejection by somebody else's signal -----

  lemma {:induction false} FiredStays(tr: seq<Manager>, events: seq<Event>, i: nat, j: nat, f: Signal)
    requires Run(tr, events) && i <= j < |tr| && f in tr[i].fired
    ensures f in tr[j].fired
    decreases j - i
  {
    if i < j {
      FiredStays(tr, events, i, j - 1, f);
      assert StepAt(tr, events, j - 1);
    }
  }

  /** The signal of the caller that started attempt `c` at `s` ended it before `m`. */
  ghost predicate StarterAborted(tr: seq<Manager>, events: seq<Event>, s: nat, m: nat, c: ClientId)
    requires Run(tr, events) && s < |events| && events[s].GetClient? && c < |tr[s + 1].clients|
  {
    HasFired(tr[s], events[s].signal) || SettledAs(tr, events, s + 1, m, c, Aborted)
  }

  /** An attempt is aborted exactly by the signal of the caller that started it. */
  lemma AbortedByStarter(tr: seq<Manager>, events: seq<Event>, s: nat, m: nat, c: ClientId)
    requires Run(tr, events) && s < m < |tr| && events[s].GetClient? && Ask(tr[s]) == Starts(c)
    ensures c < |tr[s + 1].clients| && c < |tr[m].clients| && tr[s + 1].clients[c].signal == events[s].signal
    ensures tr[m].clients[c].outcome.Aborted? <==> StarterAborted(tr, events, s, m, c)
  {
    hide SettledAs;
    assert StepAt(tr, events, s);
    if HasFired(tr[s], events[s].signal) {
      OutcomeKept(tr, events, s + 1, m, c);
    } else {
      UnsettledIff(tr, events, s + 1, m, c);
    }
  }

  lemma DecisiveOnce(tr: seq<Manager>, events: seq<Event>, g: nat, m: nat, c: ClientId)
    requires |tr| == |events| + 1 && AsksFor(tr, events, g, c) && FirstDecisive(tr, events, g, m, c)
    ensures g < m < |events| && (events[m].Abort? || events[m].Deliver?)
    ensures forall m': nat :: FirstDecisive(tr, events, g, m', c) ==> m' == m
  {
    hide Callers;
  }

  lemma NeverDecisive(tr: seq<Manager>, events: seq<Event>, g: nat, j: nat, c: ClientId)
    requires |tr| == |events| + 1 && AsksFor(tr, events, g, c)
    requires forall n :: g < n < j < |tr| ==> !Decides(tr[n], events[g].signal, c, |Callers(tr, events, g)|, events[n])
    ensures j < |tr| ==> forall m: nat :: m < j ==> !FirstDecisive(tr, events, g, m, c)
  {
    hide Callers, Decides;
  }

  lemma NotItsOwn(tr: seq<Manager>, events: seq<Event>, s: nat, g: nat, m: nat, c: ClientId)
    requires Run(tr, events) && s <= g && AsksFor(tr, events, g, c) && !HasFired(tr[g], events[g].signal)
    requires events[s].GetClient? && Ask(tr[s]) == Starts(c) && c < |tr[s + 1].clients|
    requires tr[s + 1].clients[c].signal == events[s].signal
    requires FirstDecisive(tr, events, g, m, c) && StarterAborted(tr, events, s, m, c)
    ensures events[s].signal.Some? && events[s].signal != events[g].signal
  {
    hide Callers;
    if HasFired(tr[s], events[s].signal) {
      FiredStays(tr, events, s, g, events[s].signal.value);
    } else {
      var n: nat :| n < m && FirstSettles(tr, events, s + 1, n, c) && Verdict(events[n]) == Aborted;
      var f := events[n].fired;
      assert StepAt(tr, events, n);
      if n < g {
        FiredStays(tr, events, n + 1, g, f);
      } else {
        assert n > g && !Decides(tr[n], events[g].signal, c, |Callers(tr, events, g)|, events[n]);
      }
    }
  }

  /**
   A caller of an attempt that somebody started at `s` is denied because of an abort exactly when
   its promise took over first, its own signal not having fired, and the starter's signal had ended
   the attempt. The signal that ended it is then never the caller's own.
   */
  lemma DeniedByStarterIff(tr: seq<Manager>, events: seq<Event>, s: nat, g: nat, j: nat, c: ClientId)
    requires Run(tr, events) && s <= g < j < |tr| && AsksFor(tr, events, g, c)
    requires events[s].GetClient? && Ask(tr[s]) == Starts(c)
    ensures c < |tr[s + 1].clients| && |Callers(tr, events, g)| < |Callers(tr, events, j)|
    ensures var received := Callers(tr, events, j)[|Callers(tr, events, g)|].received;
            && (received == Denied(Aborted) <==>
                && !HasFired(tr[g], events[g].signal)
                && exists m: nat :: m < j && FirstDecisive(tr, events, g, m, c) && events[m].Deliver?
                                    && StarterAborted(tr, events, s, m, c))
            && (received == Denied(Aborted) ==> events[s].signal.Some? && events[s].signal != events[g].signal)
  {
    hide Callers, StarterAborted, FirstDecisive;
    var k := |Callers(tr, events, g)|;
    AbortedByStarter(tr, events, s, j, c);
    Arrival(tr, events, g, c);
    if HasFired(tr[g], events[g].signal) {
      ReceivedKept(tr, events, k, g + 1, j);
    } else if n: nat :| g < n < j && Decides(tr[n], events[g].signal, c, k, events[n]) {
      var m := FindDecisive(tr, events, g, n, c);
      FateDecided(tr, events, g, m, j, c);
      DecisiveOnce(tr, events, g, m, c);
      AbortedByStarter(tr, events, s, m, c);
      if Callers(tr, events, j)[k].received == Denied(Aborted) {
        NotItsOwn(tr, events, s, g, m, c);
      }
    } else {
      WaitsUntil(tr, events, g, j, c);
      NeverDecisive(tr, events, g, j, c);
    }
  }

  /** A caller that is handed the active client is handed a sound one. */
  lemma ReusedIsSound(tr: seq<Manager>, events: seq<Event>, g: nat)
    requires Run(tr, events) && g < |events| && events[g].GetClient? && Ask(tr[g]).Reuses?
    ensures var c, k := Ask(tr[g]).id, |Callers(tr, events, g)|;
            && c < |tr[g].clients| && (forall n :: 0 <= n < g ==> !Breaks(tr[n], c, events[n]))
            && k < |Callers(tr, events, g + 1)| && Callers(tr, events, g + 1)[k].received == Got(c)
  {
    hide Breaks, CallerStep;
    RunInv(tr, events, g);
    BrokenIff(tr, events, g, Ask(tr[g]).id);
  }

  /**
   A caller that takes over a successful attempt at `m` is handed its client, and that client is
   broken exactly if it emitted an error or a close between becoming ready and `m`.
   */
  lemma HandedBrokenIff(tr: seq<Manager>, events: seq<Event>, g: nat, m: nat, j: nat, c: ClientId)
    requires Run(tr, events) && AsksFor(tr, events, g, c) && !HasFired(tr[g], events[g].signal)
    requires FirstDecisive(tr, events, g, m, c) && m < j < |tr| && events[m].Deliver?
    requires c < |tr[m].clients| && tr[m].clients[c].outcome.Ready?
    ensures |Callers(tr, events, g)| < |Callers(tr, events, j)|
    ensures Callers(tr, events, j)[|Callers(tr, events, g)|].received == Got(c)
    ensures tr[m].clients[c].broken <==> exists n :: 0 <= n < m && Breaks(tr[n], c, events[n])
  {
    hide Callers, Breaks;
    FateDecided(tr, events, g, m, j, c);
    BrokenIff(tr, events, m, c);
  }

  lemma FourMore(tr: seq<Manager>, events: seq<Event>, more: seq<Event>, s1: Manager, s2: Manager, s3: Manager,
                 s4: Manager)
    requires Run(tr, events) && |more| == 4
    requires CanHappen(tr[|events|], more[0]) && s1 == Next(tr[|events|], more[0])
    requires CanHappen(s1, more[1]) && s2 == Next(s1, more[1])
    requires CanHappen(s2, more[2]) && s3 == Next(s2, more[2])
    requires CanHappen(s3, more[3]) && s4 == Next(s3, more[3])
    ensures Run(tr + [s1, s2, s3, s4], events + more)
  {
    hide Next, CanHappen;
    OneMore(tr, events, more[0]);
    OneMore(tr + [s1], events + [more[0]], more[1]);
    OneMore(tr + [s1] + [s2], events + [more[0]] + [more[1]], more[2]);
    OneMore(tr + [s1] + [s2] + [s3], events + [more[0]] + [more[1]] + [more[2]], more[3]);
    assert tr + [s1, s2, s3, s4] == tr + [s1] + [s2] + [s3] + [s4];
    assert events + more == events + [more[0]] + [more[1]] + [more[2]] + [more[3]];
  }

  /**
   A caller can be handed a client that is already broken: whenever a client is active and its
   promise is not yet done, it may close, and a caller that asks then still joins the attempt.
   */
  lemma HandsOutBrokenClient(tr: seq<Manager>, events: seq<Event>, c: ClientId)
    returns (tr': seq<Manager>, more: seq<Event>)
    requires Run(tr, events) && tr[|events|].active == Some(c) && tr[|events|].promise == Some(c)
    ensures var k := |Callers(tr, events, |events|)|;
            && more == [ClientClose(c), GetClient(None), PromiseDone, Deliver(k)]
            && Run(tr', events + more) && tr'[..|tr|] == tr
            && k < |Callers(tr', events + more, |events| + 4)|
            && Callers(tr', events + more, |events| + 4)[k].received == Got(c)
            && c < |tr'[|events| + 2].clients| && tr'[|events| + 2].clients[c].broken
  {
    RunInv(tr, events, |events|);
    var k := |Callers(tr, events, |events|)|;
    more := [ClientClose(c), GetClient(None), PromiseDone, Deliver(k)];
    var s1 := Next(tr[|events|], ClientClose(c));
    var s2 := Next(s1, GetClient(None));
    assert s2 == s1 && !s1.shuttingDown;
    var s3 := Next(s2, PromiseDone);
    FourMore(tr, events, more, s1, s2, s3, s3);
    tr' := tr + [s1, s2, s3, s3];
    var events' := events + more;
    var g := |events| + 1;
    SameCallers(tr, events, tr', events', |events|);
    assert |Callers(tr', events', g)| == k;
    hide Callers, Next, CanHappen;
    assert AsksFor(tr', events', g, c) && FirstDecisive(tr', events', g, g + 2, c);
    FateDecided(tr', events', g, g + 2, g + 3, c);
  }

  /** And it happens: whatever attempt waits under a signal, a caller that joins it is denied when that signal fires. */
  lemma StarterDeniesOthers(tr: seq<Manager>, events: seq<Event>, c: ClientId, f: Signal)
    returns (tr': seq<Manager>, more: seq<Event>)
    requires Run(tr, events) && c < |tr[|events|].clients| && tr[|events|].clients[c].outcome.Pending?
    requires tr[|events|].clients[c].signal == Some(f)
    ensures var k := |Callers(tr, events, |events|)|;
            && more == [GetClient(None), Abort(f), PromiseDone, Deliver(k)]
            && Run(tr', events + more) && tr'[..|tr|] == tr
            && k < |Callers(tr', events + more, |events| + 4)|
            && Callers(tr', events + more, |events| + 4)[k].received == Denied(Aborted)
  {
    RunInv(tr, events, |events|);
    var k, g := |Callers(tr, events, |events|)|, |events|;
    more := [GetClient(None), Abort(f), PromiseDone, Deliver(k)];
    var s1 := Next(tr[g], GetClient(None));
    assert s1 == tr[g] && HasFired(s1, Some(f)) == (f in s1.fired);
    var s2 := Next(s1, Abort(f));
    var s3 := Next(s2, PromiseDone);
    FourMore(tr, events, more, s1, s2, s3, s3);
    tr' := tr + [s1, s2, s3, s3];
    var events' := events + more;
    SameCallers(tr, events, tr', events', g);
    hide Callers, Next, CanHappen;
    assert AsksFor(tr', events', g, c) && FirstDecisive(tr', events', g, g + 3, c);
    FateDecided(tr', events', g, g + 3, g + 4, c);
  }

  lemma {:induction false} SameCallers(tr: seq<Manager>, events: seq<Event>, tr': seq<Manager>, events': seq<Event>,
                                       i: nat)
    requires |tr| == |events| + 1 && |tr'| == |events'| + 1 && i <= |events|
    requires tr <= tr' && events <= events'
    ensures Callers(tr, events, i) == Callers(tr', events', i)
  {
    if i > 0 {
      hide CallerStep, NewCaller;
      SameCallers(tr, events, tr', events', i - 1);
    }
  }
}
