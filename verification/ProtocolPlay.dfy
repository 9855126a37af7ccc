/** Replaying actions: building runs step by step. */
module ProtocolPlay {
  import opened Base
  import opened Model
  import opened Protocol
  import opened Text

  /** Where the actions lead from `s`, if each is enabled in its turn. */
  ghost function Play(cfg: Config, s: Sys, acts: seq<Action>): Option<Sys>
  {
    if acts == [] then Some(s)
    else
      var before := Play(cfg, s, acts[..|acts| - 1]);
      var a := acts[|acts| - 1];
      if before.Some? && Enabled(cfg, before.value, a) then Some(Next(cfg, before.value, a)) else None
  }

  lemma PlayMore(cfg: Config, s: Sys, acts: seq<Action>, now: Sys, a: Action)
    requires Play(cfg, s, acts) == Some(now) && Enabled(cfg, now, a)
    ensures Play(cfg, s, acts + [a]) == Some(Next(cfg, now, a))
  {
    assert (acts + [a])[..|acts + [a]| - 1] == acts;
  }

  /** What can be replayed is a run of the protocol. */
  lemma {:induction false} PlayIsRun(cfg: Config, s: Sys, acts: seq<Action>) returns (tr: seq<Sys>)
    requires Play(cfg, s, acts).Some?
    ensures Run(cfg, tr, acts) && tr[0] == s && tr[|acts|] == Play(cfg, s, acts).value
  {
    hide Next, Enabled;
    if acts == [] {
      tr := [s];
    } else {
      var init := acts[..|acts| - 1];
      var front := PlayIsRun(cfg, s, init);
      tr := front + [Play(cfg, s, acts).value];
      forall i ensures StepAt(cfg, tr, acts, i)
      {
        assert StepAt(cfg, front, init, i);
      }
    }
  }

  lemma PlayPutStep(cfg: Config, s: Sys, acts: seq<Action>, now: Sys)
    requires Play(cfg, s, acts) == Some(now) && !now.put.NoPut?
    ensures Play(cfg, s, acts + [PutGoesOn]) == Some(AfterPutStep(now))
  {
    hide Play;
    PlayMore(cfg, s, acts, now, PutGoesOn);
  }

  /** The put's lock is taken and its checks pass. */
  lemma PlayBegin(cfg: Config, s: Sys, expected: U64, draft: ControlPlaneState, next: ControlPlaneState)
    requires s.put.NoPut? && PutOutcome(cfg, s.mem, expected, draft) == Ok(next)
    ensures Play(cfg, s, [BeginPut(expected, draft)]) == Some(s.(put := Writing(next)))
    ensures Play(cfg, s, [BeginPut(expected, draft), PutFails]) == Some(s)
  {
    var begin := [BeginPut(expected, draft)];
    assert Play(cfg, s, []) == Some(s);
    hide Play, PutOutcome;
    PlayMore(cfg, s, [], s, begin[0]);
    assert [] + begin == begin;
    PlayMore(cfg, s, begin, s.(put := Writing(next)), PutFails);
    assert begin + [PutFails] == [BeginPut(expected, draft), PutFails];
  }

  lemma PlayPut(cfg: Config, s: Sys, expected: U64, draft: ControlPlaneState, next: ControlPlaneState)
    requires s.put.NoPut? && PutOutcome(cfg, s.mem, expected, draft) == Ok(next)
    ensures Play(cfg, s, [BeginPut(expected, draft), PutGoesOn, PutGoesOn, PutGoesOn])
            == Some(s.(disk := next, mem := next, status := PendingStatus(s.status, next.revision)))
  {
    hide Play, PutOutcome, PendingStatus, Next, Enabled;
    var begin := [BeginPut(expected, draft)];
    var s1 := s.(put := Writing(next));
    PlayBegin(cfg, s, expected, draft, next);
    PlayPutStep(cfg, s, begin, s1);
    PlayPutStep(cfg, s, begin + [PutGoesOn], AfterPutStep(s1));
    PlayPutStep(cfg, s, begin + [PutGoesOn] + [PutGoesOn], AfterPutStep(AfterPutStep(s1)));
    assert begin + [PutGoesOn] + [PutGoesOn] + [PutGoesOn]
        == [BeginPut(expected, draft), PutGoesOn, PutGoesOn, PutGoesOn];
  }

  lemma PlayReject(cfg: Config, s: Sys, expected: U64, draft: ControlPlaneState)
    requires s.put.NoPut? && PutOutcome(cfg, s.mem, expected, draft).Err?
    ensures Play(cfg, s, [RejectPut(expected, draft)]) == Some(s)
  {
    assert Play(cfg, s, []) == Some(s);
    PlayMore(cfg, s, [], s, RejectPut(expected, draft));
    assert [] + [RejectPut(expected, draft)] == [RejectPut(expected, draft)];
  }

  /**
   A put is accepted exactly when the revision matches, the author is not blank and the new state is
   valid. The new state is the draft, author and servers, under the old schema version and the
   next revision; a wrong revision is a conflict, whatever else is wrong.
   */
  lemma PutOutcomeExact(cfg: Config, current: ControlPlaneState, expected: U64, draft: ControlPlaneState)
    ensures var r := PutOutcome(cfg, current, expected, draft);
            var next := ControlPlaneState(current.schemaVersion, (current.revision + 1) % (MAX_U64 + 1),
                                          draft.updatedBy, draft.servers);
            && (r.Ok? <==> current.revision == expected && !AllSpace(RustSpace, draft.updatedBy) && cfg.accepts(next))
            && (r.Ok? ==> r.value == next)
            && (r.Err? ==> if current.revision != expected then r.error == Conflict(expected, current.revision)
                           else r.error.InvalidInput?)
  {
    hide Trim, AllSpace;
    BlankIff(RustSpace, draft.updatedBy);
  }

  /** The whole of one put: refused, or accepted and then stored or not. */
  function PutActs(cfg: Config, current: ControlPlaneState, expected: U64, draft: ControlPlaneState,
                   stored: bool): seq<Action>
  {
    if PutOutcome(cfg, current, expected, draft).Err? then [RejectPut(expected, draft)]
    else if stored then [BeginPut(expected, draft), PutGoesOn, PutGoesOn, PutGoesOn]
    else [BeginPut(expected, draft), PutFails]
  }

  lemma PlayPutActs(cfg: Config, s: Sys, expected: U64, draft: ControlPlaneState, stored: bool)
    requires s.put.NoPut?
    ensures var outcome := PutOutcome(cfg, s.mem, expected, draft);
            Play(cfg, s, PutActs(cfg, s.mem, expected, draft, stored)) ==
            Some(if outcome.Ok? && stored
                 then s.(disk := outcome.value, mem := outcome.value,
                         status := PendingStatus(s.status, outcome.value.revision))
                 else s)
  {
    hide Play, PutOutcome, PendingStatus;
    var outcome := PutOutcome(cfg, s.mem, expected, draft);
    if outcome.Err? {
      PlayReject(cfg, s, expected, draft);
    } else if stored {
      PlayPut(cfg, s, expected, draft, outcome.value);
    } else {
      PlayBegin(cfg, s, expected, draft, outcome.value);
    }
  }
}
