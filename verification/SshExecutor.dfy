/** Running a command over SSH: one exec settles by its first terminal event, failures to connect are retried. */
module SshExecutor {
  import opened Base
  import opened Text

  const CONNECT_FAILED := "SSH_CONNECT_FAILED"
  const ABORTED := "ABORTED"

  datatype RemoteError = RemoteError(message: string, code: string)

  datatype ExecResult = Resolved(output: string) | Rejected(error: RemoteError)

  datatype ExecEvent =
    | AbortFired
    | TimedOut
    | OpenFailed(message: string)
    | Opened
    | Stdout(chunk: string)
    | Stderr(chunk: string)
    | Closed(code: Option<nat>)   // no code when a signal ended the command

  // ----- one exec, declaratively -----

  function StdoutOf(events: seq<ExecEvent>): string
  {
    if events == [] then ""
    else
      var last := events[|events| - 1];
      StdoutOf(events[..|events| - 1]) + (if last.Stdout? && Opened in events then last.chunk else "")
  }

  function StderrOf(events: seq<ExecEvent>): string
  {
    if events == [] then ""
    else
      var last := events[|events| - 1];
      StderrOf(events[..|events| - 1]) + (if last.Stderr? && Opened in events then last.chunk else "")
  }

  /** `events[k]` ends the exec: an abort, the timer, a channel that did not open, or the close of one that did. */
  predicate Terminal(events: seq<ExecEvent>, k: nat)
    requires k < |events|
  {
    match events[k]
    case AbortFired | TimedOut => true
    case OpenFailed(_) => Opened !in events[..k]
    case Closed(_) => Opened in events[..k]
    case _ => false
  }

  /** Abort and timer end an exec at any time, a failed open only before the open, a close only after it. */
  lemma TerminalExact(events: seq<ExecEvent>, k: nat)
    requires k < |events|
    ensures events[k].AbortFired? || events[k].TimedOut? ==> Terminal(events, k)
    ensures events[k].OpenFailed? ==> (Terminal(events, k) <==> forall i :: 0 <= i < k ==> events[i] != Opened)
    ensures events[k].Closed? ==> (Terminal(events, k) <==> exists i :: 0 <= i < k && events[i] == Opened)
    ensures events[k].Opened? || events[k].Stdout? || events[k].Stderr? ==> !Terminal(events, k)
  {
    assert Opened in events[..k] <==> exists i :: 0 <= i < k && events[i] == Opened;
  }

  predicate FirstTerminal(events: seq<ExecEvent>, k: nat)
  {
    k < |events| && Terminal(events, k) && forall j :: 0 <= j < k ==> !Terminal(events, j)
  }

  function AbortedResult(): ExecResult
  {
    Rejected(RemoteError("Operation aborted", ABORTED))
  }

  function TimeoutResult(): ExecResult
  {
    Rejected(RemoteError("SSH command timed out", "SSH_TIMEOUT"))
  }

  function NonZeroMessage(code: Option<nat>, stderr: string): string
  {
    if stderr != "" then stderr else "SSH exited with code " + if code.Some? then Decimal(code.value) else "null"
  }

  function CloseResult(parse: string -> Option<RemoteError>, code: Option<nat>, stdout: string,
                       stderr: string): ExecResult
  {
    if code == Some(0) then Resolved(Trim(JsSpace, stdout))
    else
      var remote := parse(stderr);
      if remote.Some? then Rejected(remote.value)
          else Rejected(RemoteError(NonZeroMessage(code, stderr), "SSH_NON_ZERO"))
  }

  /** The result that terminal event `k` gives; `parse` reads a structured error from stderr. */
  function ResultAt(parse: string -> Option<RemoteError>, events: seq<ExecEvent>, k: nat): ExecResult
    requires k < |events|
  {
    match events[k]
    case AbortFired => AbortedResult()
    case TimedOut => TimeoutResult()
    case OpenFailed(message) => Rejected(RemoteError(message, "SSH_EXEC_OPEN_FAILED"))
    case Closed(code) => CloseResult(parse, code, StdoutOf(events[..k]), StderrOf(events[..k]))
    case _ => TimeoutResult()
  }

  /** What one event does to an exec that has collected `stdout` and `stderr` so far. */
  method Handle(parse: string -> Option<RemoteError>, e: ExecEvent, isOpen: bool, stdout: string, stderr: string)
    returns (isOpen': bool, stdout': string, stderr': string, result: Option<ExecResult>)
    ensures isOpen' == (isOpen || e.Opened?)
    ensures stdout' == stdout + (if e.Stdout? && isOpen then e.chunk else "")
    ensures stderr' == stderr + (if e.Stderr? && isOpen then e.chunk else "")
    ensures result == EventResult(parse, e, isOpen, stdout, stderr)
  {
    isOpen', stdout', stderr', result := isOpen, stdout, stderr, None;
    match e {
      case AbortFired => result := Some(AbortedResult());
      case TimedOut => result := Some(TimeoutResult());
      case OpenFailed(message) =>
        if !isOpen {
          result := Some(Rejected(RemoteError(message, "SSH_EXEC_OPEN_FAILED")));
        }
      case Opened => isOpen' := true;
      case Stdout(chunk) =>
        if isOpen {
          stdout' := stdout + chunk;
        }
      case Stderr(chunk) =>
        if isOpen {
          stderr' := stderr + chunk;
        }
      case Closed(code) =>
        if isOpen {
          result := Some(CloseResult(parse, code, stdout, stderr));
        }
    }
  }

  function EventResult(parse: string -> Option<RemoteError>, e: ExecEvent, isOpen: bool, stdout: string,
                       stderr: string): Option<ExecResult>
  {
    match e
    case AbortFired => Some(AbortedResult())
    case TimedOut => Some(TimeoutResult())
    case OpenFailed(message) => if isOpen then None else Some(Rejected(RemoteError(message, "SSH_EXEC_OPEN_FAILED")))
    case Closed(code) => if isOpen then Some(CloseResult(parse, code, stdout, stderr)) else None
    case _ => None
  }

  lemma EventAt(parse: string -> Option<RemoteError>, events: seq<ExecEvent>, i: nat)
    requires i < |events|
    ensures var before := events[..i];
            EventResult(parse, events[i], Opened in before, StdoutOf(before), StderrOf(before))
            == if Terminal(events, i) then Some(ResultAt(parse, events, i)) else None
  {
    hide StdoutOf, StderrOf, CloseResult;
  }

  lemma OutputStep(events: seq<ExecEvent>, i: nat)
    requires i < |events|
    ensures var before, after := events[..i], events[..i + 1];
            && (Opened in after <==> Opened in before || events[i].Opened?)
            && StdoutOf(after) == StdoutOf(before)
               + (if events[i].Stdout? && Opened in before then events[i].chunk else "")
            && StderrOf(after) == StderrOf(before)
               + (if events[i].Stderr? && Opened in before then events[i].chunk else "")
  {
    assert events[..i + 1] == events[..i] + [events[i]] && events[..i + 1][..i] == events[..i];
  }

  // ----- the output -----

  /** What the events print on standard output, from the first to the last. */
  function Printed(events: seq<ExecEvent>): string
  {
    if events == [] then "" else (if events[0].Stdout? then events[0].chunk else "") + Printed(events[1..])
  }

  /** And on standard error. */
  function Complained(events: seq<ExecEvent>): string
  {
    if events == [] then "" else (if events[0].Stderr? then events[0].chunk else "") + Complained(events[1..])
  }

  predicate FirstOpened(events: seq<ExecEvent>, o: nat)
  {
    o < |events| && events[o].Opened? && Opened !in events[..o]
  }

  lemma {:induction false} PrintedSnoc(events: seq<ExecEvent>, e: ExecEvent)
    ensures Printed(events + [e]) == Printed(events) + (if e.Stdout? then e.chunk else "")
  {
    var last := if e.Stdout? then e.chunk else "";
    if events == [] {
      assert [] + [e] == [e] && [e][1..] == [] && Printed([]) == "";
      assert Printed([e]) == last + "" == last == "" + last;
    } else {
      var first := if events[0].Stdout? then events[0].chunk else "";
      assert (events + [e])[1..] == events[1..] + [e] && (events + [e])[0] == events[0];
      PrintedSnoc(events[1..], e);
      assert first + (Printed(events[1..]) + last) == first + Printed(events[1..]) + last;
    }
  }

  lemma {:induction false} ComplainedSnoc(events: seq<ExecEvent>, e: ExecEvent)
    ensures Complained(events + [e]) == Complained(events) + (if e.Stderr? then e.chunk else "")
  {
    var last := if e.Stderr? then e.chunk else "";
    if events == [] {
      assert [] + [e] == [e] && [e][1..] == [] && Complained([]) == "";
      assert Complained([e]) == last + "" == last == "" + last;
    } else {
      var first := if events[0].Stderr? then events[0].chunk else "";
      assert (events + [e])[1..] == events[1..] + [e] && (events + [e])[0] == events[0];
      ComplainedSnoc(events[1..], e);
      assert first + (Complained(events[1..]) + last) == first + Complained(events[1..]) + last;
    }
  }

  /** The output counts from the first time the channel is open; before that there is none. */
  lemma {:induction false} OutputExact(events: seq<ExecEvent>, o: nat)
    requires FirstOpened(events, o)
    ensures StdoutOf(events) == Printed(events[o + 1..]) && StderrOf(events) == Complained(events[o + 1..])
    decreases |events|
  {
    var init, last := events[..|events| - 1], events[|events| - 1];
    if o == |events| - 1 {
      assert events[o + 1..] == [];
      NothingBefore(init);
    } else {
      assert init[..o] == events[..o];
      OutputExact(init, o);
      assert events[o + 1..] == init[o + 1..] + [last];
      PrintedSnoc(init[o + 1..], last);
      ComplainedSnoc(init[o + 1..], last);
      assert events[o] in events;
    }
  }

  lemma {:induction false} NothingBefore(events: seq<ExecEvent>)
    requires Opened !in events
    ensures StdoutOf(events) == "" && StderrOf(events) == ""
  {
    if events != [] {
      NothingBefore(events[..|events| - 1]);
    }
  }

  /**
   What an exec ends with, by the event that ends it: a zero exit code resolves with the trimmed
   standard output since the channel opened; any other close is rejected with the error that the
   remote wrote on standard error, or else with that text; abort, timer and open failure have codes
   of their own.
   */
  lemma ResultMeans(parse: string -> Option<RemoteError>, events: seq<ExecEvent>, k: nat, o: nat)
    requires FirstTerminal(events, k)
    requires events[k].Closed? ==> o < k && FirstOpened(events[..k], o)
    ensures var r := ResultAt(parse, events, k); var since := events[..k][if o < k then o + 1 else k..];
            match events[k]
            case Closed(Some(0)) => r == Resolved(Trim(JsSpace, Printed(since)))
            case Closed(code) =>
              var text := Complained(since);
              var shown := if code.Some? then Decimal(code.value) else "null";
              if parse(text).Some? then r == Rejected(parse(text).value)
              else r == Rejected(RemoteError(if text == "" then "SSH exited with code " + shown
                  else text, "SSH_NON_ZERO"))
            case AbortFired => r == Rejected(RemoteError("Operation aborted", "ABORTED"))
            case TimedOut => r == Rejected(RemoteError("SSH command timed out", "SSH_TIMEOUT"))
            case OpenFailed(message) => r == Rejected(RemoteError(message, "SSH_EXEC_OPEN_FAILED"))
            case _ => false
  {
    hide Printed, Complained, StdoutOf, StderrOf, Trim;
    if events[k].Closed? {
      OutputExact(events[..k], o);
    }
  }

  /** The channel of an exec that a close ends had been opened. */
  lemma ClosedAfterOpen(events: seq<ExecEvent>, k: nat) returns (o: nat)
    requires FirstTerminal(events, k) && events[k].Closed?
    ensures o < k && FirstOpened(events[..k], o)
  {
    o := OpenedBefore(events[..k]);
  }

  lemma {:induction false} OpenedBefore(events: seq<ExecEvent>) returns (o: nat)
    requires Opened in events
    ensures FirstOpened(events, o)
  {
    var init := events[..|events| - 1];
    if Opened in init {
      o := OpenedBefore(init);
      assert events[..o] == init[..o];
    } else {
      o := |events| - 1;
      assert events == init + [events[o]];
    }
  }

  /** `execOnClient` over the events it sees: the first terminal event settles it, later ones change nothing. */
  method ExecOnClient(parse: string -> Option<RemoteError>, events: seq<ExecEvent>)
    returns (settled: Option<ExecResult>)
    ensures forall k :: FirstTerminal(events, k) ==> settled == Some(ResultAt(parse, events, k))
    ensures (forall k :: 0 <= k < |events| ==> !Terminal(events, k)) ==> settled == None
    ensures forall k: nat, o: nat ::
              FirstTerminal(events, k) && FirstOpened(events[..k], o) && events[k] == Closed(Some(0)) ==>
                settled == Some(Resolved(Trim(JsSpace, Printed(events[..k][o + 1..]))))
  {
    forall k: nat, o: nat | FirstTerminal(events, k) && FirstOpened(events[..k], o) && events[k] == Closed(Some(0))
      ensures ResultAt(parse, events, k) == Resolved(Trim(JsSpace, Printed(events[..k][o + 1..])))
    {
      ResultMeans(parse, events, k, o);
    }
    hide ResultAt, EventResult, StdoutOf, StderrOf, Terminal;
    settled := None;
    var isOpen, stdout, stderr := false, "", "";
    assert StdoutOf([]) == "" && StderrOf([]) == "" by { NoOutput(); }
    ghost var first: nat := |events|;
    for i := 0 to |events|
      invariant settled.None? ==> forall k :: 0 <= k < i ==> !Terminal(events, k)
      invariant settled.Some? ==>
                  first < i && FirstTerminal(events, first) && settled == Some(ResultAt(parse, events, first))
      invariant isOpen <==> Opened in events[..i]
      invariant stdout == StdoutOf(events[..i]) && stderr == StderrOf(events[..i])
    {
      OutputStep(events, i);
      EventAt(parse, events, i);
      var result;
      isOpen, stdout, stderr, result := Handle(parse, events[i], isOpen, stdout, stderr);
      if settled.None? && result.Some? {
        settled := result;
        first := i;
      }
    }
  }

  lemma NoOutput()
    ensures StdoutOf([]) == "" && StderrOf([]) == ""
  {
  }

  /** Only the remote side can report that it failed to connect. */
  lemma ConnectFailedIsRemote(parse: string -> Option<RemoteError>, events: seq<ExecEvent>, k: nat)
    requires k < |events| && ResultAt(parse, events, k).Rejected?
    requires ResultAt(parse, events, k).error.code == CONNECT_FAILED
    ensures events[k].Closed? && events[k].code != Some(0)
    ensures parse(StderrOf(events[..k])).Some? && parse(StderrOf(events[..k])).value.code == CONNECT_FAILED
  {
    assert |CONNECT_FAILED| == 18 && |ABORTED| == 7 && |"SSH_TIMEOUT"| == 11;
    assert |"SSH_EXEC_OPEN_FAILED"| == 20 && |"SSH_NON_ZERO"| == 12;
  }

  // ----- the retry loop -----

  /** One round: no client could be had, or the command was handed to a client's exec. */
  datatype Attempt =
    | NoClient(error: RemoteError)
    | AlreadyAborted
    | Handed(events: seq<ExecEvent>)

  function Pow2(n: nat): nat
  {
    if n == 0 then 1 else 2 * Pow2(n - 1)
  }

  /** The first terminal event from `k` on; the timer is always armed, so a silent exec times out. */
  function SettledFrom(parse: string -> Option<RemoteError>, events: seq<ExecEvent>, k: nat): ExecResult
    requires k <= |events|
    decreases |events| - k
  {
    if k == |events| then TimeoutResult()
    else if Terminal(events, k) then ResultAt(parse, events, k)
    else SettledFrom(parse, events, k + 1)
  }

  function ResultOf(parse: string -> Option<RemoteError>, a: Attempt): ExecResult
  {
    match a
    case NoClient(error) => Rejected(error)
    case AlreadyAborted => AbortedResult()
    case Handed(events) => SettledFrom(parse, events, 0)
  }

  /** An attempt without a client is rejected with its error, and one that was aborted before as aborted. */
  lemma AttemptExact(parse: string -> Option<RemoteError>, error: RemoteError)
    ensures ResultOf(parse, NoClient(error)) == Rejected(error)
    ensures ResultOf(parse, AlreadyAborted) == Rejected(RemoteError("Operation aborted", "ABORTED"))
    ensures ResultOf(parse, Handed([])) == Rejected(RemoteError("SSH command timed out", "SSH_TIMEOUT"))
    ensures Retryable(Rejected(error)) <==> error.code == "SSH_CONNECT_FAILED"
  {
  }

  /** `shouldRetry` without the attempt count. */
  predicate Retryable(r: ExecResult)
  {
    r.Rejected? && r.error.code == CONNECT_FAILED
  }

  /** The remote command itself reported the code of a failed connection. */
  ghost predicate RemoteClaimsConnectFailed(parse: string -> Option<RemoteError>, a: Attempt)
  {
    && a.Handed?
    && exists k :: 0 <= k < |a.events| && a.events[k].Closed? && a.events[k].code != Some(0)
                   && parse(StderrOf(a.events[..k])).Some?
                      && parse(StderrOf(a.events[..k])).value.code == CONNECT_FAILED
  }

  lemma {:induction false} RetriedExecIsRemote(parse: string -> Option<RemoteError>, events: seq<ExecEvent>, k: nat)
    requires k <= |events| && Retryable(SettledFrom(parse, events, k))
    ensures RemoteClaimsConnectFailed(parse, Handed(events))
    decreases |events| - k
  {
    assert |CONNECT_FAILED| == 18 && |"SSH_TIMEOUT"| == 11;
    if k < |events| {
      if Terminal(events, k) {
        ConnectFailedIsRemote(parse, events, k);
      } else {
        RetriedExecIsRemote(parse, events, k + 1);
      }
    }
  }

  lemma {:induction false} SettledAtFirst(parse: string -> Option<RemoteError>, events: seq<ExecEvent>, k: nat,
                                          first: nat)
    requires k <= first && FirstTerminal(events, first)
    ensures SettledFrom(parse, events, k) == ResultAt(parse, events, first)
    decreases first - k
  {
    hide ResultAt;
    if k < first {
      SettledAtFirst(parse, events, k + 1, first);
    }
  }

  lemma {:induction false} FindFirst(events: seq<ExecEvent>, n: nat) returns (k: nat)
    requires n < |events| && Terminal(events, n)
    ensures k <= n && FirstTerminal(events, k)
  {
    if j: nat :| j < n && Terminal(events, j) {
      k := FindFirst(events, j);
    } else {
      k := n;
    }
  }

  lemma {:induction false} SettledNever(parse: string -> Option<RemoteError>, events: seq<ExecEvent>, k: nat)
    requires k <= |events| && forall j :: 0 <= j < |events| ==> !Terminal(events, j)
    ensures SettledFrom(parse, events, k) == TimeoutResult()
    decreases |events| - k
  {
    hide ResultAt;
    if k < |events| {
      SettledNever(parse, events, k + 1);
    }
  }

  /** Awaiting an exec: its first terminal event, or the timer. */
  method AwaitExec(parse: string -> Option<RemoteError>, events: seq<ExecEvent>) returns (r: ExecResult)
    ensures r == SettledFrom(parse, events, 0)
  {
    hide ResultAt;
    var settled := ExecOnClient(parse, events);
    r := if settled.Some? then settled.value else TimeoutResult();
    if n: nat :| n < |events| && Terminal(events, n) {
      var k := FindFirst(events, n);
      SettledAtFirst(parse, events, 0, k);
    } else {
      SettledNever(parse, events, 0);
    }
  }

  /** How many of the first `n` rounds handed the command to a client. */
  function HandedCount(attempt: nat -> Attempt, n: nat): nat
  {
    if n == 0 then 0 else HandedCount(attempt, n - 1) + (if attempt(n).Handed? then 1 else 0)
  }

  lemma {:induction false} HandedEarlier(attempt: nat -> Attempt, n: nat)
    requires HandedCount(attempt, n) > 0
    ensures exists k :: 1 <= k <= n && attempt(k).Handed?
  {
    if !attempt(n).Handed? {
      HandedEarlier(attempt, n - 1);
    }
  }

  /** If no remote command claims a failed connection, the command is handed over at most once. */
  lemma HandedAtMostOnce(parse: string -> Option<RemoteError>, attempt: nat -> Attempt, attempts: nat)
    requires forall n :: 1 <= n < attempts && attempt(n).Handed? ==> RemoteClaimsConnectFailed(parse, attempt(n))
    requires forall n :: 1 <= n < attempts ==> !RemoteClaimsConnectFailed(parse, attempt(n))
    ensures HandedCount(attempt, attempts) <= 1
  {
    hide RemoteClaimsConnectFailed;
    if attempts > 0 && HandedCount(attempt, attempts - 1) > 0 {
      HandedEarlier(attempt, attempts - 1);
    }
  }

  /**
   `execWithRetry`. Round `n` (from 1) meets `attempt(n)`; `cancelled(n)` says that the delay after
   it is aborted. `attempts` counts the rounds, `waited` the completed delays and `handed` how often
   the command reached a client. The throw after the loop is reached only for a negative retry count.
   */
  method ExecWithRetry(parse: string -> Option<RemoteError>, maxRetries: int, baseDelay: nat,
                       attempt: nat -> Attempt, cancelled: nat -> bool)
    returns (r: ExecResult, attempts: nat, waited: nat, handed: nat)
    ensures maxRetries < 0 ==> attempts == 0 && r == Rejected(RemoteError("SSH execution failed", "SSH_EXEC_FAILED"))
    ensures maxRetries >= 0 ==> 1 <= attempts <= maxRetries + 1
    ensures forall n :: 1 <= n < attempts ==> Retryable(ResultOf(parse, attempt(n))) && !cancelled(n)
    ensures var last := ResultOf(parse, attempt(attempts));
            maxRetries >= 0 ==>
              if Retryable(last) && attempts <= maxRetries then cancelled(attempts)
                  && r == AbortedResult() else r == last
    ensures attempts >= 1 ==> waited == baseDelay * (Pow2(attempts - 1) - 1)
    ensures handed == HandedCount(attempt, attempts)
    ensures forall n :: 1 <= n < attempts && attempt(n).Handed? ==> RemoteClaimsConnectFailed(parse, attempt(n))
  {
    hide RemoteClaimsConnectFailed, SettledFrom;
    attempts, waited, handed := 0, 0, 0;
    var totalAttempts := maxRetries + 1;
    while attempts < totalAttempts
      invariant attempts == 0 || attempts < totalAttempts
      invariant forall n :: 1 <= n <= attempts ==> Retryable(ResultOf(parse, attempt(n))) && !cancelled(n)
      invariant waited == baseDelay * (Pow2(attempts) - 1)
      invariant handed == HandedCount(attempt, attempts)
      invariant forall n :: 1 <= n <= attempts && attempt(n).Handed? ==> RemoteClaimsConnectFailed(parse, attempt(n))
    {
      attempts := attempts + 1;
      var a := attempt(attempts);
      if a.Handed? {
        handed := handed + 1;
        r := AwaitExec(parse, a.events);
      } else {
        r := ResultOf(parse, a);
      }
      if r.Resolved? {
        return;
      }
      if attempts >= totalAttempts || !Retryable(r) {
        return;
      }
      if cancelled(attempts) {
        r := AbortedResult();
        return;
      }
      if a.Handed? {
        RetriedExecIsRemote(parse, a.events, 0);
      }
      waited := waited + baseDelay * Pow2(attempts - 1);
      Doubling(baseDelay, attempts);
    }
    r := Rejected(RemoteError("SSH execution failed", "SSH_EXEC_FAILED"));
  }

  lemma Doubling(baseDelay: nat, n: nat)
    requires n >= 1
    ensures baseDelay * (Pow2(n - 1) - 1) + baseDelay * Pow2(n - 1) == baseDelay * (Pow2(n) - 1)
  {
    var p: int := Pow2(n - 1);
    assert baseDelay * (p - 1) + baseDelay * p == baseDelay * (2 * p - 1);
  }
}
