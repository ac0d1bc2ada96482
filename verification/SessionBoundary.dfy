/**
 One connection attempt as the supervisor sees it: the order of its fallible steps, where the backoff is
 reset, and how an event-loop error is classified.
 */
module SessionBoundary {
  import opened Wrappers
  import R = Reconnect

  /** One node of an error's source chain: an `io::Error` with its optional errno, or anything else. */
  datatype ErrorNode = Io(rawOsError: Option<int>) | Other

  const EPROTO: int := 71
  const EBADMSG: int := 74

  datatype LoopResult = Stopped | Broke(chain: seq<ErrorNode>)

  /** What the environment answers at each fallible step, in order. */
  datatype Environment = Environment(
    displaySet: bool, socketSet: bool, connects: bool, registryAnswers: bool, loopCreated: bool,
    foreignToplevelList: bool, toplevelManager: bool, cosmicToplevelInfo: bool, workspaceManager: bool,
    waylandSourceInserted: bool, signalsCreated: bool, signalsInserted: bool, loop: LoopResult)

  /** The errno of the first `io::Error` from the top, as one index walk. */
  function FirstIo(chain: seq<ErrorNode>): Option<ErrorNode> {
    Find(chain, (n: ErrorNode) => n.Io?)
  }

  method WalkForIoErrno(chain: seq<ErrorNode>) returns (raw: Option<int>)
    ensures FirstIo(chain).None? ==> raw == None
    ensures FirstIo(chain).Some? ==> raw == FirstIo(chain).value.rawOsError
  {
    var cur := 0;
    while cur < |chain|
      invariant cur <= |chain| && forall j | 0 <= j < cur :: !chain[j].Io?
    {
      if chain[cur].Io? {
        FindIsFirst(chain, (n: ErrorNode) => n.Io?, cur);
        return chain[cur].rawOsError;
      }
      cur := cur + 1;
    }
    raw := None;
  }

  function Errno(chain: seq<ErrorNode>): Option<int> {
    match FirstIo(chain)
    case None => None
    case Some(n) => if n.Io? then n.rawOsError else None
  }

  function MapLoopError(chain: seq<ErrorNode>): R.RunResult {
    match Errno(chain)
    case Some(raw) => if raw == EPROTO || raw == EBADMSG then R.InternalError else R.BackendDisconnect
    case None => R.InternalError
  }

  function ConnectAndRun(e: Environment): R.Attempt {
    if !e.displaySet && !e.socketSet then R.Attempt(R.StartupFailure, false)
    else if !e.connects || !e.registryAnswers then R.Attempt(R.BackendDisconnect, false)
    else if !e.loopCreated || !e.foreignToplevelList || !e.toplevelManager then R.Attempt(R.StartupFailure, false)
    else if !e.cosmicToplevelInfo || !e.workspaceManager then R.Attempt(R.StartupFailure, false)
    else if !e.waylandSourceInserted || !e.signalsCreated || !e.signalsInserted then R.Attempt(R.StartupFailure, false)
    else
      match e.loop
      case Stopped => R.Attempt(R.Signal, true)
      case Broke(chain) => R.Attempt(MapLoopError(chain), true)
  }

  /** One attempt on the supervisor's own backoff, step by step. */
  method ConnectAndRunOn(e: Environment, backoff: R.BackoffState) returns (result: R.RunResult)
    modifies backoff
    ensures result == ConnectAndRun(e).result
    ensures result == R.StartupFailure <==> CannotStart(e)
    ensures result == R.BackendDisconnect <==> Lost(e)
    ensures result == R.Signal <==> SessionUp(e) && e.loop.Stopped?
    ensures backoff.cursor == if SessionUp(e) then 0 else old(backoff.cursor)
  {
    OutcomeExact(e);
    if !e.displaySet && !e.socketSet {
      return R.StartupFailure;
    }
    if !e.connects {
      return R.BackendDisconnect;
    }
    if !e.registryAnswers {
      return R.BackendDisconnect;
    }
    if !e.loopCreated || !e.foreignToplevelList || !e.toplevelManager {
      return R.StartupFailure;
    }
    if !e.cosmicToplevelInfo || !e.workspaceManager {
      return R.StartupFailure;
    }
    if !e.waylandSourceInserted || !e.signalsCreated || !e.signalsInserted {
      return R.StartupFailure;
    }
    backoff.Reset();
    match e.loop {
      case Stopped => result := R.Signal;
      case Broke(chain) =>
        var raw := WalkForIoErrno(chain);
        match raw {
          case Some(errno) =>
            result := if errno == EPROTO || errno == EBADMSG then R.InternalError else R.BackendDisconnect;
          case None => result := R.InternalError;
        }
    }
  }

  /** There is an address to connect to. */
  predicate HasAddress(e: Environment) {
    e.displaySet || e.socketSet
  }

  /** The compositor is there: the connection is made and its registry answers. */
  predicate Reachable(e: Environment) {
    e.connects && e.registryAnswers
  }

  /** The first `io::Error` of the chain carries this errno. */
  ghost predicate FirstErrno(chain: seq<ErrorNode>, raw: int) {
    exists i: nat :: FirstIoAt(chain, i) && chain[i].rawOsError == Some(raw)
  }

  /** The loop broke with an errno other than the two protocol violations. */
  ghost predicate BrokeOff(r: LoopResult) {
    r.Broke? && exists raw :: FirstErrno(r.chain, raw) && raw != 71 && raw != 74
  }

  /** No address, or a compositor that answers but lacks something the daemon needs. */
  ghost predicate CannotStart(e: Environment) {
    !HasAddress(e) || (Reachable(e) && !SessionUp(e))
  }

  /** The compositor cannot be reached, or the session was up and broke off. */
  ghost predicate Lost(e: Environment) {
    (HasAddress(e) && !Reachable(e)) || (SessionUp(e) && BrokeOff(e.loop))
  }

  lemma ErrnoExact(chain: seq<ErrorNode>)
    ensures forall raw :: FirstErrno(chain, raw) <==> Errno(chain) == Some(raw)
  {
    var io := (n: ErrorNode) => n.Io?;
    forall i: nat | FirstIoAt(chain, i) ensures Errno(chain) == chain[i].rawOsError {
      FindIsFirst(chain, io, i);
    }
    if FirstIo(chain).Some? {
      var i := FoundBeforeOthers(chain, io);
      assert FirstIoAt(chain, i);
    }
  }

  /** How an attempt ends, each result exactly when; and whether it reset the backoff. */
  lemma OutcomeExact(e: Environment)
    ensures var attempt := ConnectAndRun(e);
            && (attempt.result == R.StartupFailure <==> CannotStart(e))
            && (attempt.result == R.BackendDisconnect <==> Lost(e))
            && (attempt.result == R.Signal <==> SessionUp(e) && e.loop.Stopped?)
            && (attempt.result == R.InternalError <==> SessionUp(e) && e.loop.Broke? && !BrokeOff(e.loop))
            && (attempt.reset <==> SessionUp(e))
  {
    hide Errno, FirstErrno;
    if e.loop.Broke? {
      ErrnoExact(e.loop.chain);
      if Errno(e.loop.chain).Some? {
        assert FirstErrno(e.loop.chain, Errno(e.loop.chain).value);
      }
    }
  }

  /** The session was up: every step up to the event loop succeeded. */
  ghost predicate SessionUp(e: Environment) {
    && (e.displaySet || e.socketSet) && e.connects && e.registryAnswers && e.loopCreated
    && e.foreignToplevelList && e.toplevelManager && e.cosmicToplevelInfo && e.workspaceManager
    && e.waylandSourceInserted && e.signalsCreated && e.signalsInserted
  }

  /** A loop error is a disconnect iff its first `io::Error` carries an errno other than a protocol violation. */
  lemma DisconnectIff(chain: seq<ErrorNode>)
    ensures MapLoopError(chain) == R.BackendDisconnect <==>
              exists i :: 0 <= i < |chain| && chain[i].Io? && (forall j | 0 <= j < i :: chain[j].Other?)
                && chain[i].rawOsError.Some? && chain[i].rawOsError.value !in {71, 74}
  {
    if i :| 0 <= i < |chain| && chain[i].Io? && forall j | 0 <= j < i :: chain[j].Other? {
      FindIsFirst(chain, (n: ErrorNode) => n.Io?, i);
      assert Errno(chain) == chain[i].rawOsError;
    } else {
      NoFirstIo(chain);
    }
  }

  lemma {:induction false} NoFirstIo(chain: seq<ErrorNode>)
    ensures FirstIo(chain).Some? ==>
              exists i :: 0 <= i < |chain| && chain[i].Io? && forall j | 0 <= j < i :: chain[j].Other?
  {
    if chain != [] {
      if chain[0].Io? {
        assert chain[0].Io?;
      } else {
        NoFirstIo(chain[1..]);
        if FirstIo(chain[1..]).Some? {
          var i :| 0 <= i < |chain[1..]| && chain[1..][i].Io? && forall j | 0 <= j < i :: chain[1..][j].Other?;
          assert chain[i + 1].Io?;
          forall j | 0 <= j < i + 1 ensures chain[j].Other? {
            if j > 0 { assert chain[1..][j - 1].Other?; }
          }
        }
      }
    }
  }

  /** Node `i` is the first `io::Error` of the chain. */
  ghost predicate FirstIoAt(chain: seq<ErrorNode>, i: nat) {
    i < |chain| && chain[i].Io? && forall j | 0 <= j < i :: chain[j].Other?
  }

  /**
   The walk finds no errno exactly when the chain has no `io::Error`, as documented, iff its first `io::Error`, if
   there is one, carries an errno.
   */
  lemma DocumentedNoneIff(chain: seq<ErrorNode>)
    ensures (Errno(chain).None? <==> forall n | n in chain :: n.Other?) <==>
              forall i: nat | FirstIoAt(chain, i) :: chain[i].rawOsError.Some?
  {
    var io := (n: ErrorNode) => n.Io?;
    forall i: nat | FirstIoAt(chain, i) ensures Errno(chain) == chain[i].rawOsError && chain[i] in chain {
      FindIsFirst(chain, io, i);
    }
    if FirstIo(chain).Some? {
      var i := FoundBeforeOthers(chain, io);
      assert FirstIoAt(chain, i);
    }
  }

  /**
   An `io::Error` without an errno hides a deeper disconnect: the chain does contain `io::Error`s, yet it is
   an internal error.
   */
  lemma ErrnolessIoErrorIsInternal(deeper: seq<ErrorNode>)
    ensures MapLoopError([Io(None)] + deeper) == R.InternalError
  {
  }

  /** The attempts the supervisor makes against a sequence of environments. */
  function Attempts(envs: seq<Environment>): seq<R.Attempt> {
    seq(|envs|, i requires 0 <= i < |envs| => ConnectAndRun(envs[i]))
  }

  ghost predicate AllLost(envs: seq<Environment>, k: nat)
    requires k < |envs|
  {
    forall i | 0 <= i <= k :: Lost(envs[i])
  }

  /** Environment `j` is the last up to `k` in which the session was up; -1 when there is none. */
  ghost predicate LastUp(envs: seq<Environment>, k: nat, j: int)
    requires k < |envs|
  {
    && -1 <= j <= k
    && (j >= 0 ==> SessionUp(envs[j]))
    && forall i | j < i <= k :: !SessionUp(envs[i])
  }

  /** How many of the attempts since that session, itself included, were lost before attempt `k`. */
  function LostSince(k: nat, j: int): nat
    requires -1 <= j <= k
  {
    if j == -1 then k else k - j
  }

  lemma AllDisconnected(envs: seq<Environment>, k: nat)
    requires k < |envs| && AllLost(envs, k)
    ensures forall i | 0 <= i <= k :: Attempts(envs)[i].result == R.BackendDisconnect
  {
    hide Lost, ConnectAndRun;
    forall i | 0 <= i <= k ensures Attempts(envs)[i].result == R.BackendDisconnect {
      OutcomeExact(envs[i]);
    }
  }

  lemma {:induction false} CountIsLostSince(envs: seq<Environment>, k: nat, j: int)
    requires k < |envs| && AllLost(envs, k) && LastUp(envs, k, j)
    ensures (if Attempts(envs)[k].reset then 0 else R.DisconnectsSinceReset(Attempts(envs)[..k])) == LostSince(k, j)
    decreases k
  {
    var script := Attempts(envs);
    OutcomeExact(envs[k]);
    if k > 0 {
      OutcomeExact(envs[k - 1]);
    }
    hide Lost, SessionUp, ConnectAndRun;
    if j < k && k > 0 {
      CountIsLostSince(envs, k - 1, j);
      assert script[..k][..k - 1] == script[..k - 1];
      assert script[..k][k - 1] == script[k - 1];
    }
  }

  /**
   In a supervisor's run, as long as every attempt so far was lost, the wait after attempt `k` is the backoff step for
   the number of attempts lost since the session was last up: an outage before that session does not count.
   */
  lemma WaitCountsFromLastSession(envs: seq<Environment>, k: nat, j: int)
    requires k < |envs| && AllLost(envs, k) && LastUp(envs, k, j)
    ensures R.SleptAfterConnect(R.SuperviseFrom(Attempts(envs), 0, 0, None).0, k) ==
            R.BACKOFF_STEPS[R.Min(LostSince(k, j), 4)]
  {
    hide R.SuperviseFrom, R.SleptAfterConnect;
    CountIsLostSince(envs, k, j);
    AllDisconnected(envs, k);
    R.RunSleepsOwed(Attempts(envs), k);
  }

  /** In particular, the wait after a lost attempt is the first step iff the session was up or nothing came before. */
  lemma FirstStepIffSessionUp(envs: seq<Environment>, k: nat)
    requires k < |envs| && AllLost(envs, k)
    ensures R.SleptAfterConnect(R.SuperviseFrom(Attempts(envs), 0, 0, None).0, k) == 1000 <==>
              k == 0 || SessionUp(envs[k])
  {
    hide R.SuperviseFrom, R.SleptAfterConnect;
    AllDisconnected(envs, k);
    R.RunSleepsOwed(Attempts(envs), k);
    OutcomeExact(envs[k]);
    if k > 0 && !SessionUp(envs[k]) {
      var script := Attempts(envs);
      assert script[..k][k - 1] == script[k - 1];
      assert R.DisconnectsSinceReset(script[..k]) >= 1;
    }
  }

  // ---- How a supervisor's run ends ----

  /** Environment `k` is the first from `from` on whose attempt is not lost. */
  ghost predicate FirstNotLost(envs: seq<Environment>, from: nat, k: nat) {
    from <= k < |envs| && !Lost(envs[k]) && forall i | from <= i < k :: Lost(envs[i])
  }

  lemma {:induction false} OwedExitExact(envs: seq<Environment>, from: nat)
    requires from <= |envs|
    ensures var exit := R.OwedExit(Attempts(envs), from);
            && (exit == R.StillRunning <==> forall i | from <= i < |envs| :: Lost(envs[i]))
            && (forall k: nat | FirstNotLost(envs, from, k) ::
                  exit == if CannotStart(envs[k]) then R.Failed(R.StartupFailure)
                          else if envs[k].loop.Stopped? then R.CleanExit
                          else R.Failed(R.InternalError))
    decreases |envs| - from
  {
    if from < |envs| {
      OutcomeExact(envs[from]);
      OwedExitExact(envs, from + 1);
      hide Lost, CannotStart, ConnectAndRun, SessionUp, BrokeOff;
      forall k: nat | FirstNotLost(envs, from, k) && k > from ensures FirstNotLost(envs, from + 1, k) {
      }
    }
  }

  /**
   A supervisor's run goes on as long as every attempt is lost. The first that is not ends it: with a startup failure,
   cleanly on a signal, or with an internal error. A raised flag ends it cleanly at the poll that reads it.
   */
  lemma RunEndsExactly(envs: seq<Environment>, flagAt: Option<nat>)
    ensures var script := Attempts(envs);
            var exit := R.SuperviseFrom(script, 0, 0, flagAt).1;
            if flagAt.Some? && flagAt.value < R.PollCount(R.OwedActs(script, 0)) then exit == R.CleanExit
            else
              && (exit == R.StillRunning <==> forall i | 0 <= i < |envs| :: Lost(envs[i]))
              && (forall k: nat | FirstNotLost(envs, 0, k) ::
                    exit == if CannotStart(envs[k]) then R.Failed(R.StartupFailure)
                            else if envs[k].loop.Stopped? then R.CleanExit
                            else R.Failed(R.InternalError))
  {
    R.EveryRunIsOwed(Attempts(envs), flagAt);
    OwedExitExact(envs, 0);
  }

  /** While the compositor cannot be reached the daemon keeps trying: only the flag ends the run, and then cleanly. */
  lemma UnreachableIsRetried(envs: seq<Environment>, flagAt: Option<nat>)
    requires forall i | 0 <= i < |envs| :: HasAddress(envs[i]) && !Reachable(envs[i])
    ensures var (acts, exit) := R.SuperviseFrom(Attempts(envs), 0, 0, flagAt);
            && (flagAt.None? ==> exit == R.StillRunning && R.Connects(acts) == |envs|)
            && (flagAt.Some? ==> exit in {R.StillRunning, R.CleanExit})
  {
    RunEndsExactly(envs, flagAt);
    R.EveryRunIsOwed(Attempts(envs), flagAt);
    forall i | 0 <= i < |envs| ensures Attempts(envs)[i].result == R.BackendDisconnect {
      OutcomeExact(envs[i]);
    }
    R.OwedConnects(Attempts(envs), 0);
  }
}
