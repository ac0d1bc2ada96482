/**
 The reconnect supervisor: backoff ladder, polled sleep and the outer loop, run against any finite script
 of connection attempts and any moment at which the shutdown flag is raised. Times are milliseconds.
 */
module Reconnect {
  import opened Wrappers

  const BACKOFF_STEPS: seq<nat> := [1000, 2000, 5000, 10000, 30000]
  const SLEEP_POLL_INTERVAL: nat := 50

  /** How one connection attempt ended. */
  datatype RunResult = Signal | BackendDisconnect | StartupFailure | InternalError

  /** One answer of the connect function: its result, and whether it reset the backoff on the way. */
  datatype Attempt = Attempt(result: RunResult, reset: bool)

  /** What the supervisor does, in order. */
  datatype Act = Polled(flag: bool) | Connected | Slept(ms: nat)

  datatype Exit = CleanExit | Failed(error: RunResult) | StillRunning

  function NextCursor(cursor: nat): nat {
    if cursor + 1 < |BACKOFF_STEPS| then cursor + 1 else cursor
  }

  class BackoffState {
    var cursor: nat

    ghost predicate Valid()
      reads this
    {
      cursor < |BACKOFF_STEPS|
    }

    constructor ()
      ensures Valid() && cursor == 0
    {
      cursor := 0;
    }

    method NextDelay() returns (step: nat)
      requires Valid()
      modifies this
      ensures Valid()
      ensures step == BACKOFF_STEPS[old(cursor)] && cursor == NextCursor(old(cursor))
    {
      step := BACKOFF_STEPS[cursor];
      if cursor + 1 < |BACKOFF_STEPS| {
        cursor := cursor + 1;
      }
    }

    method Reset()
      modifies this
      ensures Valid() && cursor == 0
    {
      cursor := 0;
    }
  }

  /** The flag as poll number `poll` reads it: once raised it stays raised. */
  predicate FlagAt(flagAt: Option<nat>, poll: nat) {
    flagAt.Some? && flagAt.value <= poll
  }

  function Min(a: nat, b: nat): nat {
    if a <= b then a else b
  }

  /** The polled sleep from poll number `poll`: its acts, and whether the flag ended it. */
  function SleepFrom(remaining: nat, poll: nat, flagAt: Option<nat>): (seq<Act>, bool) {
    if remaining == 0 then ([], false)
    else if FlagAt(flagAt, poll) then ([Polled(true)], true)
    else
      var step := Min(remaining, SLEEP_POLL_INTERVAL);
      var (acts, stopped) := SleepFrom(remaining - step, poll + 1, flagAt);
      ([Polled(false), Slept(step)] + acts, stopped)
  }

  function SliceCount(delay: nat): nat {
    (delay + SLEEP_POLL_INTERVAL - 1) / SLEEP_POLL_INTERVAL
  }

  /** The outer loop over the attempts still to come. */
  function SuperviseFrom(script: seq<Attempt>, cursor: nat, poll: nat, flagAt: Option<nat>): (seq<Act>, Exit)
    requires cursor < |BACKOFF_STEPS|
  {
    if script == [] then ([], StillRunning)
    else if FlagAt(flagAt, poll) then ([Polled(true)], CleanExit)
    else
      match script[0].result
      case Signal => ([Polled(false), Connected], CleanExit)
      case StartupFailure => ([Polled(false), Connected], Failed(StartupFailure))
      case InternalError => ([Polled(false), Connected], Failed(InternalError))
      case BackendDisconnect =>
        var at := if script[0].reset then 0 else cursor;
        var (sleep, stopped) := SleepFrom(BACKOFF_STEPS[at], poll + 1, flagAt);
        if stopped then ([Polled(false), Connected] + sleep, CleanExit)
        else
          var (acts, exit) :=
            SuperviseFrom(script[1..], NextCursor(at), poll + 1 + SliceCount(BACKOFF_STEPS[at]), flagAt);
          ([Polled(false), Connected] + sleep + acts, exit)
  }

  class Supervisor {
    const backoff: BackoffState

    constructor ()
      ensures fresh(backoff) && backoff.Valid() && backoff.cursor == 0
    {
      backoff := new BackoffState();
    }

    /** Poll number `poll` onwards of a backoff sleep; `sleep_fn` is recorded as `Slept`. */
    method Sleep(delay: nat, poll: nat, flagAt: Option<nat>) returns (acts: seq<Act>, stopped: bool)
      ensures acts == SleepFrom(delay, poll, flagAt).0 && stopped == SleepFrom(delay, poll, flagAt).1
      ensures !stopped ==> |acts| == 2 * SliceCount(delay)
    {
      var remaining := delay;
      acts := [];
      while remaining > 0
        invariant SleepFrom(delay, poll, flagAt).0 == acts + SleepFrom(remaining, poll + |acts| / 2, flagAt).0
        invariant SleepFrom(delay, poll, flagAt).1 == SleepFrom(remaining, poll + |acts| / 2, flagAt).1
        invariant |acts| % 2 == 0 && |acts| / 2 + SliceCount(remaining) == SliceCount(delay)
      {
        if FlagAt(flagAt, poll + |acts| / 2) {
          acts := acts + [Polled(true)];
          return acts, true;
        }
        var step := Min(remaining, SLEEP_POLL_INTERVAL);
        ghost var rest := SleepFrom(remaining - step, poll + |acts| / 2 + 1, flagAt).0;
        assert acts + ([Polled(false), Slept(step)] + rest) == acts + [Polled(false), Slept(step)] + rest;
        acts := acts + [Polled(false), Slept(step)];
        remaining := remaining - step;
      }
      stopped := false;
    }

    method RunWithSleep(script: seq<Attempt>, flagAt: Option<nat>) returns (acts: seq<Act>, exit: Exit)
      requires backoff.Valid()
      modifies backoff
      ensures backoff.Valid()
      ensures acts == SuperviseFrom(script, old(backoff.cursor), 0, flagAt).0
      ensures exit == SuperviseFrom(script, old(backoff.cursor), 0, flagAt).1
    {
      hide SleepFrom, SliceCount;
      acts := [];
      var poll: nat := 0;
      var i := 0;
      assert script[0..] == script;
      ghost var (whole, end) := SuperviseFrom(script, backoff.cursor, 0, flagAt);
      while i < |script|
        invariant i <= |script| && backoff.Valid()
        invariant whole == acts + SuperviseFrom(script[i..], backoff.cursor, poll, flagAt).0
        invariant end == SuperviseFrom(script[i..], backoff.cursor, poll, flagAt).1
      {
        var attempt := script[i];
        assert script[i..][0] == attempt && script[i..][1..] == script[i + 1..];
        if FlagAt(flagAt, poll) {
          return acts + [Polled(true)], CleanExit;
        }
        if attempt.reset {
          backoff.Reset();
        }
        match attempt.result {
          case Signal =>
            return acts + [Polled(false), Connected], CleanExit;
          case StartupFailure =>
            return acts + [Polled(false), Connected], Failed(StartupFailure);
          case InternalError =>
            return acts + [Polled(false), Connected], Failed(InternalError);
          case BackendDisconnect =>
            var delay := backoff.NextDelay();
            var sleep, stopped := Sleep(delay, poll + 1, flagAt);
            var done := [Polled(false), Connected] + sleep;
            ghost var later := SuperviseFrom(script[i + 1..], backoff.cursor, poll + 1 + SliceCount(delay), flagAt).0;
            assert done + later == [Polled(false), Connected] + sleep + later;
            if stopped {
              return acts + done, CleanExit;
            }
            poll := poll + 1 + SliceCount(delay);
            AppendAssociates(acts, done, later);
            acts := acts + done;
        }
        i := i + 1;
      }
      exit := StillRunning;
    }
  }

  // ---- Every run: guarded by polls, sliced finely ----

  /** Every connect and every slice directly follows a poll that read false; reading true is the last act. */
  ghost predicate PollGuarded(acts: seq<Act>) {
    && (forall i | 0 <= i < |acts| && !acts[i].Polled? :: i > 0 && acts[i - 1] == Polled(false))
    && (forall i | 0 <= i < |acts| && acts[i] == Polled(true) :: i == |acts| - 1)
  }

  ghost predicate FineSlices(acts: seq<Act>) {
    forall a | a in acts && a.Slept? :: 0 < a.ms <= 50
  }

  lemma PollGuardedAppend(a: seq<Act>, b: seq<Act>)
    requires PollGuarded(a) && PollGuarded(b) && Polled(true) !in a
    ensures PollGuarded(a + b)
  {
    forall i | 0 <= i < |a + b| && !(a + b)[i].Polled? ensures i > 0 && (a + b)[i - 1] == Polled(false) {
      if i >= |a| {
        assert !b[i - |a|].Polled?;
      }
    }
  }

  /** A connect, an uninterrupted wait and whatever guarded acts follow are guarded. */
  lemma DisconnectGuarded(sleep: seq<Act>, rest: seq<Act>)
    requires PollGuarded(sleep) && FineSlices(sleep) && PollGuarded(rest) && FineSlices(rest)
    requires rest == [] || Polled(true) !in sleep
    ensures var acts := [Polled(false), Connected] + sleep + rest;
            && PollGuarded(acts) && FineSlices(acts)
            && (Polled(true) in acts <==> Polled(true) in sleep || Polled(true) in rest)
  {
    var head := [Polled(false), Connected];
    PollGuardedAppend(head, sleep);
    if rest == [] {
      assert head + sleep + rest == head + sleep;
    } else {
      PollGuardedAppend(head + sleep, rest);
    }
  }

  lemma {:induction false} SleepGuarded(remaining: nat, poll: nat, flagAt: Option<nat>)
    ensures var (acts, stopped) := SleepFrom(remaining, poll, flagAt);
            PollGuarded(acts) && FineSlices(acts) && (Polled(true) in acts <==> stopped)
  {
    if remaining != 0 && !FlagAt(flagAt, poll) {
      var step := Min(remaining, SLEEP_POLL_INTERVAL);
      SleepGuarded(remaining - step, poll + 1, flagAt);
      PollGuardedAppend([Polled(false), Slept(step)], SleepFrom(remaining - step, poll + 1, flagAt).0);
    }
  }

  /**
   Every run, whatever the script and the moment of the flag: once the flag is raised at most the one act
   already past its poll still happens, and no slice exceeds the poll interval.
   */
  lemma {:induction false} RunIsPollGuarded(script: seq<Attempt>, cursor: nat, poll: nat, flagAt: Option<nat>)
    requires cursor < |BACKOFF_STEPS|
    ensures var (acts, exit) := SuperviseFrom(script, cursor, poll, flagAt);
            PollGuarded(acts) && FineSlices(acts) && (Polled(true) in acts ==> exit == CleanExit)
  {
    if script != [] && !FlagAt(flagAt, poll) && script[0].result == BackendDisconnect {
      hide SleepFrom, PollGuarded, FineSlices, SliceCount;
      var at := if script[0].reset then 0 else cursor;
      var (sleep, stopped) := SleepFrom(BACKOFF_STEPS[at], poll + 1, flagAt);
      SleepGuarded(BACKOFF_STEPS[at], poll + 1, flagAt);
      if stopped {
        NothingGuarded();
        DisconnectGuarded(sleep, []);
        assert [Polled(false), Connected] + sleep + [] == [Polled(false), Connected] + sleep;
      } else {
        var later := poll + 1 + SliceCount(BACKOFF_STEPS[at]);
        RunIsPollGuarded(script[1..], NextCursor(at), later, flagAt);
        DisconnectGuarded(sleep, SuperviseFrom(script[1..], NextCursor(at), later, flagAt).0);
      }
    }
  }

  lemma NothingGuarded()
    ensures PollGuarded([]) && FineSlices([])
  {
  }

  // ---- Shutdown only cuts the run short ----

  /** The acts up to, and excluding, poll number `f`, followed by that poll reading true. */
  function CutAt(acts: seq<Act>, f: nat): seq<Act> {
    if acts == [] then []
    else if acts[0].Polled? && f == 0 then [Polled(true)]
    else [acts[0]] + CutAt(acts[1..], if acts[0].Polled? then f - 1 else f)
  }

  function PollCount(acts: seq<Act>): nat {
    if acts == [] then 0 else (if acts[0].Polled? then 1 else 0) + PollCount(acts[1..])
  }

  lemma {:induction false} PollCountAppend(a: seq<Act>, b: seq<Act>)
    ensures PollCount(a + b) == PollCount(a) + PollCount(b)
  {
    if a == [] {
      assert a + b == b;
    } else {
      assert (a + b)[1..] == a[1..] + b;
      PollCountAppend(a[1..], b);
    }
  }

  lemma {:induction false} CutAtAppend(a: seq<Act>, b: seq<Act>, f: nat)
    ensures CutAt(a + b, f) == if f < PollCount(a) then CutAt(a, f) else a + CutAt(b, f - PollCount(a))
    ensures f >= PollCount(a) ==> CutAt(a, f) == a
  {
    if a == [] {
      assert a + b == b;
    } else {
      assert (a + b)[1..] == a[1..] + b;
      if !a[0].Polled? || f > 0 {
        CutAtAppend(a[1..], b, if a[0].Polled? then f - 1 else f);
      }
    }
  }

  lemma {:induction false} SleepCut(remaining: nat, poll: nat, f: nat)
    ensures var whole := SleepFrom(remaining, poll, None);
            var (acts, stopped) := SleepFrom(remaining, poll, Some(poll + f));
            && !whole.1
            && PollCount(whole.0) == SliceCount(remaining)
            && acts == CutAt(whole.0, f)
            && (stopped <==> f < SliceCount(remaining))
  {
    if remaining != 0 {
      var step := Min(remaining, SLEEP_POLL_INTERVAL);
      var head := [Polled(false), Slept(step)];
      var rest := SleepFrom(remaining - step, poll + 1, None).0;
      assert head[1..] == [Slept(step)];
      assert [Slept(step)][1..] == [];
      assert PollCount([Slept(step)]) == 0;
      PollCountAppend(head, rest);
      CutAtAppend(head, rest, f);
      SleepCut(remaining - step, poll + 1, if f > 0 then f - 1 else 0);
      assert SliceCount(remaining) == 1 + SliceCount(remaining - step);
      assert f > 0 ==> Some(poll + 1 + (f - 1)) == Some(poll + f);
    }
  }

  /** Cutting a connect, its wait and whatever follows at poll `f`. */
  lemma AttemptCut(sleep: seq<Act>, rest: seq<Act>, f: nat)
    ensures var head := [Polled(false), Connected];
            && PollCount(head + sleep + rest) == 1 + PollCount(sleep) + PollCount(rest)
            && (f == 0 ==> CutAt(head + sleep + rest, f) == [Polled(true)])
            && (1 <= f < 1 + PollCount(sleep) ==> CutAt(head + sleep + rest, f) == head + CutAt(sleep, f - 1))
            && (f >= 1 + PollCount(sleep) ==>
                  CutAt(head + sleep + rest, f) == head + sleep + CutAt(rest, f - 1 - PollCount(sleep)))
  {
    var head := [Polled(false), Connected];
    assert head[1..] == [Connected];
    PollCountAppend(head, sleep);
    PollCountAppend(head + sleep, rest);
    CutAtAppend(head, sleep, f);
    CutAtAppend(head + sleep, rest, f);
  }

  /**
   Raising the flag at poll `f` changes nothing before that poll: the run is the unflagged run cut at its
   poll `f`, ending cleanly there; a flag raised after the last poll changes nothing at all.
   */
  lemma {:induction false} ShutdownCutsRun(script: seq<Attempt>, cursor: nat, poll: nat, f: nat)
    requires cursor < |BACKOFF_STEPS|
    ensures var (whole, exit) := SuperviseFrom(script, cursor, poll, None);
            var (acts, ended) := SuperviseFrom(script, cursor, poll, Some(poll + f));
            && acts == CutAt(whole, f)
            && ended == if f < PollCount(whole) then CleanExit else exit
    decreases |script|, 0
  {
    if script != [] {
      var head := [Polled(false), Connected];
      if script[0].result != BackendDisconnect {
        AttemptCut([], [], f);
        assert head + [] + [] == head;
      } else {
        var at := if script[0].reset then 0 else cursor;
        DisconnectCut(script[1..], at, poll, f);
      }
    }
  }

  /** The cut of a connect, its wait and the rest, put together from the cuts of its parts. */
  lemma CutParts(sleep: seq<Act>, rest: seq<Act>, f: nat, cutSleep: seq<Act>, cutRest: seq<Act>, stopped: bool)
    requires f >= 1 && cutSleep == CutAt(sleep, f - 1) && (stopped <==> f - 1 < PollCount(sleep))
    requires !stopped ==> cutRest == CutAt(rest, f - 1 - PollCount(sleep))
    ensures [Polled(false), Connected] + cutSleep + (if stopped then [] else cutRest) ==
            CutAt([Polled(false), Connected] + sleep + rest, f)
  {
    AttemptCut(sleep, rest, f);
    CutAtAppend(sleep, [], f - 1);
  }

  lemma {:induction false} DisconnectCut(script: seq<Attempt>, at: nat, poll: nat, f: nat)
    requires at < |BACKOFF_STEPS|
    ensures var whole := SuperviseFrom([Attempt(BackendDisconnect, false)] + script, at, poll, None);
            var cut := SuperviseFrom([Attempt(BackendDisconnect, false)] + script, at, poll, Some(poll + f));
            && cut.0 == CutAt(whole.0, f)
            && cut.1 == if f < PollCount(whole.0) then CleanExit else whole.1
    decreases |script|, 1
  {
    var delay := BACKOFF_STEPS[at];
    var later := poll + 1 + SliceCount(delay);
    var sleep := SleepFrom(delay, poll + 1, None).0;
    var rest := SuperviseFrom(script, NextCursor(at), later, None).0;
    DisconnectUnfold(script, at, poll, None);
    SleepCut(delay, poll + 1, if f == 0 then 0 else f - 1);
    AttemptCut(sleep, rest, f);
    if f >= 1 {
      var flagAt := Some(poll + f);
      assert Some(poll + 1 + (f - 1)) == flagAt;
      var (cutSleep, stopped) := SleepFrom(delay, poll + 1, flagAt);
      DisconnectUnfold(script, at, poll, flagAt);
      if !stopped {
        var g: nat := f - 1 - SliceCount(delay);
        assert Some(later + g) == flagAt;
        ShutdownCutsRun(script, NextCursor(at), later, g);
      }
      CutParts(sleep, rest, f, cutSleep, SuperviseFrom(script, NextCursor(at), later, flagAt).0, stopped);
    }
  }

  lemma DisconnectUnfold(script: seq<Attempt>, at: nat, poll: nat, flagAt: Option<nat>)
    requires at < |BACKOFF_STEPS| && !FlagAt(flagAt, poll)
    ensures var all := SuperviseFrom([Attempt(BackendDisconnect, false)] + script, at, poll, flagAt);
            var (sleep, stopped) := SleepFrom(BACKOFF_STEPS[at], poll + 1, flagAt);
            var after := SuperviseFrom(script, NextCursor(at), poll + 1 + SliceCount(BACKOFF_STEPS[at]), flagAt);
            && all.0 == [Polled(false), Connected] + sleep + (if stopped then [] else after.0)
            && all.1 == if stopped then CleanExit else after.1
  {
    assert ([Attempt(BackendDisconnect, false)] + script)[1..] == script;
  }

  // ---- The ladder ----

  /** Disconnects after the last attempt that reset the backoff, that attempt's own included. */
  function DisconnectsSinceReset(script: seq<Attempt>): nat {
    if script == [] then 0
    else
      var last := script[|script| - 1];
      (if last.reset then 0 else DisconnectsSinceReset(script[..|script| - 1]))
        + (if last.result == BackendDisconnect then 1 else 0)
  }

  /** The wait owed after attempt `k`, read off the history of attempts. */
  function Owed(script: seq<Attempt>, k: nat): nat
    requires k < |script|
  {
    BACKOFF_STEPS[Min(if script[k].reset then 0 else DisconnectsSinceReset(script[..k]), 4)]
  }

  function TotalSlept(acts: seq<Act>): nat {
    if acts == [] then 0 else (if acts[0].Slept? then acts[0].ms else 0) + TotalSlept(acts[1..])
  }

  function SliceTally(acts: seq<Act>): nat {
    if acts == [] then 0 else (if acts[0].Slept? then 1 else 0) + SliceTally(acts[1..])
  }

  lemma {:induction false} TallyAppend(a: seq<Act>, b: seq<Act>)
    ensures TotalSlept(a + b) == TotalSlept(a) + TotalSlept(b)
    ensures SliceTally(a + b) == SliceTally(a) + SliceTally(b)
  {
    if a == [] {
      assert a + b == b;
    } else {
      assert (a + b)[1..] == a[1..] + b;
      TallyAppend(a[1..], b);
    }
  }

  /** An uninterrupted sleep lasts exactly its delay, in the fewest slices of at most the poll interval. */
  lemma {:induction false} SleepLastsDelay(remaining: nat, poll: nat, flagAt: Option<nat>)
    requires !SleepFrom(remaining, poll, flagAt).1
    ensures TotalSlept(SleepFrom(remaining, poll, flagAt).0) == remaining
    ensures SliceTally(SleepFrom(remaining, poll, flagAt).0) == SliceCount(remaining)
  {
    if remaining != 0 {
      var step := Min(remaining, SLEEP_POLL_INTERVAL);
      SleepLastsDelay(remaining - step, poll + 1, flagAt);
      TallyAppend([Polled(false), Slept(step)], SleepFrom(remaining - step, poll + 1, flagAt).0);
      assert [Polled(false), Slept(step)][1..] == [Slept(step)];
    }
  }

  ghost predicate AllDisconnect(script: seq<Attempt>) {
    forall a | a in script :: a.result == BackendDisconnect
  }

  /**
   A connect for each attempt from `k` on, up to and including the first that is no disconnect; after each disconnect
   the uninterrupted wait it owes.
   */
  function OwedActs(script: seq<Attempt>, k: nat): seq<Act>
    requires k <= |script|
    decreases |script| - k
  {
    if k == |script| then []
    else if script[k].result != BackendDisconnect then [Polled(false), Connected]
    else [Polled(false), Connected] + SleepFrom(Owed(script, k), 0, None).0 + OwedActs(script, k + 1)
  }

  /** How the first attempt from `k` on that is no disconnect ends the run. */
  function OwedExit(script: seq<Attempt>, k: nat): Exit
    requires k <= |script|
    decreases |script| - k
  {
    if k == |script| then StillRunning
    else
      match script[k].result
      case BackendDisconnect => OwedExit(script, k + 1)
      case Signal => CleanExit
      case error => Failed(error)
  }

  /** Without a flag the acts of a sleep do not depend on when it starts. */
  lemma {:induction false} SleepStartIrrelevant(remaining: nat, poll: nat, other: nat)
    ensures SleepFrom(remaining, poll, None) == SleepFrom(remaining, other, None)
  {
    if remaining != 0 {
      SleepStartIrrelevant(remaining - Min(remaining, SLEEP_POLL_INTERVAL), poll + 1, other + 1);
    }
  }

  lemma UnflaggedDisconnect(script: seq<Attempt>, cursor: nat, poll: nat)
    requires script != [] && script[0].result == BackendDisconnect && cursor < |BACKOFF_STEPS|
    ensures var at := if script[0].reset then 0 else cursor;
            var rest := SuperviseFrom(script[1..], NextCursor(at), poll + 1 + SliceCount(BACKOFF_STEPS[at]), None);
            && SuperviseFrom(script, cursor, poll, None).0 ==
               [Polled(false), Connected] + SleepFrom(BACKOFF_STEPS[at], poll + 1, None).0 + rest.0
            && SuperviseFrom(script, cursor, poll, None).1 == rest.1
  {
    hide SleepFrom;
    SleepCut(BACKOFF_STEPS[if script[0].reset then 0 else cursor], poll + 1, 0);
  }

  /** The cursor after a disconnect is the capped count of disconnects since the last reset. */
  lemma CursorIsCount(script: seq<Attempt>, k: nat)
    requires k < |script| && script[k].result == BackendDisconnect
    ensures var at := if script[k].reset then 0 else Min(DisconnectsSinceReset(script[..k]), 4);
            && BACKOFF_STEPS[at] == Owed(script, k)
            && NextCursor(at) == Min(DisconnectsSinceReset(script[..k + 1]), 4)
  {
    assert script[..k + 1][..k] == script[..k];
  }

  /**
   Whatever the results and resets, each disconnect is followed by the wait its count since the last reset owes, and
   the first other result ends the run: the saturating cursor is that count capped at the last step.
   */
  lemma {:induction false} WaitsAreOwed(script: seq<Attempt>, k: nat, poll: nat)
    requires k <= |script|
    ensures var (acts, exit) := SuperviseFrom(script[k..], Min(DisconnectsSinceReset(script[..k]), 4), poll, None);
            acts == OwedActs(script, k) && exit == OwedExit(script, k)
    decreases |script| - k
  {
    if k < |script| {
      var cursor := Min(DisconnectsSinceReset(script[..k]), 4);
      var at := if script[k].reset then 0 else cursor;
      assert script[k..][0] == script[k] && script[k..][1..] == script[k + 1..];
      if script[k].result == BackendDisconnect {
        hide DisconnectsSinceReset, Owed, SleepFrom, SuperviseFrom, SliceCount;
        CursorIsCount(script, k);
        UnflaggedDisconnect(script[k..], cursor, poll);
        SleepStartIrrelevant(Owed(script, k), poll + 1, 0);
        WaitsAreOwed(script, k + 1, poll + 1 + SliceCount(BACKOFF_STEPS[at]));
      }
    }
  }

  /**
   Every run from a fresh supervisor, for any results, resets and moment of shutdown: it makes the owed connects and
   waits, cut at the first poll that reads the flag, and ends cleanly there or as the script ends it.
   */
  lemma EveryRunIsOwed(script: seq<Attempt>, flagAt: Option<nat>)
    ensures var whole, (acts, exit) := OwedActs(script, 0), SuperviseFrom(script, 0, 0, flagAt);
            && acts == (if flagAt.Some? then CutAt(whole, flagAt.value) else whole)
            && exit == if flagAt.Some? && flagAt.value < PollCount(whole) then CleanExit else OwedExit(script, 0)
  {
    WaitsAreOwed(script, 0, 0);
    assert script[0..] == script && script[..0] == [];
    if flagAt.Some? {
      ShutdownCutsRun(script, 0, 0, flagAt.value);
      assert Some(0 + flagAt.value) == flagAt;
    }
  }

  /** The documented ladder: total wait of `n` consecutive disconnects. */
  function Ladder(n: nat): nat {
    match n
    case 0 => 0
    case 1 => 1000
    case 2 => 3000
    case 3 => 8000
    case 4 => 18000
    case _ => 48000 + 30000 * (n - 5)
  }

  lemma {:induction false} NoResetCount(script: seq<Attempt>)
    requires AllDisconnect(script) && forall a | a in script :: !a.reset
    ensures DisconnectsSinceReset(script) == |script|
  {
    if script != [] {
      var init := script[..|script| - 1];
      assert forall a | a in init :: a in script;
      assert script[|script| - 1] in script;
      NoResetCount(init);
    }
  }

  lemma OwedOnLadder(script: seq<Attempt>, k: nat)
    requires AllDisconnect(script) && (forall a | a in script :: !a.reset) && k < |script|
    ensures Owed(script, k) == Ladder(k + 1) - Ladder(k)
    ensures SliceCount(Owed(script, k)) * SLEEP_POLL_INTERVAL == Owed(script, k)
  {
    assert script[k] in script;
    assert forall a | a in script[..k] :: a in script;
    NoResetCount(script[..k]);
  }

  /** One attempt contributes its owed wait, in slices of the poll interval. */
  lemma OwedStep(script: seq<Attempt>, k: nat)
    requires k < |script| && script[k].result == BackendDisconnect
    ensures TotalSlept(OwedActs(script, k)) == Owed(script, k) + TotalSlept(OwedActs(script, k + 1))
    ensures SliceTally(OwedActs(script, k)) == SliceCount(Owed(script, k)) + SliceTally(OwedActs(script, k + 1))
  {
    var head := [Polled(false), Connected];
    var sleep := SleepFrom(Owed(script, k), 0, None).0;
    SleepCut(Owed(script, k), 0, 0);
    SleepLastsDelay(Owed(script, k), 0, None);
    TallyAppend(head, sleep);
    TallyAppend(head + sleep, OwedActs(script, k + 1));
    assert head[1..] == [Connected];
    assert TotalSlept(head) == 0 && SliceTally(head) == 0;
  }

  lemma {:induction false} OwedLadderFrom(script: seq<Attempt>, k: nat)
    requires AllDisconnect(script) && (forall a | a in script :: !a.reset) && k <= |script|
    ensures TotalSlept(OwedActs(script, k)) == Ladder(|script|) - Ladder(k)
    ensures SliceTally(OwedActs(script, k)) * SLEEP_POLL_INTERVAL == Ladder(|script|) - Ladder(k)
    ensures OwedExit(script, k) == StillRunning
    decreases |script| - k
  {
    if k < |script| {
      assert script[k] in script;
      assert OwedExit(script, k) == OwedExit(script, k + 1);
      hide OwedActs, OwedExit, Owed, TotalSlept, SliceTally, SliceCount, Ladder;
      OwedOnLadder(script, k);
      OwedStep(script, k);
      OwedLadderFrom(script, k + 1);
    }
  }

  /**
   With no reset and no shutdown, n disconnects wait 1, 3, 8, 18, 48 and then 30 more seconds each, in 20 slices per
   second.
   */
  lemma ConsecutiveDisconnectsClimbLadder(script: seq<Attempt>)
    requires AllDisconnect(script) && forall a | a in script :: !a.reset
    ensures var (acts, exit) := SuperviseFrom(script, 0, 0, None);
            && exit == StillRunning
            && TotalSlept(acts) == Ladder(|script|)
            && SliceTally(acts) * 50 == Ladder(|script|)
  {
    WaitsAreOwed(script, 0, 0);
    assert script[0..] == script && script[..0] == [];
    OwedLadderFrom(script, 0);
  }

  function Connects(acts: seq<Act>): nat {
    if acts == [] then 0 else (if acts[0] == Connected then 1 else 0) + Connects(acts[1..])
  }

  lemma {:induction false} ConnectsAppend(a: seq<Act>, b: seq<Act>)
    ensures Connects(a + b) == Connects(a) + Connects(b)
  {
    if a == [] {
      assert a + b == b;
    } else {
      assert (a + b)[1..] == a[1..] + b;
      ConnectsAppend(a[1..], b);
    }
  }

  lemma {:induction false} SleepNeverConnects(remaining: nat, poll: nat, flagAt: Option<nat>)
    ensures Connects(SleepFrom(remaining, poll, flagAt).0) == 0
  {
    if remaining != 0 && !FlagAt(flagAt, poll) {
      var step := Min(remaining, SLEEP_POLL_INTERVAL);
      SleepNeverConnects(remaining - step, poll + 1, flagAt);
      ConnectsAppend([Polled(false), Slept(step)], SleepFrom(remaining - step, poll + 1, flagAt).0);
      assert [Polled(false), Slept(step)][1..] == [Slept(step)];
    }
  }

  lemma {:induction false} OwedConnects(script: seq<Attempt>, k: nat)
    requires k <= |script| && forall i | k <= i < |script| :: script[i].result == BackendDisconnect
    ensures Connects(OwedActs(script, k)) == |script| - k
    decreases |script| - k
  {
    if k < |script| {
      var head, sleep := [Polled(false), Connected], SleepFrom(Owed(script, k), 0, None).0;
      assert OwedActs(script, k) == head + sleep + OwedActs(script, k + 1);
      assert head[1..] == [Connected] && Connects(head) == 1;
      hide SleepFrom, OwedActs, Owed;
      OwedConnects(script, k + 1);
      SleepNeverConnects(Owed(script, k), 0, None);
      ConnectsAppend(head, sleep);
      ConnectsAppend(head + sleep, OwedActs(script, k + 1));
    }
  }

  /** The time slept up to the next connect. */
  function SleptUntilConnect(acts: seq<Act>): nat {
    if acts == [] || acts[0] == Connected then 0
    else (if acts[0].Slept? then acts[0].ms else 0) + SleptUntilConnect(acts[1..])
  }

  /** The time slept between connect number `k`, counting from 0, and the next one. */
  function SleptAfterConnect(acts: seq<Act>, k: nat): nat {
    if acts == [] then 0
    else if acts[0] != Connected then SleptAfterConnect(acts[1..], k)
    else if k == 0 then SleptUntilConnect(acts[1..])
    else SleptAfterConnect(acts[1..], k - 1)
  }

  lemma {:induction false} SleptUntilAppend(a: seq<Act>, b: seq<Act>)
    requires Connects(a) == 0
    ensures SleptUntilConnect(a + b) == TotalSlept(a) + SleptUntilConnect(b)
  {
    if a == [] {
      assert a + b == b;
    } else {
      assert (a + b)[1..] == a[1..] + b;
      SleptUntilAppend(a[1..], b);
    }
  }

  lemma {:induction false} SleptAfterAppend(a: seq<Act>, b: seq<Act>, k: nat)
    requires Connects(a) <= k
    ensures SleptAfterConnect(a + b, k) == SleptAfterConnect(b, k - Connects(a))
  {
    if a == [] {
      assert a + b == b;
    } else {
      assert (a + b)[1..] == a[1..] + b;
      SleptAfterAppend(a[1..], b, if a[0] == Connected then k - 1 else k);
    }
  }

  lemma OwedActsStart(script: seq<Attempt>, k: nat)
    requires k <= |script|
    ensures SleptUntilConnect(OwedActs(script, k)) == 0
  {
    var head := [Polled(false), Connected];
    assert head[1..] == [Connected];
    if k < |script| {
      var rest := if script[k].result != BackendDisconnect then []
                  else SleepFrom(Owed(script, k), 0, None).0 + OwedActs(script, k + 1);
      assert OwedActs(script, k) == head + rest;
      assert (head + rest)[1..] == [Connected] + rest;
    }
  }

  lemma FirstWait(sleep: seq<Act>, rest: seq<Act>)
    requires Connects(sleep) == 0
    ensures SleptAfterConnect([Polled(false), Connected] + sleep + rest, 0) ==
            TotalSlept(sleep) + SleptUntilConnect(rest)
  {
    assert ([Polled(false), Connected] + sleep + rest)[1..] == [Connected] + (sleep + rest);
    assert ([Connected] + (sleep + rest))[1..] == sleep + rest;
    SleptUntilAppend(sleep, rest);
  }

  /** From attempt `j` on, the time slept after a later disconnect `k` is what that disconnect owes. */
  lemma {:induction false} OwedAfterConnect(script: seq<Attempt>, j: nat, k: nat)
    requires j <= k < |script| && forall i | j <= i <= k :: script[i].result == BackendDisconnect
    ensures SleptAfterConnect(OwedActs(script, j), k - j) == Owed(script, k)
    decreases k - j
  {
    hide Owed;
    var head, sleep := [Polled(false), Connected], SleepFrom(Owed(script, j), 0, None).0;
    var rest := OwedActs(script, j + 1);
    assert OwedActs(script, j) == head + sleep + rest;
    assert head[1..] == [Connected] && Connects(head) == 1;
    hide SleepFrom, OwedActs, SleptAfterConnect, SleptUntilConnect, TotalSlept, SliceTally;
    SleepNeverConnects(Owed(script, j), 0, None);
    if j == k {
      FirstWait(sleep, rest);
      SleepCut(Owed(script, k), 0, 0);
      SleepLastsDelay(Owed(script, k), 0, None);
      OwedActsStart(script, k + 1);
    } else {
      ConnectsAppend(head, sleep);
      SleptAfterAppend(head + sleep, rest, k - j);
      OwedAfterConnect(script, j + 1, k);
    }
  }

  /** As long as every attempt so far was a disconnect, the run sleeps exactly what the last one owes. */
  lemma RunSleepsOwed(script: seq<Attempt>, k: nat)
    requires k < |script| && forall i | 0 <= i <= k :: script[i].result == BackendDisconnect
    ensures SleptAfterConnect(SuperviseFrom(script, 0, 0, None).0, k) == Owed(script, k)
  {
    hide SuperviseFrom, Owed;
    EveryRunIsOwed(script, None);
    OwedAfterConnect(script, 0, k);
  }

  /**
   Only disconnects are retried: with the first other result at attempt `k` the run makes at most `k + 1`
   connects, and it fails with that result iff it reached it and it is an error.
   */
  lemma {:induction false} OnlyDisconnectsAreRetried(script: seq<Attempt>, cursor: nat, poll: nat, flagAt: Option<nat>,
                                                     k: nat)
    requires cursor < |BACKOFF_STEPS| && k < |script|
    requires forall i | 0 <= i < k :: script[i].result == BackendDisconnect
    requires script[k].result != BackendDisconnect
    ensures var (acts, exit) := SuperviseFrom(script, cursor, poll, flagAt);
            && Connects(acts) <= k + 1
            && (exit.Failed? <==> Connects(acts) == k + 1 && script[k].result != Signal)
            && (exit.Failed? ==> exit.error == script[k].result)
            && exit != StillRunning
  {
    var head := [Polled(false), Connected];
    assert head[1..] == [Connected] && Connects(head) == 1;
    if !FlagAt(flagAt, poll) && k > 0 {
      var at := if script[0].reset then 0 else cursor;
      var (sleep, stopped) := SleepFrom(BACKOFF_STEPS[at], poll + 1, flagAt);
      hide SleepFrom, SliceCount;
      SleepNeverConnects(BACKOFF_STEPS[at], poll + 1, flagAt);
      ConnectsAppend(head, sleep);
      if !stopped {
        var later := poll + 1 + SliceCount(BACKOFF_STEPS[at]);
        OnlyDisconnectsAreRetried(script[1..], NextCursor(at), later, flagAt, k - 1);
        ConnectsAppend(head + sleep, SuperviseFrom(script[1..], NextCursor(at), later, flagAt).0);
      }
    }
  }
}
