/**
 The one-time journal lines: when each is emitted in a session, and how often over the sessions of a process.
 */
module Warnings {
  import opened Wrappers
  import opened Snapshot
  import opened Session
  import opened Wire
  import opened Activation
  import opened SessionVerifier
  import Announcement
  import Policy
  import D = Deferred
  import V = Verify
  import P = Placement

  // ---- One-time warnings ----

  function Tally(journal: seq<Notice>, n: Notice -> bool): nat {
    |Filter(journal, n)|
  }

  function IsOnce(warn: OnceWarn): Notice -> bool {
    (n: Notice) => n == Once(warn)
  }

  function IsVerifierWarn(): Notice -> bool {
    (n: Notice) => n.Unconfirmed? && n.event.EmitsWarn()
  }

  /** Each latch is set iff its line is in the journal, once; likewise the verifier's WARN. */
  ghost predicate JournalInv(s: State) {
    && (forall warn :: Tally(s.journal, IsOnce(warn)) == if warn in s.latched then 1 else 0)
    && Tally(s.journal, IsVerifierWarn()) == if s.verifier.warnFired then 1 else 0
  }

  lemma TallyOne(journal: seq<Notice>, last: Notice, n: Notice -> bool)
    ensures Tally(journal + [last], n) == Tally(journal, n) + if n(last) then 1 else 0
  {
    FilterAppend(journal, [last], n);
    assert [last][1..] == [];
  }

  lemma WarnOnceKeepsJournal(s: State, warn: OnceWarn)
    requires JournalInv(s)
    ensures JournalInv(WarnOnce(s, warn))
  {
    forall x: OnceWarn ensures Tally(s.journal + [Once(warn)], IsOnce(x)) ==
                               Tally(s.journal, IsOnce(x)) + if x == warn then 1 else 0 {
      TallyOne(s.journal, Once(warn), IsOnce(x));
    }
    TallyOne(s.journal, Once(warn), IsVerifierWarn());
  }

  lemma {:induction false} ConsumeWarnsKeepsJournal(s: State, warns: seq<P.PlacementWarn>)
    requires JournalInv(s)
    ensures JournalInv(ConsumeWarns(s, warns))
  {
    if warns != [] {
      ConsumeWarnsKeepsJournal(s, warns[..|warns| - 1]);
      WarnOnceKeepsJournal(ConsumeWarns(s, warns[..|warns| - 1]), WarnKind(warns[|warns| - 1]));
    }
  }

  /** Attempts and confirms leave the WARN latch alone. */
  lemma RegisterKeepsLatch(s: State, config: P.Config, env: Env, ws: Id)
    ensures RegisterActivate(s, config, env, ws).0.verifier.warnFired == s.verifier.warnFired
  {
  }

  lemma PlaceOnKeepsJournal(s: State, config: P.Config, env: Env, toplevel: Id, ws: Id, output: Id,
                            after: P.PostPlaceActions, strict: bool)
    requires JournalInv(s)
    ensures JournalInv(PlaceOn(s, config, env, toplevel, ws, output, after, strict))
  {
    hide RegisterActivate, Tally;
    PlaceOnEmits(s, config, env, toplevel, ws, output, after, strict);
    RegisterKeepsLatch(s.(wire := s.wire + [Move(toplevel, ws, output)]), config, env, ws);
  }

  lemma CompleteKeepsJournal(s: State, config: P.Config, w: World, env: Env, p: PendingPlacement)
    requires JournalInv(s)
    ensures JournalInv(Complete(s, config, w, env, p))
  {
    hide JournalInv, Resolve, PlaceOn, WarnOnce;
    WarnOnceKeepsJournal(s, CreateNotHonored);
    match Resolve(w, p) {
      case Lands(ws, degraded) =>
        PlaceOnKeepsJournal(if degraded then WarnOnce(s, CreateNotHonored) else s, config, env, p.toplevel, ws,
                            p.output, p.after, false);
      case _ =>
    }
  }

  lemma {:induction false} CompleteAllKeepsJournal(s: State, config: P.Config, w: World, env: Env,
                                                   order: seq<PendingPlacement>)
    requires JournalInv(s)
    ensures JournalInv(CompleteAll(s, config, w, env, order))
  {
    if order != [] {
      hide JournalInv, Complete;
      var n := |order| - 1;
      CompleteAllKeepsJournal(s, config, w, env, order[..n]);
      CompleteKeepsJournal(CompleteAll(s, config, w, env, order[..n]), config, w, env, Aged(order[n]));
    }
  }

  lemma NewToplevelKeepsJournal(s: State, config: P.Config, h: Id, w: World, env: Env)
    requires JournalInv(s)
    ensures JournalInv(OnNewToplevel(s, config, h, w, env))
  {
    hide ConsumeWarns, Tally, PlaceOn;
    match FindToplevel(w, h) {
      case None =>
      case Some(info) =>
        var decision := DecisionFor(s, config, w, info);
        var warned := ConsumeWarns(s, decision.warns);
        ConsumeWarnsKeepsJournal(s, decision.warns);
        if decision.action.Place? && decision.action.workspace.Existing? && info.outputs != [] {
          PlaceOnKeepsJournal(warned, config, env, info.id, decision.action.workspace.id, info.outputs[0],
                              decision.action.after, true);
        }
    }
  }

  lemma ClosedKeepsJournal(s: State, config: P.Config, h: Id, w: World, env: Env)
    requires JournalInv(s)
    ensures JournalInv(OnToplevelClosed(s, config, h, w, env))
  {
    hide RegisterActivate, JumpOutcome, Tally;
    ClosedKeeps(s, config, h, w, env);
    var evicted := s.(handled := s.handled - {h}, pending := Evict(s.pending, h));
    if config.jumpOnEmpty && JumpOutcome(evicted, h, w).Jump? {
      RegisterKeepsLatch(evicted, config, env, JumpOutcome(evicted, h, w).target);
    }
  }

  lemma TimerKeepsJournal(s: State, token: nat)
    requires JournalInv(s)
    ensures JournalInv(OnTimerFired(s, token))
  {
    if token in s.timers {
      var h := s.timers[token];
      var line := Unconfirmed(h, V.TimeoutEvent(s.verifier, h));
      hide Tally;
      forall x: OnceWarn ensures Tally(s.journal + [line], IsOnce(x)) == Tally(s.journal, IsOnce(x)) {
        TallyOne(s.journal, line, IsOnce(x));
      }
      TallyOne(s.journal, line, IsVerifierWarn());
    }
  }

  lemma StepKeepsJournal(s: State, config: P.Config, e: Event)
    requires JournalInv(s)
    ensures JournalInv(Step(s, config, e))
  {
    hide OnNewToplevel, OnToplevelClosed, CompleteAll, OnTimerFired, Tally;
    match e {
      case NewToplevel(h, w, env) => NewToplevelKeepsJournal(s, config, h, w, env);
      case ToplevelUpdated(_) =>
      case ToplevelClosed(h, w, env) => ClosedKeepsJournal(s, config, h, w, env);
      case Done(w, env) =>
        BeforeScanKeeps(s, config, w);
        CompleteAllKeepsJournal(BeforeScan(s, config, w).(pending := []), config, w, env, DrainOrder(s.pending));
      case TimerFired(token) => TimerKeepsJournal(s, token);
    }
  }

  /** After every run each line is in the journal once iff its latch is set, and otherwise never. */
  lemma {:induction false} JournalFollowsLatches(config: P.Config, events: seq<Event>)
    ensures JournalInv(Run(config, events))
  {
    if events != [] {
      hide Step, JournalInv;
      JournalFollowsLatches(config, events[..|events| - 1]);
      StepKeepsJournal(Run(config, events[..|events| - 1]), config, events[|events| - 1]);
    }
  }

  // ---- Which events call for a line ----

  /** A line that is emitted at most once a session. */
  datatype Line = OneTime(warn: OnceWarn) | VerifierWarn

  function IsLine(line: Line): Notice -> bool {
    match line
    case OneTime(warn) => IsOnce(warn)
    case VerifierWarn => IsVerifierWarn()
  }

  predicate Latch(s: State, line: Line) {
    match line
    case OneTime(warn) => warn in s.latched
    case VerifierWarn => s.verifier.warnFired
  }

  /** The first group with the id of `p` has no listed workspace its snapshot lacks: no new one appeared. */
  ghost predicate NoneAppeared(w: World, p: PendingPlacement) {
    exists g: nat :: FirstNamed(w, p.group, g) && !HasNew(w, g, p.before)
  }

  /** The announced toplevel meets the condition of the warning. */
  ghost predicate Deserves(config: P.Config, handled: set<Id>, w: World, t: Toplevel, warn: OnceWarn) {
    match warn
    case OutputFallback => Policy.FallsBack(config, handled, w, t)
    case NewEachUnsupported => Policy.CannotCreate(config, handled, w, t)
    case CreateNotHonored => false
  }

  /**
   The event calls for the one-time line: it announces a toplevel that is admitted although no group is on the
   configured output, or whose chosen group cannot create the workspace asked for; or its batch settles a queued
   placement whose workspace did not appear.
   */
  ghost predicate CallsForWarn(s: State, config: P.Config, e: Event, warn: OnceWarn) {
    match e
    case NewToplevel(h, w, _) =>
      exists k: nat :: FirstToplevel(w, h, k) && Deserves(config, s.handled, w, w.toplevels[k], warn)
    case Done(w, _) => warn == CreateNotHonored && exists p :: p in s.pending && NoneAppeared(w, p)
    case _ => false
  }

  /** The warnings of a decision are those the toplevel deserves. */
  lemma DecisionWarns(s: State, config: P.Config, w: World, h: Id, k: nat, warn: OnceWarn)
    requires FirstToplevel(w, h, k)
    ensures (exists x :: x in DecisionFor(s, config, w, w.toplevels[k]).warns && WarnKind(x) == warn) <==>
              Deserves(config, s.handled, w, w.toplevels[k], warn)
  {
    var t := w.toplevels[k];
    Announcement.Announced(s, config, h, w, Env(true, {}), k);
    Policy.WarnsExactly(config, s.handled, w, t);
    var warns := DecisionFor(s, config, w, t).warns;
    hide DecisionFor, Policy.Decision, Policy.FallsBack, Policy.CannotCreate;
    if Policy.FallsBack(config, s.handled, w, t) {
      assert warns[0] == P.WorkspaceOutputFallback && warns[0] in warns;
    }
    if Policy.CannotCreate(config, s.handled, w, t) {
      assert warns[|warns| - 1] == P.NewEachUnsupported && warns[|warns| - 1] in warns;
    }
  }

  lemma {:induction false} ConsumeWarnsLatches(s: State, warns: seq<P.PlacementWarn>, warn: OnceWarn)
    ensures warn in ConsumeWarns(s, warns).latched <==>
              warn in s.latched || exists x :: x in warns && WarnKind(x) == warn
  {
    if warns != [] {
      var init, last := warns[..|warns| - 1], warns[|warns| - 1];
      ConsumeWarnsLatches(s, init, warn);
      assert warns == init + [last];
      assert forall x :: x in warns <==> x in init || x == last;
      assert warn in ConsumeWarns(s, warns).latched <==>
             warn in ConsumeWarns(s, init).latched || WarnKind(last) == warn;
    }
  }

  /** An entry is degraded, landing or not, iff no new workspace appeared for it. */
  lemma DegradesExact(w: World, p: PendingPlacement)
    ensures var r := Resolve(w, Aged(p));
            (r.Lands? && r.degraded) || r == NoWorkspaceLeft(true) <==> NoneAppeared(w, p)
    ensures var r := Resolve(w, Aged(p)); r != Waits && r != NoWorkspaceLeft(false)
  {
    D.LandsOnFreshElseEmpty(w, p);
    FindGroupExact(w, p.group);
    hide Resolve, HasNew, HasVacant;
    if FindGroup(w, p.group).Some? {
      var g: nat :| FirstNamed(w, p.group, g);
      assert forall f: nat | FirstNamed(w, p.group, f) :: f == g;
    }
  }

  lemma CompleteLatches(s: State, config: P.Config, w: World, env: Env, p: PendingPlacement, warn: OnceWarn)
    ensures warn in Complete(s, config, w, env, Aged(p)).latched <==>
              warn in s.latched || (warn == CreateNotHonored && NoneAppeared(w, p))
  {
    DegradesExact(w, p);
    hide PlaceOn, Resolve, NoneAppeared;
    match Resolve(w, Aged(p)) {
      case Lands(ws, degraded) =>
        PlaceOnEmits(if degraded then WarnOnce(s, CreateNotHonored) else s, config, env, p.toplevel, ws, p.output,
                     p.after, false);
      case _ =>
    }
  }

  lemma {:induction false} CompleteAllLatches(s: State, config: P.Config, w: World, env: Env,
                                              order: seq<PendingPlacement>, warn: OnceWarn)
    ensures warn in CompleteAll(s, config, w, env, order).latched <==>
              warn in s.latched || (warn == CreateNotHonored && exists p :: p in order && NoneAppeared(w, p))
  {
    if order != [] {
      hide Complete, NoneAppeared;
      var init, last := order[..|order| - 1], order[|order| - 1];
      CompleteAllLatches(s, config, w, env, init, warn);
      CompleteLatches(CompleteAll(s, config, w, env, init), config, w, env, last, warn);
      assert order == init + [last];
      assert forall p :: p in order <==> p in init || p == last;
    }
  }

  lemma NewToplevelLatches(s: State, config: P.Config, h: Id, w: World, env: Env, warn: OnceWarn)
    ensures warn in OnNewToplevel(s, config, h, w, env).latched <==>
              warn in s.latched || CallsForWarn(s, config, NewToplevel(h, w, env), warn)
  {
    FindToplevelExact(w, h);
    hide ConsumeWarns, ExecutePlace, PlaceBlocks, RenderAll, DecisionFor, Deserves;
    match FindToplevel(w, h) {
      case None =>
      case Some(info) =>
        var k: nat :| FirstToplevel(w, h, k);
        assert forall j: nat | FirstToplevel(w, h, j) :: j == k;
        DecisionWarns(s, config, w, h, k, warn);
        var decision := DecisionFor(s, config, w, info);
        var warned := ConsumeWarns(s, decision.warns);
        ConsumeWarnsLatches(s, decision.warns, warn);
        if decision.action.Place? {
          ExecutePlaceEmits(warned, config, w, env, info, decision.action.workspace, decision.action.after);
        }
    }
  }

  /** An event sets a latch iff it calls for the line; none is ever cleared. */
  lemma StepLatches(s: State, config: P.Config, e: Event, warn: OnceWarn)
    ensures warn in Step(s, config, e).latched <==> warn in s.latched || CallsForWarn(s, config, e, warn)
  {
    hide OnNewToplevel, OnToplevelClosed, CompleteAll, NoneAppeared;
    match e {
      case NewToplevel(h, w, env) => NewToplevelLatches(s, config, h, w, env, warn);
      case ToplevelUpdated(_) =>
      case ToplevelClosed(h, w, env) => ClosedKeeps(s, config, h, w, env);
      case Done(w, env) =>
        BeforeScanKeeps(s, config, w);
        CompleteAllLatches(BeforeScan(s, config, w).(pending := []), config, w, env, DrainOrder(s.pending), warn);
        DrainOrderMembers(s.pending);
      case TimerFired(_) =>
    }
  }

  /** The WARN latch is set by the expiry of a live timer with the WARN due, and by nothing else. */
  lemma StepWarnLatch(s: State, config: P.Config, e: Event)
    ensures Step(s, config, e).verifier.warnFired <==>
              s.verifier.warnFired || (e.TimerFired? && e.token in s.timers && V.WarnDue(s.verifier))
  {
    hide Step, StepTargets, EngageAll, BeforeActivations, V.WarnDue;
    StepIsItsActivations(s, config, e);
    SettlingMarks(s, config, e);
    EngageAllMarks(GearOf(BeforeActivations(s, config, e)), config, EnvOf(e), StepTargets(s, config, e));
  }

  /** Event `k` calls for the line; the WARN is called for by an expiring timer in a suspicious run. */
  ghost predicate CallsForAt(config: P.Config, events: seq<Event>, line: Line, k: nat) {
    && k < |events|
    && var s := Run(config, events[..k]);
       match line
       case OneTime(warn) => CallsForWarn(s, config, events[k], warn)
       case VerifierWarn =>
         events[k].TimerFired? && events[k].token in s.timers && Suspicious(config, events[..k])
  }

  ghost predicate CallsFor(config: P.Config, events: seq<Event>, line: Line) {
    exists k: nat :: CallsForAt(config, events, line, k)
  }

  lemma CallsForOneMore(config: P.Config, events: seq<Event>, line: Line)
    requires events != []
    ensures var n := |events| - 1;
            CallsFor(config, events, line) <==>
              CallsFor(config, events[..n], line) || CallsForAt(config, events, line, n)
  {
    hide Run, CallsForWarn, Suspicious;
    var n := |events| - 1;
    forall k: nat | k < n ensures CallsForAt(config, events, line, k) <==> CallsForAt(config, events[..n], line, k) {
      assert events[..n][..k] == events[..k];
    }
    if k: nat :| CallsForAt(config, events[..n], line, k) {
      assert CallsForAt(config, events, line, k);
    }
    if k: nat :| CallsForAt(config, events, line, k) {
      assert k < n ==> CallsForAt(config, events[..n], line, k);
    }
  }

  lemma LatchOneMore(config: P.Config, events: seq<Event>, line: Line)
    requires events != []
    ensures var n := |events| - 1;
            Latch(Run(config, events), line) <==>
              Latch(Run(config, events[..n]), line) || CallsForAt(config, events, line, n)
  {
    var n := |events| - 1;
    var s := Run(config, events[..n]);
    assert Run(config, events) == Step(s, config, events[n]);
    hide Step, Run, CallsForWarn, Suspicious, V.WarnDue;
    match line {
      case OneTime(warn) => StepLatches(s, config, events[n], warn);
      case VerifierWarn =>
        StepWarnLatch(s, config, events[n]);
        WarnDueIffSuspicious(config, events[..n]);
    }
  }

  /** After every run a latch is set iff some event of the run called for its line. */
  lemma {:induction false} LatchedIffCalledFor(config: P.Config, events: seq<Event>, line: Line)
    ensures Latch(Run(config, events), line) <==> CallsFor(config, events, line)
  {
    if events != [] {
      hide Step, Latch, CallsFor, CallsForAt;
      LatchedIffCalledFor(config, events[..|events| - 1], line);
      LatchOneMore(config, events, line);
      CallsForOneMore(config, events, line);
    }
  }

  /** How often a session emits a line: once if some event called for it, and never otherwise. */
  lemma EmittedIffCalledFor(config: P.Config, events: seq<Event>, line: Line)
    ensures Tally(Run(config, events).journal, IsLine(line)) == if CallsFor(config, events, line) then 1 else 0
  {
    hide Run, CallsFor, Tally;
    JournalFollowsLatches(config, events);
    LatchedIffCalledFor(config, events, line);
  }

  /**
   After any run the expiry of a live timer warns iff at least three distinct workspaces were activated on the
   wire, no batch ever showed an awaited one active, and the journal holds no such warning yet.
   */
  lemma SessionWarnsIff(config: P.Config, events: seq<Event>, token: nat)
    requires token in Run(config, events).timers
    ensures var s := Run(config, events);
            var h := s.timers[token];
            && h in ActivatedOn(s.wire)
            && (V.TimeoutEvent(s.verifier, h).EmitsWarn() <==>
                  Suspicious(config, events) && Tally(s.journal, IsVerifierWarn()) == 0)
  {
    hide Run, Suspicious, Tally, ActivatedOn;
    TimersAreForActivated(config, events);
    WarnDueIffSuspicious(config, events);
    JournalFollowsLatches(config, events);
  }

  /** The verifier's line for these two findings. */
  function Finding(informs: bool, warns: bool): V.VerifyEvent {
    if informs && warns then V.InfoAndWarn
    else if informs then V.InfoOnceForHandle
    else if warns then V.WarnOnceForProcess
    else V.NoEvent
  }

  /**
   What the expiry of a live timer does after any run: the timer is gone, and with it the stored token and the pending
   attempt of its workspace; one line about that workspace joins the journal, an INFO iff no timer of it expired since
   a batch showed an awaited workspace active, a WARN iff the run is suspicious and none was emitted; nothing is sent.
   */
  lemma ExpiryExact(config: P.Config, events: seq<Event>, token: nat)
    requires token in Run(config, events).timers
    ensures var s, on := Run(config, events), Step(Run(config, events), config, TimerFired(token));
            var h := s.timers[token];
            var line := Unconfirmed(h, Finding(!Marked(config, events, Informed, h),
                                               Suspicious(config, events) && Tally(s.journal, IsVerifierWarn()) == 0));
            && on.journal == s.journal + [line]
            && on.timers == s.timers - {token} && on.tokens == s.tokens - {h}
            && on.verifier.pending == s.verifier.pending - {h}
            && on.wire == s.wire && on.handled == s.handled && on.pending == s.pending && on.recent == s.recent
  {
    SessionInformsIff(config, events, token);
    SessionWarnsIff(config, events, token);
    hide Run, Marked, Suspicious, Tally;
  }

  // ---- The sessions of one process ----

  /** The journal of a process: one fresh session after another, as reconnecting makes them. */
  function ProcessJournal(config: P.Config, sessions: seq<seq<Event>>): seq<Notice> {
    if sessions == [] then []
    else ProcessJournal(config, sessions[..|sessions| - 1]) + Run(config, sessions[|sessions| - 1]).journal
  }

  ghost function Callers(config: P.Config, sessions: seq<seq<Event>>, line: Line): nat {
    if sessions == [] then 0
    else
      Callers(config, sessions[..|sessions| - 1], line)
        + if CallsFor(config, sessions[|sessions| - 1], line) then 1 else 0
  }

  /** A process emits a line once per session that calls for it. */
  lemma {:induction false} ProcessEmitsPerSession(config: P.Config, sessions: seq<seq<Event>>, line: Line)
    ensures Tally(ProcessJournal(config, sessions), IsLine(line)) == Callers(config, sessions, line)
  {
    if sessions != [] {
      hide Run, CallsFor;
      var init, last := sessions[..|sessions| - 1], sessions[|sessions| - 1];
      ProcessEmitsPerSession(config, init, line);
      EmittedIffCalledFor(config, last, line);
      FilterAppend(ProcessJournal(config, init), Run(config, last).journal, IsLine(line));
    }
  }

  /** No two sessions of the process call for the line. */
  ghost predicate NoTwoCall(config: P.Config, sessions: seq<seq<Event>>, line: Line) {
    forall i, j | 0 <= i < j < |sessions| ::
      !(CallsFor(config, sessions[i], line) && CallsFor(config, sessions[j], line))
  }

  ghost predicate NoneCalls(config: P.Config, sessions: seq<seq<Event>>, line: Line) {
    forall i | 0 <= i < |sessions| :: !CallsFor(config, sessions[i], line)
  }

  lemma CallOneMore(config: P.Config, sessions: seq<seq<Event>>, line: Line)
    requires sessions != []
    ensures var init, last := sessions[..|sessions| - 1], CallsFor(config, sessions[|sessions| - 1], line);
            && (NoneCalls(config, sessions, line) <==> NoneCalls(config, init, line) && !last)
            && (NoTwoCall(config, sessions, line) <==>
                  NoTwoCall(config, init, line) && (last ==> NoneCalls(config, init, line)))
  {
    hide CallsFor;
    var n := |sessions| - 1;
    var init := sessions[..n];
    assert forall i | 0 <= i < n :: init[i] == sessions[i];
    if NoTwoCall(config, sessions, line) && CallsFor(config, sessions[n], line) {
      forall i | 0 <= i < n ensures !CallsFor(config, init[i], line) {
        assert init[i] == sessions[i];
      }
    }
  }

  lemma {:induction false} CallersCount(config: P.Config, sessions: seq<seq<Event>>, line: Line)
    ensures Callers(config, sessions, line) == 0 <==> NoneCalls(config, sessions, line)
    ensures Callers(config, sessions, line) <= 1 <==> NoTwoCall(config, sessions, line)
  {
    if sessions != [] {
      hide CallsFor, NoneCalls, NoTwoCall;
      CallersCount(config, sessions[..|sessions| - 1], line);
      CallOneMore(config, sessions, line);
    }
  }

  /** Over all the sessions of a process a line is emitted at most once iff at most one session calls for it. */
  lemma OncePerProcessIff(config: P.Config, sessions: seq<seq<Event>>, line: Line)
    ensures Tally(ProcessJournal(config, sessions), IsLine(line)) <= 1 <==> NoTwoCall(config, sessions, line)
  {
    hide Tally, Callers, NoTwoCall, NoneCalls;
    ProcessEmitsPerSession(config, sessions, line);
    CallersCount(config, sessions, line);
  }
}
