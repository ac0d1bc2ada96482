/**
 What the verifier says in a session, decided by the run alone: the activations on the wire, the batches that
 showed an awaited workspace active, and the timers that expired.
 */
module SessionVerifier {
  import opened Wrappers
  import opened Snapshot
  import opened Session
  import opened Wire
  import opened Activation
  import V = Verify
  import P = Placement

  /** A settled batch shows a workspace active whose activation timer is pending. */
  ghost predicate Observed(s: State, e: Event) {
    e.Done? && exists h :: h in s.tokens && ShowsActive(e.world, h)
  }

  ghost predicate ObservedAt(config: P.Config, events: seq<Event>, k: nat) {
    k < |events| && Observed(Run(config, events[..k]), events[k])
  }

  /** Some batch of the run showed an awaited workspace active. */
  ghost predicate EverObserved(config: P.Config, events: seq<Event>) {
    exists k: nat :: ObservedAt(config, events, k)
  }

  /** The two things the verifier remembers of a workspace since the last such batch. */
  datatype Mark = Attempted | Informed

  function MarkSet(l: V.Ledger, m: Mark): set<Id> {
    if m.Attempted? then l.attempted else l.infoEmitted
  }

  /** The workspaces one event marks: those it activates on the wire, or the one whose live timer it fires. */
  function MarkedBy(s: State, config: P.Config, e: Event, m: Mark): set<Id> {
    match m
    case Attempted => Elements(StepTargets(s, config, e))
    case Informed => if e.TimerFired? && e.token in s.timers then {s.timers[e.token]} else {}
  }

  lemma {:induction false} EngageAllMarks(g: Gear, config: P.Config, env: Env, targets: seq<Id>)
    ensures var before, after := g.verifier, EngageAll(g, config, env, targets).verifier;
            && after.attempted == before.attempted + Elements(targets)
            && after.infoEmitted == before.infoEmitted && after.everConfirmed == before.everConfirmed
            && after.warnFired == before.warnFired && after.threshold == before.threshold
  {
    if targets != [] {
      var init, last := targets[..|targets| - 1], targets[|targets| - 1];
      hide Elements;
      EngageAllMarks(g, config, env, init);
      ElementsLast(targets);
    }
  }

  /** One event: an observation forgets everything, then the event's own marks are added. */
  lemma StepMarks(s: State, config: P.Config, e: Event, m: Mark)
    ensures var on := Step(s, config, e).verifier;
            && MarkSet(on, m) == (if Observed(s, e) then {} else MarkSet(s.verifier, m)) + MarkedBy(s, config, e, m)
            && (on.everConfirmed <==> s.verifier.everConfirmed || Observed(s, e))
            && on.threshold == s.verifier.threshold
  {
    hide Step, StepTargets, EngageAll, BeforeActivations, Observed;
    StepIsItsActivations(s, config, e);
    SettlingMarks(s, config, e);
    EngageAllMarks(GearOf(BeforeActivations(s, config, e)), config, EnvOf(e), StepTargets(s, config, e));
  }

  /** What the confirm walk or the expiry does, before the activations. */
  lemma SettlingMarks(s: State, config: P.Config, e: Event)
    ensures var before, after := s.verifier, BeforeActivations(s, config, e).verifier;
            && after.attempted == (if Observed(s, e) then {} else before.attempted)
            && after.infoEmitted ==
               (if Observed(s, e) then {} else before.infoEmitted) + MarkedBy(s, config, e, Informed)
            && (after.everConfirmed <==> before.everConfirmed || Observed(s, e))
            && after.threshold == before.threshold
            && after.warnFired == (before.warnFired || (e.TimerFired? && e.token in s.timers && V.WarnDue(before)))
  {
    if e.Done? {
      ConfirmedExact(s.tokens, e.world);
      if h :| h in s.tokens && ShowsActive(e.world, h) {
        assert h in Shown(s.tokens, e.world);
      }
    }
  }

  /** Event `k` marked `h`, and no batch since showed an awaited workspace active. */
  ghost predicate MarkStands(config: P.Config, events: seq<Event>, m: Mark, h: Id, k: nat) {
    && k < |events| && h in MarkedBy(Run(config, events[..k]), config, events[k], m)
    && forall j | k < j < |events| :: !ObservedAt(config, events, j)
  }

  ghost predicate Marked(config: P.Config, events: seq<Event>, m: Mark, h: Id) {
    exists k: nat :: MarkStands(config, events, m, h, k)
  }

  lemma ObservedOneMore(config: P.Config, events: seq<Event>)
    requires events != []
    ensures var n := |events| - 1;
            && (forall k: nat | k < n :: ObservedAt(config, events, k) <==> ObservedAt(config, events[..n], k))
            && (ObservedAt(config, events, n) <==> Observed(Run(config, events[..n]), events[n]))
            && (EverObserved(config, events) <==>
                  EverObserved(config, events[..n]) || Observed(Run(config, events[..n]), events[n]))
  {
    hide Run, Observed;
    var n := |events| - 1;
    var init := events[..n];
    assert forall k: nat | k < n :: init[..k] == events[..k];
    if k: nat :| ObservedAt(config, init, k) {
      assert ObservedAt(config, events, k);
    }
    if Observed(Run(config, init), events[n]) {
      assert ObservedAt(config, events, n);
    }
    if k: nat :| ObservedAt(config, events, k) {
      assert k < n ==> ObservedAt(config, init, k);
    }
  }

  lemma MarkStandsOneMore(config: P.Config, events: seq<Event>, m: Mark, h: Id, k: nat)
    requires events != []
    ensures var n := |events| - 1;
            var s := Run(config, events[..n]);
            MarkStands(config, events, m, h, k) <==>
              || (k == n && h in MarkedBy(s, config, events[n], m))
              || (MarkStands(config, events[..n], m, h, k) && !Observed(s, events[n]))
  {
    hide Run, Observed, MarkedBy, ObservedAt;
    var n := |events| - 1;
    var init := events[..n];
    ObservedOneMore(config, events);
    if k < n {
      assert init[..k] == events[..k];
    }
  }

  lemma MarkedOneMore(config: P.Config, events: seq<Event>, m: Mark, h: Id)
    requires events != []
    ensures var n := |events| - 1;
            var s := Run(config, events[..n]);
            Marked(config, events, m, h) <==>
              || h in MarkedBy(s, config, events[n], m)
              || (Marked(config, events[..n], m, h) && !Observed(s, events[n]))
  {
    hide Run, Observed, MarkedBy, MarkStands;
    var n := |events| - 1;
    forall k: nat
      ensures MarkStands(config, events, m, h, k) <==>
                || (k == n && h in MarkedBy(Run(config, events[..n]), config, events[n], m))
                || (MarkStands(config, events[..n], m, h, k) && !Observed(Run(config, events[..n]), events[n]))
    {
      MarkStandsOneMore(config, events, m, h, k);
    }
    assert MarkStands(config, events, m, h, n) || !MarkStands(config, events, m, h, n);
  }

  /**
   After every run a workspace is attempted iff some event activated it on the wire, and informed iff some
   event fired a live timer of it, with no batch since that showed an awaited workspace active.
   */
  lemma {:induction false} MarksFollowRun(config: P.Config, events: seq<Event>, m: Mark, h: Id)
    ensures h in MarkSet(Run(config, events).verifier, m) <==> Marked(config, events, m, h)
  {
    if events != [] {
      hide Step, Observed, MarkedBy, MarkSet, Marked;
      var n := |events| - 1;
      MarksFollowRun(config, events[..n], m, h);
      StepMarks(Run(config, events[..n]), config, events[n], m);
      MarkedOneMore(config, events, m, h);
    }
  }

  /** A confirmation is known iff a batch showed an awaited workspace active. */
  lemma {:induction false} ConfirmedIffObserved(config: P.Config, events: seq<Event>)
    ensures Run(config, events).verifier.everConfirmed <==> EverObserved(config, events)
    ensures Run(config, events).verifier.threshold == WARN_THRESHOLD
  {
    if events != [] {
      hide Step, Observed, EverObserved, ObservedAt;
      var n := |events| - 1;
      ConfirmedIffObserved(config, events[..n]);
      StepMarks(Run(config, events[..n]), config, events[n], Attempted);
      ObservedOneMore(config, events);
    }
  }

  // ---- The WARN ----

  function ActivatedOn(rs: seq<Request>): set<Id> {
    Elements(Activated(rs))
  }

  lemma StepActivatedOn(s: State, config: P.Config, e: Event)
    ensures ActivatedOn(Step(s, config, e).wire) == ActivatedOn(s.wire) + Elements(StepTargets(s, config, e))
  {
    hide Step, StepTargets, Activated;
    StepActivates(s, config, e);
  }

  /** Every live timer is for a workspace activated on the wire. */
  lemma {:induction false} TimersAreForActivated(config: P.Config, events: seq<Event>)
    ensures Run(config, events).timers.Values <= ActivatedOn(Run(config, events).wire)
  {
    if events != [] {
      hide Step, StepTargets, EngageAll, ActivatedOn, BeforeActivations;
      var n := |events| - 1;
      var s, e := Run(config, events[..n]), events[n];
      TimersAreForActivated(config, events[..n]);
      StepActivatedOn(s, config, e);
      StepIsItsActivations(s, config, e);
      FewerTimers(s, config, e);
      EngageAllTimers(GearOf(BeforeActivations(s, config, e)), config, EnvOf(e), StepTargets(s, config, e));
    }
  }

  lemma FewerTimers(s: State, config: P.Config, e: Event)
    ensures BeforeActivations(s, config, e).timers.Values <= s.timers.Values
  {
    var on := BeforeActivations(s, config, e);
    forall x | x in on.timers.Values ensures x in s.timers.Values {
      var t :| t in on.timers && on.timers[t] == x;
      assert s.timers[t] == x;
    }
  }

  lemma EngageTimers(g: Gear, config: P.Config, env: Env, ws: Id)
    ensures Engage(g, config, env, ws).timers.Values <= g.timers.Values + {ws}
  {
    var on := Engage(g, config, env, ws);
    forall x | x in on.timers.Values ensures x in g.timers.Values + {ws} {
      var t :| t in on.timers && on.timers[t] == x;
      assert x == ws || (t in g.timers && g.timers[t] == x);
    }
  }

  lemma {:induction false} EngageAllTimers(g: Gear, config: P.Config, env: Env, targets: seq<Id>)
    ensures EngageAll(g, config, env, targets).timers.Values <= g.timers.Values + Elements(targets)
  {
    if targets != [] {
      var init, last := targets[..|targets| - 1], targets[|targets| - 1];
      hide Elements, Engage;
      EngageAllTimers(g, config, env, init);
      EngageTimers(EngageAll(g, config, env, init), config, env, last);
      ElementsLast(targets);
    }
  }

  /** Until something is observed, the attempted workspaces are all those activated on the wire. */
  lemma {:induction false} AttemptsAreActivations(config: P.Config, events: seq<Event>)
    requires !EverObserved(config, events)
    ensures Run(config, events).verifier.attempted == ActivatedOn(Run(config, events).wire)
  {
    if events == [] {
      assert Elements<Id>([]) == {};
    } else {
      hide Step, Observed, EverObserved, ObservedAt, StepTargets, ActivatedOn;
      var n := |events| - 1;
      var s, e := Run(config, events[..n]), events[n];
      ObservedOneMore(config, events);
      AttemptsAreActivations(config, events[..n]);
      StepMarks(s, config, e, Attempted);
      StepActivatedOn(s, config, e);
    }
  }

  /** Three distinct workspaces have been activated on the wire, and no batch showed an awaited one active. */
  ghost predicate Suspicious(config: P.Config, events: seq<Event>) {
    |ActivatedOn(Run(config, events).wire)| >= 3 && !EverObserved(config, events)
  }

  /** After every run the WARN is due, but for its latch, iff the run is suspicious. */
  lemma WarnDueIffSuspicious(config: P.Config, events: seq<Event>)
    ensures V.WarnDue(Run(config, events).verifier) <==>
              Suspicious(config, events) && !Run(config, events).verifier.warnFired
  {
    hide Run, EverObserved, ActivatedOn;
    ConfirmedIffObserved(config, events);
    if !EverObserved(config, events) {
      AttemptsAreActivations(config, events);
    }
  }

  /** Until something is observed, every workspace a timer of which expired had been activated on the wire. */
  lemma {:induction false} ExpiredWereActivated(config: P.Config, events: seq<Event>)
    requires !EverObserved(config, events)
    ensures Run(config, events).verifier.infoEmitted <= ActivatedOn(Run(config, events).wire)
  {
    if events != [] {
      hide Step, Observed, EverObserved, ObservedAt, StepTargets, ActivatedOn;
      var n := |events| - 1;
      var s, e := Run(config, events[..n]), events[n];
      ObservedOneMore(config, events);
      ExpiredWereActivated(config, events[..n]);
      TimersAreForActivated(config, events[..n]);
      StepMarks(s, config, e, Informed);
      StepActivatedOn(s, config, e);
    }
  }

  lemma SubsetSize(a: set<Id>, b: set<Id>)
    requires a <= b
    ensures |a| <= |b|
  {
    assert b == a + (b - a);
  }

  /** The header's reading of the WARN for an expiring timer of `h`: three workspaces have timed out, `h` included. */
  ghost predicate ThreeTimedOut(config: P.Config, events: seq<Event>, h: Id) {
    |Run(config, events).verifier.infoEmitted + {h}| >= 3 && !EverObserved(config, events)
  }

  /**
   At every expiry of every run the code's condition and the header's agree iff a batch showed an awaited workspace
   active, or fewer than three were activated, or three have timed out.
   */
  lemma HeaderAgreesIff(config: P.Config, events: seq<Event>, token: nat)
    requires token in Run(config, events).timers
    ensures var s := Run(config, events);
            var h := s.timers[token];
            (Suspicious(config, events) <==> ThreeTimedOut(config, events, h)) <==>
              EverObserved(config, events) || |ActivatedOn(s.wire)| < 3 || |s.verifier.infoEmitted + {h}| >= 3
  {
    hide Run, EverObserved, ActivatedOn;
    var s := Run(config, events);
    TimersAreForActivated(config, events);
    if !EverObserved(config, events) {
      ExpiredWereActivated(config, events);
      SubsetSize(s.verifier.infoEmitted + {s.timers[token]}, ActivatedOn(s.wire));
    }
  }

  // ---- The assertion on an expiring timer, and the INFO ----

  /**
   The assertion made when a timer expires, that its workspace is an attempted one, holds iff some event activated
   that workspace on the wire and no batch since showed an awaited workspace active.
   */
  lemma TimerAssertionIff(config: P.Config, events: seq<Event>, token: nat)
    requires token in Run(config, events).timers
    ensures var s := Run(config, events);
            s.timers[token] in s.verifier.attempted <==>
              exists k: nat :: k < |events| && ActivatesAt(config, events, s.timers[token], k)
                && forall j | k < j < |events| :: !ObservedAt(config, events, j)
  {
    var h := Run(config, events).timers[token];
    hide Run, ObservedAt, StepBlocks;
    MarksFollowRun(config, events, Attempted, h);
    forall k: nat | k < |events|
      ensures ActivatesAt(config, events, h, k) <==>
                h in MarkedBy(Run(config, events[..k]), config, events[k], Attempted)
    {
      TargetsAreActivated(StepBlocks(Run(config, events[..k]), config, events[k]));
    }
    if k: nat :| k < |events| && ActivatesAt(config, events, h, k)
                 && forall j | k < j < |events| :: !ObservedAt(config, events, j) {
      assert MarkStands(config, events, Attempted, h, k);
    }
  }

  /** Among the requests event `k` sends is an activation of `h`. */
  ghost predicate ActivatesAt(config: P.Config, events: seq<Event>, h: Id, k: nat)
    requires k < |events|
  {
    h in ActivatedOn(RenderAll(StepBlocks(Run(config, events[..k]), config, events[k])))
  }

  /** An expiring timer informs iff no timer of its workspace has expired since a batch showed an awaited one active. */
  lemma SessionInformsIff(config: P.Config, events: seq<Event>, token: nat)
    requires token in Run(config, events).timers
    ensures var s := Run(config, events);
            V.TimeoutEvent(s.verifier, s.timers[token]).EmitsInfo() <==>
              !Marked(config, events, Informed, s.timers[token])
  {
    MarksFollowRun(config, events, Informed, Run(config, events).timers[token]);
  }
}
