/**
 The verification timers: the verifier's pending handles, the stored tokens and the event loop's live timers
 across every run of a session, and exactly when a live timer is no longer stored.
 */
module Timers {
  import opened Wrappers
  import opened Snapshot
  import opened Session
  import opened Wire
  import opened Activation
  import SessionVerifier
  import V = Verify
  import P = Placement

  /** Pending handles and stored tokens agree, and every stored token is a live timer of its own handle. */
  ghost predicate TimerInv(g: Gear) {
    && g.verifier.pending.Keys == g.tokens.Keys
    && (forall h | h in g.tokens :: g.tokens[h] in g.timers && g.timers[g.tokens[h]] == h)
    && (forall t | t in g.timers :: t < g.next)
  }

  /** Every live timer is the stored one of its handle: none has been forgotten. */
  ghost predicate NoOrphan(g: Gear) {
    forall t | t in g.timers :: g.timers[t] in g.tokens && g.tokens[g.timers[t]] == t
  }

  lemma EngageKeepsInv(g: Gear, config: P.Config, env: Env, ws: Id)
    requires TimerInv(g)
    ensures TimerInv(Engage(g, config, env, ws))
  {
  }

  lemma {:induction false} EngageAllKeepsInv(g: Gear, config: P.Config, env: Env, targets: seq<Id>)
    requires TimerInv(g)
    ensures TimerInv(EngageAll(g, config, env, targets))
  {
    if targets != [] {
      hide TimerInv, Engage;
      EngageAllKeepsInv(g, config, env, targets[..|targets| - 1]);
      EngageKeepsInv(EngageAll(g, config, env, targets[..|targets| - 1]), config, env, targets[|targets| - 1]);
    }
  }

  /** Confirming keeps the agreement, and forgets no timer. */
  lemma ConfirmKeepsInv(s: State, confirmed: set<Id>)
    requires TimerInv(GearOf(s)) && confirmed <= s.tokens.Keys
    ensures TimerInv(GearOf(ConfirmAll(s, confirmed)))
    ensures NoOrphan(GearOf(s)) ==> NoOrphan(GearOf(ConfirmAll(s, confirmed)))
  {
    var on := ConfirmAll(s, confirmed);
    if confirmed != {} {
      forall h | h in on.tokens ensures on.tokens[h] in on.timers && on.timers[on.tokens[h]] == h {
        assert s.tokens[h] !in TimersOf(s.tokens, confirmed) by {
          forall x | x in confirmed && x in s.tokens ensures s.tokens[x] != s.tokens[h] {
            assert s.timers[s.tokens[x]] == x && s.timers[s.tokens[h]] == h;
          }
        }
      }
      if NoOrphan(GearOf(s)) {
        forall t | t in on.timers ensures on.timers[t] in on.tokens && on.tokens[on.timers[t]] == t {
          var h := s.timers[t];
          assert s.tokens[h] == t;
          assert h in confirmed ==> t in TimersOf(s.tokens, confirmed);
        }
      }
    }
  }

  lemma SettlingKeepsInv(s: State, config: P.Config, e: Event)
    requires TimerInv(GearOf(s))
    ensures TimerInv(GearOf(BeforeActivations(s, config, e)))
    ensures NoOrphan(GearOf(s)) ==> NoOrphan(GearOf(BeforeActivations(s, config, e)))
  {
    match e {
      case Done(w, _) =>
        ConfirmKeepsInv(if config.jumpOnEmpty then RecordVisits(s, w) else s, Confirmed(s.tokens, w));
      case TimerFired(token) => ExpiryKeepsInv(s, token);
      case _ =>
    }
  }

  lemma ExpiryKeepsInv(s: State, token: nat)
    requires TimerInv(GearOf(s))
    ensures TimerInv(GearOf(OnTimerFired(s, token)))
    ensures NoOrphan(GearOf(s)) ==> NoOrphan(GearOf(OnTimerFired(s, token)))
  {
  }

  /** After every run the verifier's pending handles and the stored tokens agree, and every stored token is live. */
  lemma {:induction false} TokensAgreeAndAreLive(config: P.Config, events: seq<Event>)
    ensures TimerInv(GearOf(Run(config, events)))
  {
    if events != [] {
      hide Step, TimerInv, StepTargets, EngageAll, BeforeActivations;
      var s, e := Run(config, events[..|events| - 1]), events[|events| - 1];
      TokensAgreeAndAreLive(config, events[..|events| - 1]);
      SettlingKeepsInv(s, config, e);
      StepIsItsActivations(s, config, e);
      EngageAllKeepsInv(GearOf(BeforeActivations(s, config, e)), config, EnvOf(e), StepTargets(s, config, e));
    }
  }

  // ---- When live timers are exactly the stored ones ----

  /** Some accepted target already has a stored timer, or was accepted earlier in the list. */
  ghost predicate Reuses(held: set<Id>, config: P.Config, env: Env, next: nat, targets: seq<Id>) {
    exists i :: 0 <= i < |targets| && ReusedAt(held, config, env, next, targets, i)
  }

  ghost predicate ReusedAt(held: set<Id>, config: P.Config, env: Env, next: nat, targets: seq<Id>, i: nat)
    requires i < |targets|
  {
    && Accepts(config, env, next + i)
    && (targets[i] in held || exists j :: 0 <= j < i && targets[j] == targets[i] && Accepts(config, env, next + j))
  }

  /** The targets whose timer is accepted. */
  function AcceptedOf(config: P.Config, env: Env, next: nat, targets: seq<Id>): set<Id> {
    set i | 0 <= i < |targets| && Accepts(config, env, next + i) :: targets[i]
  }

  lemma ReusesOneMore(held: set<Id>, config: P.Config, env: Env, next: nat, targets: seq<Id>)
    requires targets != []
    ensures var n := |targets| - 1;
            && (Reuses(held, config, env, next, targets) <==>
                  || Reuses(held, config, env, next, targets[..n])
                  || (Accepts(config, env, next + n)
                      && targets[n] in held + AcceptedOf(config, env, next, targets[..n])))
            && AcceptedOf(config, env, next, targets) ==
               AcceptedOf(config, env, next, targets[..n])
               + (if Accepts(config, env, next + n) then {targets[n]} else {})
  {
    hide Accepts;
    var n := |targets| - 1;
    var init := targets[..n];
    forall i: nat | i < n
      ensures ReusedAt(held, config, env, next, targets, i) <==> ReusedAt(held, config, env, next, init, i)
    {
      assert init[i] == targets[i];
      assert forall j | 0 <= j < i :: init[j] == targets[j];
    }
    assert ReusedAt(held, config, env, next, targets, n) <==>
           Accepts(config, env, next + n) && targets[n] in held + AcceptedOf(config, env, next, init);
  }

  /** One insertion leaves a forgotten timer iff there was one, or its handle had a stored timer. */
  lemma EngageOrphans(g: Gear, config: P.Config, env: Env, ws: Id)
    requires TimerInv(g)
    ensures NoOrphan(Engage(g, config, env, ws)) <==>
              NoOrphan(g) && !(Accepts(config, env, g.next) && ws in g.tokens)
  {
    var on := Engage(g, config, env, ws);
    if Accepts(config, env, g.next) {
      assert on.timers[g.next] == ws && on.tokens[ws] == g.next;
      if ws in g.tokens {
        assert g.tokens[ws] in on.timers && on.timers[g.tokens[ws]] == ws;
      }
      if NoOrphan(on) {
        forall t | t in g.timers ensures g.timers[t] in g.tokens && g.tokens[g.timers[t]] == t {
          assert on.timers[t] == g.timers[t];
        }
      }
    }
  }

  lemma {:induction false} EngageAllHeld(g: Gear, config: P.Config, env: Env, targets: seq<Id>)
    ensures var on := EngageAll(g, config, env, targets);
            && on.tokens.Keys == g.tokens.Keys + AcceptedOf(config, env, g.next, targets)
            && on.next == g.next + TokensUsed(config, |targets|)
  {
    if targets == [] {
      assert AcceptedOf(config, env, g.next, targets) == {};
    } else {
      hide AcceptedOf;
      EngageAllHeld(g, config, env, targets[..|targets| - 1]);
      ReusesOneMore(g.tokens.Keys, config, env, g.next, targets);
    }
  }

  /** A list of activations leaves a forgotten timer iff there was one, or the list reuses a stored handle. */
  lemma {:induction false} EngageAllOrphans(g: Gear, config: P.Config, env: Env, targets: seq<Id>)
    requires TimerInv(g)
    ensures NoOrphan(EngageAll(g, config, env, targets)) <==>
              NoOrphan(g) && !Reuses(g.tokens.Keys, config, env, g.next, targets)
  {
    if targets != [] {
      var n := |targets| - 1;
      var mid := EngageAll(g, config, env, targets[..n]);
      EngageAllHeld(g, config, env, targets[..n]);
      assert Accepts(config, env, mid.next) <==> Accepts(config, env, g.next + n);
      hide TimerInv, NoOrphan, Reuses, AcceptedOf, Engage, Accepts;
      EngageAllOrphans(g, config, env, targets[..n]);
      EngageAllKeepsInv(g, config, env, targets[..n]);
      ReusesOneMore(g.tokens.Keys, config, env, g.next, targets);
      EngageOrphans(mid, config, env, targets[n]);
    }
  }

  /** The handles that still have a stored timer once the event has confirmed or expired. */
  ghost function HeldAfterSettling(s: State, e: Event): set<Id> {
    match e
    case Done(w, _) => set h | h in s.tokens && !ShowsActive(w, h)
    case TimerFired(token) => if token in s.timers then s.tokens.Keys - {s.timers[token]} else s.tokens.Keys
    case _ => s.tokens.Keys
  }

  /**
   The event re-activates a workspace: of the activations it sends, one whose timer is accepted is for a workspace
   whose timer is stored after the confirm walk, or was accepted earlier in the same event.
   */
  ghost predicate Reactivates(s: State, config: P.Config, e: Event) {
    Reuses(HeldAfterSettling(s, e), config, EnvOf(e), s.nextToken, StepTargets(s, config, e))
  }

  lemma SettlingHolds(s: State, config: P.Config, e: Event)
    ensures BeforeActivations(s, config, e).tokens.Keys == HeldAfterSettling(s, e)
    ensures BeforeActivations(s, config, e).nextToken == s.nextToken
  {
    if e.Done? {
      WalkExact(s, config, e.world);
      assert forall h :: h in BeforeScan(s, config, e.world).tokens <==> h in HeldAfterSettling(s, e);
    }
  }

  lemma StepOrphansIff(s: State, config: P.Config, e: Event)
    requires TimerInv(GearOf(s)) && NoOrphan(GearOf(s))
    ensures NoOrphan(GearOf(Step(s, config, e))) <==> !Reactivates(s, config, e)
  {
    hide Step, TimerInv, NoOrphan, StepTargets, EngageAll, BeforeActivations, HeldAfterSettling, Reuses;
    SettlingKeepsInv(s, config, e);
    SettlingHolds(s, config, e);
    StepIsItsActivations(s, config, e);
    EngageAllOrphans(GearOf(BeforeActivations(s, config, e)), config, EnvOf(e), StepTargets(s, config, e));
  }

  /** Activation `i` of the event attempts, with a timer, a workspace that is already pending. */
  ghost predicate AttemptsPending(s: State, config: P.Config, e: Event, i: nat) {
    var targets := StepTargets(s, config, e);
    && i < |targets| && Accepts(config, EnvOf(e), s.nextToken + i)
    && targets[i] in EngageAll(GearOf(BeforeActivations(s, config, e)), config, EnvOf(e), targets[..i]).verifier.pending
  }

  lemma AttemptsPendingIff(s: State, config: P.Config, e: Event, i: nat)
    requires TimerInv(GearOf(s))
    ensures var targets := StepTargets(s, config, e);
            AttemptsPending(s, config, e, i) <==>
              i < |targets| && ReusedAt(HeldAfterSettling(s, e), config, EnvOf(e), s.nextToken, targets, i)
  {
    hide StepTargets, EngageAll, BeforeActivations, HeldAfterSettling, Accepts;
    var ready, env, targets := GearOf(BeforeActivations(s, config, e)), EnvOf(e), StepTargets(s, config, e);
    SettlingKeepsInv(s, config, e);
    SettlingHolds(s, config, e);
    if i < |targets| {
      EngageAllKeepsInv(ready, config, env, targets[..i]);
      EngageAllHeld(ready, config, env, targets[..i]);
      assert forall j | 0 <= j < i :: targets[..i][j] == targets[j];
    }
  }

  /**
   The assertion made when an attempt registers a timer, that its workspace is not pending, fails in an event iff the
   event re-activates a workspace whose timer is stored.
   */
  lemma AttemptAssertionFailsIff(s: State, config: P.Config, e: Event)
    requires TimerInv(GearOf(s))
    ensures (exists i: nat :: AttemptsPending(s, config, e, i)) <==> Reactivates(s, config, e)
  {
    hide StepTargets, AttemptsPending, HeldAfterSettling, ReusedAt, TimerInv;
    forall i: nat
      ensures AttemptsPending(s, config, e, i) <==>
                i < |StepTargets(s, config, e)|
                && ReusedAt(HeldAfterSettling(s, e), config, EnvOf(e), s.nextToken, StepTargets(s, config, e), i)
    {
      AttemptsPendingIff(s, config, e, i);
    }
  }

  ghost predicate ReactivatesAt(config: P.Config, events: seq<Event>, k: nat)
    requires k < |events|
  {
    Reactivates(Run(config, events[..k]), config, events[k])
  }

  ghost predicate NeverReactivates(config: P.Config, events: seq<Event>) {
    forall k: nat | k < |events| :: !ReactivatesAt(config, events, k)
  }

  ghost predicate NoOrphanAt(config: P.Config, events: seq<Event>, k: nat)
    requires k <= |events|
  {
    NoOrphan(GearOf(Run(config, events[..k])))
  }

  ghost predicate NeverOrphans(config: P.Config, events: seq<Event>) {
    forall k: nat | k <= |events| :: NoOrphanAt(config, events, k)
  }

  lemma PrefixOrphans(config: P.Config, events: seq<Event>, n: nat)
    requires n <= |events|
    ensures forall k: nat | k <= n :: NoOrphanAt(config, events[..n], k) <==> NoOrphanAt(config, events, k)
    ensures forall k: nat | k < n :: ReactivatesAt(config, events[..n], k) <==> ReactivatesAt(config, events, k)
  {
    hide Run, Reactivates, NoOrphan;
    assert forall k: nat | k <= n :: events[..n][..k] == events[..k];
  }

  lemma NeverOneMore(config: P.Config, events: seq<Event>)
    requires events != []
    ensures var n := |events| - 1;
            && (NeverOrphans(config, events) <==>
                  NeverOrphans(config, events[..n]) && NoOrphan(GearOf(Run(config, events))))
            && (NeverReactivates(config, events) <==>
                  NeverReactivates(config, events[..n]) && !Reactivates(Run(config, events[..n]), config, events[n]))
            && (NeverOrphans(config, events[..n]) ==> NoOrphan(GearOf(Run(config, events[..n]))))
  {
    hide Run, Reactivates, NoOrphan, NoOrphanAt, ReactivatesAt;
    var n := |events| - 1;
    PrefixOrphans(config, events, n);
    LastOrphan(config, events);
    LastOrphan(config, events[..n]);
    assert ReactivatesAt(config, events, n) <==> Reactivates(Run(config, events[..n]), config, events[n]) by {
      LastReactivates(config, events);
    }
  }

  lemma LastOrphan(config: P.Config, events: seq<Event>)
    ensures NoOrphanAt(config, events, |events|) <==> NoOrphan(GearOf(Run(config, events)))
  {
    hide Run, NoOrphan;
    assert events[..|events|] == events;
  }

  lemma LastReactivates(config: P.Config, events: seq<Event>)
    requires events != []
    ensures var n := |events| - 1;
            ReactivatesAt(config, events, n) <==> Reactivates(Run(config, events[..n]), config, events[n])
  {
    hide Run, Reactivates;
  }

  /**
   The stored tokens are exactly the live timers throughout a run iff no event of it re-activates a workspace
   whose timer is stored.
   */
  lemma {:induction false} StoredAreAllLiveIff(config: P.Config, events: seq<Event>)
    ensures NeverOrphans(config, events) <==> NeverReactivates(config, events)
  {
    hide Step, NoOrphan, Reactivates, NeverOrphans, NeverReactivates, TimerInv;
    if events == [] {
      FreshHasNoOrphan(config);
    } else {
      var n := |events| - 1;
      StoredAreAllLiveIff(config, events[..n]);
      TokensAgreeAndAreLive(config, events[..n]);
      NeverOneMore(config, events);
      if NeverOrphans(config, events[..n]) {
        StepOrphansIff(Run(config, events[..n]), config, events[n]);
      }
    }
  }

  lemma FreshHasNoOrphan(config: P.Config)
    ensures NeverOrphans(config, []) && NeverReactivates(config, [])
  {
  }

  // ---- What becomes of one timer when a batch settles ----

  /** Timer `t` is the stored one of a handle whose workspace shows active. */
  ghost predicate WalkedAway(s: State, w: World, t: nat) {
    exists h :: h in s.tokens && s.tokens[h] == t && ShowsActive(w, h)
  }

  lemma WalkExact(s: State, config: P.Config, w: World)
    ensures var on := BeforeScan(s, config, w);
            && (forall t :: t in on.timers <==> t in s.timers && !WalkedAway(s, w, t))
            && (forall t | t in on.timers :: on.timers[t] == s.timers[t])
            && (forall h :: h in on.tokens <==> h in s.tokens && !ShowsActive(w, h))
            && (forall h | h in on.tokens :: on.tokens[h] == s.tokens[h])
  {
    ConfirmedExact(s.tokens, w);
    hide ShowsActive, Confirmed, RecordVisits;
    var confirmed := Shown(s.tokens, w);
    forall t ensures t in TimersOf(s.tokens, confirmed) <==> WalkedAway(s, w, t) {
    }
    WalkTimers(s, config, w);
  }

  lemma WalkTimers(s: State, config: P.Config, w: World)
    ensures var on, confirmed := BeforeScan(s, config, w), Confirmed(s.tokens, w);
            && on.timers == s.timers - TimersOf(s.tokens, confirmed)
            && on.tokens == s.tokens - confirmed
  {
    hide Confirmed;
    if Confirmed(s.tokens, w) == {} {
      assert s.timers - {} == s.timers && s.tokens - {} == s.tokens;
      assert TimersOf(s.tokens, {}) == {};
    }
  }

  /** Activations only add timers numbered from the next token on; a stored token changes only with such a timer. */
  lemma {:induction false} EngageAllAdds(g: Gear, config: P.Config, env: Env, targets: seq<Id>)
    ensures var on := EngageAll(g, config, env, targets);
            && g.next <= on.next
            && (forall t | t < g.next :: t in on.timers <==> t in g.timers)
            && (forall t | t < g.next && t in g.timers :: on.timers[t] == g.timers[t])
            && (forall h | h in g.tokens && h !in targets :: h in on.tokens && on.tokens[h] == g.tokens[h])
  {
    if targets != [] {
      var init := targets[..|targets| - 1];
      EngageAllAdds(g, config, env, init);
      assert targets == init + [targets[|targets| - 1]];
    }
  }

  /**
   After any run, a settled batch cancels exactly the stored timers of the workspaces it shows active: every other live
   timer stays live for the same workspace, and stays stored unless the batch activates that workspace again.
   */
  lemma BatchCancelsShown(config: P.Config, events: seq<Event>, w: World, env: Env, t: nat)
    requires t in Run(config, events).timers
    ensures var s, on := Run(config, events), Step(Run(config, events), config, Done(w, env));
            && (t in on.timers <==> !WalkedAway(s, w, t))
            && (t in on.timers ==> on.timers[t] == s.timers[t])
            && (forall h | h in s.tokens && s.tokens[h] == t && !ShowsActive(w, h) ::
                  h in StepTargets(s, config, Done(w, env)) || (h in on.tokens && on.tokens[h] == t))
  {
    var s, e := Run(config, events), Done(w, env);
    TokensAgreeAndAreLive(config, events);
    assert t < s.nextToken;
    hide Run, Step, StepTargets, EngageAll, BeforeScan, WalkedAway, TimerInv;
    WalkExact(s, config, w);
    StepIsItsActivations(s, config, e);
    SettlingHolds(s, config, e);
    EngageAllAdds(GearOf(BeforeScan(s, config, w)), config, env, StepTargets(s, config, e));
  }

  /** A batch makes the verifier know of a confirmation iff it shows some pending workspace active. */
  lemma BatchConfirmsIff(config: P.Config, events: seq<Event>, w: World, env: Env)
    ensures var s, on := Run(config, events), Step(Run(config, events), config, Done(w, env));
            on.verifier.everConfirmed <==>
              s.verifier.everConfirmed || exists h :: h in s.verifier.pending && ShowsActive(w, h)
  {
    var s := Run(config, events);
    TokensAgreeAndAreLive(config, events);
    hide Run, Step, ShowsActive;
    assert s.verifier.pending.Keys == s.tokens.Keys;
    SessionVerifier.StepMarks(s, config, Done(w, env), SessionVerifier.Attempted);
    assert (exists h :: h in s.verifier.pending && ShowsActive(w, h)) <==>
           (exists h :: h in s.tokens && ShowsActive(w, h));
  }
}
