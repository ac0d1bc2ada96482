/**
 The mutable session record and its event handlers, each proved to take the state to the one the session
 state machine says.
 */
module AppDataModule {
  import opened Wrappers
  import opened Snapshot
  import opened Session
  import V = Verify
  import P = Placement
  import J = Jump
  import JI = JumpInput
  import Mru

  class AppData {
    const config: P.Config
    const verifier: V.VerifierState
    const mru: Mru.MruIndex
    var handled: set<Id>
    var pendingTokens: map<Id, nat>
    var latched: set<OnceWarn>
    var newEachCounter: nat
    var pendingPlacements: seq<PendingPlacement>
    // The event loop's timers and the connection, as far as this session uses them.
    var timers: map<nat, Id>
    var nextToken: nat
    var wire: seq<Request>
    var journal: seq<Notice>

    function View(): State
      reads this, verifier, mru
    {
      State(handled, pendingPlacements, verifier.View(), pendingTokens, mru.recent, mru.lastKnownActive,
            latched, newEachCounter, timers, nextToken, wire, journal)
    }

    constructor (config: P.Config)
      ensures this.config == config && View() == Fresh()
      ensures fresh(verifier) && fresh(mru)
    {
      this.config := config;
      verifier := new V.VerifierState(WARN_THRESHOLD);
      mru := new Mru.MruIndex();
      handled, pendingTokens, latched, newEachCounter, pendingPlacements := {}, map[], {}, 0, [];
      timers, nextToken, wire, journal := map[], 0, [], [];
    }

    method EmitOnce(warn: OnceWarn)
      modifies this`latched, this`journal
      ensures View() == WarnOnce(old(View()), warn)
    {
      var fired := warn in latched;
      latched := latched + {warn};
      if !fired {
        journal := journal + [Once(warn)];
      }
    }

    /** Run a transaction body and commit it iff it succeeded; false when the manager is unavailable. */
    method TransactionOn(env: Env, body: seq<Request>, succeeds: bool) returns (ok: bool)
      modifies this`wire
      ensures ok <==> env.managerUp && succeeds
      ensures wire == if env.managerUp then old(wire) + Transaction(body, succeeds) else old(wire)
    {
      if !env.managerUp {
        return false;
      }
      wire := wire + body;
      if succeeds {
        wire := wire + [Commit];
      }
      ok := succeeds;
    }

    /** The event loop's `insert_source`: a fresh token, unless this insertion fails. */
    method InsertTimer(env: Env, handle: Id) returns (token: Option<nat>)
      modifies this`timers, this`nextToken
      ensures nextToken == old(nextToken) + 1
      ensures token == if old(nextToken) in env.refused then None else Some(old(nextToken))
      ensures timers == if token.Some? then old(timers)[token.value := handle] else old(timers)
    {
      if nextToken in env.refused {
        token := None;
      } else {
        timers := timers[nextToken := handle];
        token := Some(nextToken);
      }
      nextToken := nextToken + 1;
    }

    method RegisterActivateWithVerification(env: Env, ws: Id) returns (ok: bool)
      modifies this`wire, this`timers, this`nextToken, this`pendingTokens, verifier
      ensures (View(), ok) == RegisterActivate(old(View()), config, env, ws)
    {
      ok := TransactionOn(env, [Activate(ws)], true);
      if !ok {
        return;
      }
      if config.switchVerifyTimeout.None? {
        verifier.RecordAttempt(ws, None);
        return;
      }
      var token := InsertTimer(env, ws);
      match token {
        case Some(t) =>
          verifier.RecordAttempt(ws, Some(ws));
          pendingTokens := pendingTokens[ws := t];
        case None =>
          verifier.RecordAttempt(ws, None);
      }
    }

    method ExecuteOn(env: Env, toplevel: Id, ws: Id, output: Id, after: P.PostPlaceActions, strict: bool)
      modifies this`wire, this`timers, this`nextToken, this`pendingTokens, verifier
      ensures View() == PlaceOn(old(View()), config, env, toplevel, ws, output, after, strict)
    {
      wire := wire + [Move(toplevel, ws, output)];
      if after.switchTo {
        var ok := RegisterActivateWithVerification(env, ws);
        if !ok && strict {
          return;
        }
      }
      if after.maximize {
        wire := wire + [Maximize(toplevel)];
      }
    }

    method QueueCreateOn(w: World, env: Env, info: Toplevel, after: P.PostPlaceActions)
      requires info.outputs != []
      modifies this`wire, this`newEachCounter, this`pendingPlacements
      ensures View() == QueueCreate(old(View()), w, env, info, after)
    {
      var group := Find(w.groups, (g: Group) => info.outputs[0] in g.outputs);
      if group.None? {
        return;
      }
      var name;
      if info.appId == "" {
        name := AutoName(newEachCounter);
        newEachCounter := (newEachCounter + 1) % COUNTER_MODULUS;
      } else {
        name := AppName(info.appId);
      }
      var before := MemberIds(w, FindGroup(w, group.value.id));
      var ok := TransactionOn(env, [CreateWorkspace(group.value.id, name)], true);
      if !ok {
        return;
      }
      pendingPlacements := pendingPlacements +
        [PendingPlacement(info.id, group.value.id, info.outputs[0], before, after, info.appId, 0)];
    }

    method ExecutePlaceOn(w: World, env: Env, info: Toplevel, target: P.WorkspaceTarget, after: P.PostPlaceActions)
      modifies this, verifier
      ensures View() == ExecutePlace(old(View()), config, w, env, info, target, after)
    {
      if !info.cosmicPresent || info.outputs == [] {
        return;
      }
      match target {
        case Create =>
          QueueCreateOn(w, env, info, after);
        case Existing(id) =>
          if FindWorkspace(w, id).None? {
            return;
          }
          ExecuteOn(env, info.id, id, info.outputs[0], after, true);
      }
    }

    method HandleNewToplevelOn(w: World, env: Env, info: Toplevel)
      modifies this, verifier
      ensures View() == HandleNewToplevel(old(View()), config, w, env, info)
    {
      var decision := P.Decide(config, P.BuildInfoStub(info), P.BuildWorldStub(w), handled, info.id);
      for i := 0 to |decision.warns|
        invariant View() == ConsumeWarns(old(View()), decision.warns[..i])
      {
        assert decision.warns[..i + 1][..i] == decision.warns[..i];
        EmitOnce(WarnKind(decision.warns[i]));
      }
      assert decision.warns[..|decision.warns|] == decision.warns;
      match decision.action {
        case Skip(_) =>
        case Place(target, after) =>
          ExecutePlaceOn(w, env, info, target, after);
      }
    }

    method NewToplevel(h: Id, w: World, env: Env)
      modifies this, verifier
      ensures View() == OnNewToplevel(old(View()), config, h, w, env)
    {
      match FindToplevel(w, h) {
        case None =>
          return;
        case Some(info) =>
          HandleNewToplevelOn(w, env, info);
      }
      handled := handled + {h};
    }

    method HandleEmptyWorkspaceIfTriggered(h: Id, w: World, env: Env)
      modifies this, verifier
      ensures View() == JumpIfTriggered(old(View()), config, h, w, env)
    {
      hide J.Outcome, JI.BuildTriggerInput, RegisterActivate;
      var t := FindToplevel(w, h);
      if t.None? {
        return;
      }
      var outcome := J.EvaluateTrigger(JI.BuildTriggerInput(w, h, t.value.workspaces, mru.recent));
      match outcome {
        case NoOp(_) =>
        case Jump(_, target, _) =>
          if FindWorkspace(w, target).Some? {
            var ok := RegisterActivateWithVerification(env, target);
          }
      }
    }

    method ToplevelClosed(h: Id, w: World, env: Env)
      modifies this, verifier
      ensures View() == OnToplevelClosed(old(View()), config, h, w, env)
    {
      handled := handled - {h};
      pendingPlacements := Evict(pendingPlacements, h);
      if config.jumpOnEmpty {
        HandleEmptyWorkspaceIfTriggered(h, w, env);
      }
    }

    method ConfirmHandle(h: Id)
      requires h in pendingTokens
      modifies this`pendingTokens, this`timers, verifier
      ensures View() == ConfirmOne(old(View()), h)
    {
      timers := timers - {pendingTokens[h]};
      pendingTokens := pendingTokens - {h};
      verifier.RecordConfirm(h);
    }

    /** Confirm every pending handle that is now active, in whatever order the token map yields them. */
    method ConfirmActive(w: World)
      modifies this`pendingTokens, this`timers, verifier
      ensures View() == ConfirmAll(old(View()), Shown(old(pendingTokens), w))
    {
      hide ShowsActive, IsActive, Shown, Confirmed;
      ConfirmedExact(pendingTokens, w);
      ghost var start := View();
      var confirmed := Confirmed(pendingTokens, w);
      var todo := confirmed;
      assert confirmed - todo == {};
      while todo != {}
        invariant todo <= confirmed
        invariant View() == ConfirmAll(start, confirmed - todo)
        decreases todo
      {
        var h :| h in todo;
        var rest := todo - {h};
        ConfirmOneMore(start, confirmed - todo, h);
        assert confirmed - todo + {h} == confirmed - rest;
        ConfirmHandle(h);
        todo := rest;
      }
      assert confirmed - todo == confirmed;
    }

    /** Take the entry at `i` off the queue and, when its target still exists, place it there. */
    method Dequeue(env: Env, i: nat, target: Option<Id>)
      requires i < |pendingPlacements|
      modifies this`wire, this`timers, this`nextToken, this`pendingTokens, this`pendingPlacements, verifier
      ensures pendingPlacements == SwapRemove(old(pendingPlacements), i)
      ensures View().(pending := []) ==
                if target.None? then old(View()).(pending := [])
                else LandOn(old(View()).(pending := []), config, env, old(pendingPlacements)[i], target.value)
    {
      var entry := pendingPlacements[i];
      pendingPlacements := SwapRemove(pendingPlacements, i);
      if target.Some? {
        PlaceIgnoresQueue(View(), config, env, entry, target.value);
        ExecuteOn(env, entry.toplevel, target.value, entry.output, entry.after, false);
      }
    }

    /** What one iteration of the scan does with the entry at index `i`; returns the next index. */
    method ScanOne(w: World, env: Env, i: nat) returns (next: nat)
      requires i < |pendingPlacements|
      modifies this`wire, this`timers, this`nextToken, this`pendingTokens, this`pendingPlacements,
               this`latched, this`journal, verifier
      ensures View().(pending := []) ==
                Complete(old(View()).(pending := []), config, w, env, old(pendingPlacements)[i])
      ensures next == if Resolve(w, old(pendingPlacements)[i]) == Waits then i + 1 else i
      ensures pendingPlacements == if Resolve(w, old(pendingPlacements)[i]) == Waits then old(pendingPlacements)
                                   else SwapRemove(old(pendingPlacements), i)
    {
      var entry := pendingPlacements[i];
      next := i;
      var group := FindGroup(w, entry.group);
      if group.None? {
        Dequeue(env, i, None);
        return;
      }
      var ids := CurrentIds(w, group.value);
      var decision := EvaluatePending(entry.before, ids, CurrentOccupied(w, ids), entry.cyclesWaited);
      ghost var resolution := Resolve(w, entry);
      match decision {
        case KeepWaiting =>
          next := i + 1;
        case UseNew(idx) =>
          var target := if FindWorkspace(w, ids[idx]).Some? then Some(ids[idx]) else None;
          assert resolution == if target.Some? then Lands(target.value, false) else NoWorkspaceLeft(false);
          Dequeue(env, i, target);
        case DegradeAndWarn(free) =>
          EmitOnce(CreateNotHonored);
          var target := if free.Some? && FindWorkspace(w, ids[free.value]).Some? then Some(ids[free.value]) else None;
          assert resolution == if target.Some? then Lands(target.value, true) else NoWorkspaceLeft(true);
          Dequeue(env, i, target);
      }
    }

    method ScanPendingPlacements(w: World, env: Env)
      modifies this`wire, this`timers, this`nextToken, this`pendingTokens, this`pendingPlacements,
               this`latched, this`journal, verifier
      ensures View() == Scan(old(View()), config, w, env)
    {
      ghost var start := View().(pending := []);
      ghost var q := pendingPlacements;
      ghost var order := DrainOrder(q);
      ghost var done := 0;
      var i := 0;
      while i < |pendingPlacements|
        invariant i == 0 && done <= |q|
        invariant pendingPlacements == Remaining(q, done)
        invariant View().(pending := []) == CompleteAll(start, config, w, env, order[..done])
        decreases |pendingPlacements|
      {
        assert order[..done + 1][..done] == order[..done];
        RemainingStep(q, done, Aged(pendingPlacements[0]));
        AgedNeverWaits(w, pendingPlacements[0]);
        pendingPlacements := pendingPlacements[i := Aged(pendingPlacements[i])];
        i := ScanOne(w, env, i);
        done := done + 1;
      }
      assert done == |q| && order[..done] == order;
    }

    method Done(w: World, env: Env)
      modifies this, verifier, mru
      ensures View() == OnDone(old(View()), config, w, env)
    {
      if config.jumpOnEmpty {
        mru.UpdateFromActiveTransitions(w, Mru.MRU_CAP);
      }
      ConfirmedExact(pendingTokens, w);
      ConfirmActive(w);
      ScanPendingPlacements(w, env);
    }

    /** The verification timer's callback: record the timeout, drop the handle's token, log the event. */
    method TimerFired(token: nat)
      modifies this`timers, this`pendingTokens, this`journal, verifier
      ensures View() == OnTimerFired(old(View()), token)
    {
      if token !in timers {
        return;
      }
      var h := timers[token];
      var event := verifier.RecordTimeout(h);
      pendingTokens := pendingTokens - {h};
      journal := journal + [Unconfirmed(h, event)];
      timers := timers - {token};
    }

    method Dispatch(e: Event)
      modifies this, verifier, mru
      ensures View() == Step(old(View()), config, e)
    {
      match e {
        case NewToplevel(h, w, env) => NewToplevel(h, w, env);
        case ToplevelUpdated(_) =>
        case ToplevelClosed(h, w, env) => ToplevelClosed(h, w, env);
        case Done(w, env) => Done(w, env);
        case TimerFired(token) => TimerFired(token);
      }
    }

    /** One session from its fresh state through any sequence of events. */
    method RunSession(events: seq<Event>)
      requires View() == Fresh()
      modifies this, verifier, mru
      ensures View() == Run(config, events)
    {
      for i := 0 to |events|
        invariant View() == Run(config, events[..i])
      {
        assert events[..i + 1][..i] == events[..i];
        Dispatch(events[i]);
      }
      assert events[..|events|] == events;
    }
  }

  // ---- The in-place drain ----

  /** `Vec::swap_remove`: the last entry takes the removed one's place. */
  function SwapRemove(q: seq<PendingPlacement>, i: nat): seq<PendingPlacement>
    requires i < |q|
  {
    q[i := q[|q| - 1]][..|q| - 1]
  }

  /** What is left of queue `q` after swap-removing at the front `done` times. */
  function Remaining(q: seq<PendingPlacement>, done: nat): seq<PendingPlacement>
    requires done <= |q|
  {
    if done == 0 then q else if done == |q| then [] else [q[|q| - done]] + q[1..|q| - done]
  }

  lemma RemainingStep(q: seq<PendingPlacement>, done: nat, aged: PendingPlacement)
    requires done < |q|
    ensures Remaining(q, done) != [] && Remaining(q, done)[0] == DrainOrder(q)[done]
    ensures SwapRemove(Remaining(q, done)[0 := aged], 0) == Remaining(q, done + 1)
  {
    var now, next := Remaining(q, done), Remaining(q, done + 1);
    var swapped := SwapRemove(now[0 := aged], 0);
    assert |now| == |q| - done && |swapped| == |next|;
    forall j | 0 <= j < |next| ensures swapped[j] == next[j] {
      if j == 0 {
        assert swapped[0] == now[|now| - 1];
      }
    }
  }

  lemma RegisterIgnoresQueue(s: State, config: P.Config, env: Env, ws: Id)
    ensures var (on, ok) := RegisterActivate(s, config, env, ws);
            RegisterActivate(s.(pending := []), config, env, ws) == (on.(pending := []), ok)
  {
  }

  /** Placing a dequeued entry neither reads nor changes the queue. */
  lemma PlaceIgnoresQueue(s: State, config: P.Config, env: Env, p: PendingPlacement, ws: Id)
    ensures LandOn(s, config, env, p, ws).(pending := []) == LandOn(s.(pending := []), config, env, p, ws)
  {
    var moved := s.(wire := s.wire + [Move(p.toplevel, ws, p.output)]);
    assert moved.(pending := []) == s.(pending := []).(wire := s.wire + [Move(p.toplevel, ws, p.output)]);
    RegisterIgnoresQueue(moved, config, env, ws);
  }

  /** An entry whose cycle counter has been advanced is always resolved. */
  lemma AgedNeverWaits(w: World, p: PendingPlacement)
    ensures Resolve(w, Aged(p)) != Waits
  {
  }

  function ConfirmOne(s: State, h: Id): State
    requires h in s.tokens
  {
    s.(timers := s.timers - {s.tokens[h]}, tokens := s.tokens - {h}, verifier := V.AfterConfirm(s.verifier, h))
  }

  /** Confirming one more handle on top of a set already confirmed. */
  lemma ConfirmOneMore(s: State, confirmed: set<Id>, h: Id)
    requires h !in confirmed && h in s.tokens && confirmed <= s.tokens.Keys
    ensures h in ConfirmAll(s, confirmed).tokens
    ensures ConfirmAll(s, confirmed + {h}) == ConfirmOne(ConfirmAll(s, confirmed), h)
  {
    var before := ConfirmAll(s, confirmed);
    var after := ConfirmAll(s, confirmed + {h});
    assert TimersOf(s.tokens, confirmed + {h}) == TimersOf(s.tokens, confirmed) + {s.tokens[h]};
    assert after.timers == before.timers - {before.tokens[h]};
    assert after.tokens == before.tokens - {h};
    assert after.verifier.pending == before.verifier.pending - {h};
  }
}
