/**
 The verifier and its timers inside a session: every event settles confirmations or one expiry and then starts
 exactly the activations it puts on the wire, so what the verifier knows is read off the run.
 */
module Activation {
  import opened Wrappers
  import opened Snapshot
  import opened Session
  import opened Wire
  import V = Verify
  import P = Placement

  // ---- Activations, without the rest of the session ----

  /** The part of a session that activations and timers touch. */
  datatype Gear = Gear(verifier: V.Ledger, tokens: map<Id, nat>, timers: map<nat, Id>, next: nat)

  function GearOf(s: State): Gear {
    Gear(s.verifier, s.tokens, s.timers, s.nextToken)
  }

  /** Timer `token` would be inserted: verification is on and the event loop does not refuse it. */
  predicate Accepts(config: P.Config, env: Env, token: nat) {
    config.switchVerifyTimeout.Some? && token !in env.refused
  }

  function TokensUsed(config: P.Config, n: nat): nat {
    if config.switchVerifyTimeout.Some? then n else 0
  }

  /** One activation sent: its attempt and, when accepted, its stored timer. */
  function Engage(g: Gear, config: P.Config, env: Env, ws: Id): Gear {
    if Accepts(config, env, g.next) then
      Gear(V.AfterAttempt(g.verifier, ws, Some(ws)), g.tokens[ws := g.next], g.timers[g.next := ws], g.next + 1)
    else
      g.(verifier := V.AfterAttempt(g.verifier, ws, None), next := g.next + TokensUsed(config, 1))
  }

  function EngageAll(g: Gear, config: P.Config, env: Env, targets: seq<Id>): Gear {
    if targets == [] then g
    else Engage(EngageAll(g, config, env, targets[..|targets| - 1]), config, env, targets[|targets| - 1])
  }

  lemma {:induction false} EngageAllAppend(g: Gear, config: P.Config, env: Env, a: seq<Id>, b: seq<Id>)
    ensures EngageAll(g, config, env, a + b) == EngageAll(EngageAll(g, config, env, a), config, env, b)
  {
    if b == [] {
      assert a + b == a;
    } else {
      assert (a + b)[..|a + b| - 1] == a + b[..|b| - 1];
      EngageAllAppend(g, config, env, a, b[..|b| - 1]);
    }
  }

  lemma EngageOne(g: Gear, config: P.Config, env: Env, ws: Id)
    ensures EngageAll(g, config, env, [ws]) == Engage(g, config, env, ws)
  {
    assert [ws][..0] == [];
  }

  // ---- The targets of an event ----

  /** The workspace a block activates, if any. */
  function TargetOf(b: Block): seq<Id> {
    match b
    case Placed(_, ws, _, activated, _) => if activated then [ws] else []
    case Jumped(target) => [target]
    case Created(_, _) => []
  }

  function Targets(blocks: seq<Block>): seq<Id> {
    if blocks == [] then [] else Targets(blocks[..|blocks| - 1]) + TargetOf(blocks[|blocks| - 1])
  }

  lemma {:induction false} TargetsAppend(a: seq<Block>, b: seq<Block>)
    ensures Targets(a + b) == Targets(a) + Targets(b)
  {
    if b == [] {
      assert a + b == a;
    } else {
      hide TargetOf;
      var init, last := b[..|b| - 1], b[|b| - 1];
      assert (a + b)[..|a + b| - 1] == a + init;
      TargetsAppend(a, init);
      AppendAssociates(Targets(a), Targets(init), TargetOf(last));
    }
  }

  lemma TargetsOfOne(b: Block)
    ensures Targets([b]) == TargetOf(b)
  {
    assert [b][..0] == [];
  }

  /** The workspaces activated by a stretch of the wire, in order. */
  function Activated(rs: seq<Request>): seq<Id> {
    if rs == [] then []
    else Activated(rs[..|rs| - 1]) + (if rs[|rs| - 1].Activate? then [rs[|rs| - 1].workspace] else [])
  }

  lemma {:induction false} ActivatedAppend(a: seq<Request>, b: seq<Request>)
    ensures Activated(a + b) == Activated(a) + Activated(b)
  {
    if b == [] {
      assert a + b == a;
    } else {
      assert (a + b)[..|a + b| - 1] == a + b[..|b| - 1];
      ActivatedAppend(a, b[..|b| - 1]);
    }
  }

  lemma ActivatedOne(r: Request)
    ensures Activated([r]) == if r.Activate? then [r.workspace] else []
  {
    assert [r][..0] == [];
  }

  lemma ActivatedRender(b: Block)
    ensures Activated(Render(b)) == TargetOf(b)
  {
    assert Activated([]) == [];
    hide Activated;
    match b {
      case Placed(t, ws, o, activated, maximized) =>
        var switch := if activated then [Activate(ws)] + [Commit] else [];
        var tail := if maximized then [Maximize(t)] else [];
        assert Render(b) == [Move(t, ws, o)] + switch + tail;
        ActivatedAppend([Move(t, ws, o)] + switch, tail);
        ActivatedAppend([Move(t, ws, o)], switch);
        ActivatedAppend([Activate(ws)], [Commit]);
        ActivatedOne(Move(t, ws, o));
        ActivatedOne(Activate(ws));
        ActivatedOne(Commit);
        ActivatedOne(Maximize(t));
      case Jumped(target) =>
        assert Render(b) == [Activate(target)] + [Commit];
        ActivatedAppend([Activate(target)], [Commit]);
        ActivatedOne(Activate(target));
        ActivatedOne(Commit);
      case Created(g, name) =>
        assert Render(b) == [CreateWorkspace(g, name)] + [Commit];
        ActivatedAppend([CreateWorkspace(g, name)], [Commit]);
        ActivatedOne(CreateWorkspace(g, name));
        ActivatedOne(Commit);
    }
  }

  /** The targets of a list of blocks are the activations it puts on the wire, in order. */
  lemma {:induction false} TargetsAreActivated(blocks: seq<Block>)
    ensures Activated(RenderAll(blocks)) == Targets(blocks)
  {
    if blocks != [] {
      hide Render, TargetOf;
      var init, last := blocks[..|blocks| - 1], blocks[|blocks| - 1];
      TargetsAreActivated(init);
      ActivatedAppend(RenderAll(init), Render(last));
      ActivatedRender(last);
    }
  }

  // ---- Every event is its activations ----

  lemma RegisterGear(s: State, config: P.Config, env: Env, ws: Id)
    ensures var on := RegisterActivate(s, config, env, ws).0;
            GearOf(on) == if env.managerUp then Engage(GearOf(s), config, env, ws) else GearOf(s)
  {
  }

  lemma PlaceOnGear(s: State, config: P.Config, env: Env, toplevel: Id, ws: Id, output: Id,
                    after: P.PostPlaceActions, strict: bool)
    ensures GearOf(PlaceOn(s, config, env, toplevel, ws, output, after, strict)) ==
            EngageAll(GearOf(s), config, env, Targets([PlacedBlock(env, toplevel, ws, output, after, strict)]))
  {
    hide RegisterActivate, Engage;
    var moved := s.(wire := s.wire + [Move(toplevel, ws, output)]);
    assert GearOf(moved) == GearOf(s);
    RegisterGear(moved, config, env, ws);
    EngageOne(GearOf(s), config, env, ws);
    TargetsOfOne(PlacedBlock(env, toplevel, ws, output, after, strict));
  }

  lemma CompleteGear(s: State, config: P.Config, w: World, env: Env, p: PendingPlacement)
    ensures GearOf(Complete(s, config, w, env, Aged(p))) ==
            EngageAll(GearOf(s), config, env, Targets(EntryBlocks(w, env, p)))
  {
    hide PlaceOn, Resolve, EngageAll, PlacedBlock;
    assert EngageAll(GearOf(s), config, env, Targets([])) == GearOf(s) by { EngageNone(GearOf(s), config, env); }
    match Resolve(w, Aged(p)) {
      case Lands(ws, degraded) =>
        var warned := if degraded then WarnOnce(s, CreateNotHonored) else s;
        assert GearOf(warned) == GearOf(s);
        PlaceOnGear(warned, config, env, p.toplevel, ws, p.output, p.after, false);
      case _ =>
    }
  }

  lemma EngageNone(g: Gear, config: P.Config, env: Env)
    ensures EngageAll(g, config, env, Targets([])) == g
  {
  }

  lemma {:induction false} CompleteAllGear(s: State, config: P.Config, w: World, env: Env,
                                           order: seq<PendingPlacement>)
    ensures GearOf(CompleteAll(s, config, w, env, order)) ==
            EngageAll(GearOf(s), config, env, Targets(QueueBlocks(w, env, order)))
  {
    if order != [] {
      hide Complete, EntryBlocks, Engage;
      var n := |order| - 1;
      var earlier, last := QueueBlocks(w, env, order[..n]), EntryBlocks(w, env, order[n]);
      CompleteAllGear(s, config, w, env, order[..n]);
      CompleteGear(CompleteAll(s, config, w, env, order[..n]), config, w, env, order[n]);
      TargetsAppend(earlier, last);
      EngageAllAppend(GearOf(s), config, env, Targets(earlier), Targets(last));
    }
  }

  lemma ExecutePlaceGear(s: State, config: P.Config, w: World, env: Env, info: Toplevel, target: P.WorkspaceTarget,
                         after: P.PostPlaceActions)
    ensures GearOf(ExecutePlace(s, config, w, env, info, target, after)) ==
            EngageAll(GearOf(s), config, env, Targets(PlaceBlocks(s, w, env, info, target, after)))
  {
    hide PlaceOn, MemberIds, EngageAll, PlacedBlock;
    EngageNone(GearOf(s), config, env);
    if info.cosmicPresent && info.outputs != [] {
      match target {
        case Existing(id) =>
          PlaceOnGear(s, config, env, info.id, id, info.outputs[0], after, true);
        case Create =>
          var found := Find(w.groups, (g: Group) => info.outputs[0] in g.outputs);
          if found.Some? {
            TargetsOfOne(Created(found.value.id, NameFor(s, info.appId)));
          }
      }
    }
  }

  lemma NewToplevelGear(s: State, config: P.Config, h: Id, w: World, env: Env)
    ensures GearOf(OnNewToplevel(s, config, h, w, env)) ==
            EngageAll(GearOf(s), config, env, Targets(NewToplevelBlocks(s, config, h, w, env)))
  {
    hide ExecutePlace, ConsumeWarns, PlaceBlocks, EngageAll, P.Decide;
    EngageNone(GearOf(s), config, env);
    match FindToplevel(w, h) {
      case None =>
      case Some(info) =>
        var decision := DecisionFor(s, config, w, info);
        var warned := ConsumeWarns(s, decision.warns);
        ConsumeWarnsKeeps(s, decision.warns);
        assert GearOf(warned) == GearOf(s);
        if decision.action.Place? {
          ExecutePlaceGear(warned, config, w, env, info, decision.action.workspace, decision.action.after);
          SameBlocks(s, warned, w, env, info, decision.action.workspace, decision.action.after);
        }
    }
  }

  lemma ClosedGear(s: State, config: P.Config, h: Id, w: World, env: Env)
    ensures GearOf(OnToplevelClosed(s, config, h, w, env)) ==
            EngageAll(GearOf(s), config, env, Targets(ClosedBlocks(s, config, h, w, env)))
  {
    hide RegisterActivate, Engage;
    EngageNone(GearOf(s), config, env);
    var evicted := s.(handled := s.handled - {h}, pending := Evict(s.pending, h));
    var out := JumpOutcome(s, h, w);
    assert JumpOutcome(evicted, h, w) == out && GearOf(evicted) == GearOf(s);
    hide JumpOutcome;
    if config.jumpOnEmpty && out.Jump? {
      RegisterGear(evicted, config, env, out.target);
      EngageOne(GearOf(s), config, env, out.target);
      TargetsOfOne(Jumped(out.target));
    }
  }

  /** The state just before the event's activations: after the confirm walk, or after the expiry. */
  function BeforeActivations(s: State, config: P.Config, e: Event): State {
    match e
    case Done(w, _) => BeforeScan(s, config, w)
    case TimerFired(token) => OnTimerFired(s, token)
    case _ => s
  }

  function EnvOf(e: Event): Env {
    match e
    case NewToplevel(_, _, env) => env
    case ToplevelClosed(_, _, env) => env
    case Done(_, env) => env
    case _ => Env(true, {})
  }

  /** The workspaces one event activates, in the order it sends them. */
  function StepTargets(s: State, config: P.Config, e: Event): seq<Id> {
    Targets(StepBlocks(s, config, e))
  }

  /** Every event first confirms or expires, and then changes verifier, tokens and timers only by its activations. */
  lemma StepIsItsActivations(s: State, config: P.Config, e: Event)
    ensures GearOf(Step(s, config, e)) ==
            EngageAll(GearOf(BeforeActivations(s, config, e)), config, EnvOf(e), StepTargets(s, config, e))
  {
    hide OnNewToplevel, NewToplevelBlocks, OnToplevelClosed, ClosedBlocks, BeforeScan, CompleteAll, QueueBlocks,
         OnTimerFired, EngageAll;
    EngageNone(GearOf(BeforeActivations(s, config, e)), config, EnvOf(e));
    match e {
      case NewToplevel(h, w, env) => NewToplevelGear(s, config, h, w, env);
      case ToplevelUpdated(_) =>
      case ToplevelClosed(h, w, env) => ClosedGear(s, config, h, w, env);
      case Done(w, env) =>
        var ready := BeforeScan(s, config, w);
        BeforeScanKeeps(s, config, w);
        assert GearOf(ready.(pending := [])) == GearOf(ready);
        CompleteAllGear(ready.(pending := []), config, w, env, DrainOrder(s.pending));
      case TimerFired(_) =>
    }
  }

  /** Every event puts exactly its targets on the wire as activations. */
  lemma StepActivates(s: State, config: P.Config, e: Event)
    ensures Activated(Step(s, config, e).wire) == Activated(s.wire) + StepTargets(s, config, e)
  {
    hide Step, StepBlocks;
    StepEmitsBlocks(s, config, e);
    ActivatedAppend(s.wire, RenderAll(StepBlocks(s, config, e)));
    TargetsAreActivated(StepBlocks(s, config, e));
  }

  // ---- The calls of a run ----

  /** The attempts of a list of targets, with a timer exactly for the accepted insertions. */
  function AttemptsFor(config: P.Config, env: Env, next: nat, targets: seq<Id>): seq<V.Call> {
    if targets == [] then []
    else
      var n := |targets| - 1;
      AttemptsFor(config, env, next, targets[..n])
        + [V.Attempt(targets[n], if Accepts(config, env, next + n) then Some(targets[n]) else None)]
  }

  lemma {:induction false} EngageAllCalls(g: Gear, config: P.Config, env: Env, targets: seq<Id>)
    ensures var on := EngageAll(g, config, env, targets);
            && on.verifier == V.AfterAll(g.verifier, AttemptsFor(config, env, g.next, targets))
            && on.next == g.next + TokensUsed(config, |targets|)
  {
    if targets != [] {
      var n := |targets| - 1;
      EngageAllCalls(g, config, env, targets[..n]);
      var attempts := AttemptsFor(config, env, g.next, targets);
      assert attempts[..|attempts| - 1] == AttemptsFor(config, env, g.next, targets[..n]);
    }
  }

  /** Some listing of a finite set; which one does not matter below. */
  ghost function Listing(ids: set<Id>): (r: seq<Id>)
    ensures forall x :: x in r <==> x in ids
  {
    if ids == {} then []
    else
      var x :| x in ids;
      [x] + Listing(ids - {x})
  }

  function ConfirmsFor(order: seq<Id>): seq<V.Call> {
    if order == [] then [] else ConfirmsFor(order[..|order| - 1]) + [V.Confirm(order[|order| - 1])]
  }

  /** The ledger after confirming a set of handles. */
  function ConfirmedSet(l: V.Ledger, handles: set<Id>): V.Ledger {
    if handles == {} then l
    else l.(pending := l.pending - handles, everConfirmed := true, attempted := {}, infoEmitted := {})
  }

  lemma ConfirmOnTop(l: V.Ledger, handles: set<Id>, h: Id)
    ensures V.AfterConfirm(ConfirmedSet(l, handles), h) == ConfirmedSet(l, handles + {h})
  {
    assert l.pending - handles - {h} == l.pending - (handles + {h});
    assert handles == {} ==> handles + {h} == {h};
  }

  /** Confirming the listed handles reaches one ledger, whatever the order and however often each is listed. */
  lemma {:induction false} ConfirmsInAnyOrder(l: V.Ledger, order: seq<Id>)
    ensures V.AfterAll(l, ConfirmsFor(order)) == ConfirmedSet(l, Elements(order))
  {
    if order != [] {
      var init, last := order[..|order| - 1], order[|order| - 1];
      var calls := ConfirmsFor(order);
      assert calls == ConfirmsFor(init) + [V.Confirm(last)];
      assert calls[..|calls| - 1] == ConfirmsFor(init);
      hide ConfirmedSet, Elements, ConfirmsFor, V.AfterConfirm;
      ConfirmsInAnyOrder(l, init);
      ElementsLast(order);
      ConfirmOnTop(l, Elements(init), last);
    } else {
      assert Elements(order) == {};
    }
  }

  /** The calls before an event's activations: the confirm walk, or the expiry. */
  ghost function SettlingCalls(s: State, e: Event): seq<V.Call> {
    match e
    case Done(w, _) => ConfirmsFor(Listing(Shown(s.tokens, w)))
    case TimerFired(token) => if token in s.timers then [V.Timeout(s.timers[token])] else []
    case _ => []
  }

  ghost function StepCalls(s: State, config: P.Config, e: Event): seq<V.Call> {
    SettlingCalls(s, e) + AttemptsFor(config, EnvOf(e), s.nextToken, StepTargets(s, config, e))
  }

  /** Every call a run makes on the verifier, oldest first. */
  ghost function Calls(config: P.Config, events: seq<Event>): seq<V.Call> {
    if events == [] then []
    else
      var init := events[..|events| - 1];
      Calls(config, init) + StepCalls(Run(config, init), config, events[|events| - 1])
  }

  lemma SettlingIsCalls(s: State, config: P.Config, e: Event)
    ensures var ready := BeforeActivations(s, config, e);
            && ready.verifier == V.AfterAll(s.verifier, SettlingCalls(s, e))
            && ready.nextToken == s.nextToken
  {
    match e {
      case Done(w, _) =>
        var confirmed := Shown(s.tokens, w);
        ConfirmedExact(s.tokens, w);
        var order := Listing(confirmed);
        ConfirmsInAnyOrder(s.verifier, order);
        assert Elements(order) == confirmed;
        if order != [] {
          assert order[0] in confirmed;
        }
      case TimerFired(token) =>
        if token in s.timers {
          assert [V.Timeout(s.timers[token])][..0] == [];
        }
      case _ =>
    }
  }

  lemma StepIsCalls(s: State, config: P.Config, e: Event)
    ensures Step(s, config, e).verifier == V.AfterAll(s.verifier, StepCalls(s, config, e))
  {
    hide Step, StepTargets, SettlingCalls, BeforeActivations, AttemptsFor;
    var ready := BeforeActivations(s, config, e);
    StepIsItsActivations(s, config, e);
    SettlingIsCalls(s, config, e);
    EngageAllCalls(GearOf(ready), config, EnvOf(e), StepTargets(s, config, e));
    V.AfterAllAppend(s.verifier, SettlingCalls(s, e),
                     AttemptsFor(config, EnvOf(e), s.nextToken, StepTargets(s, config, e)));
  }

  /** After every run the verifier's fields are those its history of calls gives a fresh verifier. */
  lemma {:induction false} VerifierIsHistory(config: P.Config, events: seq<Event>)
    ensures Run(config, events).verifier == V.After(WARN_THRESHOLD, Calls(config, events))
  {
    if events != [] {
      hide Step, StepCalls;
      var init, e := events[..|events| - 1], events[|events| - 1];
      VerifierIsHistory(config, init);
      StepIsCalls(Run(config, init), config, e);
      V.AfterAppend(WARN_THRESHOLD, Calls(config, init), StepCalls(Run(config, init), config, e));
    }
  }
}
