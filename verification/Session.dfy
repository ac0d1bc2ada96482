/**
 One compositor session as a state machine: the daemon's own state, the live timers of its event loop, the
 requests it has put on the wire, and what each compositor event does to them.
 */
module Session {
  import opened Wrappers
  import opened Snapshot
  import V = Verify
  import P = Placement
  import J = Jump
  import JI = JumpInput
  import Mru

  const COUNTER_MODULUS: nat := 0x1_0000_0000_0000_0000
  const WARN_THRESHOLD: nat := 3

  datatype WorkspaceName = AppName(appId: string) | AutoName(number: nat)

  /** Requests on the Wayland connection, in the order they are sent. */
  datatype Request =
    | Move(toplevel: Id, workspace: Id, output: Id)
    | Maximize(toplevel: Id)
    | Activate(workspace: Id)
    | CreateWorkspace(group: Id, name: WorkspaceName)
    | Commit

  /** Journal lines that are emitted at most once, and the verifier's. */
  datatype Notice = Once(warn: OnceWarn) | Unconfirmed(handle: Id, event: V.VerifyEvent)

  datatype OnceWarn = OutputFallback | NewEachUnsupported | CreateNotHonored

  datatype PendingPlacement = PendingPlacement(
    toplevel: Id, group: Id, output: Id, before: set<Id>, after: P.PostPlaceActions, appId: string,
    cyclesWaited: nat)

  /** How the environment answers one handler: is the workspace manager bound, and which timer insertions fail. */
  datatype Env = Env(managerUp: bool, refused: set<nat>)

  datatype Event =
    | NewToplevel(toplevel: Id, world: World, env: Env)
    | ToplevelUpdated(toplevel: Id)
    | ToplevelClosed(toplevel: Id, world: World, env: Env)
    | Done(world: World, env: Env)
    | TimerFired(token: nat)

  datatype State = State(
    handled: set<Id>,
    pending: seq<PendingPlacement>,
    verifier: V.Ledger,
    tokens: map<Id, nat>,
    recent: seq<Id>,
    lastKnown: map<Id, Id>,
    latched: set<OnceWarn>,
    counter: nat,
    timers: map<nat, Id>,
    nextToken: nat,
    wire: seq<Request>,
    journal: seq<Notice>)

  /** `connect_and_run` builds every field afresh, so nothing survives a reconnect. */
  function Fresh(): State {
    State({}, [], V.FreshLedger(WARN_THRESHOLD), map[], [], map[], {}, 0, map[], 0, [], [])
  }

  function WarnOnce(s: State, warn: OnceWarn): State {
    if warn in s.latched then s
    else s.(latched := s.latched + {warn}, journal := s.journal + [Once(warn)])
  }

  // ---- Transactions and activation ----

  /** The requests of one workspace transaction: its body, committed iff the body succeeded. */
  function Transaction(body: seq<Request>, succeeded: bool): seq<Request> {
    body + if succeeded then [Commit] else []
  }

  /** Activate, commit and start the verification timer; false when the manager is unavailable. */
  function RegisterActivate(s: State, config: P.Config, env: Env, ws: Id): (State, bool) {
    if !env.managerUp then (s, false)
    else
      var sent := s.(wire := s.wire + Transaction([Activate(ws)], true));
      if config.switchVerifyTimeout.None? then (sent.(verifier := V.AfterAttempt(s.verifier, ws, None)), true)
      else if s.nextToken in env.refused then
        (sent.(verifier := V.AfterAttempt(s.verifier, ws, None), nextToken := s.nextToken + 1), true)
      else
        (sent.(verifier := V.AfterAttempt(s.verifier, ws, Some(ws)),
               tokens := s.tokens[ws := s.nextToken],
               timers := s.timers[s.nextToken := ws],
               nextToken := s.nextToken + 1), true)
  }

  /** Move, then activate if asked, then maximize if asked. `strict` is the synchronous path, where a failed
      activation skips the rest. */
  function PlaceOn(s: State, config: P.Config, env: Env, toplevel: Id, ws: Id, output: Id, after: P.PostPlaceActions,
                   strict: bool): State
  {
    var moved := s.(wire := s.wire + [Move(toplevel, ws, output)]);
    var (switched, ok) := if after.switchTo then RegisterActivate(moved, config, env, ws) else (moved, true);
    if after.maximize && (ok || !strict) then switched.(wire := switched.wire + [Maximize(toplevel)]) else switched
  }

  // ---- New toplevels ----

  function NameFor(s: State, appId: string): WorkspaceName {
    if appId == "" then AutoName(s.counter) else AppName(appId)
  }

  function MemberIds(w: World, group: Option<Group>): set<Id> {
    match group
    case None => {}
    case Some(g) => set x | x in WorkspacesOf(w, g) :: x.id
  }

  function QueueCreate(s: State, w: World, env: Env, info: Toplevel, after: P.PostPlaceActions): State
    requires info.outputs != []
  {
    match Find(w.groups, (g: Group) => info.outputs[0] in g.outputs)
    case None => s
    case Some(g) =>
      var named := if info.appId == "" then s.(counter := (s.counter + 1) % COUNTER_MODULUS) else s;
      if !env.managerUp then named
      else
        named.(wire := s.wire + Transaction([CreateWorkspace(g.id, NameFor(s, info.appId))], true),
               pending := s.pending + [PendingPlacement(info.id, g.id, info.outputs[0],
                                                        MemberIds(w, FindGroup(w, g.id)), after, info.appId, 0)])
  }

  function ExecutePlace(s: State, config: P.Config, w: World, env: Env, info: Toplevel, target: P.WorkspaceTarget,
                        after: P.PostPlaceActions): State
  {
    if !info.cosmicPresent || info.outputs == [] then s
    else
      match target
      case Create => QueueCreate(s, w, env, info, after)
      case Existing(id) =>
        if FindWorkspace(w, id).None? then s
        else PlaceOn(s, config, env, info.id, id, info.outputs[0], after, true)
  }

  function WarnKind(warn: P.PlacementWarn): OnceWarn {
    match warn
    case WorkspaceOutputFallback => OutputFallback
    case NewEachUnsupported => NewEachUnsupported
  }

  function ConsumeWarns(s: State, warns: seq<P.PlacementWarn>): State {
    if warns == [] then s
    else WarnOnce(ConsumeWarns(s, warns[..|warns| - 1]), WarnKind(warns[|warns| - 1]))
  }

  function DecisionFor(s: State, config: P.Config, w: World, info: Toplevel): P.PlacementDecision {
    P.Decide(config, P.BuildInfoStub(info), P.BuildWorldStub(w), s.handled, info.id)
  }

  function HandleNewToplevel(s: State, config: P.Config, w: World, env: Env, info: Toplevel): State {
    var decision := DecisionFor(s, config, w, info);
    var warned := ConsumeWarns(s, decision.warns);
    match decision.action
    case Skip(_) => warned
    case Place(target, after) => ExecutePlace(warned, config, w, env, info, target, after)
  }

  function OnNewToplevel(s: State, config: P.Config, h: Id, w: World, env: Env): State {
    match FindToplevel(w, h)
    case None => s
    case Some(info) =>
      var placed := HandleNewToplevel(s, config, w, env, info);
      placed.(handled := placed.handled + {h})
  }

  // ---- Closed toplevels ----

  function Evict(pending: seq<PendingPlacement>, h: Id): seq<PendingPlacement> {
    Filter(pending, (p: PendingPlacement) => p.toplevel != h)
  }

  function JumpOutcome(s: State, h: Id, w: World): J.TriggerOutcome {
    match FindToplevel(w, h)
    case None => J.NoOp(J.NoWorkspace)
    case Some(t) => J.Outcome(JI.BuildTriggerInput(w, h, t.workspaces, s.recent))
  }

  function JumpIfTriggered(s: State, config: P.Config, h: Id, w: World, env: Env): State {
    match JumpOutcome(s, h, w)
    case NoOp(_) => s
    case Jump(_, target, _) =>
      if FindWorkspace(w, target).None? then s else RegisterActivate(s, config, env, target).0
  }

  function OnToplevelClosed(s: State, config: P.Config, h: Id, w: World, env: Env): State {
    var evicted := s.(handled := s.handled - {h}, pending := Evict(s.pending, h));
    if config.jumpOnEmpty then JumpIfTriggered(evicted, config, h, w, env) else evicted
  }

  // ---- Done: visits, confirmations, deferred placements ----

  function RecordVisits(s: State, w: World): State {
    var (known, visits) := Mru.Detected(s.lastKnown, Mru.ActivePairs(w, w.groups));
    s.(lastKnown := known, recent := Mru.RecordAll(s.recent, visits, Mru.MRU_CAP))
  }

  /** The handles whose timer is pending and whose workspace is now active. */
  function Confirmed(tokens: map<Id, nat>, w: World): set<Id> {
    set h | h in tokens && IsActive(w, h)
  }

  /** The handles with a stored token whose first entry in the workspace list has its active bit set. */
  ghost function Shown(tokens: map<Id, nat>, w: World): set<Id> {
    set h | h in tokens && ShowsActive(w, h)
  }

  lemma ConfirmedExact(tokens: map<Id, nat>, w: World)
    ensures Confirmed(tokens, w) == Shown(tokens, w) && Shown(tokens, w) <= tokens.Keys
  {
    forall h ensures IsActive(w, h) <==> ShowsActive(w, h) {
      FindWorkspaceExact(w, h);
    }
  }

  function TimersOf(tokens: map<Id, nat>, handles: set<Id>): set<nat> {
    set h | h in handles && h in tokens :: tokens[h]
  }

  /** Confirming a set of handles, whatever the order: their timers go, the verifier forgets its suspicion. */
  function ConfirmAll(s: State, confirmed: set<Id>): State {
    if confirmed == {} then s
    else
      s.(timers := s.timers - TimersOf(s.tokens, confirmed),
         tokens := s.tokens - confirmed,
         verifier := s.verifier.(pending := s.verifier.pending - confirmed, everConfirmed := true,
                                 attempted := {}, infoEmitted := {}))
  }

  datatype PendingDecision = UseNew(idx: nat) | DegradeAndWarn(nextFree: Option<nat>) | KeepWaiting

  function EvaluatePending(before: set<Id>, current: seq<Id>, occupied: seq<bool>, cycles: nat): PendingDecision
    requires |current| == |occupied|
  {
    match Position(current, (id: Id) => id !in before)
    case Some(idx) => UseNew(idx)
    case None => if cycles >= 1 then DegradeAndWarn(Position(occupied, (o: bool) => !o)) else KeepWaiting
  }

  /** What one queued placement comes to in a settled world. */
  datatype Resolution = GroupGone | Waits | NoWorkspaceLeft(degraded: bool) | Lands(ws: Id, degraded: bool)

  function CurrentIds(w: World, g: Group): seq<Id> {
    var members := WorkspacesOf(w, g);
    seq(|members|, i requires 0 <= i < |members| => members[i].id)
  }

  function CurrentOccupied(w: World, ids: seq<Id>): seq<bool> {
    var occupied := Occupied(w);
    seq(|ids|, i requires 0 <= i < |ids| => ids[i] in occupied)
  }

  function DecisionOn(w: World, p: PendingPlacement, g: Group): PendingDecision {
    var ids := CurrentIds(w, g);
    EvaluatePending(p.before, ids, CurrentOccupied(w, ids), p.cyclesWaited)
  }

  function Resolve(w: World, p: PendingPlacement): Resolution {
    match FindGroup(w, p.group)
    case None => GroupGone
    case Some(g) =>
      var ids := CurrentIds(w, g);
      match DecisionOn(w, p, g)
      case KeepWaiting => Waits
      case UseNew(idx) =>
        if FindWorkspace(w, ids[idx]).Some? then Lands(ids[idx], false) else NoWorkspaceLeft(false)
      case DegradeAndWarn(next) =>
        if next.Some? && FindWorkspace(w, ids[next.value]).Some? then Lands(ids[next.value], true)
        else NoWorkspaceLeft(true)
  }

  function Aged(p: PendingPlacement): PendingPlacement {
    p.(cyclesWaited := p.cyclesWaited + 1)
  }

  /** The deferred path: a failed activation does not stop the maximize. */
  function LandOn(s: State, config: P.Config, env: Env, p: PendingPlacement, ws: Id): State {
    PlaceOn(s, config, env, p.toplevel, ws, p.output, p.after, false)
  }

  /** The effect of one dequeued entry, its cycle counter already advanced. */
  function Complete(s: State, config: P.Config, w: World, env: Env, p: PendingPlacement): State {
    match Resolve(w, p)
    case GroupGone => s
    case Waits => s
    case NoWorkspaceLeft(degraded) => if degraded then WarnOnce(s, CreateNotHonored) else s
    case Lands(ws, degraded) =>
      LandOn(if degraded then WarnOnce(s, CreateNotHonored) else s, config, env, p, ws)
  }

  /** The order in which swap-removing at the front empties a queue: e0, e(n-1), ..., e1. */
  function DrainOrder(q: seq<PendingPlacement>): seq<PendingPlacement> {
    seq(|q|, i requires 0 <= i < |q| => if i == 0 then q[0] else q[|q| - i])
  }

  /** Completing the entries of `order` one after the other. */
  function CompleteAll(s: State, config: P.Config, w: World, env: Env, order: seq<PendingPlacement>): State {
    if order == [] then s
    else Complete(CompleteAll(s, config, w, env, order[..|order| - 1]), config, w, env, Aged(order[|order| - 1]))
  }

  function Scan(s: State, config: P.Config, w: World, env: Env): State {
    CompleteAll(s.(pending := []), config, w, env, DrainOrder(s.pending))
  }

  function BeforeScan(s: State, config: P.Config, w: World): State {
    var visited := if config.jumpOnEmpty then RecordVisits(s, w) else s;
    ConfirmAll(visited, Confirmed(s.tokens, w))
  }

  function OnDone(s: State, config: P.Config, w: World, env: Env): State {
    Scan(BeforeScan(s, config, w), config, w, env)
  }

  // ---- Timers ----

  /** A live timer expires; a token that is not live cannot fire. */
  function OnTimerFired(s: State, token: nat): State {
    if token !in s.timers then s
    else
      var h := s.timers[token];
      s.(verifier := V.AfterTimeout(s.verifier, h),
         tokens := s.tokens - {h},
         timers := s.timers - {token},
         journal := s.journal + [Unconfirmed(h, V.TimeoutEvent(s.verifier, h))])
  }

  // ---- Runs ----

  function Step(s: State, config: P.Config, e: Event): State {
    match e
    case NewToplevel(h, w, env) => OnNewToplevel(s, config, h, w, env)
    case ToplevelUpdated(_) => s
    case ToplevelClosed(h, w, env) => OnToplevelClosed(s, config, h, w, env)
    case Done(w, env) => OnDone(s, config, w, env)
    case TimerFired(token) => OnTimerFired(s, token)
  }

  function RunFrom(s: State, config: P.Config, events: seq<Event>): State {
    if events == [] then s
    else Step(RunFrom(s, config, events[..|events| - 1]), config, events[|events| - 1])
  }

  /** The state after any sequence of events on a fresh session. */
  function Run(config: P.Config, events: seq<Event>): State {
    RunFrom(Fresh(), config, events)
  }

  lemma {:induction false} RunFromAppend(s: State, config: P.Config, a: seq<Event>, b: seq<Event>)
    ensures RunFrom(s, config, a + b) == RunFrom(RunFrom(s, config, a), config, b)
  {
    if b == [] {
      assert a + b == a;
    } else {
      assert (a + b)[..|a + b| - 1] == a + b[..|b| - 1];
      RunFromAppend(s, config, a, b[..|b| - 1]);
    }
  }

  lemma RunOneMore(config: P.Config, events: seq<Event>, e: Event)
    ensures Run(config, events + [e]) == Step(Run(config, events), config, e)
  {
    hide Step;
    assert (events + [e])[..|events|] == events;
  }
}
