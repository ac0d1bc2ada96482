/**
 What a session puts on the wire: every event emits whole blocks, each workspace mutation committed at once,
 and the in-place drain emits what a plain map over the queue would.
 */
module Wire {
  import opened Wrappers
  import opened Snapshot
  import opened Session
  import V = Verify
  import P = Placement
  import J = Jump

  /** The indivisible pieces of the request stream. */
  datatype Block =
    | Placed(toplevel: Id, workspace: Id, output: Id, activated: bool, maximized: bool)
    | Jumped(target: Id)
    | Created(group: Id, name: WorkspaceName)

  function Render(b: Block): seq<Request> {
    match b
    case Placed(t, ws, o, activated, maximized) =>
      [Move(t, ws, o)] + (if activated then [Activate(ws), Commit] else []) + (if maximized then [Maximize(t)] else [])
    case Jumped(target) => [Activate(target), Commit]
    case Created(g, name) => [CreateWorkspace(g, name), Commit]
  }

  function RenderAll(blocks: seq<Block>): seq<Request> {
    if blocks == [] then [] else RenderAll(blocks[..|blocks| - 1]) + Render(blocks[|blocks| - 1])
  }

  lemma {:induction false} RenderAllAppend(a: seq<Block>, b: seq<Block>)
    ensures RenderAll(a + b) == RenderAll(a) + RenderAll(b)
  {
    if b == [] {
      assert a + b == a;
    } else {
      hide Render;
      var init, last := b[..|b| - 1], b[|b| - 1];
      assert (a + b)[..|a + b| - 1] == a + init;
      RenderAllAppend(a, init);
      AppendAssociates(RenderAll(a), RenderAll(init), Render(last));
    }
  }

  /** A placement completed in `env`: activation needs the manager, and only the strict path lets it veto maximize. */
  function PlacedBlock(env: Env, toplevel: Id, ws: Id, output: Id, after: P.PostPlaceActions, strict: bool): Block {
    Placed(toplevel, ws, output, after.switchTo && env.managerUp,
           after.maximize && (!strict || !after.switchTo || env.managerUp))
  }

  /** The block one queued entry contributes to a scan, from the entry and the world alone. */
  function EntryBlocks(w: World, env: Env, p: PendingPlacement): seq<Block> {
    match Resolve(w, Aged(p))
    case Lands(ws, _) => [PlacedBlock(env, p.toplevel, ws, p.output, p.after, false)]
    case _ => []
  }

  function QueueBlocks(w: World, env: Env, order: seq<PendingPlacement>): seq<Block> {
    if order == [] then []
    else QueueBlocks(w, env, order[..|order| - 1]) + EntryBlocks(w, env, order[|order| - 1])
  }

  function PlaceBlocks(s: State, w: World, env: Env, info: Toplevel, target: P.WorkspaceTarget,
                       after: P.PostPlaceActions): seq<Block>
  {
    if !info.cosmicPresent || info.outputs == [] then []
    else
      match target
      case Existing(id) =>
        if FindWorkspace(w, id).None? then [] else [PlacedBlock(env, info.id, id, info.outputs[0], after, true)]
      case Create =>
        match Find(w.groups, (g: Group) => info.outputs[0] in g.outputs)
        case None => []
        case Some(g) => if env.managerUp then [Created(g.id, NameFor(s, info.appId))] else []
  }

  function NewToplevelBlocks(s: State, config: P.Config, h: Id, w: World, env: Env): seq<Block> {
    match FindToplevel(w, h)
    case None => []
    case Some(info) =>
      match DecisionFor(s, config, w, info).action
      case Skip(_) => []
      case Place(target, after) => PlaceBlocks(s, w, env, info, target, after)
  }

  function ClosedBlocks(s: State, config: P.Config, h: Id, w: World, env: Env): seq<Block> {
    if !config.jumpOnEmpty then []
    else
      match JumpOutcome(s, h, w)
      case NoOp(_) => []
      case Jump(_, target, _) => if FindWorkspace(w, target).Some? && env.managerUp then [Jumped(target)] else []
  }

  /** The blocks of one event. */
  function StepBlocks(s: State, config: P.Config, e: Event): seq<Block> {
    match e
    case NewToplevel(h, w, env) => NewToplevelBlocks(s, config, h, w, env)
    case ToplevelUpdated(_) => []
    case ToplevelClosed(h, w, env) => ClosedBlocks(s, config, h, w, env)
    case Done(w, env) => QueueBlocks(w, env, DrainOrder(s.pending))
    case TimerFired(_) => []
  }

  lemma RegisterEmits(s: State, config: P.Config, env: Env, ws: Id)
    ensures var (on, ok) := RegisterActivate(s, config, env, ws);
            && ok == env.managerUp
            && on.wire == s.wire + (if ok then [Activate(ws), Commit] else [])
            && on.handled == s.handled && on.pending == s.pending && on.latched == s.latched && on.journal == s.journal
            && on.recent == s.recent && on.lastKnown == s.lastKnown && on.counter == s.counter
  {
    assert Transaction([Activate(ws)], true) == [Activate(ws), Commit];
  }

  lemma PlaceOnEmits(s: State, config: P.Config, env: Env, toplevel: Id, ws: Id, output: Id, after: P.PostPlaceActions,
                     strict: bool)
    ensures var on := PlaceOn(s, config, env, toplevel, ws, output, after, strict);
            && on.wire == s.wire + Render(PlacedBlock(env, toplevel, ws, output, after, strict))
            && on.handled == s.handled && on.pending == s.pending && on.latched == s.latched && on.journal == s.journal
            && on.recent == s.recent && on.lastKnown == s.lastKnown && on.counter == s.counter
  {
    var moved := s.(wire := s.wire + [Move(toplevel, ws, output)]);
    if after.switchTo {
      RegisterEmits(moved, config, env, ws);
    }
  }

  lemma CompleteEmits(s: State, config: P.Config, w: World, env: Env, p: PendingPlacement)
    ensures var on := Complete(s, config, w, env, Aged(p));
            && on.wire == s.wire + RenderAll(EntryBlocks(w, env, p))
            && on.handled == s.handled && on.pending == s.pending
            && on.recent == s.recent && on.lastKnown == s.lastKnown && on.counter == s.counter
  {
    hide PlaceOn, Resolve, Render;
    assert RenderAll([]) == [];
    match Resolve(w, Aged(p)) {
      case Lands(ws, degraded) =>
        var warned := if degraded then WarnOnce(s, CreateNotHonored) else s;
        PlaceOnEmits(warned, config, env, p.toplevel, ws, p.output, p.after, false);
        RenderOne(PlacedBlock(env, p.toplevel, ws, p.output, p.after, false));
      case _ =>
    }
  }

  lemma RenderOne(b: Block)
    ensures RenderAll([b]) == Render(b)
  {
    assert [b][..0] == [];
    assert RenderAll([]) == [];
  }

  lemma {:induction false} CompleteAllEmits(s: State, config: P.Config, w: World, env: Env,
                                            order: seq<PendingPlacement>)
    ensures var on := CompleteAll(s, config, w, env, order);
            && on.wire == s.wire + RenderAll(QueueBlocks(w, env, order))
            && on.handled == s.handled && on.pending == s.pending
            && on.recent == s.recent && on.lastKnown == s.lastKnown && on.counter == s.counter
  {
    if order != [] {
      var n := |order| - 1;
      CompleteAllEmits(s, config, w, env, order[..n]);
      CompleteEmits(CompleteAll(s, config, w, env, order[..n]), config, w, env, order[n]);
      RenderAllAppend(QueueBlocks(w, env, order[..n]), EntryBlocks(w, env, order[n]));
    }
  }

  lemma {:induction false} ConsumeWarnsKeeps(s: State, warns: seq<P.PlacementWarn>)
    ensures ConsumeWarns(s, warns) ==
            s.(latched := ConsumeWarns(s, warns).latched, journal := ConsumeWarns(s, warns).journal)
  {
    if warns != [] {
      ConsumeWarnsKeeps(s, warns[..|warns| - 1]);
    }
  }

  /** One fresh entry for `h` has joined the end of the queue. */
  ghost predicate Enqueued(s: State, on: State, h: Id, after: P.PostPlaceActions) {
    && |on.pending| == |s.pending| + 1 && on.pending[..|s.pending|] == s.pending
    && var p := on.pending[|s.pending|];
       p.toplevel == h && p.cyclesWaited == 0 && p.after == after
  }

  lemma QueueCreateEmits(s: State, w: World, env: Env, info: Toplevel, after: P.PostPlaceActions)
    requires info.cosmicPresent && info.outputs != []
    ensures var on, blocks := QueueCreate(s, w, env, info, after), PlaceBlocks(s, w, env, info, P.Create, after);
            && on.wire == s.wire + RenderAll(blocks)
            && on.handled == s.handled && on.latched == s.latched && on.journal == s.journal
            && on.recent == s.recent && on.lastKnown == s.lastKnown
            && (on.pending == s.pending || Enqueued(s, on, info.id, after))
            && forall b | b in blocks :: b.Created?
  {
    var group := Find(w.groups, (g: Group) => info.outputs[0] in g.outputs);
    if group.Some? {
      var block := Created(group.value.id, NameFor(s, info.appId));
      RenderOne(block);
      assert Transaction([CreateWorkspace(group.value.id, NameFor(s, info.appId))], true) == Render(block);
    }
  }

  lemma ExecutePlaceEmits(s: State, config: P.Config, w: World, env: Env, info: Toplevel, target: P.WorkspaceTarget,
                          after: P.PostPlaceActions)
    ensures var on := ExecutePlace(s, config, w, env, info, target, after);
            && on.wire == s.wire + RenderAll(PlaceBlocks(s, w, env, info, target, after))
            && on.handled == s.handled && on.latched == s.latched && on.journal == s.journal
            && on.recent == s.recent && on.lastKnown == s.lastKnown
            && (on.pending == s.pending || Enqueued(s, on, info.id, after))
            && (on.pending != s.pending ==> forall b | b in PlaceBlocks(s, w, env, info, target, after) :: b.Created?)
  {
    hide PlaceOn, QueueCreate, Render;
    assert RenderAll([]) == [];
    if info.cosmicPresent && info.outputs != [] {
      match target {
        case Existing(id) =>
          PlaceOnEmits(s, config, env, info.id, id, info.outputs[0], after, true);
          RenderOne(PlacedBlock(env, info.id, id, info.outputs[0], after, true));
        case Create =>
          QueueCreateEmits(s, w, env, info, after);
      }
    }
  }

  lemma BeforeScanKeeps(s: State, config: P.Config, w: World)
    ensures var on := BeforeScan(s, config, w);
            && on.wire == s.wire && on.handled == s.handled && on.pending == s.pending
            && on.latched == s.latched && on.journal == s.journal && on.counter == s.counter
  {
  }

  lemma NewToplevelEmits(s: State, config: P.Config, h: Id, w: World, env: Env)
    ensures OnNewToplevel(s, config, h, w, env).wire == s.wire + RenderAll(NewToplevelBlocks(s, config, h, w, env))
  {
    hide ExecutePlace, ConsumeWarns, DecisionFor, Render;
    assert RenderAll([]) == [];
    match FindToplevel(w, h) {
      case None =>
      case Some(info) =>
        var decision := DecisionFor(s, config, w, info);
        var warned := ConsumeWarns(s, decision.warns);
        ConsumeWarnsKeeps(s, decision.warns);
        if decision.action.Place? {
          ExecutePlaceEmits(warned, config, w, env, info, decision.action.workspace, decision.action.after);
          SameBlocks(s, warned, w, env, info, decision.action.workspace, decision.action.after);
        }
    }
  }

  lemma SameBlocks(s: State, on: State, w: World, env: Env, info: Toplevel, target: P.WorkspaceTarget,
                   after: P.PostPlaceActions)
    requires s.counter == on.counter
    ensures PlaceBlocks(s, w, env, info, target, after) == PlaceBlocks(on, w, env, info, target, after)
  {
  }

  lemma ClosedEmits(s: State, config: P.Config, h: Id, w: World, env: Env)
    ensures OnToplevelClosed(s, config, h, w, env).wire == s.wire + RenderAll(ClosedBlocks(s, config, h, w, env))
  {
    hide RegisterActivate, J.Outcome;
    assert RenderAll([]) == [];
    var evicted := s.(handled := s.handled - {h}, pending := Evict(s.pending, h));
    var out := JumpOutcome(s, h, w);
    assert JumpOutcome(evicted, h, w) == out;
    if config.jumpOnEmpty && out.Jump? {
      RegisterEmits(evicted, config, env, out.target);
      RenderOne(Jumped(out.target));
    }
  }

  /** Every event appends exactly the rendering of its blocks. */
  lemma StepEmitsBlocks(s: State, config: P.Config, e: Event)
    ensures Step(s, config, e).wire == s.wire + RenderAll(StepBlocks(s, config, e))
  {
    hide OnNewToplevel, NewToplevelBlocks, OnToplevelClosed, ClosedBlocks, CompleteAll, QueueBlocks, Render;
    assert RenderAll([]) == [];
    match e {
      case NewToplevel(h, w, env) => NewToplevelEmits(s, config, h, w, env);
      case ToplevelUpdated(_) =>
      case ToplevelClosed(h, w, env) => ClosedEmits(s, config, h, w, env);
      case Done(w, env) =>
        BeforeScanKeeps(s, config, w);
        CompleteAllEmits(BeforeScan(s, config, w).(pending := []), config, w, env, DrainOrder(s.pending));
      case TimerFired(_) =>
    }
  }

  /** The blocks of a whole run, in order. */
  function RunBlocks(s: State, config: P.Config, events: seq<Event>): seq<Block> {
    if events == [] then []
    else
      var init := events[..|events| - 1];
      RunBlocks(s, config, init) + StepBlocks(RunFrom(s, config, init), config, events[|events| - 1])
  }

  /** The wire log of every run is the rendering of its blocks. */
  lemma {:induction false} RunEmitsBlocks(s: State, config: P.Config, events: seq<Event>)
    ensures RunFrom(s, config, events).wire == s.wire + RenderAll(RunBlocks(s, config, events))
  {
    if events != [] {
      hide Step, StepBlocks, Render;
      var init, e := events[..|events| - 1], events[|events| - 1];
      RunEmitsBlocks(s, config, init);
      var before := RunFrom(s, config, init);
      StepEmitsBlocks(before, config, e);
      RenderAllAppend(RunBlocks(s, config, init), StepBlocks(before, config, e));
      AppendAssociates(s.wire, RenderAll(RunBlocks(s, config, init)), RenderAll(StepBlocks(before, config, e)));
    }
  }

  lemma {:induction false} RunBlocksAppend(s: State, config: P.Config, a: seq<Event>, b: seq<Event>)
    ensures RunBlocks(s, config, a + b) == RunBlocks(s, config, a) + RunBlocks(RunFrom(s, config, a), config, b)
  {
    if b == [] {
      assert a + b == a;
    } else {
      hide Step, StepBlocks;
      var init, last := b[..|b| - 1], b[|b| - 1];
      assert (a + b)[..|a + b| - 1] == a + init;
      RunBlocksAppend(s, config, a, init);
      RunFromAppend(s, config, a, init);
      var mid := RunFrom(s, config, a);
      AppendAssociates(RunBlocks(s, config, a), RunBlocks(mid, config, init),
                       StepBlocks(RunFrom(mid, config, init), config, last));
    }
  }

  // ---- Commit discipline ----

  predicate IsMutation(r: Request) {
    r.Activate? || r.CreateWorkspace?
  }

  /** Every workspace mutation is directly followed by a commit, and every commit directly follows a mutation. */
  ghost predicate Framed(rs: seq<Request>) {
    && (forall i | 0 <= i < |rs| && IsMutation(rs[i]) :: i + 1 < |rs| && rs[i + 1] == Commit)
    && (forall i | 0 <= i < |rs| && rs[i] == Commit :: i > 0 && IsMutation(rs[i - 1]))
  }

  lemma FramedAppend(a: seq<Request>, b: seq<Request>)
    requires Framed(a) && Framed(b)
    ensures Framed(a + b)
  {
    var c := a + b;
    forall i | 0 <= i < |c| && IsMutation(c[i]) ensures i + 1 < |c| && c[i + 1] == Commit {
      if i >= |a| {
        assert IsMutation(b[i - |a|]) && b[i - |a| + 1] == Commit;
      } else {
        assert a[i + 1] == Commit;
      }
    }
    forall i | 0 <= i < |c| && c[i] == Commit ensures i > 0 && IsMutation(c[i - 1]) {
      if i >= |a| {
        assert b[i - |a|] == Commit && IsMutation(b[i - |a| - 1]);
      } else {
        assert IsMutation(a[i - 1]);
      }
    }
  }

  lemma RenderFramed(b: Block)
    ensures Framed(Render(b))
  {
  }

  lemma {:induction false} RenderAllFramed(blocks: seq<Block>)
    ensures Framed(RenderAll(blocks))
  {
    if blocks != [] {
      RenderAllFramed(blocks[..|blocks| - 1]);
      RenderFramed(blocks[|blocks| - 1]);
      FramedAppend(RenderAll(blocks[..|blocks| - 1]), Render(blocks[|blocks| - 1]));
    }
  }

  /** At every event boundary of every run nothing is left uncommitted, and no commit is sent on its own. */
  lemma EveryMutationIsCommitted(config: P.Config, events: seq<Event>)
    ensures Framed(Run(config, events).wire)
  {
    RunEmitsBlocks(Fresh(), config, events);
    RenderAllFramed(RunBlocks(Fresh(), config, events));
  }

  // ---- What a decision and a close leave alone ----

  lemma DecidedActions(s: State, config: P.Config, w: World, info: Toplevel)
    ensures var action := DecisionFor(s, config, w, info).action;
            action.Place? ==> action.after == P.PostPlaceActions(config.switchToWorkspace, config.maximize)
  {
  }

  /** A close changes the handled set and the queue only by forgetting the toplevel. */
  lemma ClosedKeeps(s: State, config: P.Config, h: Id, w: World, env: Env)
    ensures var on := OnToplevelClosed(s, config, h, w, env);
            && on.handled == s.handled - {h} && on.pending == Evict(s.pending, h)
            && on.latched == s.latched && on.journal == s.journal
            && on.recent == s.recent && on.lastKnown == s.lastKnown && on.counter == s.counter
  {
    hide RegisterActivate, JumpOutcome;
    var evicted := s.(handled := s.handled - {h}, pending := Evict(s.pending, h));
    if config.jumpOnEmpty && JumpOutcome(evicted, h, w).Jump? {
      RegisterEmits(evicted, config, env, JumpOutcome(evicted, h, w).target);
    }
  }

  // ---- The drain as a map over the queue ----

  /** The drain order e0, e(n-1), ..., e1 visits every entry exactly once. */
  lemma {:induction false} DrainOrderPermutes(q: seq<PendingPlacement>)
    ensures multiset(DrainOrder(q)) == multiset(q)
    decreases |q|
  {
    if |q| > 1 {
      var n := |q|;
      var rest := [q[n - 1]] + q[1..n - 1];
      DrainOrderPermutes(rest);
      assert DrainOrder(q) == [q[0]] + DrainOrder(rest);
      assert q == [q[0]] + q[1..n - 1] + [q[n - 1]];
    } else {
      assert DrainOrder(q) == q;
    }
  }

  lemma {:induction false} DrainOrderMembers(q: seq<PendingPlacement>)
    ensures forall p :: p in DrainOrder(q) <==> p in q
  {
    var order := DrainOrder(q);
    forall p | p in q ensures p in order {
      var i :| 0 <= i < |q| && q[i] == p;
      assert order[if i == 0 then 0 else |q| - i] == p;
    }
  }

  ghost predicate DistinctToplevels(q: seq<PendingPlacement>) {
    forall i, j | 0 <= i < j < |q| :: q[i].toplevel != q[j].toplevel
  }

  /** The requests that name toplevel `h`. */
  function About(rs: seq<Block>, h: Id): seq<Block> {
    Filter(rs, (b: Block) => b.Placed? && b.toplevel == h)
  }

  lemma {:induction false} AboutAbsent(w: World, env: Env, order: seq<PendingPlacement>, h: Id)
    requires forall p | p in order :: p.toplevel != h
    ensures About(QueueBlocks(w, env, order), h) == []
  {
    if order != [] {
      hide EntryBlocks;
      var init, last := order[..|order| - 1], order[|order| - 1];
      AboutAbsent(w, env, init, h);
      AboutAppend(QueueBlocks(w, env, init), EntryBlocks(w, env, last), h);
      AboutEntry(w, env, last, h);
    }
  }

  lemma {:induction false} AboutPresent(w: World, env: Env, order: seq<PendingPlacement>, h: Id, i: nat)
    requires i < |order| && order[i].toplevel == h
    requires forall j | 0 <= j < |order| && j != i :: order[j].toplevel != h
    ensures About(QueueBlocks(w, env, order), h) == EntryBlocks(w, env, order[i])
  {
    hide EntryBlocks;
    var n := |order| - 1;
    var init, last := order[..n], order[n];
    AboutAppend(QueueBlocks(w, env, init), EntryBlocks(w, env, last), h);
    AboutEntry(w, env, last, h);
    if i < n {
      AboutPresent(w, env, init, h, i);
    } else {
      AboutAbsent(w, env, init, h);
    }
  }

  lemma AboutAppend(a: seq<Block>, b: seq<Block>, h: Id)
    ensures About(a + b, h) == About(a, h) + About(b, h)
  {
    FilterAppend(a, b, (x: Block) => x.Placed? && x.toplevel == h);
  }

  lemma AboutEntry(w: World, env: Env, p: PendingPlacement, h: Id)
    ensures About(EntryBlocks(w, env, p), h) == if p.toplevel == h then EntryBlocks(w, env, p) else []
  {
    var bs := EntryBlocks(w, env, p);
    if bs != [] {
      assert bs[1..] == [];
    }
  }

  /**
   A scan empties the queue, visits each entry once, and gives each queued toplevel exactly the block a plain
   map of `EntryBlocks` over the queue gives it, whatever the other entries and whatever the order.
   */
  lemma ScanRefinesMap(s: State, config: P.Config, w: World, env: Env, k: nat)
    requires DistinctToplevels(s.pending) && k < |s.pending|
    ensures var on := Scan(s, config, w, env);
            && on.pending == []
            && on.wire == s.wire + RenderAll(QueueBlocks(w, env, DrainOrder(s.pending)))
            && multiset(DrainOrder(s.pending)) == multiset(s.pending)
            && About(QueueBlocks(w, env, DrainOrder(s.pending)), s.pending[k].toplevel) ==
               EntryBlocks(w, env, s.pending[k])
            && Resolve(w, Aged(s.pending[k])) != Waits
  {
    var q := s.pending;
    var order := DrainOrder(q);
    CompleteAllEmits(s.(pending := []), config, w, env, order);
    DrainOrderPermutes(q);
    DrainedOnce(w, env, q, k);
    assert Aged(q[k]).cyclesWaited >= 1;
  }

  lemma DrainedOnce(w: World, env: Env, q: seq<PendingPlacement>, k: nat)
    requires DistinctToplevels(q) && k < |q|
    ensures About(QueueBlocks(w, env, DrainOrder(q)), q[k].toplevel) == EntryBlocks(w, env, q[k])
  {
    hide EntryBlocks;
    var order := DrainOrder(q);
    var at := if k == 0 then 0 else |q| - k;
    assert order[at] == q[k];
    forall j | 0 <= j < |order| && j != at ensures order[j].toplevel != q[k].toplevel {
      assert order[j] == q[if j == 0 then 0 else |q| - j];
    }
    AboutPresent(w, env, order, q[k].toplevel, at);
  }

  lemma {:induction false} EntryInQueue(w: World, env: Env, order: seq<PendingPlacement>, p: PendingPlacement)
    requires p in order
    ensures forall b | b in EntryBlocks(w, env, p) :: b in QueueBlocks(w, env, order)
  {
    var n := |order| - 1;
    if p != order[n] {
      EntryInQueue(w, env, order[..n], p);
    }
  }
}
