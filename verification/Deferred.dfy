/**
 Where placements land over whole runs: which entries wait in the queue, which workspace each finally gets,
 in which group a new workspace is created, and under which name.
 */
module Deferred {
  import opened Wrappers
  import opened Snapshot
  import opened Session
  import opened Wire
  import P = Placement

  // ---- The queue is the creates still unanswered ----

  /**
   Step `e` from `s` sends the create request of placement `p`, in the first group on the toplevel's first output, and
   takes its snapshot: exactly the listed workspaces of the first group with that id.
   */
  ghost predicate Creates(s: State, config: P.Config, e: Event, p: PendingPlacement) {
    && e.NewToplevel?
    && (exists name :: StepBlocks(s, config, e) == [Created(p.group, name)])
    && (exists k: nat :: FirstToplevel(e.world, e.toplevel, k) && EntryOf(e.world, e.world.toplevels[k], p))
    && p.after == P.PostPlaceActions(config.switchToWorkspace, config.maximize)
  }

  ghost predicate EntryOf(w: World, t: Toplevel, p: PendingPlacement) {
    && p.toplevel == t.id && p.appId == t.appId && p.cyclesWaited == 0
    && t.outputs != [] && p.output == t.outputs[0]
    && (exists g: nat :: FirstOnOutput(w, p.output, g) && p.group == w.groups[g].id)
    && forall x :: x in p.before <==> ListedMember(w, p.group, x)
  }

  /** The entry the create branch pushes. */
  predicate Pushes(s: State, config: P.Config, e: Event, p: PendingPlacement) {
    && e.NewToplevel?
    && var found := FindToplevel(e.world, e.toplevel);
       && found.Some? && found.value.outputs != []
       && StepBlocks(s, config, e) == [Created(p.group, NameFor(s, found.value.appId))]
       && p == PendingPlacement(e.toplevel, p.group, found.value.outputs[0],
                                MemberIds(e.world, FindGroup(e.world, p.group)),
                                P.PostPlaceActions(config.switchToWorkspace, config.maximize), found.value.appId, 0)
  }

  lemma MemberIdsExact(w: World, id: Id, x: Id)
    ensures x in MemberIds(w, FindGroup(w, id)) <==> ListedMember(w, id, x)
  {
    FindGroupExact(w, id);
    if g: nat :| FirstNamed(w, id, g) {
      forall y ensures y in WorkspacesOf(w, w.groups[g]) <==> exists i: nat :: Member(w, g, i) && w.workspaces[i] == y {
        MembersExact(w, g, y);
      }
    }
  }

  lemma FirstOnOutputExact(w: World, output: Id)
    ensures var found := Find(w.groups, (g: Group) => output in g.outputs);
            && (found.Some? ==> exists g: nat :: FirstOnOutput(w, output, g))
            && forall g: nat | FirstOnOutput(w, output, g) :: found == Some(w.groups[g])
  {
    var listing := (g: Group) => output in g.outputs;
    if Find(w.groups, listing).Some? {
      var g := FoundBeforeOthers(w.groups, listing);
      assert FirstOnOutput(w, output, g);
    }
    forall g: nat | FirstOnOutput(w, output, g) ensures Find(w.groups, listing) == Some(w.groups[g]) {
      FindIsFirst(w.groups, listing, g);
    }
  }

  /** What a create request names, if a new toplevel sends one. */
  lemma CreatedNames(s: State, config: P.Config, h: Id, w: World, env: Env, group: Id, name: WorkspaceName)
    requires NewToplevelBlocks(s, config, h, w, env) == [Created(group, name)]
    ensures var found := FindToplevel(w, h);
            && found.Some? && found.value.outputs != [] && name == NameFor(s, found.value.appId)
            && (exists g: nat :: FirstOnOutput(w, found.value.outputs[0], g) && group == w.groups[g].id)
  {
    hide P.Decide, NameFor;
    FirstOnOutputExact(w, FindToplevel(w, h).value.outputs[0]);
  }

  lemma CreatesExact(s: State, config: P.Config, e: Event, p: PendingPlacement)
    ensures Creates(s, config, e, p) <==> Pushes(s, config, e, p)
  {
    if e.NewToplevel? {
      hide NewToplevelBlocks, MemberIds, NameFor, ListedMember, FirstOnOutput;
      FindToplevelExact(e.world, e.toplevel);
      forall x ensures x in MemberIds(e.world, FindGroup(e.world, p.group)) <==> ListedMember(e.world, p.group, x) {
        MemberIdsExact(e.world, p.group, x);
      }
      if name :| StepBlocks(s, config, e) == [Created(p.group, name)] {
        CreatedNames(s, config, e.toplevel, e.world, e.env, p.group, name);
      }
      if Creates(s, config, e, p) {
        assert p.before == MemberIds(e.world, FindGroup(e.world, p.group));
      }
    }
  }

  lemma NewToplevelQueues(s: State, config: P.Config, h: Id, w: World, env: Env, p: PendingPlacement)
    ensures p in OnNewToplevel(s, config, h, w, env).pending <==>
              p in s.pending || Pushes(s, config, NewToplevel(h, w, env), p)
  {
    hide ConsumeWarns, QueueCreate, PlaceOn, P.Decide;
    match FindToplevel(w, h) {
      case None =>
      case Some(info) =>
        var decision := DecisionFor(s, config, w, info);
        var warned := ConsumeWarns(s, decision.warns);
        ConsumeWarnsKeeps(s, decision.warns);
        if decision.action.Place? {
          DecidedActions(s, config, w, info);
          match decision.action.workspace {
            case Existing(id) =>
              if info.cosmicPresent && info.outputs != [] {
                PlaceOnEmits(warned, config, env, info.id, id, info.outputs[0], decision.action.after, true);
              }
            case Create =>
              if info.cosmicPresent && info.outputs != [] {
                CreateQueues(warned, w, env, info, decision.action.after, p);
              }
          }
        }
    }
  }

  lemma CreateQueues(s: State, w: World, env: Env, info: Toplevel, after: P.PostPlaceActions, p: PendingPlacement)
    requires info.cosmicPresent && info.outputs != []
    ensures p in QueueCreate(s, w, env, info, after).pending <==>
              || p in s.pending
              || (&& PlaceBlocks(s, w, env, info, P.Create, after) == [Created(p.group, NameFor(s, info.appId))]
                  && p == PendingPlacement(info.id, p.group, info.outputs[0], MemberIds(w, FindGroup(w, p.group)),
                                           after, info.appId, 0))
  {
    hide MemberIds;
  }

  /** `e` neither answers the queue nor closes `h`. */
  predicate KeepsQueued(e: Event, h: Id) {
    !e.Done? && !(e.ToplevelClosed? && e.toplevel == h)
  }

  lemma StepQueue(s: State, config: P.Config, e: Event, p: PendingPlacement)
    ensures p in Step(s, config, e).pending <==>
              (p in s.pending && KeepsQueued(e, p.toplevel)) || Creates(s, config, e, p)
  {
    hide OnNewToplevel, OnToplevelClosed, CompleteAll, NewToplevelBlocks, Creates;
    CreatesExact(s, config, e, p);
    match e {
      case NewToplevel(h, w, env) => NewToplevelQueues(s, config, h, w, env, p);
      case ToplevelUpdated(_) =>
      case ToplevelClosed(h, w, env) => ClosedKeeps(s, config, h, w, env);
      case Done(w, env) =>
        CompleteAllEmits(BeforeScan(s, config, w).(pending := []), config, w, env, DrainOrder(s.pending));
      case TimerFired(_) =>
    }
  }

  ghost predicate CreatesAt(config: P.Config, events: seq<Event>, k: nat, p: PendingPlacement)
    requires k < |events|
  {
    Creates(Run(config, events[..k]), config, events[k], p)
  }

  /** After event `k` no batch has settled and toplevel `h` has not closed. */
  ghost predicate UnansweredSince(events: seq<Event>, k: nat, h: Id) {
    forall j | k < j < |events| :: KeepsQueued(events[j], h)
  }

  ghost predicate Awaits(config: P.Config, events: seq<Event>, k: nat, p: PendingPlacement) {
    k < |events| && CreatesAt(config, events, k, p) && UnansweredSince(events, k, p.toplevel)
  }

  /** Some earlier event sent the create request of `p`, and nothing has answered it. */
  ghost predicate Unanswered(config: P.Config, events: seq<Event>, p: PendingPlacement) {
    exists k: nat :: Awaits(config, events, k, p)
  }

  /** One more event ends the wait of the earlier entries it answers, and may start one. */
  lemma AwaitsOneMore(config: P.Config, events: seq<Event>, p: PendingPlacement)
    requires events != []
    ensures var n := |events| - 1;
            && (Awaits(config, events, n, p) <==> Creates(Run(config, events[..n]), config, events[n], p))
            && (forall k: nat | Awaits(config, events[..n], k, p) :: k < n)
            && (forall k: nat | Awaits(config, events, k, p) :: k <= n)
            && forall k: nat | k < n ::
                 Awaits(config, events, k, p) <==>
                   Awaits(config, events[..n], k, p) && KeepsQueued(events[n], p.toplevel)
  {
    hide Run, Creates;
    var n := |events| - 1;
    var init := events[..n];
    forall k: nat | k < n
      ensures Awaits(config, events, k, p) <==> Awaits(config, init, k, p) && KeepsQueued(events[n], p.toplevel)
    {
      assert init[..k] == events[..k];
      assert UnansweredSince(events, k, p.toplevel) <==>
             UnansweredSince(init, k, p.toplevel) && KeepsQueued(events[n], p.toplevel);
    }
  }

  lemma UnansweredOneMore(config: P.Config, events: seq<Event>, p: PendingPlacement)
    requires events != []
    ensures var n := |events| - 1;
            Unanswered(config, events, p) <==>
              || (Unanswered(config, events[..n], p) && KeepsQueued(events[n], p.toplevel))
              || Creates(Run(config, events[..n]), config, events[n], p)
  {
    var n := |events| - 1;
    hide Run, Creates, Awaits, KeepsQueued;
    AwaitsOneMore(config, events, p);
    if k: nat :| Awaits(config, events[..n], k, p) {
      assert Awaits(config, events, k, p) <==> KeepsQueued(events[n], p.toplevel);
    }
    if Creates(Run(config, events[..n]), config, events[n], p) {
      assert Awaits(config, events, n, p);
    }
  }

  /**
   After every run a placement is queued iff its create request was sent by an earlier event, with the
   snapshot of that event's world, and neither a batch has settled nor its toplevel closed since: no entry
   outlives the first settled batch after it.
   */
  lemma {:induction false} QueuedIffUnanswered(config: P.Config, events: seq<Event>, p: PendingPlacement)
    ensures p in Run(config, events).pending <==> Unanswered(config, events, p)
  {
    if events != [] {
      hide Step, Creates, Unanswered, KeepsQueued;
      var n := |events| - 1;
      QueuedIffUnanswered(config, events[..n], p);
      StepQueue(Run(config, events[..n]), config, events[n], p);
      UnansweredOneMore(config, events, p);
    }
  }

  // ---- What a settled batch does with an entry ----

  /**
   One evaluation: a member the snapshot lacks is used, the first such; otherwise an entry that has waited a cycle
   degrades to the first unoccupied member, if any, and one that has not keeps waiting.
   */
  lemma EvaluatesExactly(before: set<Id>, current: seq<Id>, occupied: seq<bool>, cycles: nat)
    requires |current| == |occupied|
    ensures var d := EvaluatePending(before, current, occupied, cycles);
            && (d.UseNew? <==> exists x :: x in current && x !in before)
            && (d.UseNew? ==> d.idx < |current| && current[d.idx] !in before
                              && forall j | 0 <= j < d.idx :: current[j] in before)
            && (d.KeepWaiting? <==> cycles == 0 && forall x | x in current :: x in before)
            && (d.DegradeAndWarn? && d.nextFree.Some? ==>
                  && d.nextFree.value < |current| && !occupied[d.nextFree.value]
                  && forall j | 0 <= j < d.nextFree.value :: occupied[j])
            && (d.DegradeAndWarn? && d.nextFree.None? ==> forall o | o in occupied :: o)
  {
    if x :| x in current && x !in before {
      var i :| 0 <= i < |current| && current[i] == x;
    }
  }

  /**
   A dequeued entry goes to the first listed workspace of its group that its snapshot lacks; with none, to the group's
   first workspace no toplevel is on, with the warning; it is dropped iff no group has that id, or every workspace of
   the first such group is both in the snapshot and in use. The other exits are never taken.
   */
  lemma LandsOnFreshElseEmpty(w: World, p: PendingPlacement)
    ensures Resolve(w, Aged(p)) == GroupGone <==> forall g: nat | g < |w.groups| :: w.groups[g].id != p.group
    ensures forall g: nat | FirstNamed(w, p.group, g) ::
              var r := Resolve(w, Aged(p));
              && (r.Lands? && !r.degraded <==> HasNew(w, g, p.before))
              && (r.Lands? && !r.degraded ==>
                    exists i: nat :: FirstNew(w, g, i, p.before) && w.workspaces[i].id == r.ws)
              && (r.Lands? && r.degraded <==> !HasNew(w, g, p.before) && HasVacant(w, g))
              && (r.Lands? && r.degraded ==> exists i: nat :: FirstVacant(w, g, i) && w.workspaces[i].id == r.ws)
              && (r == NoWorkspaceLeft(true) <==> !HasNew(w, g, p.before) && !HasVacant(w, g))
              && r != NoWorkspaceLeft(false) && r != Waits
  {
    FindGroupExact(w, p.group);
    if FindGroup(w, p.group).Some? {
      var g: nat :| FirstNamed(w, p.group, g);
      hide CurrentIds, Occupied, EvaluatePending, HasNew, HasVacant, FirstNew, FirstVacant;
      MembersAreFound(w, w.groups[g]);
      DecisionExact(w, Aged(p), g);
    }
  }

  lemma DecisionExact(w: World, p: PendingPlacement, g: nat)
    requires p.cyclesWaited >= 1 && g < |w.groups|
    ensures var ids, d := CurrentIds(w, w.groups[g]), DecisionOn(w, p, w.groups[g]);
            && (d.UseNew? <==> HasNew(w, g, p.before))
            && (d.UseNew? ==>
                  d.idx < |ids| && exists i: nat :: FirstNew(w, g, i, p.before) && w.workspaces[i].id == ids[d.idx])
            && !d.KeepWaiting?
            && (d.DegradeAndWarn? ==>
                  && (d.nextFree.Some? <==> HasVacant(w, g))
                  && (d.nextFree.Some? ==>
                        && d.nextFree.value < |ids|
                        && exists i: nat :: FirstVacant(w, g, i) && w.workspaces[i].id == ids[d.nextFree.value]))
  {
    var members, ids := WorkspacesOf(w, w.groups[g]), CurrentIds(w, w.groups[g]);
    var occupied := CurrentOccupied(w, ids);
    forall k | 0 <= k < |ids| ensures ids[k] == members[k].id && (occupied[k] <==> InUse(w, members[k].id)) {
      OccupiedExact(w, members[k].id);
    }
    hide CurrentIds, Occupied, WorkspacesOf, InUse;
    var seen := Position(ids, (id: Id) => id !in p.before);
    var free := Position(occupied, (o: bool) => !o);
    if seen.Some? {
      var i := FirstOfMembers(w, g, (x: Workspace) => x.id !in p.before, seen.value);
      assert FirstNew(w, g, i, p.before);
    } else {
      NoneOfMembers(w, g, (x: Workspace) => x.id !in p.before);
    }
    if free.Some? {
      var i := FirstOfMembers(w, g, (x: Workspace) => !InUse(w, x.id), free.value);
      assert FirstVacant(w, g, i);
    } else {
      NoneOfMembers(w, g, (x: Workspace) => !InUse(w, x.id));
    }
  }

  lemma NoneOfMembers(w: World, g: nat, p: Workspace -> bool)
    requires g < |w.groups| && forall k | 0 <= k < |WorkspacesOf(w, w.groups[g])| :: !p(WorkspacesOf(w, w.groups[g])[k])
    ensures forall i: nat | Member(w, g, i) :: !p(w.workspaces[i])
  {
    forall i: nat | Member(w, g, i) ensures !p(w.workspaces[i]) {
      MembersExact(w, g, w.workspaces[i]);
    }
  }

  lemma MembersAreFound(w: World, g: Group)
    ensures forall x | x in CurrentIds(w, g) :: FindWorkspace(w, x).Some? && x in g.workspaces
  {
    var members := WorkspacesOf(w, g);
    forall x | x in CurrentIds(w, g) ensures FindWorkspace(w, x).Some? && x in g.workspaces {
      var i :| 0 <= i < |members| && members[i].id == x;
      assert members[i] in members;
    }
  }

  // ---- Every placement takes a vacant or newly created workspace ----

  lemma StubMember(w: World, g: nat, k: nat)
    requires g < |w.groups| && k < |WorkspacesOf(w, w.groups[g])|
    ensures var stub, member := P.BuildGroupStub(w, w.groups[g]).workspaces[k], WorkspacesOf(w, w.groups[g])[k];
            stub.id == member.id && (stub.toplevelIds == [] <==> !InUse(w, member.id))
  {
    OccupiedExact(w, WorkspacesOf(w, w.groups[g])[k].id);
  }

  /** A toplevel placed at once goes to the first workspace of some group that no toplevel is on. */
  lemma ImmediatePlacementIsVacant(s: State, config: P.Config, h: Id, w: World, env: Env, b: Block)
    requires b in NewToplevelBlocks(s, config, h, w, env) && b.Placed?
    ensures b.toplevel == h && exists g: nat, i: nat :: FirstVacant(w, g, i) && w.workspaces[i].id == b.workspace
  {
    hide Occupied, WorkspacesOf, InUse;
    var info := FindToplevel(w, h).value;
    var groups := P.BuildWorldStub(w);
    P.TargetIsEmptyMember(config, P.BuildInfoStub(info), groups, s.handled, info.id);
    var target := DecisionFor(s, config, w, info).action.workspace.id;
    var stub, k :| stub in groups && 0 <= k < |stub.workspaces| && stub.workspaces[k].id == target
                   && stub.workspaces[k].toplevelIds == []
                   && forall j | 0 <= j < k :: stub.workspaces[j].toplevelIds != [];
    var g :| 0 <= g < |groups| && groups[g] == stub;
    assert stub == P.BuildGroupStub(w, w.groups[g]);
    forall j | 0 <= j < |stub.workspaces| {
      StubMember(w, g, j);
    }
    var i := FirstOfMembers(w, g, (x: Workspace) => !InUse(w, x.id), k);
    assert FirstVacant(w, g, i);
  }

  /** The group of its request did not list `ws` when the create still awaited by toplevel `h` was sent. */
  ghost predicate CreatedSince(config: P.Config, events: seq<Event>, h: Id, ws: Id) {
    exists k: nat, p :: Awaits(config, events, k, p) && p.toplevel == h && !ListedMember(events[k].world, p.group, ws)
  }

  lemma {:induction false} BlockOfEntry(w: World, env: Env, order: seq<PendingPlacement>, b: Block)
    requires b in QueueBlocks(w, env, order)
    ensures exists p :: p in order && b in EntryBlocks(w, env, p)
  {
    hide EntryBlocks;
    var n := |order| - 1;
    if b in QueueBlocks(w, env, order[..n]) {
      BlockOfEntry(w, env, order[..n], b);
    }
  }

  /**
   Over every run a placement lands on a listed workspace that no toplevel is on in the world of its own event, or on
   one that was not listed in its group in the world in which that very toplevel asked for a new one.
   */
  lemma PlacementsTakeVacantOrNew(config: P.Config, events: seq<Event>, e: Event, b: Block)
    requires b in StepBlocks(Run(config, events), config, e) && b.Placed?
    ensures e.NewToplevel? || e.Done?
    ensures exists i: nat :: i < |e.world.workspaces| && e.world.workspaces[i].id == b.workspace
    ensures !InUse(e.world, b.workspace) || (e.Done? && CreatedSince(config, events, b.toplevel, b.workspace))
  {
    hide Run, Occupied, NewToplevelBlocks, Awaits, InUse;
    var s := Run(config, events);
    match e {
      case NewToplevel(h, w, env) => ImmediatePlacementIsVacant(s, config, h, w, env, b);
      case ToplevelClosed(h, w, env) =>
      case Done(w, env) =>
        BlockOfEntry(w, env, DrainOrder(s.pending), b);
        DrainOrderMembers(s.pending);
        var p :| p in s.pending && b in EntryBlocks(w, env, p);
        LandsOnFreshElseEmpty(w, p);
        FindGroupExact(w, p.group);
        var g: nat :| FirstNamed(w, p.group, g);
        QueuedIffUnanswered(config, events, p);
        var k: nat :| Awaits(config, events, k, p);
        AwaitedSnapshot(config, events, k, p, b.workspace);
    }
  }

  lemma AwaitedSnapshot(config: P.Config, events: seq<Event>, k: nat, p: PendingPlacement, x: Id)
    requires Awaits(config, events, k, p)
    ensures x in p.before <==> ListedMember(events[k].world, p.group, x)
  {
    hide Run, StepBlocks, ListedMember;
  }

  /** Entry `i` is where the placement goes: the first new workspace of its group, else the first no toplevel is on. */
  ghost predicate LandsAt(w: World, p: PendingPlacement, i: nat) {
    exists g: nat :: FirstNamed(w, p.group, g)
                     && if HasNew(w, g, p.before) then FirstNew(w, g, i, p.before) else FirstVacant(w, g, i)
  }

  lemma ResolvesAt(w: World, p: PendingPlacement)
    ensures Resolve(w, Aged(p)).Lands? <==> exists i: nat :: LandsAt(w, p, i)
    ensures forall i: nat | LandsAt(w, p, i) :: i < |w.workspaces| && Resolve(w, Aged(p)).ws == w.workspaces[i].id
  {
    LandsOnFreshElseEmpty(w, p);
    FindGroupExact(w, p.group);
    hide Resolve;
    if FindGroup(w, p.group).Some? {
      var g: nat :| FirstNamed(w, p.group, g);
      assert forall f: nat | FirstNamed(w, p.group, f) :: f == g;
      assert forall i: nat :: LandsAt(w, p, i) <==>
                                if HasNew(w, g, p.before) then FirstNew(w, g, i, p.before) else FirstVacant(w, g, i);
      OneFirst(w, g, p.before);
    }
  }

  lemma OneFirst(w: World, g: nat, known: set<Id>)
    ensures forall i: nat, j: nat | FirstNew(w, g, i, known) && FirstNew(w, g, j, known) :: i == j
    ensures forall i: nat, j: nat | FirstVacant(w, g, i) && FirstVacant(w, g, j) :: i == j
    ensures forall i: nat | FirstNew(w, g, i, known) :: HasNew(w, g, known)
    ensures forall i: nat | FirstVacant(w, g, i) :: HasVacant(w, g)
  {
  }

  /** What a queued placement sends when it lands on entry `i`: to its own output, then as configured. */
  function Landing(config: P.Config, env: Env, w: World, p: PendingPlacement, i: nat): Block
    requires i < |w.workspaces|
  {
    Placed(p.toplevel, w.workspaces[i].id, p.output, config.switchToWorkspace && env.managerUp, config.maximize)
  }

  /** Block `b` is the landing of a create sent by an earlier event and not answered since. */
  ghost predicate AnswersCreate(config: P.Config, events: seq<Event>, w: World, env: Env, b: Block) {
    exists k: nat, p, i: nat ::
      Awaits(config, events, k, p) && LandsAt(w, p, i) && i < |w.workspaces| && b == Landing(config, env, w, p, i)
  }

  /** After any run a settled batch sends exactly the landings of the unanswered creates that find a place. */
  lemma BatchSendsExactly(config: P.Config, events: seq<Event>, w: World, env: Env, b: Block)
    ensures b in StepBlocks(Run(config, events), config, Done(w, env)) <==> AnswersCreate(config, events, w, env, b)
  {
    var pending := Run(config, events).pending;
    hide Run, Awaits, LandsAt, EntryBlocks;
    DrainOrderMembers(pending);
    if b in QueueBlocks(w, env, DrainOrder(pending)) {
      BlockOfEntry(w, env, DrainOrder(pending), b);
      var p :| p in pending && b in EntryBlocks(w, env, p);
      QueuedIffUnanswered(config, events, p);
      var k: nat :| Awaits(config, events, k, p);
      EntryLanding(config, events, w, env, k, p);
      var i: nat :| LandsAt(w, p, i);
    }
    if AnswersCreate(config, events, w, env, b) {
      var k: nat, p, i: nat :|
        Awaits(config, events, k, p) && LandsAt(w, p, i) && i < |w.workspaces| && b == Landing(config, env, w, p, i);
      QueuedIffUnanswered(config, events, p);
      EntryLanding(config, events, w, env, k, p);
      assert b in EntryBlocks(w, env, p);
      EntryInQueue(w, env, DrainOrder(pending), p);
    }
  }

  lemma EntryLanding(config: P.Config, events: seq<Event>, w: World, env: Env, k: nat, p: PendingPlacement)
    requires Awaits(config, events, k, p)
    ensures EntryBlocks(w, env, p) == [] <==> forall i: nat :: !LandsAt(w, p, i)
    ensures forall i: nat | LandsAt(w, p, i) ::
              i < |w.workspaces| && EntryBlocks(w, env, p) == [Landing(config, env, w, p, i)]
  {
    AwaitedActions(config, events, k, p);
    ResolvesAt(w, p);
    hide Awaits, Resolve, LandsAt;
  }

  // ---- Placements follow the configuration ----

  /**
   Over every run a placement activates iff switching is asked for and the manager is bound, and maximizes iff that
   is asked for, except that a placement made at once whose activation failed does not.
   */
  lemma PlacementsFollowConfig(config: P.Config, events: seq<Event>, e: Event, b: Block)
    requires b in StepBlocks(Run(config, events), config, e) && b.Placed?
    ensures b.activated <==> config.switchToWorkspace && e.env.managerUp
    ensures b.maximized <==> config.maximize && (e.Done? || !config.switchToWorkspace || e.env.managerUp)
  {
    hide Run, Awaits, Resolve, DecisionFor;
    var s := Run(config, events);
    match e {
      case NewToplevel(h, w, env) => DecidedActions(s, config, w, FindToplevel(w, h).value);
      case ToplevelClosed(h, w, env) =>
      case Done(w, env) =>
        BlockOfEntry(w, env, DrainOrder(s.pending), b);
        DrainOrderMembers(s.pending);
        var p :| p in s.pending && b in EntryBlocks(w, env, p);
        QueuedIffUnanswered(config, events, p);
        var k: nat :| Awaits(config, events, k, p);
        AwaitedActions(config, events, k, p);
    }
  }

  lemma AwaitedActions(config: P.Config, events: seq<Event>, k: nat, p: PendingPlacement)
    requires Awaits(config, events, k, p)
    ensures p.after == P.PostPlaceActions(config.switchToWorkspace, config.maximize)
  {
    hide Run, StepBlocks;
  }

  // ---- The group a workspace is created in ----

  /** Looking an output up in the stubs is looking it up in the world. */
  lemma ListingReadsWorld(w: World, output: Id)
    ensures var found := Find(w.groups, (g: Group) => output in g.outputs);
            P.GroupListing(P.BuildWorldStub(w), output) ==
              if found.Some? then Some(P.BuildGroupStub(w, found.value)) else None
  {
    hide P.BuildGroupStub;
    var groups := P.BuildWorldStub(w);
    var listing := (g: Group) => output in g.outputs;
    forall i | 0 <= i < |groups| ensures groups[i].outputIds == w.groups[i].outputs {
      GroupStubOutputs(w, w.groups[i]);
    }
    if Find(w.groups, listing).Some? {
      var i := FoundBeforeOthers(w.groups, listing);
      FindIsFirst(groups, (g: P.WorkspaceGroupStub) => output in g.outputIds, i);
    } else {
      forall stub | stub in groups ensures output !in stub.outputIds {
        var i :| 0 <= i < |groups| && groups[i] == stub;
        assert !listing(w.groups[i]);
      }
    }
  }

  lemma GroupStubOutputs(w: World, g: Group)
    ensures P.BuildGroupStub(w, g).outputIds == g.outputs
    ensures P.BuildGroupStub(w, g).id == g.id && P.BuildGroupStub(w, g).canCreateWorkspace == g.canCreate
  {
  }

  /**
   A create request is sent in the first group listing the toplevel's first output, which need not be the group
   that was selected; with one output, listed by no two groups, and no honoured override, it is that group, and
   its create capability was checked.
   */
  lemma CreateIsInSelectedGroup(s: State, config: P.Config, h: Id, w: World, env: Env, group: Id, name: WorkspaceName)
    requires NewToplevelBlocks(s, config, h, w, env) == [Created(group, name)]
    ensures var info, groups := FindToplevel(w, h).value, P.BuildWorldStub(w);
            && info.outputs != []
            && P.CreationGroup(groups, info.outputs).Some? && P.CreationGroup(groups, info.outputs).value.id == group
            && (|info.outputs| == 1 && !P.OverrideHonoured(config, groups) && OutputsDisjoint(w) ==>
                  && P.SelectGroup(config, P.BuildInfoStub(info), groups).0 == P.CreationGroup(groups, info.outputs)
                  && P.CreationGroup(groups, info.outputs).value.canCreateWorkspace)
  {
    hide P.BuildGroupStub, P.SelectGroup, P.Decide;
    var info, groups := FindToplevel(w, h).value, P.BuildWorldStub(w);
    var decision := DecisionFor(s, config, w, info);
    DecidedActions(s, config, w, info);
    ListingReadsWorld(w, info.outputs[0]);
    GroupStubOutputs(w, Find(w.groups, (g: Group) => info.outputs[0] in g.outputs).value);
    if |info.outputs| == 1 && !P.OverrideHonoured(config, groups) && OutputsDisjoint(w) {
      DisjointStubs(w);
      P.SingleOutputCreatesInChosenGroup(config, P.BuildInfoStub(info), groups, s.handled, info.id);
    }
  }

  /** No output is listed by two groups. */
  ghost predicate OutputsDisjoint(w: World) {
    forall a, b, o | a in w.groups && b in w.groups && o in a.outputs && o in b.outputs :: a == b
  }

  lemma DisjointStubs(w: World)
    requires OutputsDisjoint(w)
    ensures var groups := P.BuildWorldStub(w);
            forall a, b, o | a in groups && b in groups && o in a.outputIds && o in b.outputIds :: a == b
  {
    hide P.BuildGroupStub;
    var groups := P.BuildWorldStub(w);
    forall a, b, o | a in groups && b in groups && o in a.outputIds && o in b.outputIds ensures a == b {
      var i :| 0 <= i < |groups| && groups[i] == a;
      var j :| 0 <= j < |groups| && groups[j] == b;
      GroupStubOutputs(w, w.groups[i]);
      GroupStubOutputs(w, w.groups[j]);
    }
  }

  // ---- Names of created workspaces ----

  predicate IsAutoNamed(b: Block) {
    b.Created? && b.name.AutoName?
  }

  /** A numbered workspace takes the counter's value and moves it on; nothing else a step sends is numbered. */
  lemma StepNames(s: State, config: P.Config, e: Event)
    ensures var on, blocks := Step(s, config, e), StepBlocks(s, config, e);
            && on.counter in {s.counter, (s.counter + 1) % 0x1_0000_0000_0000_0000}
            && forall b | b in blocks && IsAutoNamed(b) ::
                 blocks == [b] && b.name.number == s.counter && on.counter == (s.counter + 1) % 0x1_0000_0000_0000_0000
  {
    hide OnNewToplevel, NewToplevelBlocks, OnToplevelClosed, CompleteAll;
    match e {
      case NewToplevel(h, w, env) => NewToplevelNames(s, config, h, w, env);
      case ToplevelUpdated(_) =>
      case ToplevelClosed(h, w, env) => ClosedKeeps(s, config, h, w, env);
      case Done(w, env) =>
        BeforeScanKeeps(s, config, w);
        CompleteAllEmits(BeforeScan(s, config, w).(pending := []), config, w, env, DrainOrder(s.pending));
        QueueBlocksNameNothing(w, env, DrainOrder(s.pending));
      case TimerFired(_) =>
    }
  }

  lemma {:induction false} QueueBlocksNameNothing(w: World, env: Env, order: seq<PendingPlacement>)
    ensures forall b | b in QueueBlocks(w, env, order) :: !b.Created?
  {
    if order != [] {
      QueueBlocksNameNothing(w, env, order[..|order| - 1]);
    }
  }

  lemma NewToplevelNames(s: State, config: P.Config, h: Id, w: World, env: Env)
    ensures var on, blocks := OnNewToplevel(s, config, h, w, env), NewToplevelBlocks(s, config, h, w, env);
            && on.counter in {s.counter, (s.counter + 1) % 0x1_0000_0000_0000_0000}
            && forall b | b in blocks && IsAutoNamed(b) ::
                 blocks == [b] && b.name.number == s.counter && on.counter == (s.counter + 1) % 0x1_0000_0000_0000_0000
  {
    hide ConsumeWarns, PlaceOn, MemberIds, P.Decide;
    match FindToplevel(w, h) {
      case None =>
      case Some(info) =>
        var decision := DecisionFor(s, config, w, info);
        var warned := ConsumeWarns(s, decision.warns);
        ConsumeWarnsKeeps(s, decision.warns);
        if decision.action.Place? && decision.action.workspace.Existing? && info.outputs != [] {
          PlaceOnEmits(warned, config, env, info.id, decision.action.workspace.id, info.outputs[0],
                       decision.action.after, true);
        }
    }
  }

  ghost predicate NumbersBelow(blocks: seq<Block>, n: nat) {
    forall b | b in blocks && IsAutoNamed(b) :: b.name.number < n
  }

  ghost predicate NumbersDistinct(blocks: seq<Block>) {
    forall i, j | 0 <= i < j < |blocks| && IsAutoNamed(blocks[i]) && IsAutoNamed(blocks[j]) ::
      blocks[i].name.number != blocks[j].name.number
  }

  /** `blocks` uses distinct numbers, all below the counter `n`. */
  ghost predicate Numbered(blocks: seq<Block>, n: nat) {
    NumbersBelow(blocks, n) && NumbersDistinct(blocks)
  }

  lemma StepKeepsNumbered(s: State, config: P.Config, e: Event, earlier: seq<Block>)
    requires Numbered(earlier, s.counter) && s.counter + 1 < 0x1_0000_0000_0000_0000
    ensures Numbered(earlier + StepBlocks(s, config, e), Step(s, config, e).counter)
    ensures Step(s, config, e).counter <= s.counter + 1
  {
    hide Step, StepBlocks;
    StepNames(s, config, e);
    assert (s.counter + 1) % 0x1_0000_0000_0000_0000 == s.counter + 1;
    NumbersExtend(earlier, StepBlocks(s, config, e), s.counter, Step(s, config, e).counter);
  }

  /** Until the counter could have wrapped, no two workspaces of a session are requested under one number. */
  lemma {:induction false} AutoNamesAreDistinct(config: P.Config, events: seq<Event>)
    requires |events| < 0x1_0000_0000_0000_0000
    ensures Run(config, events).counter <= |events|
    ensures Numbered(RunBlocks(Fresh(), config, events), Run(config, events).counter)
  {
    if events != [] {
      hide Step, StepBlocks, Numbered;
      var init := events[..|events| - 1];
      AutoNamesAreDistinct(config, init);
      StepKeepsNumbered(Run(config, init), config, events[|events| - 1], RunBlocks(Fresh(), config, init));
    }
  }

  lemma NumbersExtend(earlier: seq<Block>, blocks: seq<Block>, n: nat, m: nat)
    requires NumbersBelow(earlier, n) && NumbersDistinct(earlier) && n <= m
    requires forall b | b in blocks && IsAutoNamed(b) :: blocks == [b] && b.name.number == n && m == n + 1
    ensures NumbersBelow(earlier + blocks, m) && NumbersDistinct(earlier + blocks)
  {
    var all := earlier + blocks;
    forall i, j | 0 <= i < j < |all| && IsAutoNamed(all[i]) && IsAutoNamed(all[j])
      ensures all[i].name.number != all[j].name.number
    {
      if j >= |earlier| {
        assert all[j] in blocks;
        assert all[i] in earlier;
      }
    }
  }
}
