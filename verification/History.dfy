/**
 The visit index over whole sessions: what the bounded list holds after any run, which workspace a close
 jumps to, and the front of each group.
 */
module History {
  import opened Wrappers
  import opened Snapshot
  import opened Session
  import opened Wire
  import P = Placement
  import J = Jump
  import JI = JumpInput
  import Mru

  /** Every visit recorded over a run, oldest first. */
  function Visits(config: P.Config, events: seq<Event>): seq<Id> {
    if events == [] then []
    else
      var init := events[..|events| - 1];
      Visits(config, init) +
        match events[|events| - 1]
        case Done(w, _) =>
          if config.jumpOnEmpty then Mru.Detected(Run(config, init).lastKnown, Mru.ActivePairs(w, w.groups)).1 else []
        case _ => []
  }

  lemma NewToplevelKeepsIndex(s: State, config: P.Config, h: Id, w: World, env: Env)
    ensures var on := OnNewToplevel(s, config, h, w, env);
            on.recent == s.recent && on.lastKnown == s.lastKnown
  {
    hide ExecutePlace, ConsumeWarns, PlaceBlocks, RenderAll;
    match FindToplevel(w, h) {
      case None =>
      case Some(info) =>
        var decision := DecisionFor(s, config, w, info);
        ConsumeWarnsKeeps(s, decision.warns);
        if decision.action.Place? {
          ExecutePlaceEmits(ConsumeWarns(s, decision.warns), config, w, env, info, decision.action.workspace,
                            decision.action.after);
        }
    }
  }

  lemma DoneRecords(s: State, config: P.Config, w: World, env: Env)
    ensures var on, visited := OnDone(s, config, w, env), if config.jumpOnEmpty then RecordVisits(s, w) else s;
            on.recent == visited.recent && on.lastKnown == visited.lastKnown
  {
    hide Complete, RenderAll;
    BeforeScanKeeps(s, config, w);
    CompleteAllEmits(BeforeScan(s, config, w).(pending := []), config, w, env, DrainOrder(s.pending));
  }

  /** Only a settled batch touches the index, and only when the feature is on. */
  lemma StepIndex(s: State, config: P.Config, e: Event)
    ensures var on := Step(s, config, e);
            if e.Done? && config.jumpOnEmpty
            then on.recent == RecordVisits(s, e.world).recent && on.lastKnown == RecordVisits(s, e.world).lastKnown
            else on.recent == s.recent && on.lastKnown == s.lastKnown
  {
    hide OnNewToplevel, OnToplevelClosed, OnDone, RecordVisits;
    match e {
      case NewToplevel(h, w, env) => NewToplevelKeepsIndex(s, config, h, w, env);
      case ToplevelUpdated(_) =>
      case ToplevelClosed(h, w, env) => ClosedKeeps(s, config, h, w, env);
      case Done(w, env) => DoneRecords(s, config, w, env);
      case TimerFired(_) =>
    }
  }

  /** After every run the bounded list is the top of the whole session's visit history. */
  lemma {:induction false} IndexIsTopOfSessionHistory(config: P.Config, events: seq<Event>)
    ensures Run(config, events).recent == Mru.RecordAll([], Visits(config, events), Mru.MRU_CAP)
    ensures Run(config, events).recent == Mru.Truncate(Mru.ByLatestVisit(Visits(config, events)), 16)
  {
    if events != [] {
      hide Step;
      var init, e := events[..|events| - 1], events[|events| - 1];
      var s := Run(config, init);
      IndexIsTopOfSessionHistory(config, init);
      StepIndex(s, config, e);
      if e.Done? && config.jumpOnEmpty {
        var visits := Mru.Detected(s.lastKnown, Mru.ActivePairs(e.world, e.world.groups)).1;
        Mru.RecordAllAppend([], Visits(config, init), visits, Mru.MRU_CAP);
      } else {
        assert Visits(config, events) == Visits(config, init);
      }
    }
    Mru.BoundedIndexIsTopOfHistory(Visits(config, events), Mru.MRU_CAP);
  }

  /** Entry `i` of the closing toplevel's workspaces is the first of them that should be left. */
  ghost predicate FirstToLeave(w: World, h: Id, k: nat, i: nat) {
    && FirstToplevel(w, h, k)
    && i < |w.toplevels[k].workspaces| && JI.ShouldLeave(w, h, w.toplevels[k].workspaces[i])
    && forall j | 0 <= j < i :: !JI.ShouldLeave(w, h, w.toplevels[k].workspaces[j])
  }

  /** Some workspace of the closing toplevel should be left. */
  ghost predicate CloseShouldJump(w: World, h: Id) {
    exists k: nat, x :: FirstToplevel(w, h, k) && x in w.toplevels[k].workspaces && JI.ShouldLeave(w, h, x)
  }

  /** The jump a close sends, if any. */
  ghost predicate SendsJump(s: State, config: P.Config, h: Id, w: World, env: Env, target: Id) {
    StepBlocks(s, config, ToplevelClosed(h, w, env)) == [Jumped(target)]
  }

  /**
   In any state a close activates a workspace iff the feature is on, the manager is up and some workspace of the
   closing toplevel shows active, carries no other toplevel, and has a neighbour in the first group containing it
   that some other toplevel is on; otherwise it sends nothing.
   */
  lemma CloseActivatesIff(s: State, config: P.Config, h: Id, w: World, env: Env)
    requires DistinctGroupIds(w)
    ensures (exists target :: SendsJump(s, config, h, w, env, target)) <==>
              config.jumpOnEmpty && env.managerUp && CloseShouldJump(w, h)
    ensures !(config.jumpOnEmpty && env.managerUp && CloseShouldJump(w, h)) ==>
              StepBlocks(s, config, ToplevelClosed(h, w, env)) == []
  {
    hide JumpOutcome, CloseShouldJump;
    var out := JumpOutcome(s, h, w);
    CloseOutcome(s, h, w);
    if config.jumpOnEmpty && env.managerUp && out.Jump? {
      assert SendsJump(s, config, h, w, env, out.target);
    }
  }

  lemma CloseOutcome(s: State, h: Id, w: World)
    requires DistinctGroupIds(w)
    ensures JumpOutcome(s, h, w).Jump? <==> CloseShouldJump(w, h)
    ensures JumpOutcome(s, h, w).Jump? ==>
              && FindWorkspace(w, JumpOutcome(s, h, w).target).Some?
              && exists k: nat, i: nat :: FirstToLeave(w, h, k, i)
                                          && JumpOutcome(s, h, w).source == w.toplevels[k].workspaces[i]
  {
    FindToplevelExact(w, h);
    hide J.Outcome, JI.BuildTriggerInput, JI.ShouldLeave, JI.EligibleId, FirstToplevel;
    match FindToplevel(w, h) {
      case None =>
        assert forall k: nat :: !FirstToplevel(w, h, k) by { NoToplevel(w, h); }
      case Some(t) =>
        var k: nat :| FirstToplevel(w, h, k);
        JI.JumpsIffShouldLeave(w, h, t.workspaces, s.recent);
        if JumpOutcome(s, h, w).Jump? {
          var i: nat :| i < |t.workspaces| && JumpOutcome(s, h, w).source == t.workspaces[i]
                        && JI.ShouldLeave(w, h, t.workspaces[i])
                        && forall j | 0 <= j < i :: !JI.ShouldLeave(w, h, t.workspaces[j]);
          assert FirstToLeave(w, h, k, i) by { Names(w, h, k); }
          TargetIsListed(s, h, w, t);
        }
        if x :| x in t.workspaces && JI.ShouldLeave(w, h, x) {
          Names(w, h, k);
        }
    }
  }

  lemma NoToplevel(w: World, h: Id)
    requires FindToplevel(w, h).None?
    ensures forall k: nat :: !FirstToplevel(w, h, k)
  {
    FindToplevelExact(w, h);
  }

  lemma Names(w: World, h: Id, k: nat)
    requires FirstToplevel(w, h, k)
    ensures k < |w.toplevels| && FindToplevel(w, h) == Some(w.toplevels[k])
  {
    FindToplevelExact(w, h);
  }

  lemma TargetIsListed(s: State, h: Id, w: World, t: Toplevel)
    requires DistinctGroupIds(w) && FindToplevel(w, h) == Some(t) && JumpOutcome(s, h, w).Jump?
    ensures FindWorkspace(w, JumpOutcome(s, h, w).target).Some?
  {
    hide J.Outcome, JI.BuildTriggerInput, JI.ShouldLeave, FirstHolding, KeptBusy;
    JI.JumpIsSound(w, h, t.workspaces, s.recent);
    FindWorkspaceExact(w, JumpOutcome(s, h, w).target);
  }

  /** A jump of toplevel `k`'s close: it leaves workspace `x` of it for `target`, both of group `g`. */
  ghost predicate LeavesFor(w: World, h: Id, k: nat, i: nat, g: nat, target: Id) {
    && FirstToLeave(w, h, k, i)
    && FirstHolding(w, w.toplevels[k].workspaces[i], g)
    && JI.EligibleId(w, h, w.toplevels[k].workspaces[i], g, target)
  }

  /**
   In any state a jump leaves the first workspace of the closing toplevel that should be left, for another listed
   workspace of the first group containing it that some other toplevel is on.
   */
  lemma JumpStaysInGroup(s: State, config: P.Config, h: Id, w: World, env: Env, target: Id)
    requires DistinctGroupIds(w) && SendsJump(s, config, h, w, env, target)
    ensures exists k: nat, i: nat, g: nat ::
              LeavesFor(w, h, k, i, g, target) && JumpOutcome(s, h, w).source == w.toplevels[k].workspaces[i]
  {
    hide J.Outcome, JI.BuildTriggerInput, JI.ShouldLeave, JI.EligibleId, FirstHolding;
    assert FindToplevel(w, h).Some? && JumpOutcome(s, h, w).Jump? && JumpOutcome(s, h, w).target == target;
    CloseOutcome(s, h, w);
    var k: nat, i: nat :| FirstToLeave(w, h, k, i) && JumpOutcome(s, h, w).source == w.toplevels[k].workspaces[i];
    Names(w, h, k);
    JI.JumpIsSound(w, h, w.toplevels[k].workspaces, s.recent);
    var g: nat :| FirstHolding(w, JumpOutcome(s, h, w).source, g)
                  && JI.EligibleId(w, h, JumpOutcome(s, h, w).source, g, target);
    assert LeavesFor(w, h, k, i, g, target);
  }

  /**
   After any run that target is the latest visited such workspace in the session's whole history, or, when none is
   among the 16 most recently visited, the least of them by coordinates then id.
   */
  lemma JumpGoesToLatestVisited(config: P.Config, events: seq<Event>, h: Id, w: World, env: Env, target: Id)
    requires DistinctGroupIds(w)
    requires SendsJump(Run(config, events), config, h, w, env, target)
    ensures exists k: nat, i: nat, g: nat ::
              LeavesFor(w, h, k, i, g, target)
              && JI.BestTarget(w, h, w.toplevels[k].workspaces[i], g, target, Visits(config, events), 16)
  {
    var s := Run(config, events);
    hide Run, J.Outcome, JI.BuildTriggerInput, JI.BestTarget, JI.ShouldLeave, JI.EligibleId, Mru.RecordAll,
         FirstHolding;
    IndexIsTopOfSessionHistory(config, events);
    JumpStaysInGroup(s, config, h, w, env, target);
    var k: nat, i: nat, g: nat :|
      LeavesFor(w, h, k, i, g, target) && JumpOutcome(s, h, w).source == w.toplevels[k].workspaces[i];
    Names(w, h, k);
    assert JumpOutcome(s, h, w).target == target;
    JI.JumpTargetIsBest(w, h, w.toplevels[k].workspaces, Visits(config, events), Mru.MRU_CAP);
    var source := w.toplevels[k].workspaces[i];
    var f: nat :| FirstHolding(w, source, f)
                  && JI.BestTarget(w, h, source, f, target, Visits(config, events), Mru.MRU_CAP);
    HoldingUnique(w, source, f, g);
  }

  lemma HoldingUnique(w: World, x: Id, f: nat, g: nat)
    requires FirstHolding(w, x, f) && FirstHolding(w, x, g)
    ensures f == g
  {
  }

  // ---- Group fronts ----

  /** The groups of `w` partition workspaces the way `home` says. */
  ghost predicate Respects(w: World, home: Id -> Id) {
    forall g, x | g in w.groups && x in g.workspaces :: home(x) == g.id
  }

  /**
   With a fixed partition of workspaces into groups, after every run the first entry of each group in the
   list is that group's last known active workspace, however the other groups' visits evict entries.
   */
  lemma {:induction false} FirstOfGroupIsLastKnown(config: P.Config, events: seq<Event>, home: Id -> Id)
    requires forall e | e in events && e.Done? :: Respects(e.world, home)
    ensures Mru.GroupFronts(Run(config, events).recent, Run(config, events).lastKnown, home, {})
  {
    if events != [] {
      hide Step;
      var init, e := events[..|events| - 1], events[|events| - 1];
      var s := Run(config, init);
      FirstOfGroupIsLastKnown(config, init, home);
      StepIndex(s, config, e);
      if e.Done? && config.jumpOnEmpty {
        var w := e.world;
        assert e in events;
        Mru.ActivePairsFromGroups(w, w.groups);
        Mru.BatchKeepsGroupFronts(s.recent, s.lastKnown, home, Mru.ActivePairs(w, w.groups), Mru.MRU_CAP);
      }
    }
  }

  /** Read off the list: whatever entry of group `g` comes first is the group's last known workspace. */
  lemma FirstEntryAfterRun(config: P.Config, events: seq<Event>, home: Id -> Id, i: nat)
    requires forall e | e in events && e.Done? :: Respects(e.world, home)
    requires i < |Run(config, events).recent|
    requires forall j | 0 <= j < i :: home(Run(config, events).recent[j]) != home(Run(config, events).recent[i])
    ensures var s := Run(config, events);
            home(s.recent[i]) in s.lastKnown && s.lastKnown[home(s.recent[i])] == s.recent[i]
  {
    hide Run;
    var s := Run(config, events);
    FirstOfGroupIsLastKnown(config, events, home);
    Mru.FirstMemberIsLastKnown(s.recent, s.lastKnown, home, {}, home(s.recent[i]), i);
  }

  // ---- What counts as a visit ----

  /** Batch `k` showed `x` as the first active workspace of the group, and no later batch showed it another one. */
  ghost predicate LastShownAt(events: seq<Event>, k: nat, groupId: Id, x: Id) {
    && k < |events| && events[k].Done? && Mru.ShowsVisit(events[k].world, groupId, x)
    && forall j, y | k < j < |events| && events[j].Done? :: !Mru.ShowsVisit(events[j].world, groupId, y)
  }

  ghost predicate LastShown(events: seq<Event>, groupId: Id, x: Id) {
    exists k: nat :: LastShownAt(events, k, groupId, x)
  }

  ghost predicate DistinctInBatches(events: seq<Event>) {
    forall e | e in events && e.Done? :: DistinctGroupIds(e.world)
  }

  lemma LastShownOneMore(events: seq<Event>, groupId: Id, x: Id)
    requires events != []
    ensures var init, e := events[..|events| - 1], events[|events| - 1];
            LastShown(events, groupId, x) <==>
              if e.Done? && exists y :: Mru.ShowsVisit(e.world, groupId, y) then Mru.ShowsVisit(e.world, groupId, x)
              else LastShown(init, groupId, x)
  {
    hide Mru.ShowsVisit;
    var n := |events| - 1;
    var init, e := events[..n], events[n];
    if e.Done? && Mru.ShowsVisit(e.world, groupId, x) {
      assert LastShownAt(events, n, groupId, x);
    }
    if k: nat :| LastShownAt(init, k, groupId, x) && !(e.Done? && exists y :: Mru.ShowsVisit(e.world, groupId, y)) {
      assert LastShownAt(events, k, groupId, x);
    }
    if k: nat :| LastShownAt(events, k, groupId, x) && k < n {
      assert LastShownAt(init, k, groupId, x);
    }
  }

  /** What one batch makes of the last known workspaces, and which workspaces it visits. */
  lemma BatchVisits(known: map<Id, Id>, w: World, groupId: Id, x: Id)
    requires DistinctGroupIds(w)
    ensures var (on, visits) := Mru.Detected(known, Mru.ActivePairs(w, w.groups));
            && (groupId in on && on[groupId] == x <==>
                  if exists y :: Mru.ShowsVisit(w, groupId, y) then Mru.ShowsVisit(w, groupId, x)
                  else groupId in known && known[groupId] == x)
            && (x in visits <==> exists g :: Mru.ShowsVisit(w, g, x) && !(g in known && known[g] == x))
  {
    var batch := Mru.ActivePairs(w, w.groups);
    Mru.ActivePairsDistinct(w, w.groups);
    Mru.DetectedExact(known, batch);
    hide Mru.ShowsVisit, Mru.Detected, Mru.ActivePairs;
    forall g, y ensures Mru.ActivePair(g, y) in batch <==> Mru.ShowsVisit(w, g, y) {
      Mru.PairsAreVisits(w, Mru.ActivePair(g, y));
    }
    Mru.ChangedExact(known, batch, x);
    if y :| Mru.ShowsVisit(w, groupId, y) {
      assert Mru.ActivePair(groupId, y) in batch;
      OneVisit(batch, groupId, y);
      assert Mru.ShowsVisit(w, groupId, x) ==> Mru.ActivePair(groupId, x) in batch;
    } else {
      assert groupId !in Mru.GroupsIn(batch) by {
        forall p | p in batch ensures p.group != groupId {
          assert p == Mru.ActivePair(p.group, p.workspace);
        }
      }
    }
    if g :| Mru.ShowsVisit(w, g, x) && !(g in known && known[g] == x) {
      assert Mru.ActivePair(g, x) in batch;
    }
    if p :| p in batch && p.workspace == x && !(p.group in known && known[p.group] == x) {
      assert p == Mru.ActivePair(p.group, x);
    }
  }

  lemma OneVisit(batch: seq<Mru.ActivePair>, g: Id, y: Id)
    requires Mru.DistinctPairGroups(batch) && Mru.ActivePair(g, y) in batch
    ensures forall x | Mru.ActivePair(g, x) in batch :: x == y
  {
  }

  /**
   With the feature on and unique group ids, after every run a group's last known workspace is the one the latest batch
   showing it an active one showed, and a batch visits exactly the first active workspaces that were not that before.
   */
  lemma {:induction false} LastKnownIffShown(config: P.Config, events: seq<Event>, groupId: Id, x: Id)
    requires config.jumpOnEmpty && DistinctInBatches(events)
    ensures var known := Run(config, events).lastKnown;
            groupId in known && known[groupId] == x <==> LastShown(events, groupId, x)
  {
    if events != [] {
      hide Step, LastShown, Mru.ShowsVisit, Mru.Detected, Mru.ActivePairs;
      var init, e := events[..|events| - 1], events[|events| - 1];
      assert e in events && forall d | d in init :: d in events;
      LastKnownIffShown(config, init, groupId, x);
      StepIndex(Run(config, init), config, e);
      LastShownOneMore(events, groupId, x);
      if e.Done? {
        BatchVisits(Run(config, init).lastKnown, e.world, groupId, x);
      }
    }
  }

  /** The visits recorded by the batch after a run. */
  lemma VisitsExactly(config: P.Config, events: seq<Event>, w: World, env: Env, x: Id)
    requires config.jumpOnEmpty && DistinctInBatches(events) && DistinctGroupIds(w)
    ensures var visits := Visits(config, events + [Done(w, env)]);
            && |Visits(config, events)| <= |visits| && visits[..|Visits(config, events)|] == Visits(config, events)
            && (x in visits[|Visits(config, events)|..] <==>
                  exists g :: Mru.ShowsVisit(w, g, x) && !LastShown(events, g, x))
  {
    hide Run, LastShown, Mru.ShowsVisit, Mru.Detected, Mru.ActivePairs;
    var all := events + [Done(w, env)];
    assert all[..|all| - 1] == events;
    BatchVisits(Run(config, events).lastKnown, w, 0, x);
    forall g ensures (g in Run(config, events).lastKnown && Run(config, events).lastKnown[g] == x) <==>
                     LastShown(events, g, x)
    {
      LastKnownIffShown(config, events, g, x);
    }
  }
}
