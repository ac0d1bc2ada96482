/**
 What one announced toplevel makes the daemon send, remember and warn, read off the world, the toplevel and the
 configuration themselves.
 */
module Announcement {
  import opened Wrappers
  import opened Snapshot
  import opened Session
  import opened Wire
  import P = Placement
  import Policy
  import Deferred

  /** The name asked for: the toplevel's app id, or the counter's number when it has none. */
  function NameWanted(s: State, t: Toplevel): WorkspaceName {
    if t.appId != "" then AppName(t.appId) else AutoName(s.counter)
  }

  /** The placement of `t` on workspace `x` at once: a failed activation takes the maximize with it. */
  function PlacedAtOnce(config: P.Config, env: Env, t: Toplevel, x: Id): Block
    requires t.outputs != []
  {
    Placed(t.id, x, t.outputs[0], config.switchToWorkspace && env.managerUp,
           config.maximize && (config.switchToWorkspace ==> env.managerUp))
  }

  lemma Announced(s: State, config: P.Config, h: Id, w: World, env: Env, k: nat)
    requires FirstToplevel(w, h, k)
    ensures FindToplevel(w, h) == Some(w.toplevels[k]) && w.toplevels[k].id == h
    ensures DecisionFor(s, config, w, w.toplevels[k]) == Policy.Decision(config, s.handled, w, w.toplevels[k])
  {
    FindToplevelExact(w, h);
  }

  /**
   Everything a new toplevel makes the daemon send: it is placed on the first vacant entry of its chosen group; or a
   workspace is asked for in the first group on its first output, if there is one and the manager is bound; or nothing.
   */
  lemma SendsExactly(s: State, config: P.Config, h: Id, w: World, env: Env, k: nat)
    requires FirstToplevel(w, h, k)
    ensures var t, blocks := w.toplevels[k], StepBlocks(s, config, NewToplevel(h, w, env));
            && (forall i: nat | Policy.WantsEntry(config, s.handled, w, t, i) ::
                  i < |w.workspaces| && t.outputs != [] && blocks == [PlacedAtOnce(config, env, t, w.workspaces[i].id)])
            && (Policy.WantsNew(config, s.handled, w, t) ==>
                  && t.outputs != []
                  && (forall g: nat | FirstOnOutput(w, t.outputs[0], g) && env.managerUp ::
                        blocks == [Created(w.groups[g].id, NameWanted(s, t))])
                  && ((!env.managerUp || forall g: nat :: !FirstOnOutput(w, t.outputs[0], g)) ==> blocks == []))
            && (Policy.WantsNew(config, s.handled, w, t)
                || (exists i: nat :: Policy.WantsEntry(config, s.handled, w, t, i))
                || blocks == [])
  {
    var t := w.toplevels[k];
    Announced(s, config, h, w, env, k);
    Policy.PlacesExactly(config, s.handled, w, t);
    var action := DecisionFor(s, config, w, t).action;
    assert StepBlocks(s, config, NewToplevel(h, w, env)) ==
           if action.Place? then PlaceBlocks(s, w, env, t, action.workspace, action.after) else [];
    WantsAreAdmitted(config, s.handled, w, t);
    hide DecisionFor, Policy.Decision, Policy.WantsNew, Policy.WantsEntry, StepBlocks, FindWorkspace, FirstOnOutput,
         PlaceBlocks;
    if t.outputs != [] && t.cosmicPresent {
      var after := P.PostPlaceActions(config.switchToWorkspace, config.maximize);
      CreateExactly(s, config, w, env, t, after);
      forall x ensures PlaceBlocks(s, w, env, t, P.Existing(x), after) ==
                       if FindWorkspace(w, x).Some? then [PlacedAtOnce(config, env, t, x)] else [] {
        ExistingExactly(s, config, w, env, t, x);
      }
      forall i: nat | i < |w.workspaces| ensures FindWorkspace(w, w.workspaces[i].id).Some? {
        FindWorkspaceExact(w, w.workspaces[i].id);
      }
    }
  }

  lemma WantsAreAdmitted(config: P.Config, handled: set<Id>, w: World, t: Toplevel)
    ensures Policy.WantsNew(config, handled, w, t) ==> t.outputs != [] && t.cosmicPresent
    ensures forall i: nat | Policy.WantsEntry(config, handled, w, t, i) ::
              t.outputs != [] && t.cosmicPresent && i < |w.workspaces|
  {
  }

  lemma ExistingExactly(s: State, config: P.Config, w: World, env: Env, t: Toplevel, x: Id)
    requires t.outputs != [] && t.cosmicPresent
    ensures PlaceBlocks(s, w, env, t, P.Existing(x), P.PostPlaceActions(config.switchToWorkspace, config.maximize)) ==
            if FindWorkspace(w, x).Some? then [PlacedAtOnce(config, env, t, x)] else []
  {
  }

  lemma CreateExactly(s: State, config: P.Config, w: World, env: Env, t: Toplevel, after: P.PostPlaceActions)
    requires t.outputs != [] && t.cosmicPresent
    ensures var blocks := PlaceBlocks(s, w, env, t, P.Create, after);
            && (forall g: nat | FirstOnOutput(w, t.outputs[0], g) && env.managerUp ::
                  g < |w.groups| && blocks == [Created(w.groups[g].id, NameWanted(s, t))])
            && ((!env.managerUp || forall g: nat :: !FirstOnOutput(w, t.outputs[0], g)) ==> blocks == [])
  {
    Deferred.FirstOnOutputExact(w, t.outputs[0]);
  }

  /** An announcement that no entry of the toplevel list answers sends nothing and changes nothing. */
  lemma UnknownIsIgnored(s: State, config: P.Config, h: Id, w: World, env: Env)
    requires forall t | t in w.toplevels :: t.id != h
    ensures Step(s, config, NewToplevel(h, w, env)) == s
  {
    FindToplevelExact(w, h);
  }

  // ---- The handled set ----

  /** Event `k` announced `h` with an entry for it in the toplevel list, and `h` has not closed since. */
  ghost predicate AnnouncedAt(events: seq<Event>, k: nat, h: Id) {
    && k < |events| && events[k].NewToplevel? && events[k].toplevel == h
    && (exists t :: t in events[k].world.toplevels && t.id == h)
    && forall j | k < j < |events| :: !(events[j].ToplevelClosed? && events[j].toplevel == h)
  }

  ghost predicate AnnouncedAndOpen(events: seq<Event>, h: Id) {
    exists k: nat :: AnnouncedAt(events, k, h)
  }

  lemma StepHandles(s: State, config: P.Config, e: Event, h: Id)
    ensures h in Step(s, config, e).handled <==>
              || (h in s.handled && !(e.ToplevelClosed? && e.toplevel == h))
              || (e.NewToplevel? && e.toplevel == h && exists t :: t in e.world.toplevels && t.id == h)
  {
    hide ExecutePlace, ConsumeWarns, CompleteAll, P.Decide, RenderAll, PlaceBlocks, OnToplevelClosed;
    match e {
      case NewToplevel(x, w, env) =>
        FindToplevelExact(w, x);
        match FindToplevel(w, x) {
          case None =>
          case Some(info) =>
            var decision := DecisionFor(s, config, w, info);
            var warned := ConsumeWarns(s, decision.warns);
            ConsumeWarnsKeeps(s, decision.warns);
            assert info in w.toplevels && info.id == x;
            if decision.action.Place? {
              ExecutePlaceEmits(warned, config, w, env, info, decision.action.workspace, decision.action.after);
            }
        }
      case ToplevelUpdated(_) =>
      case ToplevelClosed(x, w, env) => ClosedKeeps(s, config, x, w, env);
      case Done(w, env) =>
        BeforeScanKeeps(s, config, w);
        CompleteAllEmits(BeforeScan(s, config, w).(pending := []), config, w, env, DrainOrder(s.pending));
      case TimerFired(_) =>
    }
  }

  lemma AnnouncedOneMore(events: seq<Event>, h: Id)
    requires events != []
    ensures var init, e := events[..|events| - 1], events[|events| - 1];
            AnnouncedAndOpen(events, h) <==>
              || (AnnouncedAndOpen(init, h) && !(e.ToplevelClosed? && e.toplevel == h))
              || (e.NewToplevel? && e.toplevel == h && exists t :: t in e.world.toplevels && t.id == h)
  {
    var n := |events| - 1;
    var init, e := events[..n], events[n];
    if k: nat :| AnnouncedAt(init, k, h) && !(e.ToplevelClosed? && e.toplevel == h) {
      assert AnnouncedAt(events, k, h);
    }
    if e.NewToplevel? && e.toplevel == h && exists t :: t in e.world.toplevels && t.id == h {
      assert AnnouncedAt(events, n, h);
    }
    if k: nat :| AnnouncedAt(events, k, h) && k < n {
      assert AnnouncedAt(init, k, h);
    }
  }

  /** After every run a toplevel is handled iff it was announced, placed or skipped alike, and has not closed since. */
  lemma {:induction false} HandledIffAnnounced(config: P.Config, events: seq<Event>, h: Id)
    ensures h in Run(config, events).handled <==> AnnouncedAndOpen(events, h)
  {
    if events != [] {
      hide Step, AnnouncedAndOpen;
      var init, e := events[..|events| - 1], events[|events| - 1];
      HandledIffAnnounced(config, init, h);
      StepHandles(Run(config, init), config, e, h);
      AnnouncedOneMore(events, h);
    }
  }
}
