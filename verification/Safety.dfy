/**
 Safety over whole runs: what the handled set and the placement queue keep between handlers, and how often a
 toplevel is moved in its lifetime.
 */
module Safety {
  import opened Wrappers
  import opened Snapshot
  import opened Session
  import opened Wire
  import P = Placement

  // ---- The queue and the handled set ----

  /** Queued placements are for distinct, handled toplevels, and none has been scanned yet. */
  ghost predicate QueueInv(s: State) {
    && DistinctToplevels(s.pending)
    && (forall p | p in s.pending :: p.toplevel in s.handled)
    && (forall p | p in s.pending :: p.cyclesWaited == 0)
  }

  ghost predicate Queued(s: State, h: Id) {
    exists p :: p in s.pending && p.toplevel == h
  }

  /** The toplevels announced and not closed since. */
  function Open(events: seq<Event>): set<Id> {
    if events == [] then {}
    else
      var before := Open(events[..|events| - 1]);
      match events[|events| - 1]
      case NewToplevel(h, _, _) => before + {h}
      case ToplevelClosed(h, _, _) => before - {h}
      case _ => before
  }

  lemma {:induction false} EvictKeepsDistinct(q: seq<PendingPlacement>, h: Id)
    requires DistinctToplevels(q)
    ensures DistinctToplevels(Evict(q, h))
  {
    if q != [] {
      EvictKeepsDistinct(q[1..], h);
      var rest := Evict(q[1..], h);
      var kept := Evict(q, h);
      if q[0].toplevel != h {
        assert kept == [q[0]] + rest;
        forall i, j | 0 <= i < j < |kept| ensures kept[i].toplevel != kept[j].toplevel {
          if i == 0 {
            assert rest[j - 1] in rest;
            var k :| 0 <= k < |q| - 1 && q[1..][k] == rest[j - 1];
            assert q[k + 1] == rest[j - 1];
          }
        }
      } else {
        assert kept == rest;
      }
    }
  }

  /** Everything a new toplevel can do to the handled set, the queue and the wire. */
  lemma NewToplevelEffect(s: State, config: P.Config, h: Id, w: World, env: Env)
    ensures var on, blocks := OnNewToplevel(s, config, h, w, env), NewToplevelBlocks(s, config, h, w, env);
            && (on.handled == s.handled + {h} || (on == s && blocks == []))
            && (on.pending == s.pending || exists after :: Enqueued(s, on, h, after))
            && (h in s.handled ==> on.pending == s.pending && blocks == [])
            && (forall x | x != h :: About(blocks, x) == [])
            && |About(blocks, h)| <= 1
            && (on.pending != s.pending ==> About(blocks, h) == [])
  {
    hide ExecutePlace, ConsumeWarns, PlaceBlocks;
    match FindToplevel(w, h) {
      case None =>
      case Some(info) =>
        var decision := DecisionFor(s, config, w, info);
        var warned := ConsumeWarns(s, decision.warns);
        ConsumeWarnsKeeps(s, decision.warns);
        if decision.action.Place? {
          var target, after := decision.action.workspace, decision.action.after;
          ExecutePlaceEmits(warned, config, w, env, info, target, after);
          PlaceBlocksNamed(s, w, env, info, target, after);
          SameBlocks(s, warned, w, env, info, target, after);
          var on := OnNewToplevel(s, config, h, w, env);
          assert on.pending != s.pending ==> Enqueued(s, on, h, after);
        }
    }
  }

  lemma PlaceBlocksNamed(s: State, w: World, env: Env, info: Toplevel, target: P.WorkspaceTarget,
                         after: P.PostPlaceActions)
    ensures var blocks := PlaceBlocks(s, w, env, info, target, after);
            && |blocks| <= 1
            && (forall x | x != info.id :: About(blocks, x) == [])
            && |About(blocks, info.id)| <= 1
            && ((forall b | b in blocks :: b.Created?) ==> About(blocks, info.id) == [])
  {
    var blocks := PlaceBlocks(s, w, env, info, target, after);
    if blocks != [] {
      assert blocks[1..] == [] && blocks[0] in blocks;
    }
  }

  lemma DoneEffect(s: State, config: P.Config, w: World, env: Env)
    ensures var on := OnDone(s, config, w, env);
            on.handled == s.handled && on.pending == []
  {
    hide Complete, RenderAll;
    CompleteAllEmits(BeforeScan(s, config, w).(pending := []), config, w, env, DrainOrder(s.pending));
  }

  lemma StepKeepsQueueInv(s: State, config: P.Config, e: Event)
    requires QueueInv(s)
    ensures QueueInv(Step(s, config, e))
  {
    hide OnNewToplevel, OnToplevelClosed, OnDone, NewToplevelBlocks;
    match e {
      case NewToplevel(h, w, env) =>
        NewToplevelEffect(s, config, h, w, env);
        var on := OnNewToplevel(s, config, h, w, env);
        if on.pending != s.pending {
          var after :| Enqueued(s, on, h, after);
          assert on.pending == s.pending + [on.pending[|s.pending|]];
        }
      case ToplevelUpdated(_) =>
      case ToplevelClosed(h, w, env) =>
        ClosedKeeps(s, config, h, w, env);
        EvictKeepsDistinct(s.pending, h);
      case Done(w, env) =>
        DoneEffect(s, config, w, env);
      case TimerFired(_) =>
    }
  }

  lemma StepHandled(s: State, config: P.Config, e: Event, open: set<Id>)
    requires s.handled <= open
    ensures Step(s, config, e).handled <= match e
                                          case NewToplevel(h, _, _) => open + {h}
                                          case ToplevelClosed(h, _, _) => open - {h}
                                          case _ => open
  {
    hide OnNewToplevel, OnToplevelClosed, OnDone, NewToplevelBlocks;
    match e {
      case NewToplevel(h, w, env) => NewToplevelEffect(s, config, h, w, env);
      case ToplevelUpdated(_) =>
      case ToplevelClosed(h, w, env) => ClosedKeeps(s, config, h, w, env);
      case Done(w, env) => DoneEffect(s, config, w, env);
      case TimerFired(_) =>
    }
  }

  /**
   Over every event sequence: pending placements are for distinct toplevels, all of them handled, and only
   open toplevels are handled.
   */
  lemma {:induction false} QueueWithinHandledWithinOpen(config: P.Config, events: seq<Event>)
    ensures QueueInv(Run(config, events))
    ensures Run(config, events).handled <= Open(events)
  {
    if events != [] {
      hide Step;
      var init, e := events[..|events| - 1], events[|events| - 1];
      QueueWithinHandledWithinOpen(config, init);
      StepKeepsQueueInv(Run(config, init), config, e);
      StepHandled(Run(config, init), config, e, Open(init));
    }
  }

  // ---- Moves per lifetime ----

  /** How many move requests for `h` are among the blocks. */
  function MovesOf(blocks: seq<Block>, h: Id): nat {
    |About(blocks, h)|
  }

  function MovesSent(rs: seq<Request>, h: Id): nat {
    if rs == [] then 0
    else MovesSent(rs[..|rs| - 1], h) + (if rs[|rs| - 1].Move? && rs[|rs| - 1].toplevel == h then 1 else 0)
  }

  lemma {:induction false} MovesSentAppend(a: seq<Request>, b: seq<Request>, h: Id)
    ensures MovesSent(a + b, h) == MovesSent(a, h) + MovesSent(b, h)
  {
    if b == [] {
      assert a + b == a;
    } else {
      assert (a + b)[..|a + b| - 1] == a + b[..|b| - 1];
      MovesSentAppend(a, b[..|b| - 1], h);
    }
  }

  lemma {:induction false} NoMovesSent(rs: seq<Request>, h: Id)
    requires forall r | r in rs :: !r.Move?
    ensures MovesSent(rs, h) == 0
  {
    if rs != [] {
      NoMovesSent(rs[..|rs| - 1], h);
    }
  }

  lemma MovesInRender(b: Block, h: Id)
    ensures MovesSent(Render(b), h) == if b.Placed? && b.toplevel == h then 1 else 0
  {
    match b {
      case Placed(t, ws, o, activated, maximized) =>
        var tail := (if activated then [Activate(ws), Commit] else []) + (if maximized then [Maximize(t)] else []);
        assert Render(b) == [Move(t, ws, o)] + tail;
        MovesSentAppend([Move(t, ws, o)], tail, h);
        NoMovesSent(tail, h);
        assert [Move(t, ws, o)][..0] == [];
      case Jumped(_) => NoMovesSent(Render(b), h);
      case Created(_, _) => NoMovesSent(Render(b), h);
    }
  }

  /** The moves on the wire are the placed blocks. */
  lemma {:induction false} MovesAreBlocks(blocks: seq<Block>, h: Id)
    ensures MovesSent(RenderAll(blocks), h) == MovesOf(blocks, h)
  {
    if blocks != [] {
      hide Render;
      var init, last := blocks[..|blocks| - 1], blocks[|blocks| - 1];
      MovesAreBlocks(init, h);
      MovesSentAppend(RenderAll(init), Render(last), h);
      MovesInRender(last, h);
      assert blocks == init + [last];
      AboutAppend(init, [last], h);
      assert [last][1..] == [];
    }
  }

  /** Moves already sent for `h`, plus one if a placement of it is queued. */
  ghost function Load(s: State, h: Id): nat {
    MovesSent(s.wire, h) + if Queued(s, h) then 1 else 0
  }

  /** `Load`, plus one while `h` may still be placed. */
  ghost function Potential(s: State, h: Id): nat {
    Load(s, h) + if h in s.handled then 0 else 1
  }

  lemma MovesAfterStep(s: State, config: P.Config, e: Event, h: Id)
    ensures MovesSent(Step(s, config, e).wire, h) == MovesSent(s.wire, h) + MovesOf(StepBlocks(s, config, e), h)
  {
    hide Step, StepBlocks, Render;
    StepEmitsBlocks(s, config, e);
    MovesSentAppend(s.wire, RenderAll(StepBlocks(s, config, e)), h);
    MovesAreBlocks(StepBlocks(s, config, e), h);
  }

  lemma ScanMoves(s: State, w: World, env: Env, h: Id)
    requires DistinctToplevels(s.pending)
    ensures MovesOf(QueueBlocks(w, env, DrainOrder(s.pending)), h) <= if Queued(s, h) then 1 else 0
  {
    hide EntryBlocks;
    DrainOrderMembers(s.pending);
    if Queued(s, h) {
      var k :| 0 <= k < |s.pending| && s.pending[k].toplevel == h;
      DrainedOnce(w, env, s.pending, k);
      EntryBlocksAtMostOne(w, env, s.pending[k]);
    } else {
      AboutAbsent(w, env, DrainOrder(s.pending), h);
    }
  }

  lemma EntryBlocksAtMostOne(w: World, env: Env, p: PendingPlacement)
    ensures |EntryBlocks(w, env, p)| <= 1
  {
  }

  /** Only a close lets a toplevel be placed again; only its announcement lets it be placed at all. */
  lemma StepBudget(s: State, config: P.Config, e: Event, h: Id)
    requires QueueInv(s)
    ensures !(e.ToplevelClosed? && e.toplevel == h) ==> Potential(Step(s, config, e), h) <= Potential(s, h)
    ensures !(e.NewToplevel? && e.toplevel == h) ==> Load(Step(s, config, e), h) <= Load(s, h)
  {
    hide OnNewToplevel, OnToplevelClosed, OnDone, NewToplevelBlocks, ClosedBlocks, QueueBlocks, MovesSent;
    MovesAfterStep(s, config, e, h);
    match e {
      case NewToplevel(x, w, env) =>
        NewToplevelEffect(s, config, x, w, env);
        var on := OnNewToplevel(s, config, x, w, env);
        if on.pending != s.pending {
          var after :| Enqueued(s, on, x, after);
          assert on.pending == s.pending + [on.pending[|s.pending|]];
        }
        if Queued(on, h) && !Queued(s, h) {
          assert h == x && on.pending != s.pending;
        }
      case ToplevelUpdated(_) =>
      case ToplevelClosed(x, w, env) =>
        ClosedKeeps(s, config, x, w, env);
        ClosedMovesNothing(s, config, x, w, env, h);
      case Done(w, env) =>
        DoneEffect(s, config, w, env);
        ScanMoves(s, w, env, h);
      case TimerFired(_) =>
    }
  }

  lemma ClosedMovesNothing(s: State, config: P.Config, x: Id, w: World, env: Env, h: Id)
    ensures MovesOf(ClosedBlocks(s, config, x, w, env), h) == 0
  {
    hide JumpOutcome;
    var blocks := ClosedBlocks(s, config, x, w, env);
    if blocks != [] {
      assert blocks[1..] == [];
    }
  }

  lemma {:induction false} SegmentBudget(s: State, config: P.Config, events: seq<Event>, h: Id)
    requires QueueInv(s)
    ensures QueueInv(RunFrom(s, config, events))
    ensures (forall e | e in events :: !(e.ToplevelClosed? && e.toplevel == h)) ==>
              Potential(RunFrom(s, config, events), h) <= Potential(s, h)
    ensures (forall e | e in events :: !(e.NewToplevel? && e.toplevel == h)) ==>
              Load(RunFrom(s, config, events), h) <= Load(s, h)
  {
    if events != [] {
      hide Step, Potential, Load;
      var init, e := events[..|events| - 1], events[|events| - 1];
      SegmentBudget(s, config, init, h);
      StepKeepsQueueInv(RunFrom(s, config, init), config, e);
      StepBudget(RunFrom(s, config, init), config, e, h);
      assert e in events;
    }
  }

  lemma WireOnlyGrows(config: P.Config, before: seq<Event>, during: seq<Event>, h: Id)
    ensures MovesSent(Run(config, before).wire, h) <= MovesSent(Run(config, before + during).wire, h)
  {
    hide Render, Step;
    var s := Run(config, before);
    RunFromAppend(Fresh(), config, before, during);
    RunEmitsBlocks(s, config, during);
    MovesSentAppend(s.wire, RenderAll(RunBlocks(s, config, during)), h);
  }

  /** Whatever happened before, a toplevel is moved at most once until it closes. */
  lemma AtMostOneMovePerLifetime(config: P.Config, before: seq<Event>, during: seq<Event>, h: Id)
    requires forall e | e in during :: !(e.ToplevelClosed? && e.toplevel == h)
    ensures MovesSent(Run(config, before + during).wire, h) <= MovesSent(Run(config, before).wire, h) + 1
  {
    hide Step, MovesSent;
    QueueWithinHandledWithinOpen(config, before);
    RunFromAppend(Fresh(), config, before, during);
    SegmentBudget(Run(config, before), config, during, h);
  }

  /** A toplevel that is not open is never moved until it is announced again. */
  lemma NoMoveWhileNotOpen(config: P.Config, before: seq<Event>, during: seq<Event>, h: Id)
    requires h !in Open(before)
    requires forall e | e in during :: !(e.NewToplevel? && e.toplevel == h)
    ensures MovesSent(Run(config, before + during).wire, h) == MovesSent(Run(config, before).wire, h)
  {
    hide Step, MovesSent;
    QueueWithinHandledWithinOpen(config, before);
    RunFromAppend(Fresh(), config, before, during);
    SegmentBudget(Run(config, before), config, during, h);
    WireOnlyGrows(config, before, during, h);
  }

  /** In particular a closed toplevel is not moved, even if its placement was queued when it closed. */
  lemma NoMoveAfterClose(config: P.Config, before: seq<Event>, closing: Event, after: seq<Event>)
    requires closing.ToplevelClosed?
    requires forall e | e in after :: !(e.NewToplevel? && e.toplevel == closing.toplevel)
    ensures MovesSent(Run(config, before + [closing] + after).wire, closing.toplevel) ==
            MovesSent(Run(config, before).wire, closing.toplevel)
  {
    hide Step, MovesSent, Run;
    var h := closing.toplevel;
    assert (before + [closing])[..|before|] == before;
    NoMoveWhileNotOpen(config, before + [closing], after, h);
    ClosingMovesNothing(config, before, closing);
  }

  lemma ClosingMovesNothing(config: P.Config, before: seq<Event>, closing: Event)
    requires closing.ToplevelClosed?
    ensures MovesSent(Run(config, before + [closing]).wire, closing.toplevel) ==
            MovesSent(Run(config, before).wire, closing.toplevel)
  {
    hide OnToplevelClosed, ClosedBlocks, MovesSent;
    assert (before + [closing])[..|before|] == before;
    var s := Run(config, before);
    MovesAfterStep(s, config, closing, closing.toplevel);
    ClosedMovesNothing(s, config, closing.toplevel, closing.world, closing.env, closing.toplevel);
  }
}
