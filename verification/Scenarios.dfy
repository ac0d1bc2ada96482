/**
 Short runs on one small desk: each is a sequence of events the daemon can receive, on which a promise its
 comments make does not hold.
 */
module Scenarios {
  import opened Wrappers
  import opened Snapshot
  import opened Session
  import opened Wire
  import opened Activation
  import D = Deferred
  import S = Sharing
  import T = Timers
  import V = Verify
  import W = Warnings
  import Policy
  import P = Placement

  /** One group that can create, on output 5, with workspaces 10 and 11 when listed; two windows on no workspace yet. */
  function Desk(listed: seq<Workspace>): World {
    World([Group(1, [5], {10, 11}, true)], listed, [Window(1), Window(2)])
  }

  function Window(id: Id): Toplevel {
    Toplevel(id, "app", "title", [5], [], true)
  }

  function ConfigFor(mode: P.WorkspaceMode, switchTo: bool, output: Option<string>): P.Config {
    P.Config(mode, false, switchTo, Some(1000), [], None, output, false)
  }

  const UP: Env := Env(true, {})
  const OLD: Workspace := Workspace(10, [], false)
  const NEW: Workspace := Workspace(11, [], false)

  lemma DeskFacts(listed: seq<Workspace>, h: Id)
    requires h in {1, 2}
    ensures FirstToplevel(Desk(listed), h, h - 1) && Desk(listed).toplevels[h - 1] == Window(h)
    ensures FindToplevel(Desk(listed), h) == Some(Window(h))
    ensures FirstNamed(Desk(listed), 1, 0) && forall x :: !InUse(Desk(listed), x)
  {
    FindToplevelExact(Desk(listed), h);
    assert FirstToplevel(Desk(listed), h, h - 1);
  }

  /** On the desk with no override set, a window's group is the only one, and entry 0 is vacant. */
  lemma DeskChoice(config: P.Config, mode: P.WorkspaceMode, switchTo: bool, h: Id)
    requires config == ConfigFor(mode, switchTo, None) && h in {1, 2}
    ensures Policy.Chosen(config, Desk([OLD]), Window(h), 0) && FirstVacant(Desk([OLD]), 0, 0)
  {
    var w, t := Desk([OLD]), Window(h);
    DeskFacts([OLD], h);
    assert 5 in w.groups[0].outputs && 5 in t.outputs;
    assert Policy.Shares(w, t, 0) && Policy.LowestSharing(w, t, 0);
    assert Member(w, 0, 0);
  }

  /** On the desk a window not seen before is placed. */
  lemma DeskDecision(s: State, config: P.Config, h: Id, mode: P.WorkspaceMode, switchTo: bool)
    requires config == ConfigFor(mode, switchTo, None) && mode in {P.NextFree, P.NewEach}
    requires h in {1, 2} && h !in s.handled
    ensures var action := DecisionFor(s, config, Desk([OLD]), Window(h)).action;
            && action.Place? && action.after == P.PostPlaceActions(switchTo, false)
            && action.workspace == if mode == P.NewEach then P.Create else P.Existing(10)
  {
    var w, t := Desk([OLD]), Window(h);
    DeskFacts([OLD], h);
    DeskChoice(config, mode, switchTo, h);
    assert DecisionFor(s, config, w, t) == Policy.Decision(config, s.handled, w, t);
    assert Policy.Admitted(config, s.handled, t);
    hide DecisionFor, Policy.Decision, Policy.Chosen, FirstVacant, Policy.Admitted;
    Policy.PlacesExactly(config, s.handled, w, t);
    if mode == P.NewEach {
      assert Policy.CreatesIn(config, w, 0);
    } else {
      assert !Policy.CreatesIn(config, w, 0);
      assert Policy.WantsEntry(config, s.handled, w, t, 0);
    }
  }

  lemma PlacedOnDesk(s: State, config: P.Config, h: Id)
    requires config == ConfigFor(P.NextFree, true, None) && h in {1, 2} && h !in s.handled
    ensures StepBlocks(s, config, NewToplevel(h, Desk([OLD]), UP)) == [Placed(h, 10, 5, true, false)]
    ensures StepTargets(s, config, NewToplevel(h, Desk([OLD]), UP)) == [10]
  {
    var w := Desk([OLD]);
    DeskFacts([OLD], h);
    DeskDecision(s, config, h, P.NextFree, true);
    FindIsFirst(w.workspaces, (x: Workspace) => x.id == 10, 0);
    hide DecisionFor;
    assert PlaceBlocks(s, w, UP, Window(h), P.Existing(10), P.PostPlaceActions(true, false)) ==
           [Placed(h, 10, 5, true, false)];
    TargetsOfOne(Placed(h, 10, 5, true, false));
  }

  // ---- Timers ----

  function TwoWindows(): seq<Event> {
    [NewToplevel(1, Desk([OLD]), UP), NewToplevel(2, Desk([OLD]), UP)]
  }

  lemma HandledAfter(s: State, config: P.Config, h: Id, w: World, env: Env)
    ensures OnNewToplevel(s, config, h, w, env).handled <= s.handled + {h}
    ensures OnNewToplevel(s, config, h, w, env).pending == s.pending || config.workspaceMode == P.NewEach
  {
    hide ConsumeWarns, PlaceOn, PlaceBlocks, RenderAll, QueueCreate;
    match FindToplevel(w, h) {
      case None =>
      case Some(info) =>
        var decision := DecisionFor(s, config, w, info);
        var warned := ConsumeWarns(s, decision.warns);
        ConsumeWarnsKeeps(s, decision.warns);
        if decision.action.Place? {
          var target, after := decision.action.workspace, decision.action.after;
          ExecutePlaceEmits(warned, config, w, env, info, target, after);
          if target.Existing? && info.outputs != [] {
            PlaceOnEmits(warned, config, env, info.id, target.id, info.outputs[0], after, true);
          }
        }
    }
  }

  lemma TwoWindowRuns(config: P.Config)
    ensures TwoWindows()[..1] == OneWindow()
    ensures Run(config, OneWindow()) == Step(Fresh(), config, TwoWindows()[0])
    ensures Run(config, TwoWindows()) == Step(Run(config, OneWindow()), config, TwoWindows()[1])
  {
    hide Step, Fresh;
    assert Run(config, []) == Fresh();
    assert OneWindow() == [] + [TwoWindows()[0]] && TwoWindows() == OneWindow() + [TwoWindows()[1]];
    RunOneMore(config, [], TwoWindows()[0]);
    RunOneMore(config, OneWindow(), TwoWindows()[1]);
  }

  /** The first or second window of the desk, announced in next-free mode: one activation of workspace 10. */
  lemma WindowEngages(s: State, config: P.Config, h: Id)
    requires config == ConfigFor(P.NextFree, true, None) && h in {1, 2} && h !in s.handled
    ensures var on := Step(s, config, TwoWindows()[h - 1]);
            && on.handled <= s.handled + {h} && on.pending == s.pending
            && GearOf(on) == Engage(GearOf(s), config, UP, 10)
  {
    hide OnNewToplevel, StepTargets, Engage;
    PlacedOnDesk(s, config, h);
    HandledAfter(s, config, h, Desk([OLD]), UP);
    StepIsItsActivations(s, config, TwoWindows()[h - 1]);
    EngageOne(GearOf(s), config, UP, 10);
  }

  /**
   Two windows announced in one world are sent to the same empty workspace, and it is activated twice: the first
   timer stays live with no token stored for it.
   */
  lemma TwoWindowsOrphanTimer(config: P.Config)
    requires config == ConfigFor(P.NextFree, true, None)
    ensures var s := Run(config, TwoWindows());
            && s.timers == map[0 := 10, 1 := 10] && s.tokens == map[10 := 1] && s.pending == []
            && s.verifier.pending.Keys == {10} && s.nextToken == 2
    ensures T.ReactivatesAt(config, TwoWindows(), 1) && !T.NeverOrphans(config, TwoWindows())
  {
    var s := Run(config, OneWindow());
    TwoWindowRuns(config);
    hide Step, Run, Engage, T.NeverOrphans, T.ReactivatesAt;
    WindowEngages(Fresh(), config, 1);
    assert Fresh().pending == [] && Fresh().handled == {};
    EngagedTwice(config);
    WindowEngages(s, config, 2);
    SecondReuses(config, s);
  }

  lemma EngagedTwice(config: P.Config)
    requires config == ConfigFor(P.NextFree, true, None)
    ensures var one := Engage(GearOf(Fresh()), config, UP, 10);
            var two := Engage(one, config, UP, 10);
            && one.tokens == map[10 := 0]
            && two.timers == map[0 := 10, 1 := 10] && two.tokens == map[10 := 1] && two.next == 2
            && two.verifier.pending.Keys == {10}
  {
  }

  lemma SecondReuses(config: P.Config, s: State)
    requires config == ConfigFor(P.NextFree, true, None)
    requires s == Run(config, OneWindow()) && 2 !in s.handled && 10 in s.tokens
    ensures T.ReactivatesAt(config, TwoWindows(), 1) && !T.NeverOrphans(config, TwoWindows())
  {
    TwoWindowRuns(config);
    T.StoredAreAllLiveIff(config, TwoWindows());
    hide StepTargets, Run, T.NeverOrphans;
    PlacedOnDesk(s, config, 2);
    assert T.ReusedAt(s.tokens.Keys, config, UP, s.nextToken, [10], 0);
  }

  function TwoWindowsThenActive(): seq<Event> {
    TwoWindows() + [Done(Desk([Workspace(10, [], true)]), UP)]
  }

  /**
   When the workspace then shows up active, its stored timer is cancelled and nothing is pending or attempted any
   more; the other timer is still live, and its expiry meets the assertion on an attempted handle unmet.
   */
  lemma OrphanBreaksAssertion(config: P.Config)
    requires config == ConfigFor(P.NextFree, true, None)
    ensures var s := Run(config, TwoWindowsThenActive());
            && 0 in s.timers && s.timers[0] == 10
            && s.verifier.pending == map[] && 10 !in s.verifier.attempted
  {
    var w := Desk([Workspace(10, [], true)]);
    var s := Run(config, TwoWindows());
    TwoWindowsOrphanTimer(config);
    RunOneMore(config, TwoWindows(), Done(w, UP));
    hide Run, BeforeScan, Scan, Confirmed, T.NeverOrphans, T.ReactivatesAt;
    TenIsConfirmed(s.tokens);
    ConfirmedTen(s, config, w);
    EmptyScan(BeforeScan(s, config, w), config, w, UP);
  }

  lemma TenIsConfirmed(tokens: map<Id, nat>)
    requires tokens == map[10 := 1]
    ensures Confirmed(tokens, Desk([Workspace(10, [], true)])) == {10}
  {
    FindIsFirst([Workspace(10, [], true)], (x: Workspace) => x.id == 10, 0);
  }

  lemma ConfirmedTen(s: State, config: P.Config, w: World)
    requires s.timers == map[0 := 10, 1 := 10] && s.tokens == map[10 := 1] && s.verifier.pending.Keys == {10}
    requires Confirmed(s.tokens, w) == {10} && !config.jumpOnEmpty
    ensures var on := BeforeScan(s, config, w);
            && on.timers == map[0 := 10] && on.verifier.pending == map[] && on.verifier.attempted == {}
            && on.pending == s.pending
  {
    hide Confirmed;
    assert TimersOf(s.tokens, {10}) == {1};
  }

  lemma EmptyScan(s: State, config: P.Config, w: World, env: Env)
    requires s.pending == []
    ensures Scan(s, config, w, env) == s
  {
    assert DrainOrder([]) == [];
  }

  // ---- Two toplevels on one workspace ----

  function Entry(h: Id): PendingPlacement {
    PendingPlacement(h, 1, 5, {10}, P.PostPlaceActions(false, false), "app", 0)
  }

  lemma CreatesOnDesk(s: State, config: P.Config, h: Id)
    requires config == ConfigFor(P.NewEach, false, None) && h in {1, 2} && h !in s.handled
    ensures D.Creates(s, config, NewToplevel(h, Desk([OLD]), UP), Entry(h))
  {
    var w, t := Desk([OLD]), Window(h);
    DeskFacts([OLD], h);
    DeskDecision(s, config, h, P.NewEach, false);
    FindIsFirst(w.groups, (g: Group) => 5 in g.outputs, 0);
    hide DecisionFor;
    assert PlaceBlocks(s, w, UP, t, P.Create, P.PostPlaceActions(false, false)) == [Created(1, AppName("app"))];
    assert FirstOnOutput(w, 5, 0);
    EntryIsExact(h);
  }

  lemma EntryIsExact(h: Id)
    requires h in {1, 2}
    ensures D.EntryOf(Desk([OLD]), Window(h), Entry(h))
  {
    var w := Desk([OLD]);
    DeskFacts([OLD], h);
    assert FirstOnOutput(w, 5, 0) && Member(w, 0, 0);
    forall x ensures x in Entry(h).before <==> ListedMember(w, 1, x) {
      assert forall g: nat | FirstNamed(w, 1, g) :: g == 0;
    }
  }

  lemma BothQueued(config: P.Config)
    requires config == ConfigFor(P.NewEach, false, None)
    ensures Entry(1) in Run(config, TwoWindows()).pending && Entry(2) in Run(config, TwoWindows()).pending
  {
    var events := TwoWindows();
    var none, one := Fresh(), Run(config, OneWindow());
    TwoWindowRuns(config);
    assert one.handled <= {1} by {
      hide OnNewToplevel;
      HandledAfter(none, config, 1, Desk([OLD]), UP);
    }
    hide Step, Run, D.Creates;
    CreatesOnDesk(none, config, 1);
    CreatesOnDesk(one, config, 2);
    D.StepQueue(none, config, events[0], Entry(1));
    D.StepQueue(one, config, events[1], Entry(1));
    D.StepQueue(one, config, events[1], Entry(2));
  }

  /**
   Two windows that each asked for a workspace of their own are placed on one by the next batch, whether it brings
   one new workspace or none.
   */
  lemma TwoWindowsShareWorkspace(config: P.Config, listed: seq<Workspace>)
    requires config == ConfigFor(P.NewEach, false, None) && listed in {[OLD], [OLD, NEW]}
    ensures S.PlacedTogether(StepBlocks(Run(config, TwoWindows()), config, Done(Desk(listed), UP)), 1, 2)
  {
    var w, p, q := Desk(listed), Entry(1), Entry(2);
    BothQueued(config);
    DeskFacts(listed, 1);
    hide Run, StepBlocks, InUse;
    assert Member(w, 0, 0) && FirstVacant(w, 0, 0);
    if listed == [OLD] {
      assert !HasNew(w, 0, p.before);
    } else {
      assert p.before * q.before == {10};
      assert Member(w, 0, 1) && FirstNew(w, 0, 1, p.before * q.before);
    }
    assert S.ShareIn(w, 0, p, q);
    assert S.Lodges(w, p) && S.Lodges(w, q) && S.ShareWorkspace(w, p, q);
    S.BatchPlacesTogetherIff(config, TwoWindows(), w, UP, p, q);
  }

  // ---- One warning, two sessions ----

  function OneWindow(): seq<Event> {
    [NewToplevel(1, Desk([OLD]), UP)]
  }

  /** With an output name configured, each session that places a window emits the fallback warning again. */
  lemma TwoSessionsWarnTwice(config: P.Config)
    requires config == ConfigFor(P.NextFree, true, Some("DP-1"))
    ensures var journal := W.ProcessJournal(config, [OneWindow(), OneWindow()]);
            W.Tally(journal, W.IsLine(W.OneTime(OutputFallback))) == 2
  {
    var line, w := W.OneTime(OutputFallback), Desk([OLD]);
    DeskFacts([OLD], 1);
    assert OneWindow()[..0] == [] && Run(config, []) == Fresh();
    assert !Policy.SomeHonours(config, w) by {
      Policy.HonoursExact(config, w);
      assert P.ParseU64("DP-1").None?;
    }
    hide Policy.SomeHonours, Step, W.Tally, FirstToplevel;
    assert Policy.FallsBack(config, {}, w, Window(1));
    assert W.CallsForAt(config, OneWindow(), line, 0);
    var sessions := [OneWindow(), OneWindow()];
    W.ProcessEmitsPerSession(config, sessions, line);
    assert sessions[..1] == [OneWindow()] && [OneWindow()][..0] == [];
    assert W.Callers(config, [], line) == 0 && W.Callers(config, [OneWindow()], line) == 1;
  }
}
