/**
 The trigger input collected from a world when a toplevel closes, and what a jump then means in that world.
 */
module JumpInput {
  import opened Wrappers
  import opened Snapshot
  import opened Jump
  import Mru

  function CoordinatesOf(w: World, id: Id): seq<nat> {
    match FindWorkspace(w, id)
    case None => []
    case Some(x) => x.coordinates
  }

  function Metas(w: World, ids: seq<Id>): seq<WorkspaceMeta> {
    seq(|ids|, i requires 0 <= i < |ids| => WorkspaceMeta(ids[i], CoordinatesOf(w, ids[i])))
  }

  /** The toplevels other than the closing one that are on workspace `x`. */
  function OthersOn(w: World, closing: Id, x: Id): seq<Toplevel> {
    Filter(w.toplevels, (t: Toplevel) => t.id != closing && x in t.workspaces)
  }

  function GroupOf(w: World, x: Id): Option<Group> {
    Find(w.groups, (g: Group) => x in g.workspaces)
  }

  function GroupMetas(w: World, groupId: Id): seq<WorkspaceMeta> {
    match FindGroup(w, groupId)
    case None => []
    case Some(g) =>
      var members := WorkspacesOf(w, g);
      seq(|members|, i requires 0 <= i < |members| => WorkspaceMeta(members[i].id, members[i].coordinates))
  }

  function GroupIdIn(w: World, x: Id): Option<Id> {
    match GroupOf(w, x)
    case None => None
    case Some(g) => Some(g.id)
  }

  function GroupIds(w: World, ids: seq<Id>): set<Id> {
    set x | x in ids && GroupIdIn(w, x).Some? :: GroupIdIn(w, x).value
  }

  function OccupiedMembers(w: World, closing: Id, groupId: Id): set<Id> {
    set m | m in GroupMetas(w, groupId) && m.id in OccupiedExcept(w, Some(closing)) :: m.id
  }

  /** Everything the trigger reads, for a closing toplevel found in the world with workspaces `on`. */
  function BuildTriggerInput(w: World, closing: Id, on: seq<Id>, recent: seq<Id>): TriggerInput {
    TriggerInput(
      Metas(w, on),
      map x | x in on :: IsActive(w, x),
      map x | x in on :: |OthersOn(w, closing, x)|,
      map x | x in on :: GroupIdIn(w, x),
      map g | g in GroupIds(w, on) :: GroupMetas(w, g),
      map g | g in GroupIds(w, on) :: OccupiedMembers(w, closing, g),
      recent)
  }

  /**
   `x` shows active, only the closing toplevel is on it, and the first group containing `x` has another listed
   workspace that some other toplevel is on.
   */
  ghost predicate ShouldLeave(w: World, closing: Id, x: Id) {
    && ShowsActive(w, x)
    && !KeptBusy(w, closing, x)
    && exists g: nat, m: nat :: FirstHolding(w, x, g) && Eligible(w, closing, x, g, m)
  }

  /** Entry `m` is a workspace of group `g` other than `source` that a toplevel other than the closing one is on. */
  ghost predicate Eligible(w: World, closing: Id, source: Id, g: nat, m: nat) {
    Member(w, g, m) && w.workspaces[m].id != source && KeptBusy(w, closing, w.workspaces[m].id)
  }

  ghost predicate EligibleId(w: World, closing: Id, source: Id, g: nat, x: Id) {
    exists m: nat :: Eligible(w, closing, source, g, m) && w.workspaces[m].id == x
  }

  function MetaAt(w: World, m: nat): WorkspaceMeta
    requires m < |w.workspaces|
  {
    WorkspaceMeta(w.workspaces[m].id, w.workspaces[m].coordinates)
  }

  lemma OthersOnEmptyIff(w: World, closing: Id, x: Id)
    ensures |OthersOn(w, closing, x)| == 0 <==> !KeptBusy(w, closing, x)
  {
    var others := OthersOn(w, closing, x);
    if others != [] {
      assert others[0] in others;
    }
    if t :| t in w.toplevels && t.id != closing && x in t.workspaces {
      assert t in others;
    }
  }

  /** What one workspace of the closing toplevel decides, read straight off the world. */
  function WorldOutcome(w: World, closing: Id, x: Id, recent: seq<Id>): TriggerOutcome {
    var group := GroupIdIn(w, x);
    Verdict(x, IsActive(w, x), |OthersOn(w, closing, x)|, group,
            if group.Some? then GroupMetas(w, group.value) else [],
            if group.Some? then OccupiedMembers(w, closing, group.value) else {},
            recent)
  }

  /** The collected maps lose nothing: evaluating through them is evaluating on the world. */
  lemma HandleReadsWorld(w: World, closing: Id, on: seq<Id>, recent: seq<Id>, i: nat)
    requires i < |on|
    ensures var input := BuildTriggerInput(w, closing, on, recent);
            |input.closedWorkspaces| == |on| && input.closedWorkspaces[i].id == on[i]
            && HandleOutcome(input, input.closedWorkspaces[i]) == WorldOutcome(w, closing, on[i], recent)
  {
    var x := on[i];
    assert x in on;
    var input := BuildTriggerInput(w, closing, on, recent);
    assert GroupIdOf(input, x) == GroupIdIn(w, x);
    if GroupIdIn(w, x).Some? {
      assert GroupIdIn(w, x).value in GroupIds(w, on);
    }
  }

  function WorldVerdicts(w: World, closing: Id, on: seq<Id>, recent: seq<Id>): seq<TriggerOutcome> {
    seq(|on|, i requires 0 <= i < |on| => WorldOutcome(w, closing, on[i], recent))
  }

  lemma OutcomeReadsWorld(w: World, closing: Id, on: seq<Id>, recent: seq<Id>)
    ensures Outcome(BuildTriggerInput(w, closing, on, recent)) == Combine(WorldVerdicts(w, closing, on, recent))
  {
    var input := BuildTriggerInput(w, closing, on, recent);
    assert |input.closedWorkspaces| == |on|;
    forall i | 0 <= i < |on| ensures Verdicts(input)[i] == WorldVerdicts(w, closing, on, recent)[i] {
      HandleReadsWorld(w, closing, on, recent, i);
    }
    assert Verdicts(input) == WorldVerdicts(w, closing, on, recent);
  }

  lemma GroupOfExact(w: World, x: Id)
    ensures GroupOf(w, x).Some? ==> exists g: nat :: FirstHolding(w, x, g)
    ensures forall g: nat | FirstHolding(w, x, g) :: GroupOf(w, x) == Some(w.groups[g])
  {
    var holds := (g: Group) => x in g.workspaces;
    if GroupOf(w, x).Some? {
      var g := FoundBeforeOthers(w.groups, holds);
      assert FirstHolding(w, x, g);
    }
    forall g: nat | FirstHolding(w, x, g) ensures GroupOf(w, x) == Some(w.groups[g]) {
      FindIsFirst(w.groups, holds, g);
    }
  }

  /**
   With unique group ids, the group collected for `x` is the first containing it, the members collected are exactly
   its listed workspaces with their coordinates, and the occupied ones those another toplevel is on.
   */
  lemma MembersOfOwnGroup(w: World, closing: Id, x: Id, g: nat)
    requires DistinctGroupIds(w) && FirstHolding(w, x, g)
    ensures GroupIdIn(w, x) == Some(w.groups[g].id)
    ensures forall meta :: meta in GroupMetas(w, w.groups[g].id) <==>
                             exists m: nat :: Member(w, g, m) && meta == MetaAt(w, m)
    ensures forall y :: y in OccupiedMembers(w, closing, w.groups[g].id) <==>
                          exists m: nat :: Member(w, g, m) && w.workspaces[m].id == y && KeptBusy(w, closing, y)
  {
    var id := w.groups[g].id;
    assert FirstNamed(w, id, g);
    GroupOfExact(w, x);
    FindGroupExact(w, id);
    var members, metas := WorkspacesOf(w, w.groups[g]), GroupMetas(w, id);
    forall meta
      ensures meta in metas <==> exists m: nat :: Member(w, g, m) && meta == MetaAt(w, m)
    {
      MetasExact(w, g, meta);
    }
    forall y
      ensures y in OccupiedMembers(w, closing, id) <==>
                exists m: nat :: Member(w, g, m) && w.workspaces[m].id == y && KeptBusy(w, closing, y)
    {
      OccupiedExact(w, y);
      if m: nat :| Member(w, g, m) && w.workspaces[m].id == y && KeptBusy(w, closing, y) {
        assert MetaAt(w, m) in metas;
      }
    }
  }

  lemma MetasExact(w: World, g: nat, meta: WorkspaceMeta)
    requires g < |w.groups| && FindGroup(w, w.groups[g].id) == Some(w.groups[g])
    ensures meta in GroupMetas(w, w.groups[g].id) <==> exists m: nat :: Member(w, g, m) && meta == MetaAt(w, m)
  {
    var members, metas := WorkspacesOf(w, w.groups[g]), GroupMetas(w, w.groups[g].id);
    if meta in metas {
      var k :| 0 <= k < |metas| && metas[k] == meta;
      assert members[k] in members;
      MembersExact(w, g, members[k]);
    }
    if m: nat :| Member(w, g, m) && meta == MetaAt(w, m) {
      MembersExact(w, g, w.workspaces[m]);
      var k :| 0 <= k < |members| && members[k] == w.workspaces[m];
      assert metas[k] == meta;
    }
  }

  /** A candidate among what is collected is an eligible workspace of the world. */
  lemma CandidateExact(w: World, closing: Id, x: Id, g: nat, c: Id)
    requires DistinctGroupIds(w) && FirstHolding(w, x, g)
    ensures var id := w.groups[g].id;
            Candidate(x, GroupMetas(w, id), OccupiedMembers(w, closing, id), c) <==> EligibleId(w, closing, x, g, c)
  {
    MembersOfOwnGroup(w, closing, x, g);
    var metas := GroupMetas(w, w.groups[g].id);
    if m: nat :| Eligible(w, closing, x, g, m) && w.workspaces[m].id == c {
      assert MetaAt(w, m) in metas;
    }
    if Candidate(x, metas, OccupiedMembers(w, closing, w.groups[g].id), c) {
      var m: nat :| Member(w, g, m) && w.workspaces[m].id == c && KeptBusy(w, closing, c);
      assert Eligible(w, closing, x, g, m);
    }
  }

  /** What one workspace decides: it jumps iff it should be left, and then to an eligible workspace of its group. */
  lemma WorldJumpsIff(w: World, closing: Id, x: Id, recent: seq<Id>)
    requires DistinctGroupIds(w)
    ensures var out := WorldOutcome(w, closing, x, recent);
            && (out.Jump? <==> ShouldLeave(w, closing, x))
            && (out.Jump? ==>
                  && out.source == x
                  && exists g: nat :: FirstHolding(w, x, g) && w.groups[g].id == out.groupId
                                      && EligibleId(w, closing, x, g, out.target))
  {
    OthersOnEmptyIff(w, closing, x);
    FindWorkspaceExact(w, x);
    GroupOfExact(w, x);
    hide GroupOf, IsActive, OthersOn, KeptBusy, GroupMetas, OccupiedMembers, SelectJumpTarget, Candidate;
    if g: nat :| FirstHolding(w, x, g) {
      SelectsIffEligible(w, closing, x, g, recent);
      MembersOfOwnGroup(w, closing, x, g);
      assert forall f: nat | FirstHolding(w, x, f) :: f == g;
    }
  }

  lemma SelectsIffEligible(w: World, closing: Id, x: Id, g: nat, recent: seq<Id>)
    requires DistinctGroupIds(w) && FirstHolding(w, x, g)
    ensures var id := w.groups[g].id;
            var target := SelectJumpTarget(x, GroupMetas(w, id), OccupiedMembers(w, closing, id), recent);
            && (target.Some? <==> exists m: nat :: Eligible(w, closing, x, g, m))
            && (target.Some? ==> EligibleId(w, closing, x, g, target.value))
  {
    var metas, occupied := GroupMetas(w, w.groups[g].id), OccupiedMembers(w, closing, w.groups[g].id);
    hide GroupMetas, OccupiedMembers, SelectJumpTarget;
    SelectsIffCandidate(x, metas, occupied, recent);
    forall c ensures Candidate(x, metas, occupied, c) <==> EligibleId(w, closing, x, g, c) {
      CandidateExact(w, closing, x, g, c);
    }
    if m :| m in metas && m.id != x && m.id in occupied {
      assert Candidate(x, metas, occupied, m.id);
    }
    if m: nat :| Eligible(w, closing, x, g, m) {
      assert EligibleId(w, closing, x, g, w.workspaces[m].id);
    }
  }

  /** A close jumps iff one of the closing toplevel's workspaces should be left; the first such one is. */
  lemma JumpsIffShouldLeave(w: World, closing: Id, on: seq<Id>, recent: seq<Id>)
    requires DistinctGroupIds(w)
    ensures var out := Outcome(BuildTriggerInput(w, closing, on, recent));
            && (out.Jump? <==> exists x :: x in on && ShouldLeave(w, closing, x))
            && (out.Jump? ==>
                  exists i :: 0 <= i < |on| && out.source == on[i] && ShouldLeave(w, closing, on[i])
                    && forall j | 0 <= j < i :: !ShouldLeave(w, closing, on[j]))
  {
    hide WorldOutcome, ShouldLeave, Outcome, BuildTriggerInput, Combine;
    var verdicts := WorldVerdicts(w, closing, on, recent);
    OutcomeReadsWorld(w, closing, on, recent);
    forall i | 0 <= i < |on|
      ensures verdicts[i].Jump? <==> ShouldLeave(w, closing, on[i])
      ensures verdicts[i].Jump? ==> verdicts[i].source == on[i]
    {
      WorldJumpsIff(w, closing, on[i], recent);
    }
    CombineJumpsIff(verdicts);
  }

  /**
   In any world with unique group ids a jump leaves an active workspace that carries no toplevel but the closing one,
   for another listed workspace of the first group containing it that carries another toplevel.
   */
  lemma JumpIsSound(w: World, closing: Id, on: seq<Id>, recent: seq<Id>)
    requires DistinctGroupIds(w)
    requires Outcome(BuildTriggerInput(w, closing, on, recent)).Jump?
    ensures var out := Outcome(BuildTriggerInput(w, closing, on, recent));
            && out.source in on && ShouldLeave(w, closing, out.source)
            && exists g: nat :: FirstHolding(w, out.source, g) && w.groups[g].id == out.groupId
                                && EligibleId(w, closing, out.source, g, out.target)
  {
    hide WorldOutcome, ShouldLeave, Outcome, BuildTriggerInput, Combine;
    var out := Outcome(BuildTriggerInput(w, closing, on, recent));
    OutcomeReadsWorld(w, closing, on, recent);
    CombineJumpsIff(WorldVerdicts(w, closing, on, recent));
    var i :| 0 <= i < |on| && out == WorldVerdicts(w, closing, on, recent)[i];
    WorldJumpsIff(w, closing, on[i], recent);
  }

  // ---- Windows of one workspace closing one by one ----

  /** The world after `gone` have closed, everything else unchanged. */
  function WithoutToplevels(w: World, gone: set<Id>): World {
    w.(toplevels := Filter(w.toplevels, (t: Toplevel) => t.id !in gone))
  }

  /**
   The windows `closing` of the active workspace `ws` close one by one, each being on `ws` alone, with the
   rest of the world fixed. No close but the last jumps: the workspace is still occupied.
   */
  lemma OnlyLastCloseCanJump(w: World, ws: Id, closing: seq<Id>, k: nat, recent: seq<Id>)
    requires NoDup(closing) && k < |closing|
    requires forall i | 0 <= i < |closing| :: exists t :: t in w.toplevels && t.id == closing[i] && t.workspaces == [ws]
    requires ShowsActive(w, ws)
    ensures var now := WithoutToplevels(w, Elements(closing[..k]));
            && (k < |closing| - 1 ==>
                  Outcome(BuildTriggerInput(now, closing[k], [ws], recent)) == NoOp(StillOccupied(ws)))
            && (k == |closing| - 1 && DistinctGroupIds(w) ==>
                  (Outcome(BuildTriggerInput(now, closing[k], [ws], recent)).Jump? <==>
                   ShouldLeave(now, closing[k], ws)))
  {
    hide ShouldLeave, KeptBusy, BuildTriggerInput, Outcome;
    var now := WithoutToplevels(w, Elements(closing[..k]));
    OutcomeReadsWorld(now, closing[k], [ws], recent);
    CombineJumpsIff(WorldVerdicts(now, closing[k], [ws], recent));
    assert WorldVerdicts(now, closing[k], [ws], recent)[0] == WorldOutcome(now, closing[k], ws, recent);
    if k < |closing| - 1 {
      StillBusy(w, ws, closing, k);
      OthersOnEmptyIff(now, closing[k], ws);
      FindWorkspaceExact(w, ws);
      assert IsActive(now, ws);
    } else if DistinctGroupIds(w) {
      WorldJumpsIff(now, closing[k], ws, recent);
    }
  }

  /** Before the last close the next window to close is still there. */
  lemma StillBusy(w: World, ws: Id, closing: seq<Id>, k: nat)
    requires NoDup(closing) && k < |closing| - 1
    requires exists t :: t in w.toplevels && t.id == closing[k + 1] && t.workspaces == [ws]
    ensures KeptBusy(WithoutToplevels(w, Elements(closing[..k])), closing[k], ws)
  {
    var t :| t in w.toplevels && t.id == closing[k + 1] && t.workspaces == [ws];
    assert forall j | 0 <= j < k :: closing[..k][j] == closing[j];
    assert t.id !in Elements(closing[..k]);
    assert t in WithoutToplevels(w, Elements(closing[..k])).toplevels && ws in t.workspaces;
  }

  /** When `closing` are the only windows on `ws`, the last close leaves nobody there. */
  lemma LastCloseEmptiesWorkspace(w: World, ws: Id, closing: seq<Id>)
    requires closing != []
    requires forall t | t in w.toplevels && ws in t.workspaces :: t.id in closing
    ensures !KeptBusy(WithoutToplevels(w, Elements(closing[..|closing| - 1])), closing[|closing| - 1], ws)
  {
    var n := |closing| - 1;
    var now := WithoutToplevels(w, Elements(closing[..n]));
    forall t | t in now.toplevels && ws in t.workspaces ensures t.id == closing[n] {
      assert closing == closing[..n] + [closing[n]];
      assert t.id in closing && t.id !in closing[..n];
    }
  }

  // ---- The jump against the whole visit history ----

  /** The latest visited of all eligible workspaces of the group. */
  ghost predicate LatestEligible(w: World, closing: Id, source: Id, g: nat, target: Id, visits: seq<Id>) {
    && target in visits && EligibleId(w, closing, source, g, target)
    && forall c | c in visits && EligibleId(w, closing, source, g, c) ::
         Mru.LatestVisit(visits, c) <= Mru.LatestVisit(visits, target)
  }

  /** No eligible workspace is among the `cap` most recently visited distinct ones. */
  ghost predicate NoneRecent(w: World, closing: Id, source: Id, g: nat, visits: seq<Id>, cap: nat) {
    forall i | 0 <= i < |Mru.ByLatestVisit(visits)| && i < cap ::
      !EligibleId(w, closing, source, g, Mru.ByLatestVisit(visits)[i])
  }

  /** An eligible workspace below every other one by coordinates, then id. */
  ghost predicate LeastEligible(w: World, closing: Id, source: Id, g: nat, target: Id) {
    exists m: nat :: Eligible(w, closing, source, g, m) && w.workspaces[m].id == target
                     && LeastAt(w, closing, source, g, m)
  }

  ghost predicate LeastAt(w: World, closing: Id, source: Id, g: nat, m: nat)
    requires m < |w.workspaces|
  {
    forall n: nat | Eligible(w, closing, source, g, n) ::
      MetaAt(w, n) == MetaAt(w, m) || CompareMeta(MetaAt(w, m), MetaAt(w, n)) == Less
  }

  /** Why a target was chosen: it is the latest visited eligible one, or the least one with none recent. */
  ghost predicate BestTarget(w: World, closing: Id, source: Id, g: nat, target: Id, visits: seq<Id>, cap: nat) {
    || LatestEligible(w, closing, source, g, target, visits)
    || (NoneRecent(w, closing, source, g, visits, cap) && LeastEligible(w, closing, source, g, target))
  }

  lemma SelectedIsBest(w: World, closing: Id, x: Id, g: nat, visits: seq<Id>, cap: nat)
    requires DistinctGroupIds(w) && FirstHolding(w, x, g)
    requires SelectJumpTarget(x, GroupMetas(w, w.groups[g].id), OccupiedMembers(w, closing, w.groups[g].id),
                              Mru.RecordAll([], visits, cap)).Some?
    ensures BestTarget(w, closing, x, g,
                       SelectJumpTarget(x, GroupMetas(w, w.groups[g].id), OccupiedMembers(w, closing, w.groups[g].id),
                                        Mru.RecordAll([], visits, cap)).value, visits, cap)
  {
    var id := w.groups[g].id;
    var metas, occupied := GroupMetas(w, id), OccupiedMembers(w, closing, id);
    hide GroupMetas, OccupiedMembers, LeastEligible, Fallback, MruScan, Mru.RecordAll, Mru.LatestVisit, Candidate,
         EligibleId, NoneOnTop, NoneRecent;
    forall c ensures Candidate(x, metas, occupied, c) <==> EligibleId(w, closing, x, g, c) {
      CandidateExact(w, closing, x, g, c);
    }
    if MruScan(x, metas, occupied, Mru.RecordAll([], visits, cap)).Some? {
      ScanFindsLatestVisited(visits, cap, x, metas, occupied);
    } else {
      ScanMissesExactly(visits, cap, x, metas, occupied);
      FallbackIsLeastEligible(w, closing, x, g);
      NoneRecentExact(w, closing, x, g, visits, cap);
    }
  }

  lemma NoneRecentExact(w: World, closing: Id, x: Id, g: nat, visits: seq<Id>, cap: nat)
    requires DistinctGroupIds(w) && FirstHolding(w, x, g)
    ensures NoneOnTop(visits, cap, x, GroupMetas(w, w.groups[g].id), OccupiedMembers(w, closing, w.groups[g].id)) <==>
              NoneRecent(w, closing, x, g, visits, cap)
  {
    var metas, occupied := GroupMetas(w, w.groups[g].id), OccupiedMembers(w, closing, w.groups[g].id);
    var all := Mru.ByLatestVisit(visits);
    hide GroupMetas, OccupiedMembers, Candidate, EligibleId, Mru.ByLatestVisit;
    forall i | 0 <= i < |all|
      ensures Candidate(x, metas, occupied, all[i]) <==> EligibleId(w, closing, x, g, all[i])
    {
      CandidateExact(w, closing, x, g, all[i]);
    }
  }

  lemma FallbackIsLeastEligible(w: World, closing: Id, x: Id, g: nat)
    requires DistinctGroupIds(w) && FirstHolding(w, x, g)
    requires Fallback(x, GroupMetas(w, w.groups[g].id), OccupiedMembers(w, closing, w.groups[g].id)).Some?
    ensures LeastEligible(w, closing, x, g,
                          Fallback(x, GroupMetas(w, w.groups[g].id),
                                   OccupiedMembers(w, closing, w.groups[g].id)).value)
  {
    var metas, occupied := GroupMetas(w, w.groups[g].id), OccupiedMembers(w, closing, w.groups[g].id);
    hide GroupMetas, OccupiedMembers, Fallback, CompareMeta, KeptBusy, FirstHolding;
    MembersOfOwnGroup(w, closing, x, g);
    FallbackIsLeast(x, metas, occupied);
    var least :| LeastCandidate(least, x, metas, occupied) && least.id == Fallback(x, metas, occupied).value;
    var m: nat :| Member(w, g, m) && least == MetaAt(w, m);
    assert Eligible(w, closing, x, g, m);
    forall n: nat | Eligible(w, closing, x, g, n)
      ensures MetaAt(w, n) == least || CompareMeta(least, MetaAt(w, n)) == Less
    {
      assert MetaAt(w, n) in metas;
    }
    assert LeastAt(w, closing, x, g, m);
  }

  lemma WorldTargetIsBest(w: World, closing: Id, x: Id, visits: seq<Id>, cap: nat)
    requires DistinctGroupIds(w)
    requires WorldOutcome(w, closing, x, Mru.RecordAll([], visits, cap)).Jump?
    ensures var out := WorldOutcome(w, closing, x, Mru.RecordAll([], visits, cap));
            && out.source == x
            && exists g: nat :: FirstHolding(w, x, g) && BestTarget(w, closing, x, g, out.target, visits, cap)
  {
    hide BestTarget, GroupOf, GroupMetas, OccupiedMembers, SelectJumpTarget, IsActive, OthersOn;
    GroupOfExact(w, x);
    var g: nat :| FirstHolding(w, x, g);
    MembersOfOwnGroup(w, closing, x, g);
    SelectedIsBest(w, closing, x, g, visits, cap);
  }

  /** A jump's target is the best one of the first group containing the workspace it leaves. */
  lemma JumpTargetIsBest(w: World, closing: Id, on: seq<Id>, visits: seq<Id>, cap: nat)
    requires DistinctGroupIds(w)
    requires Outcome(BuildTriggerInput(w, closing, on, Mru.RecordAll([], visits, cap))).Jump?
    ensures var out := Outcome(BuildTriggerInput(w, closing, on, Mru.RecordAll([], visits, cap)));
            exists g: nat :: FirstHolding(w, out.source, g)
                             && BestTarget(w, closing, out.source, g, out.target, visits, cap)
  {
    hide BestTarget, BuildTriggerInput, Outcome, WorldOutcome, Combine, Mru.RecordAll;
    var recent := Mru.RecordAll([], visits, cap);
    var out := Outcome(BuildTriggerInput(w, closing, on, recent));
    OutcomeReadsWorld(w, closing, on, recent);
    CombineJumpsIff(WorldVerdicts(w, closing, on, recent));
    var i :| 0 <= i < |on| && out == WorldVerdicts(w, closing, on, recent)[i];
    WorldTargetIsBest(w, closing, on[i], visits, cap);
  }
}
