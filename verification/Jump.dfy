/**
 Jump-on-empty decisions: which workspace to activate when a close empties the active one, and the
 trigger evaluation over everything the closing toplevel was on.
 */
module Jump {
  import opened Wrappers
  import opened Snapshot
  import Mru

  datatype WorkspaceMeta = WorkspaceMeta(id: Id, coordinates: seq<nat>)

  datatype TriggerInput = TriggerInput(
    closedWorkspaces: seq<WorkspaceMeta>,
    isActive: map<Id, bool>,
    occupiedExcludingClosed: map<Id, nat>,
    groupIdFor: map<Id, Option<Id>>,
    groupWorkspaces: map<Id, seq<WorkspaceMeta>>,
    groupOccupied: map<Id, set<Id>>,
    recentMru: seq<Id>)

  datatype NoOpReason =
    | NoWorkspace
    | NotActive
    | StillOccupied(ws: Id)
    | NoTarget(groupId: Id, source: Id)
    | NoGroup(ws: Id)
    | MultiWorkspaceNoMatch(handleCount: nat)

  datatype TriggerOutcome =
    | Jump(source: Id, target: Id, groupId: Id)
    | NoOp(reason: NoOpReason)

  // ---- Lexicographic order on unbounded coordinate vectors ----

  datatype Ordering = Less | Equal | Greater

  function CompareNat(a: nat, b: nat): Ordering {
    if a < b then Less else if a == b then Equal else Greater
  }

  /** Vector order: first difference decides, a proper prefix is smaller. */
  function CompareLex(a: seq<nat>, b: seq<nat>): Ordering {
    if a == [] && b == [] then Equal
    else if a == [] then Less
    else if b == [] then Greater
    else if a[0] != b[0] then CompareNat(a[0], b[0])
    else CompareLex(a[1..], b[1..])
  }

  /** Coordinates first, id as tie-break. */
  function CompareMeta(a: WorkspaceMeta, b: WorkspaceMeta): Ordering {
    var c := CompareLex(a.coordinates, b.coordinates);
    if c == Equal then CompareNat(a.id, b.id) else c
  }

  lemma {:induction false} CompareLexTotal(a: seq<nat>, b: seq<nat>)
    ensures CompareLex(a, b) == Equal <==> a == b
    ensures CompareLex(a, b) == Less <==> CompareLex(b, a) == Greater
  {
    if a != [] && b != [] {
      CompareLexTotal(a[1..], b[1..]);
      assert a == [a[0]] + a[1..] && b == [b[0]] + b[1..];
    }
  }

  lemma {:induction false} CompareLexTransitive(a: seq<nat>, b: seq<nat>, c: seq<nat>)
    requires CompareLex(a, b) == Less && CompareLex(b, c) == Less
    ensures CompareLex(a, c) == Less
  {
    if a != [] && b != [] && c != [] && a[0] == b[0] == c[0] {
      CompareLexTransitive(a[1..], b[1..], c[1..]);
    }
  }

  /** The fallback order is a strict total order on workspaces. */
  lemma CompareMetaTotal(a: WorkspaceMeta, b: WorkspaceMeta)
    ensures CompareMeta(a, b) == Equal <==> a == b
    ensures CompareMeta(a, b) == Less <==> CompareMeta(b, a) == Greater
  {
    CompareLexTotal(a.coordinates, b.coordinates);
    CompareLexTotal(b.coordinates, a.coordinates);
  }

  lemma CompareMetaTransitive(a: WorkspaceMeta, b: WorkspaceMeta, c: WorkspaceMeta)
    requires CompareMeta(a, b) == Less && CompareMeta(b, c) == Less
    ensures CompareMeta(a, c) == Less
  {
    CompareLexTotal(a.coordinates, b.coordinates);
    CompareLexTotal(b.coordinates, c.coordinates);
    if CompareLex(a.coordinates, b.coordinates) == Less && CompareLex(b.coordinates, c.coordinates) == Less {
      CompareLexTransitive(a.coordinates, b.coordinates, c.coordinates);
    }
  }

  // ---- Target selection ----

  predicate Candidate(current: Id, group: seq<WorkspaceMeta>, occupied: set<Id>, id: Id) {
    id != current && id in occupied && exists m | m in group :: m.id == id
  }

  /** `min_by`: the first of the least elements. */
  function Lowest(ms: seq<WorkspaceMeta>): Option<WorkspaceMeta> {
    if ms == [] then None
    else
      match Lowest(ms[1..])
      case None => Some(ms[0])
      case Some(m) => if CompareMeta(m, ms[0]) == Less then Some(m) else Some(ms[0])
  }

  function Eligible(current: Id, group: seq<WorkspaceMeta>, occupied: set<Id>): seq<WorkspaceMeta> {
    Filter(group, (m: WorkspaceMeta) => m.id != current && m.id in occupied)
  }

  function Fallback(current: Id, group: seq<WorkspaceMeta>, occupied: set<Id>): Option<Id> {
    match Lowest(Eligible(current, group, occupied))
    case None => None
    case Some(m) => Some(m.id)
  }

  function MruScan(current: Id, group: seq<WorkspaceMeta>, occupied: set<Id>, recent: seq<Id>): Option<Id> {
    Find(recent, (id: Id) => Candidate(current, group, occupied, id))
  }

  function SelectJumpTarget(current: Id, group: seq<WorkspaceMeta>, occupied: set<Id>, recent: seq<Id>): Option<Id> {
    match MruScan(current, group, occupied, recent)
    case Some(id) => Some(id)
    case None => Fallback(current, group, occupied)
  }

  /** `m` is the unique least element of `ms`. */
  ghost predicate IsLeast(m: WorkspaceMeta, ms: seq<WorkspaceMeta>) {
    m in ms && forall x | x in ms :: x == m || CompareMeta(m, x) == Less
  }

  lemma {:induction false} LowestIsLeast(ms: seq<WorkspaceMeta>)
    ensures Lowest(ms).None? <==> ms == []
    ensures Lowest(ms).Some? ==> IsLeast(Lowest(ms).value, ms)
  {
    if ms != [] {
      LowestIsLeast(ms[1..]);
      match Lowest(ms[1..]) {
        case None => assert forall x :: x in ms <==> x == ms[0];
        case Some(m) =>
          CompareMetaTotal(m, ms[0]);
          CompareMetaTotal(ms[0], m);
          forall x | x in ms && CompareMeta(m, ms[0]) != Less ensures x == ms[0] || CompareMeta(ms[0], x) == Less {
            if x != ms[0] && x != m && m != ms[0] {
              assert x in ms[1..];
              CompareMetaTransitive(ms[0], m, x);
            }
          }
      }
    }
  }

  lemma LeastUnique(a: WorkspaceMeta, b: WorkspaceMeta, ms: seq<WorkspaceMeta>, ns: seq<WorkspaceMeta>)
    requires IsLeast(a, ms) && IsLeast(b, ns)
    requires forall x :: x in ms <==> x in ns
    ensures a == b
  {
    CompareMetaTotal(a, b);
  }

  /** A target is chosen iff the group has a candidate, and what is chosen is a candidate. */
  lemma SelectsIffCandidate(current: Id, group: seq<WorkspaceMeta>, occupied: set<Id>, recent: seq<Id>)
    ensures var t := SelectJumpTarget(current, group, occupied, recent);
            && (t.Some? <==> exists m :: m in group && m.id != current && m.id in occupied)
            && (t.Some? ==> Candidate(current, group, occupied, t.value))
  {
    var es := Eligible(current, group, occupied);
    LowestIsLeast(es);
    if m :| m in group && m.id != current && m.id in occupied {
      assert m in es;
    }
  }

  /** `m` is a candidate, and below every other candidate by coordinates, then id. */
  ghost predicate LeastCandidate(m: WorkspaceMeta, current: Id, group: seq<WorkspaceMeta>, occupied: set<Id>) {
    && m in group && m.id != current && m.id in occupied
    && forall x | x in group && x.id != current && x.id in occupied :: x == m || CompareMeta(m, x) == Less
  }

  /** The fallback is the unique least candidate. */
  lemma FallbackIsLeast(current: Id, group: seq<WorkspaceMeta>, occupied: set<Id>)
    requires Fallback(current, group, occupied).Some?
    ensures exists m :: LeastCandidate(m, current, group, occupied) && m.id == Fallback(current, group, occupied).value
  {
    var es := Eligible(current, group, occupied);
    LowestIsLeast(es);
    var m := Lowest(es).value;
    assert m in group;
    forall x | x in group && x.id != current && x.id in occupied ensures x == m || CompareMeta(m, x) == Less {
      assert x in es;
    }
    assert LeastCandidate(m, current, group, occupied);
  }

  /** The choice depends on which workspaces the group has, not on how they are listed. */
  lemma SelectionIgnoresListOrder(current: Id, group: seq<WorkspaceMeta>, other: seq<WorkspaceMeta>,
                                  occupied: set<Id>, recent: seq<Id>)
    requires forall m :: m in group <==> m in other
    ensures SelectJumpTarget(current, group, occupied, recent) == SelectJumpTarget(current, other, occupied, recent)
  {
    var p := (id: Id) => Candidate(current, group, occupied, id);
    var q := (id: Id) => Candidate(current, other, occupied, id);
    FindAgree(recent, p, q);
    var es, fs := Eligible(current, group, occupied), Eligible(current, other, occupied);
    LowestIsLeast(es);
    LowestIsLeast(fs);
    assert forall m :: m in es <==> m in fs;
    if fs != [] {
      assert fs[0] in es;
    }
    if es != [] {
      assert es[0] in fs;
      LeastUnique(Lowest(es).value, Lowest(fs).value, es, fs);
    }
  }

  lemma {:induction false} FindAgree(s: seq<Id>, p: Id -> bool, q: Id -> bool)
    requires forall x | x in s :: p(x) == q(x)
    ensures Find(s, p) == Find(s, q)
  {
    if s != [] {
      FindAgree(s[1..], p, q);
    }
  }

  // ---- The scan against the whole visit history ----

  /** The scan over the bounded list answers as over the unbounded one, or finds nothing. */
  lemma {:induction false} FindInPrefix(s: seq<Id>, p: Id -> bool, cap: nat)
    ensures Find(Mru.Truncate(s, cap), p).Some? ==> Find(Mru.Truncate(s, cap), p) == Find(s, p)
  {
    if |s| > cap > 0 {
      assert Mru.Truncate(s, cap)[1..] == Mru.Truncate(s[1..], cap - 1);
      FindInPrefix(s[1..], p, cap - 1);
    }
  }

  /**
   When the scan of the bounded list finds a target, that target has the latest visit of all candidates
   in the whole unbounded history.
   */
  lemma ScanFindsLatestVisited(visits: seq<Id>, cap: nat, current: Id, group: seq<WorkspaceMeta>, occupied: set<Id>)
    requires MruScan(current, group, occupied, Mru.RecordAll([], visits, cap)).Some?
    ensures var t := MruScan(current, group, occupied, Mru.RecordAll([], visits, cap)).value;
            && t in visits && Candidate(current, group, occupied, t)
            && forall c | c in visits && Candidate(current, group, occupied, c) ::
                 Mru.LatestVisit(visits, c) <= Mru.LatestVisit(visits, t)
  {
    var p := (id: Id) => Candidate(current, group, occupied, id);
    var all := Mru.ByLatestVisit(visits);
    Mru.BoundedIndexIsTopOfHistory(visits, cap);
    Mru.ByLatestVisitIsRecencyOrder(visits);
    FindInPrefix(all, p, cap);
    var i := FoundBeforeOthers(all, p);
    assert all[i] in all;
    forall c | c in visits && Candidate(current, group, occupied, c)
      ensures Mru.LatestVisit(visits, c) <= Mru.LatestVisit(visits, all[i])
    {
      assert c in all;
      var j :| 0 <= j < |all| && all[j] == c;
      assert p(all[j]);
      assert i < j ==> Mru.LaterVisit(visits, all[i], all[j]);
    }
  }

  /** No candidate is among the `cap` most recently visited distinct workspaces. */
  ghost predicate NoneOnTop(visits: seq<Id>, cap: nat, current: Id, group: seq<WorkspaceMeta>, occupied: set<Id>) {
    forall i | 0 <= i < |Mru.ByLatestVisit(visits)| && i < cap ::
      !Candidate(current, group, occupied, Mru.ByLatestVisit(visits)[i])
  }

  /** The scan finds nothing iff no candidate is among the `cap` most recently visited distinct workspaces. */
  lemma ScanMissesExactly(visits: seq<Id>, cap: nat, current: Id, group: seq<WorkspaceMeta>, occupied: set<Id>)
    ensures MruScan(current, group, occupied, Mru.RecordAll([], visits, cap)).None? <==>
              NoneOnTop(visits, cap, current, group, occupied)
  {
    Mru.BoundedIndexIsTopOfHistory(visits, cap);
    var all := Mru.ByLatestVisit(visits);
    var top := Mru.Truncate(all, cap);
    forall i | 0 <= i < |all| && i < cap ensures all[i] in top {
      assert top[i] == all[i];
    }
  }

  /** With at most `cap` distinct visited workspaces the bounded answer is the unbounded one. */
  lemma SmallHistoryIsExact(visits: seq<Id>, cap: nat, current: Id, group: seq<WorkspaceMeta>, occupied: set<Id>)
    requires |Elements(visits)| <= cap
    ensures SelectJumpTarget(current, group, occupied, Mru.RecordAll([], visits, cap)) ==
            SelectJumpTarget(current, group, occupied, Mru.ByLatestVisit(visits))
  {
    Mru.BoundedIndexIsTopOfHistory(visits, cap);
    Mru.ByLatestVisitIsRecencyOrder(visits);
    var all := Mru.ByLatestVisit(visits);
    Mru.RecencyOrderNoDup(all, visits);
    NoDupLength(all);
    assert Elements(all) == Elements(visits);
  }

  lemma {:induction false} NoDupLength(s: seq<Id>)
    requires NoDup(s)
    ensures |Elements(s)| == |s|
  {
    if s != [] {
      NoDupLength(s[1..]);
      assert s[0] !in Elements(s[1..]);
      assert s == [s[0]] + s[1..];
      assert Elements(s) == Elements(s[1..]) + {s[0]};
    }
  }

  // ---- Trigger evaluation ----

  /** The checks made for one workspace of the closing toplevel, in order. */
  function Verdict(ws: Id, active: bool, others: nat, group: Option<Id>, members: seq<WorkspaceMeta>,
                   occupied: set<Id>, recent: seq<Id>): TriggerOutcome
  {
    if !active then NoOp(NotActive)
    else if others > 0 then NoOp(StillOccupied(ws))
    else if group.None? then NoOp(NoGroup(ws))
    else
      match SelectJumpTarget(ws, members, occupied, recent)
      case Some(target) => Jump(ws, target, group.value)
      case None => NoOp(NoTarget(group.value, ws))
  }

  function GroupIdOf(input: TriggerInput, ws: Id): Option<Id> {
    if ws in input.groupIdFor then input.groupIdFor[ws] else None
  }

  /** What one workspace of the closing toplevel would decide on its own. */
  function HandleOutcome(input: TriggerInput, ws: WorkspaceMeta): TriggerOutcome {
    var group := GroupIdOf(input, ws.id);
    Verdict(ws.id,
            ws.id in input.isActive && input.isActive[ws.id],
            if ws.id in input.occupiedExcludingClosed then input.occupiedExcludingClosed[ws.id] else 0,
            group,
            if group.Some? && group.value in input.groupWorkspaces then input.groupWorkspaces[group.value] else [],
            if group.Some? && group.value in input.groupOccupied then input.groupOccupied[group.value] else {},
            input.recentMru)
  }

  /** First jump in list order wins; otherwise one reason, coalesced when there were several workspaces. */
  function Combine(verdicts: seq<TriggerOutcome>): TriggerOutcome {
    if verdicts == [] then NoOp(NoWorkspace)
    else
      match Position(verdicts, (o: TriggerOutcome) => o.Jump?)
      case Some(i) => verdicts[i]
      case None => if |verdicts| == 1 then verdicts[0] else NoOp(MultiWorkspaceNoMatch(|verdicts|))
  }

  function Verdicts(input: TriggerInput): seq<TriggerOutcome> {
    seq(|input.closedWorkspaces|, i requires 0 <= i < |input.closedWorkspaces| =>
      HandleOutcome(input, input.closedWorkspaces[i]))
  }

  function Outcome(input: TriggerInput): TriggerOutcome {
    Combine(Verdicts(input))
  }

  /** Reading `Combine` off the first jump, or off the absence of one. */
  lemma CombineOf(verdicts: seq<TriggerOutcome>, i: nat)
    requires i <= |verdicts| && verdicts != []
    requires forall j | 0 <= j < i :: !verdicts[j].Jump?
    ensures i < |verdicts| && verdicts[i].Jump? ==> Combine(verdicts) == verdicts[i]
    ensures |verdicts| == 1 ==> Combine(verdicts) == verdicts[0]
    ensures i == |verdicts| > 1 ==> Combine(verdicts) == NoOp(MultiWorkspaceNoMatch(i))
  {
  }

  lemma CombineJumpsIff(verdicts: seq<TriggerOutcome>)
    ensures var out := Combine(verdicts);
            && (out.Jump? <==> exists i :: 0 <= i < |verdicts| && verdicts[i].Jump?)
            && (out.Jump? ==>
                  exists i :: 0 <= i < |verdicts| && verdicts[i] == out && forall j | 0 <= j < i :: !verdicts[j].Jump?)
            && (!out.Jump? && |verdicts| == 1 ==> out == verdicts[0])
            && (!out.Jump? && |verdicts| > 1 ==> out == NoOp(MultiWorkspaceNoMatch(|verdicts|)))
            && (verdicts == [] ==> out == NoOp(NoWorkspace))
  {
  }

  method EvaluateTrigger(input: TriggerInput) returns (out: TriggerOutcome)
    ensures out == Outcome(input)
  {
    if input.closedWorkspaces == [] {
      return NoOp(NoWorkspace);
    }
    ghost var verdicts := Verdicts(input);
    var multi := |input.closedWorkspaces| > 1;
    var lastSingleReason: Option<NoOpReason> := None;
    for i := 0 to |input.closedWorkspaces|
      invariant !multi ==> i == 0
      invariant forall j | 0 <= j < i :: !verdicts[j].Jump?
    {
      var ws := input.closedWorkspaces[i];
      CombineOf(verdicts, i);
      var active := ws.id in input.isActive && input.isActive[ws.id];
      if !active {
        if !multi {
          return NoOp(NotActive);
        }
        lastSingleReason := Some(NotActive);
        continue;
      }
      var occupied := if ws.id in input.occupiedExcludingClosed then input.occupiedExcludingClosed[ws.id] else 0;
      if occupied > 0 {
        if !multi {
          return NoOp(StillOccupied(ws.id));
        }
        lastSingleReason := Some(StillOccupied(ws.id));
        continue;
      }
      if !(ws.id in input.groupIdFor && input.groupIdFor[ws.id].Some?) {
        if !multi {
          return NoOp(NoGroup(ws.id));
        }
        lastSingleReason := Some(NoGroup(ws.id));
        continue;
      }
      var groupId := input.groupIdFor[ws.id].value;
      var occupiedInGroup := if groupId in input.groupOccupied then input.groupOccupied[groupId] else {};
      var groupWorkspaces := if groupId in input.groupWorkspaces then input.groupWorkspaces[groupId] else [];
      match SelectJumpTarget(ws.id, groupWorkspaces, occupiedInGroup, input.recentMru) {
        case Some(target) =>
          return Jump(ws.id, target, groupId);
        case None =>
          if !multi {
            return NoOp(NoTarget(groupId, ws.id));
          }
          lastSingleReason := Some(NoTarget(groupId, ws.id));
      }
    }
    CombineOf(verdicts, |verdicts|);
    out := NoOp(MultiWorkspaceNoMatch(|input.closedWorkspaces|));
    if !multi {
      // A single workspace always returns inside the loop.
      assert false;
    }
  }

  /** Workspace `ws` is active, has no other toplevel, is grouped, and its group offers another occupied member. */
  ghost predicate Fires(input: TriggerInput, ws: Id) {
    && ws in input.isActive && input.isActive[ws]
    && (ws in input.occupiedExcludingClosed ==> input.occupiedExcludingClosed[ws] == 0)
    && ws in input.groupIdFor && input.groupIdFor[ws].Some?
    && var g := input.groupIdFor[ws].value;
       && g in input.groupWorkspaces && g in input.groupOccupied
       && exists m :: m in input.groupWorkspaces[g] && m.id != ws && m.id in input.groupOccupied[g]
  }

  lemma HandleJumpsIffFires(input: TriggerInput, ws: WorkspaceMeta)
    ensures HandleOutcome(input, ws).Jump? <==> Fires(input, ws.id)
  {
    if ws.id in input.groupIdFor && input.groupIdFor[ws.id].Some? {
      var g := input.groupIdFor[ws.id].value;
      SelectsIffCandidate(ws.id, if g in input.groupWorkspaces then input.groupWorkspaces[g] else [],
                          if g in input.groupOccupied then input.groupOccupied[g] else {}, input.recentMru);
    }
  }

  /** A jump happens iff some closed workspace fires, and then it leaves the first such one. */
  lemma JumpIffSomeFires(input: TriggerInput)
    ensures var closed, out := input.closedWorkspaces, Outcome(input);
            && (out.Jump? <==> exists i :: 0 <= i < |closed| && Fires(input, closed[i].id))
            && (out.Jump? ==>
                  exists i :: 0 <= i < |closed| && Fires(input, closed[i].id) && out.source == closed[i].id
                    && forall j | 0 <= j < i :: !Fires(input, closed[j].id))
  {
    var closed, verdicts := input.closedWorkspaces, Verdicts(input);
    forall i | 0 <= i < |closed| ensures verdicts[i].Jump? <==> Fires(input, closed[i].id) {
      HandleJumpsIffFires(input, closed[i]);
    }
    CombineJumpsIff(verdicts);
  }

  /** Without a jump the reason is exactly the documented one for the number of closed workspaces. */
  lemma NoJumpReason(input: TriggerInput)
    requires !Outcome(input).Jump?
    ensures var closed := input.closedWorkspaces;
            var reason := Outcome(input).reason;
            && (reason == NoWorkspace <==> |closed| == 0)
            && (reason.MultiWorkspaceNoMatch? <==> |closed| > 1)
            && (|closed| > 1 ==> reason.handleCount == |closed|)
            && (|closed| == 1 ==>
                  var ws := closed[0].id;
                  var active := ws in input.isActive && input.isActive[ws];
                  var empty := ws in input.occupiedExcludingClosed ==> input.occupiedExcludingClosed[ws] == 0;
                  var group := GroupIdOf(input, ws);
                  && (reason == NotActive <==> !active)
                  && (reason == StillOccupied(ws) <==> active && !empty)
                  && (reason == NoGroup(ws) <==> active && empty && group.None?)
                  && (reason.NoTarget? <==> active && empty && group.Some?)
                  && (reason.NoTarget? ==> reason == NoTarget(group.value, ws)))
  {
    CombineJumpsIff(Verdicts(input));
    if |input.closedWorkspaces| == 1 {
      assert Verdicts(input)[0] == HandleOutcome(input, input.closedWorkspaces[0]);
    }
  }
}
