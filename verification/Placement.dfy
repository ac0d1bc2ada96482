/**
 Placement policy: which workspace a new toplevel goes to, as a pure decision over stubs of the world,
 and what that decision means.
 */
module Placement {
  import opened Wrappers
  import opened Snapshot

  datatype WorkspaceMode = NextFree | NewEach | Same

  /** Parsed configuration. The title regex is an uninterpreted predicate; times are in milliseconds. */
  datatype Config = Config(
    workspaceMode: WorkspaceMode,
    maximize: bool,
    switchToWorkspace: bool,
    switchVerifyTimeout: Option<nat>,
    excludedAppIds: seq<string>,
    excludedTitle: Option<string -> bool>,
    workspaceOutput: Option<string>,
    jumpOnEmpty: bool)

  datatype ToplevelInfoStub = ToplevelInfoStub(appId: string, title: string, outputIds: seq<Id>,
                                               cosmicToplevelPresent: bool)

  datatype WorkspaceStub = WorkspaceStub(id: Id, toplevelIds: seq<Id>)

  datatype WorkspaceGroupStub = WorkspaceGroupStub(id: Id, outputIds: seq<Id>, workspaces: seq<WorkspaceStub>,
                                                   canCreateWorkspace: bool)

  datatype WorkspaceTarget = Existing(id: Id) | Create

  datatype PostPlaceActions = PostPlaceActions(switchTo: bool, maximize: bool)

  datatype SkipReason =
    | AlreadyHandled
    | ExcludedByAppId
    | ExcludedByTitle
    | NoCosmicToplevel
    | NoOutputs
    | NoMatchingGroup
    | WorkspaceModeSame

  datatype PlacementAction =
    | Skip(reason: SkipReason)
    | Place(workspace: WorkspaceTarget, after: PostPlaceActions)

  datatype PlacementWarn = WorkspaceOutputFallback | NewEachUnsupported

  datatype PlacementDecision = PlacementDecision(action: PlacementAction, warns: seq<PlacementWarn>)

  // ---- Parsing of the output override ----

  const U64_MAX: nat := 0xFFFF_FFFF_FFFF_FFFF

  function ParseDigits(s: string, acc: nat): Option<nat> {
    if s == [] then Some(acc)
    else if '0' <= s[0] <= '9' && acc * 10 + (s[0] as nat - '0' as nat) <= U64_MAX then
      ParseDigits(s[1..], acc * 10 + (s[0] as nat - '0' as nat))
    else None
  }

  /** `str::parse::<u64>`: an optional plus sign, then at least one digit, in range. */
  function ParseU64(s: string): Option<nat> {
    var digits := if s != [] && s[0] == '+' then s[1..] else s;
    if digits == [] then None else ParseDigits(digits, 0)
  }

  // ---- Group and workspace selection ----

  /** Stable insertion by id, as `sort_by_key` leaves equal keys in order. */
  function InsertById(g: WorkspaceGroupStub, sorted: seq<WorkspaceGroupStub>): seq<WorkspaceGroupStub> {
    if sorted == [] || g.id <= sorted[0].id then [g] + sorted
    else [sorted[0]] + InsertById(g, sorted[1..])
  }

  function SortById(groups: seq<WorkspaceGroupStub>): seq<WorkspaceGroupStub> {
    if groups == [] then [] else InsertById(groups[0], SortById(groups[1..]))
  }

  predicate SharesOutput(g: WorkspaceGroupStub, outputs: seq<Id>) {
    exists o | o in g.outputIds :: o in outputs
  }

  function GroupListing(groups: seq<WorkspaceGroupStub>, output: Id): Option<WorkspaceGroupStub> {
    Find(groups, (g: WorkspaceGroupStub) => output in g.outputIds)
  }

  function SelectGroupByOutputs(groups: seq<WorkspaceGroupStub>, outputs: seq<Id>): Option<WorkspaceGroupStub> {
    var candidates := SortById(Filter(groups, (g: WorkspaceGroupStub) => SharesOutput(g, outputs)));
    if candidates == [] then None else Some(candidates[0])
  }

  function SelectGroup(config: Config, info: ToplevelInfoStub, groups: seq<WorkspaceGroupStub>)
    : (Option<WorkspaceGroupStub>, Option<PlacementWarn>)
  {
    match config.workspaceOutput
    case None => (SelectGroupByOutputs(groups, info.outputIds), None)
    case Some(name) =>
      match ParseU64(name)
      case None => (SelectGroupByOutputs(groups, info.outputIds), Some(WorkspaceOutputFallback))
      case Some(overrideId) =>
        var found := GroupListing(groups, overrideId);
        if found.Some? then (found, None)
        else (SelectGroupByOutputs(groups, info.outputIds), Some(WorkspaceOutputFallback))
  }

  function FirstEmpty(g: WorkspaceGroupStub): Option<WorkspaceTarget> {
    match Find(g.workspaces, (w: WorkspaceStub) => w.toplevelIds == [])
    case None => None
    case Some(w) => Some(Existing(w.id))
  }

  function SelectWorkspace(config: Config, g: WorkspaceGroupStub): (Option<WorkspaceTarget>, Option<PlacementWarn>)
    requires config.workspaceMode != Same
  {
    if config.workspaceMode == NextFree then (FirstEmpty(g), None)
    else if g.canCreateWorkspace then (Some(Create), None)
    else (FirstEmpty(g), Some(NewEachUnsupported))
  }

  function WarnList(w: Option<PlacementWarn>): seq<PlacementWarn> {
    if w.Some? then [w.value] else []
  }

  function Decide(config: Config, info: ToplevelInfoStub, groups: seq<WorkspaceGroupStub>, handled: set<Id>,
                  toplevelId: Id): PlacementDecision
  {
    if toplevelId in handled then PlacementDecision(Skip(AlreadyHandled), [])
    else if info.appId in config.excludedAppIds then PlacementDecision(Skip(ExcludedByAppId), [])
    else if config.excludedTitle.Some? && config.excludedTitle.value(info.title) then
      PlacementDecision(Skip(ExcludedByTitle), [])
    else if !info.cosmicToplevelPresent then PlacementDecision(Skip(NoCosmicToplevel), [])
    else if info.outputIds == [] then PlacementDecision(Skip(NoOutputs), [])
    else if config.workspaceMode == Same then PlacementDecision(Skip(WorkspaceModeSame), [])
    else
      var (group, groupWarn) := SelectGroup(config, info, groups);
      if group.None? then PlacementDecision(Skip(NoMatchingGroup), WarnList(groupWarn))
      else
        var (target, workspaceWarn) := SelectWorkspace(config, group.value);
        var warns := WarnList(groupWarn) + WarnList(workspaceWarn);
        if target.None? then PlacementDecision(Skip(NoMatchingGroup), warns)
        else
          PlacementDecision(Place(target.value, PostPlaceActions(config.switchToWorkspace, config.maximize)), warns)
  }

  // ---- Stubs of the world ----

  function BuildGroupStub(w: World, g: Group): WorkspaceGroupStub {
    var occupied := Occupied(w);
    var members := WorkspacesOf(w, g);
    var stubs := seq(|members|, i requires 0 <= i < |members| =>
      WorkspaceStub(members[i].id, if members[i].id in occupied then [1] else []));
    WorkspaceGroupStub(g.id, g.outputs, stubs, g.canCreate)
  }

  function BuildWorldStub(w: World): seq<WorkspaceGroupStub> {
    seq(|w.groups|, i requires 0 <= i < |w.groups| => BuildGroupStub(w, w.groups[i]))
  }

  function BuildInfoStub(t: Toplevel): ToplevelInfoStub {
    ToplevelInfoStub(t.appId, t.title, t.outputs, t.cosmicPresent)
  }

  // ---- What group selection means ----

  ghost predicate Sorted(groups: seq<WorkspaceGroupStub>) {
    forall i, j | 0 <= i < j < |groups| :: groups[i].id <= groups[j].id
  }

  lemma {:induction false} InsertByIdKeeps(g: WorkspaceGroupStub, sorted: seq<WorkspaceGroupStub>)
    ensures multiset(InsertById(g, sorted)) == multiset(sorted) + multiset{g}
    ensures forall x :: x in InsertById(g, sorted) <==> x == g || x in sorted
  {
    if !(sorted == [] || g.id <= sorted[0].id) {
      InsertByIdKeeps(g, sorted[1..]);
      assert sorted == [sorted[0]] + sorted[1..];
    }
  }

  lemma {:induction false} InsertByIdSorts(g: WorkspaceGroupStub, sorted: seq<WorkspaceGroupStub>)
    requires Sorted(sorted)
    ensures Sorted(InsertById(g, sorted))
  {
    if !(sorted == [] || g.id <= sorted[0].id) {
      var rest := InsertById(g, sorted[1..]);
      InsertByIdSorts(g, sorted[1..]);
      InsertByIdKeeps(g, sorted[1..]);
      forall j | 0 <= j < |rest| ensures sorted[0].id <= rest[j].id {
        assert rest[j] in rest;
      }
    }
  }

  lemma {:induction false} SortByIdSorts(groups: seq<WorkspaceGroupStub>)
    ensures Sorted(SortById(groups)) && multiset(SortById(groups)) == multiset(groups)
  {
    if groups != [] {
      SortByIdSorts(groups[1..]);
      InsertByIdSorts(groups[0], SortById(groups[1..]));
      InsertByIdKeeps(groups[0], SortById(groups[1..]));
      assert groups == [groups[0]] + groups[1..];
    }
  }

  ghost predicate DistinctIds(groups: seq<WorkspaceGroupStub>) {
    forall a, b | a in groups && b in groups && a.id == b.id :: a == b
  }

  /** `g` is a group sharing an output, and no group sharing an output has a lower id. */
  ghost predicate IsLowestSharing(g: WorkspaceGroupStub, groups: seq<WorkspaceGroupStub>, outputs: seq<Id>) {
    g in groups && SharesOutput(g, outputs) && forall x | x in groups && SharesOutput(x, outputs) :: g.id <= x.id
  }

  /** Per-toplevel selection finds a lowest-id group sharing an output, and finds one whenever there is one. */
  lemma SelectsLowestSharing(groups: seq<WorkspaceGroupStub>, outputs: seq<Id>)
    ensures var r := SelectGroupByOutputs(groups, outputs);
            && (r.Some? ==> IsLowestSharing(r.value, groups, outputs))
            && (r.None? <==> forall g | g in groups :: !SharesOutput(g, outputs))
  {
    var candidates := Filter(groups, (g: WorkspaceGroupStub) => SharesOutput(g, outputs));
    var sorted := SortById(candidates);
    SortByIdSorts(candidates);
    assert forall g :: g in sorted <==> g in candidates by {
      forall g ensures g in sorted <==> g in candidates {
        assert g in sorted <==> g in multiset(sorted);
        assert g in candidates <==> g in multiset(candidates);
      }
    }
    forall x | x in groups && SharesOutput(x, outputs) ensures sorted != [] && sorted[0].id <= x.id {
      assert x in sorted;
      var i :| 0 <= i < |sorted| && sorted[i] == x;
    }
    if sorted != [] {
      assert sorted[0] in sorted;
    }
  }

  /** For distinct ids the per-toplevel choice does not depend on the list order. */
  lemma SelectionIgnoresGroupOrder(groups: seq<WorkspaceGroupStub>, other: seq<WorkspaceGroupStub>, outputs: seq<Id>)
    requires DistinctIds(groups) && forall g :: g in groups <==> g in other
    ensures SelectGroupByOutputs(groups, outputs) == SelectGroupByOutputs(other, outputs)
  {
    SelectsLowestSharing(groups, outputs);
    SelectsLowestSharing(other, outputs);
  }

  /** The group `Decide` works with: the honoured override, else the lowest sharing group. */
  ghost predicate IsChosenGroup(g: WorkspaceGroupStub, config: Config, info: ToplevelInfoStub,
                                groups: seq<WorkspaceGroupStub>)
  {
    if OverrideHonoured(config, groups) then
      GroupListing(groups, ParseU64(config.workspaceOutput.value).value) == Some(g)
    else
      SelectGroupByOutputs(groups, info.outputIds) == Some(g) && IsLowestSharing(g, groups, info.outputIds)
  }

  /** The override is set, is a number, and some group lists that output. */
  ghost predicate OverrideHonoured(config: Config, groups: seq<WorkspaceGroupStub>) {
    && config.workspaceOutput.Some?
    && var parsed := ParseU64(config.workspaceOutput.value);
       parsed.Some? && exists g :: g in groups && parsed.value in g.outputIds
  }

  ghost predicate GuardsPass(config: Config, info: ToplevelInfoStub, handled: set<Id>, toplevelId: Id) {
    && toplevelId !in handled
    && info.appId !in config.excludedAppIds
    && !(config.excludedTitle.Some? && config.excludedTitle.value(info.title))
    && info.cosmicToplevelPresent
    && info.outputIds != []
    && config.workspaceMode != Same
  }

  ghost predicate HasEmptyWorkspace(g: WorkspaceGroupStub) {
    exists x :: x in g.workspaces && x.toplevelIds == []
  }

  ghost predicate OffersTarget(g: WorkspaceGroupStub, config: Config) {
    (config.workspaceMode == NewEach && g.canCreateWorkspace) || HasEmptyWorkspace(g)
  }

  lemma ChosenGroupExact(config: Config, info: ToplevelInfoStub, groups: seq<WorkspaceGroupStub>)
    ensures var (group, warn) := SelectGroup(config, info, groups);
            && (group.Some? ==> IsChosenGroup(group.value, config, info, groups))
            && (group.None? <==> !OverrideHonoured(config, groups)
                                 && forall g | g in groups :: !SharesOutput(g, info.outputIds))
            && warn == (if config.workspaceOutput.Some? && !OverrideHonoured(config, groups)
                        then Some(WorkspaceOutputFallback) else None)
  {
    SelectsLowestSharing(groups, info.outputIds);
  }

  /** A toplevel is placed iff every guard passes and the chosen group offers a target. */
  lemma PlacesIff(config: Config, info: ToplevelInfoStub, groups: seq<WorkspaceGroupStub>, handled: set<Id>, id: Id)
    ensures Decide(config, info, groups, handled, id).action.Place? <==>
              GuardsPass(config, info, handled, id)
              && exists g :: g in groups && IsChosenGroup(g, config, info, groups) && OffersTarget(g, config)
  {
    ChosenGroupExact(config, info, groups);
  }

  /**
   The target of a placement: a fresh workspace iff the mode asks for one and the chosen group can create
   it, otherwise an empty workspace of the chosen group with no empty one listed before it.
   */
  lemma TargetIsEmptyMember(config: Config, info: ToplevelInfoStub, groups: seq<WorkspaceGroupStub>, handled: set<Id>,
                            id: Id)
    requires Decide(config, info, groups, handled, id).action.Place?
    ensures var action := Decide(config, info, groups, handled, id).action;
            && action.after == PostPlaceActions(config.switchToWorkspace, config.maximize)
            && exists g :: g in groups && IsChosenGroup(g, config, info, groups)
                 && (action.workspace.Create? <==> config.workspaceMode == NewEach && g.canCreateWorkspace)
                 && (action.workspace.Existing? ==>
                       exists i :: 0 <= i < |g.workspaces| && g.workspaces[i].id == action.workspace.id
                         && g.workspaces[i].toplevelIds == []
                         && forall j | 0 <= j < i :: g.workspaces[j].toplevelIds != [])
  {
    ChosenGroupExact(config, info, groups);
    var g := SelectGroup(config, info, groups).0.value;
    if Decide(config, info, groups, handled, id).action.workspace.Existing? {
      var i := FoundBeforeOthers(g.workspaces, (w: WorkspaceStub) => w.toplevelIds == []);
    }
  }

  /** The warnings are the group warning then the capability warning, and none on an early exit. */
  lemma WarnsExact(config: Config, info: ToplevelInfoStub, groups: seq<WorkspaceGroupStub>, handled: set<Id>, id: Id)
    ensures Decide(config, info, groups, handled, id).warns ==
              if !GuardsPass(config, info, handled, id) then []
              else
                (if config.workspaceOutput.Some? && !OverrideHonoured(config, groups)
                 then [WorkspaceOutputFallback] else [])
                + (if config.workspaceMode == NewEach
                      && exists g :: g in groups && IsChosenGroup(g, config, info, groups) && !g.canCreateWorkspace
                   then [NewEachUnsupported] else [])
  {
    ChosenGroupExact(config, info, groups);
  }

  /** An output name that is not a number is never honoured: selection is per toplevel, with the warning. */
  lemma OutputNameIsIgnored(config: Config, info: ToplevelInfoStub, groups: seq<WorkspaceGroupStub>)
    requires config.workspaceOutput.Some? && ParseU64(config.workspaceOutput.value).None?
    ensures SelectGroup(config, info, groups) ==
            (SelectGroup(config.(workspaceOutput := None), info, groups).0, Some(WorkspaceOutputFallback))
    ensures ParseU64("DP-1").None?
  {
  }

  predicate IsDigit(c: char) {
    '0' <= c <= '9'
  }

  predicate AllDigits(s: string) {
    forall i | 0 <= i < |s| :: IsDigit(s[i])
  }

  function DigitValue(c: char): nat
    requires IsDigit(c)
  {
    c as nat - '0' as nat
  }

  /** The number a digit string denotes, most significant digit first. */
  function DecimalValue(s: string): nat
    requires AllDigits(s)
  {
    if s == [] then 0 else DecimalValue(s[..|s| - 1]) * 10 + DigitValue(s[|s| - 1])
  }

  /** The same number, accumulated from the front on top of `acc`. */
  function Accumulated(s: string, acc: nat): nat
    requires AllDigits(s)
  {
    if s == [] then acc else Accumulated(s[1..], acc * 10 + DigitValue(s[0]))
  }

  lemma {:induction false} AccumulatedGrows(s: string, acc: nat)
    requires AllDigits(s)
    ensures Accumulated(s, acc) >= acc
  {
    if s != [] {
      AccumulatedGrows(s[1..], acc * 10 + DigitValue(s[0]));
    }
  }

  lemma {:induction false} AccumulatedLast(s: string, acc: nat)
    requires s != [] && AllDigits(s)
    ensures Accumulated(s, acc) == Accumulated(s[..|s| - 1], acc) * 10 + DigitValue(s[|s| - 1])
  {
    if |s| > 1 {
      assert s[..|s| - 1][1..] == s[1..][..|s| - 2];
      AccumulatedLast(s[1..], acc * 10 + DigitValue(s[0]));
    }
  }

  lemma {:induction false} DecimalIsAccumulated(s: string)
    requires AllDigits(s)
    ensures DecimalValue(s) == Accumulated(s, 0)
  {
    if s != [] {
      DecimalIsAccumulated(s[..|s| - 1]);
      AccumulatedLast(s, 0);
    }
  }

  /** The parse accepts digits whose accumulated value stays in range, and yields that value. */
  lemma {:induction false} ParseDigitsExact(s: string, acc: nat)
    requires acc <= U64_MAX
    ensures ParseDigits(s, acc).Some? <==> AllDigits(s) && Accumulated(s, acc) <= U64_MAX
    ensures ParseDigits(s, acc).Some? ==> ParseDigits(s, acc).value == Accumulated(s, acc)
  {
    if s != [] && IsDigit(s[0]) {
      var rest, next := s[1..], acc * 10 + DigitValue(s[0]);
      assert AllDigits(s) <==> AllDigits(rest) by {
        assert AllDigits(rest) ==> forall i | 1 <= i < |s| :: s[i] == rest[i - 1];
      }
      if next <= U64_MAX {
        ParseDigitsExact(rest, next);
      } else if AllDigits(s) {
        AccumulatedGrows(rest, next);
      }
    }
  }

  function AfterPlus(s: string): string {
    if s != [] && s[0] == '+' then s[1..] else s
  }

  /**
   A value is a number iff what follows an optional plus is a non-empty digit string of value at most 2^64 - 1, and
   then it is that value.
   */
  lemma ParsesIffNumber(s: string)
    ensures ParseU64(s).Some? <==>
              AfterPlus(s) != [] && AllDigits(AfterPlus(s)) && DecimalValue(AfterPlus(s)) <= 18446744073709551615
    ensures ParseU64(s).Some? ==> ParseU64(s).value == DecimalValue(AfterPlus(s))
  {
    ParseDigitsExact(AfterPlus(s), 0);
    if AllDigits(AfterPlus(s)) {
      DecimalIsAccumulated(AfterPlus(s));
    }
  }

  // ---- The group a workspace is created in ----

  /** The group in which a create target is executed: the first one listing the toplevel's first output. */
  function CreationGroup(groups: seq<WorkspaceGroupStub>, outputs: seq<Id>): Option<WorkspaceGroupStub>
    requires outputs != []
  {
    GroupListing(groups, outputs[0])
  }

  /**
   Without an honoured override the creation group is the group `Decide` checked iff no group sharing an
   output of the toplevel has a lower id than the first group listing its first output.
   */
  lemma CreationGroupAgreesIff(config: Config, info: ToplevelInfoStub, groups: seq<WorkspaceGroupStub>)
    requires info.outputIds != [] && DistinctIds(groups) && !OverrideHonoured(config, groups)
    requires CreationGroup(groups, info.outputIds).Some?
    ensures SelectGroup(config, info, groups).0 == CreationGroup(groups, info.outputIds) <==>
              forall g | g in groups && SharesOutput(g, info.outputIds) ::
                CreationGroup(groups, info.outputIds).value.id <= g.id
  {
    ChosenGroupExact(config, info, groups);
    var created := CreationGroup(groups, info.outputIds).value;
    assert info.outputIds[0] in created.outputIds && info.outputIds[0] in info.outputIds;
    assert SharesOutput(created, info.outputIds);
  }

  /** One output, listed by no two groups: creation happens in the group that was chosen and checked. */
  lemma SingleOutputCreatesInChosenGroup(config: Config, info: ToplevelInfoStub, groups: seq<WorkspaceGroupStub>,
                                         handled: set<Id>, id: Id)
    requires !OverrideHonoured(config, groups) && |info.outputIds| == 1
    requires forall a, b, o | a in groups && b in groups && o in a.outputIds && o in b.outputIds :: a == b
    requires Decide(config, info, groups, handled, id).action ==
               Place(Create, PostPlaceActions(config.switchToWorkspace, config.maximize))
    ensures CreationGroup(groups, info.outputIds) == SelectGroup(config, info, groups).0
    ensures CreationGroup(groups, info.outputIds).Some?
            && CreationGroup(groups, info.outputIds).value.canCreateWorkspace
  {
    hide SelectGroup, SelectGroupByOutputs;
    ChosenGroupExact(config, info, groups);
    var chosen := SelectGroup(config, info, groups).0.value;
    assert info.outputIds[0] in chosen.outputIds by {
      var o :| o in chosen.outputIds && o in info.outputIds;
      assert o == info.outputIds[0];
    }
  }

  /** With two outputs the workspace can be created in a group that was never checked and cannot create. */
  lemma TwoOutputsCreateElsewhere(config: Config)
    requires config.workspaceOutput.None? && config.workspaceMode == NewEach
    requires config.excludedAppIds == [] && config.excludedTitle.None?
    ensures var groups := [WorkspaceGroupStub(1, [11], [], true), WorkspaceGroupStub(2, [22], [], false)];
            var info := ToplevelInfoStub("app", "title", [22, 11], true);
            && Decide(config, info, groups, {}, 7).action.Place?
            && Decide(config, info, groups, {}, 7).action.workspace == Create
            && CreationGroup(groups, info.outputIds) == Some(groups[1])
  {
    var groups := [WorkspaceGroupStub(1, [11], [], true), WorkspaceGroupStub(2, [22], [], false)];
    SelectsLowestSharing(groups, [22, 11]);
    assert 11 in groups[0].outputIds && 11 in [22, 11];
    assert SharesOutput(groups[0], [22, 11]) && groups[0] in groups;
    FindIsFirst(groups, (g: WorkspaceGroupStub) => 22 in g.outputIds, 1);
  }

  ghost predicate FirstListing(groups: seq<WorkspaceGroupStub>, i: nat, output: Id) {
    i < |groups| && output in groups[i].outputIds && forall j | 0 <= j < i :: output !in groups[j].outputIds
  }

  lemma FirstListingFound(groups: seq<WorkspaceGroupStub>, output: Id) returns (i: nat)
    requires GroupListing(groups, output).Some?
    ensures FirstListing(groups, i, output) && groups[i] == GroupListing(groups, output).value
  {
    i := FoundBeforeOthers(groups, (g: WorkspaceGroupStub) => output in g.outputIds);
  }

  /**
   With an honoured override the creation group is the selected one iff one group is both the first listing
   the override and the first listing the toplevel's first output: creation itself ignores the override.
   */
  lemma OverriddenCreationAgreesIff(config: Config, info: ToplevelInfoStub, groups: seq<WorkspaceGroupStub>)
    requires info.outputIds != [] && OverrideHonoured(config, groups)
    ensures SelectGroup(config, info, groups).0 == CreationGroup(groups, info.outputIds) <==>
              exists i :: FirstListing(groups, i, ParseU64(config.workspaceOutput.value).value)
                          && FirstListing(groups, i, info.outputIds[0])
  {
    var wanted, output := ParseU64(config.workspaceOutput.value).value, info.outputIds[0];
    var i := FirstListingFound(groups, wanted);
    if GroupListing(groups, output).Some? {
      var j := FirstListingFound(groups, output);
      if groups[i] == groups[j] {
        assert i == j;
      }
      if k: nat :| FirstListing(groups, k, wanted) && FirstListing(groups, k, output) {
        assert k == i && k == j;
      }
    }
  }

  /** The override group is checked for the create capability, yet the workspace is created elsewhere. */
  lemma OverrideCreatesElsewhere(config: Config)
    requires config.workspaceOutput == Some("7") && config.workspaceMode == NewEach
    requires config.excludedAppIds == [] && config.excludedTitle.None?
    ensures var groups := [WorkspaceGroupStub(1, [7], [], true), WorkspaceGroupStub(2, [22], [], false)];
            var info := ToplevelInfoStub("app", "title", [22], true);
            && OverrideHonoured(config, groups)
            && Decide(config, info, groups, {}, 5) ==
               PlacementDecision(Place(Create, PostPlaceActions(config.switchToWorkspace, config.maximize)), [])
            && CreationGroup(groups, info.outputIds) == Some(groups[1])
  {
    var groups := [WorkspaceGroupStub(1, [7], [], true), WorkspaceGroupStub(2, [22], [], false)];
    assert ParseU64("7") == Some(7) by {
      assert "7"[1..] == [];
      assert ParseDigits([], 7) == Some(7);
    }
    assert groups[0] in groups && 7 in groups[0].outputIds;
    FindIsFirst(groups, (g: WorkspaceGroupStub) => 7 in g.outputIds, 0);
    FindIsFirst(groups, (g: WorkspaceGroupStub) => 22 in g.outputIds, 1);
  }
}
