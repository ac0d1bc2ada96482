/**
 The placement decision read off the world, the toplevel and the configuration themselves: no stub, no selection
 function, only list entries and fields.
 */
module Policy {
  import opened Wrappers
  import opened Snapshot
  import opened Placement

  // ---- The chosen group ----

  /** The configured output, if it is a number. */
  ghost predicate OverrideNumber(config: Config, n: nat) {
    config.workspaceOutput.Some? && IsNumber(config.workspaceOutput.value, n)
  }

  /** The text is a number `n` of at most 64 bits: digits, after an optional plus. */
  ghost predicate IsNumber(s: string, n: nat) {
    && AfterPlus(s) != [] && AllDigits(AfterPlus(s))
    && DecimalValue(AfterPlus(s)) == n <= 18446744073709551615
  }

  /** Group `g` is the first on the configured output. */
  ghost predicate Honours(config: Config, w: World, g: nat) {
    exists n: nat :: OverrideNumber(config, n) && FirstOnOutput(w, n, g)
  }

  ghost predicate SomeHonours(config: Config, w: World) {
    exists g: nat :: Honours(config, w, g)
  }

  ghost predicate Shares(w: World, t: Toplevel, g: nat) {
    g < |w.groups| && exists o :: o in w.groups[g].outputs && o in t.outputs
  }

  /** Group `g` has the lowest id of those sharing an output with `t`, and is the first of them with that id. */
  ghost predicate LowestSharing(w: World, t: Toplevel, g: nat) {
    && Shares(w, t, g)
    && forall f: nat | Shares(w, t, f) ::
         w.groups[g].id <= w.groups[f].id && (w.groups[f].id == w.groups[g].id ==> g <= f)
  }

  /** The group the decision works with: the first on the configured output, else the lowest sharing one. */
  ghost predicate Chosen(config: Config, w: World, t: Toplevel, g: nat) {
    if SomeHonours(config, w) then Honours(config, w, g) else LowestSharing(w, t, g)
  }

  lemma StubFields(w: World, g: nat)
    requires g < |w.groups|
    ensures var stub := BuildWorldStub(w)[g];
            && |BuildWorldStub(w)| == |w.groups| && stub == BuildGroupStub(w, w.groups[g])
            && stub.id == w.groups[g].id && stub.outputIds == w.groups[g].outputs
            && stub.canCreateWorkspace == w.groups[g].canCreate
  {
  }

  lemma NumberExact(config: Config, n: nat)
    ensures OverrideNumber(config, n) <==>
              config.workspaceOutput.Some? && ParseU64(config.workspaceOutput.value) == Some(n)
  {
    if config.workspaceOutput.Some? {
      ParsesIffNumber(config.workspaceOutput.value);
    }
  }

  lemma ListingExact(w: World, n: Id)
    ensures var found := GroupListing(BuildWorldStub(w), n);
            && (found.Some? <==> exists g: nat :: FirstOnOutput(w, n, g))
            && forall g: nat | FirstOnOutput(w, n, g) :: found == Some(BuildWorldStub(w)[g])
  {
    hide BuildGroupStub;
    var stubs := BuildWorldStub(w);
    var listing := (g: WorkspaceGroupStub) => n in g.outputIds;
    forall g | 0 <= g < |stubs| ensures stubs[g].outputIds == w.groups[g].outputs {
      StubFields(w, g);
    }
    if GroupListing(stubs, n).Some? {
      var g := FoundBeforeOthers(stubs, listing);
      assert forall j | 0 <= j < g :: !listing(stubs[j]);
      assert FirstOnOutput(w, n, g);
    }
    forall g: nat | FirstOnOutput(w, n, g) ensures GroupListing(stubs, n) == Some(stubs[g]) {
      FindIsFirst(stubs, listing, g);
    }
  }

  /** The head of the sorted list is the first element with the lowest id. */
  lemma {:induction false} SortedHead(groups: seq<WorkspaceGroupStub>)
    requires groups != []
    ensures SortById(groups) != []
    ensures var head := SortById(groups)[0];
            && (forall x | x in groups :: head.id <= x.id)
            && Find(groups, (x: WorkspaceGroupStub) => x.id == head.id) == Some(head)
  {
    var rest := groups[1..];
    if rest != [] {
      SortedHead(rest);
      assert forall x :: x in groups <==> x == groups[0] || x in rest;
    }
  }

  lemma SelectedExact(w: World, t: Toplevel)
    ensures var found := SelectGroupByOutputs(BuildWorldStub(w), t.outputs);
            && (found.Some? <==> exists g: nat :: LowestSharing(w, t, g))
            && forall g: nat | LowestSharing(w, t, g) :: found == Some(BuildWorldStub(w)[g])
  {
    hide BuildGroupStub, SharesOutput, SortById, InsertById, Shares;
    var stubs := BuildWorldStub(w);
    var shares := (g: WorkspaceGroupStub) => SharesOutput(g, t.outputs);
    forall g: nat ensures Shares(w, t, g) <==> g < |stubs| && shares(stubs[g]) {
      SharesExact(w, t, g);
    }
    forall g | 0 <= g < |stubs| ensures stubs[g].id == w.groups[g].id {
      StubFields(w, g);
    }
    var candidates := Filter(stubs, shares);
    if candidates == [] {
      assert forall x | x in stubs :: !shares(x);
      assert SortById([]) == [] by { SortByIdSorts([]); }
    } else {
      SortedHead(candidates);
      var head := SortById(candidates)[0];
      var lowest := (x: WorkspaceGroupStub) => x.id == head.id;
      var k := FoundBeforeOthers(candidates, lowest);
      assert forall j | 0 <= j < k :: !lowest(candidates[j]);
      var g := FirstInFilter(stubs, shares, lowest, k);
      forall f: nat | Shares(w, t, f) ensures head.id <= w.groups[f].id {
        assert stubs[f] in candidates;
      }
      forall f: nat | f < g && Shares(w, t, f) ensures w.groups[f].id != head.id {
        assert !(shares(stubs[f]) && lowest(stubs[f]));
      }
      LowestIsFirst(w, t, g);
    }
  }

  /** The first of the groups sharing an output that have the lowest id, by index. */
  lemma LowestIsFirst(w: World, t: Toplevel, g: nat)
    requires Shares(w, t, g)
    requires forall f: nat | Shares(w, t, f) :: w.groups[g].id <= w.groups[f].id
    requires forall f: nat | f < g && Shares(w, t, f) :: w.groups[f].id != w.groups[g].id
    ensures LowestSharing(w, t, g) && forall f: nat | LowestSharing(w, t, f) :: f == g
  {
    assert forall f: nat | LowestSharing(w, t, f) :: w.groups[f].id <= w.groups[g].id;
  }

  lemma SharesExact(w: World, t: Toplevel, g: nat)
    ensures Shares(w, t, g) <==> g < |BuildWorldStub(w)| && SharesOutput(BuildWorldStub(w)[g], t.outputs)
  {
    if g < |w.groups| {
      StubFields(w, g);
    }
  }

  /** Selection on the stubs is the choice on the world, and warns iff an output is configured but none honours it. */
  lemma ChosenExact(config: Config, w: World, t: Toplevel)
    ensures var (found, warn) := SelectGroup(config, BuildInfoStub(t), BuildWorldStub(w));
            && (found.Some? <==> exists g: nat :: Chosen(config, w, t, g))
            && (forall g: nat | Chosen(config, w, t, g) :: g < |w.groups| && found == Some(BuildWorldStub(w)[g]))
            && (warn.Some? <==> config.workspaceOutput.Some? && !SomeHonours(config, w))
            && (warn.Some? ==> warn.value == WorkspaceOutputFallback)
  {
    hide BuildGroupStub, SelectGroupByOutputs, GroupListing, LowestSharing, FirstOnOutput, Honours, ParseU64;
    SelectedExact(w, t);
    forall g: nat | LowestSharing(w, t, g) || (exists n: nat :: FirstOnOutput(w, n, g)) ensures g < |w.groups| {
      InRange(w, t, g);
    }
    HonoursExact(config, w);
    if config.workspaceOutput.Some? && ParseU64(config.workspaceOutput.value).Some? {
      ListingExact(w, ParseU64(config.workspaceOutput.value).value);
    }
    if SomeHonours(config, w) {
      assert forall g: nat :: Chosen(config, w, t, g) <==> Honours(config, w, g);
    } else {
      assert forall g: nat :: Chosen(config, w, t, g) <==> LowestSharing(w, t, g);
    }
  }

  /** A group honours the configuration iff the configured text parses and the group is the first on that output. */
  lemma HonoursExact(config: Config, w: World)
    ensures forall g: nat :: Honours(config, w, g) <==>
                               && config.workspaceOutput.Some? && ParseU64(config.workspaceOutput.value).Some?
                               && FirstOnOutput(w, ParseU64(config.workspaceOutput.value).value, g)
  {
    hide FirstOnOutput, OverrideNumber, ParseU64;
    forall n: nat
      ensures OverrideNumber(config, n) <==>
                config.workspaceOutput.Some? && ParseU64(config.workspaceOutput.value) == Some(n)
    {
      NumberExact(config, n);
    }
  }

  lemma InRange(w: World, t: Toplevel, g: nat)
    requires LowestSharing(w, t, g) || exists n: nat :: FirstOnOutput(w, n, g)
    ensures g < |w.groups|
  {
  }

  // ---- The whole decision ----

  /** A new workspace is asked for and the group can create one. */
  predicate CreatesIn(config: Config, w: World, g: nat) {
    g < |w.groups| && config.workspaceMode == NewEach && w.groups[g].canCreate
  }

  ghost predicate TitleExcluded(config: Config, t: Toplevel) {
    config.excludedTitle.Some? && config.excludedTitle.value(t.title)
  }

  /** Not handled, not excluded by app id or title, known to the compositor's shell, on an output, and to be moved. */
  ghost predicate Admitted(config: Config, handled: set<Id>, t: Toplevel) {
    && t.id !in handled && t.appId !in config.excludedAppIds && !TitleExcluded(config, t)
    && t.cosmicPresent && t.outputs != [] && config.workspaceMode != Same
  }

  /** `t` is admitted, and its chosen group is to create a workspace for it. */
  ghost predicate WantsNew(config: Config, handled: set<Id>, w: World, t: Toplevel) {
    Admitted(config, handled, t) && exists g: nat :: Chosen(config, w, t, g) && CreatesIn(config, w, g)
  }

  /** `t` is admitted, and workspace entry `i` is the first vacant one of its chosen group, which does not create. */
  ghost predicate WantsEntry(config: Config, handled: set<Id>, w: World, t: Toplevel, i: nat) {
    && Admitted(config, handled, t)
    && exists g: nat :: Chosen(config, w, t, g) && !CreatesIn(config, w, g) && FirstVacant(w, g, i)
  }

  function Decision(config: Config, handled: set<Id>, w: World, t: Toplevel): PlacementDecision {
    Decide(config, BuildInfoStub(t), BuildWorldStub(w), handled, t.id)
  }

  /** The first empty stub of a group is its first vacant entry. */
  lemma FirstEmptyExact(w: World, g: nat)
    requires g < |w.groups|
    ensures var found := FirstEmpty(BuildGroupStub(w, w.groups[g]));
            && (found.Some? ==> found.value.Existing? && exists i: nat :: FirstVacant(w, g, i))
            && forall i: nat | FirstVacant(w, g, i) :: found == Some(Existing(w.workspaces[i].id))
  {
    var stub, members := BuildGroupStub(w, w.groups[g]), WorkspacesOf(w, w.groups[g]);
    var empty := (x: WorkspaceStub) => x.toplevelIds == [];
    forall k | 0 <= k < |members|
      ensures stub.workspaces[k].id == members[k].id && (empty(stub.workspaces[k]) <==> !InUse(w, members[k].id))
    {
      OccupiedExact(w, members[k].id);
    }
    assert |stub.workspaces| == |members|;
    hide BuildGroupStub, WorkspacesOf, InUse;
    if FirstEmpty(stub).Some? {
      var k := FoundBeforeOthers(stub.workspaces, empty);
      assert forall j | 0 <= j < k :: !empty(stub.workspaces[j]);
      var i := FirstOfMembers(w, g, (x: Workspace) => !InUse(w, x.id), k);
      assert FirstVacant(w, g, i);
      assert forall j: nat | FirstVacant(w, g, j) :: j == i;
    } else {
      forall i: nat | Member(w, g, i) ensures InUse(w, w.workspaces[i].id) {
        MembersExact(w, g, w.workspaces[i]);
        var k :| 0 <= k < |members| && members[k] == w.workspaces[i];
        assert !empty(stub.workspaces[k]);
      }
    }
  }

  /** Why a toplevel is skipped, each reason exactly when the earlier guards pass. */
  lemma SkipsExactly(config: Config, handled: set<Id>, w: World, t: Toplevel)
    ensures var action := Decision(config, handled, w, t).action;
            && (action == Skip(AlreadyHandled) <==> t.id in handled)
            && (action == Skip(ExcludedByAppId) <==> t.id !in handled && t.appId in config.excludedAppIds)
            && (action == Skip(ExcludedByTitle) <==>
                  t.id !in handled && t.appId !in config.excludedAppIds && TitleExcluded(config, t))
            && (action == Skip(NoCosmicToplevel) <==>
                  && t.id !in handled && t.appId !in config.excludedAppIds && !TitleExcluded(config, t)
                  && !t.cosmicPresent)
            && (action == Skip(NoOutputs) <==>
                  && t.id !in handled && t.appId !in config.excludedAppIds && !TitleExcluded(config, t)
                  && t.cosmicPresent && t.outputs == [])
            && (action == Skip(WorkspaceModeSame) <==>
                  && t.id !in handled && t.appId !in config.excludedAppIds && !TitleExcluded(config, t)
                  && t.cosmicPresent && t.outputs != [] && config.workspaceMode == Same)
            && (action.Place? || action == Skip(NoMatchingGroup) <==> Admitted(config, handled, t))
            && (!Admitted(config, handled, t) ==> Decision(config, handled, w, t).warns == [])
  {
    hide SelectGroup, SelectWorkspace, BuildWorldStub;
  }

  /** The decision for an admitted toplevel, from its chosen group. */
  lemma DecisionOnChosen(config: Config, handled: set<Id>, w: World, t: Toplevel, g: nat)
    requires Admitted(config, handled, t) && Chosen(config, w, t, g)
    ensures g < |w.groups|
    ensures var decision := Decision(config, handled, w, t);
            var after := PostPlaceActions(config.switchToWorkspace, config.maximize);
            var empty := FirstEmpty(BuildGroupStub(w, w.groups[g]));
            && decision.action == (if CreatesIn(config, w, g) then Place(Create, after)
                                   else if empty.Some? then Place(empty.value, after)
                                   else Skip(NoMatchingGroup))
            && decision.warns ==
               (if config.workspaceOutput.Some? && !SomeHonours(config, w) then [WorkspaceOutputFallback] else [])
               + (if config.workspaceMode == NewEach && !CreatesIn(config, w, g) then [NewEachUnsupported] else [])
  {
    ChosenExact(config, w, t);
    hide SelectGroup, BuildWorldStub, BuildGroupStub, Chosen, FirstEmpty, SomeHonours;
    StubFields(w, g);
  }

  lemma DecisionOnNone(config: Config, handled: set<Id>, w: World, t: Toplevel)
    requires Admitted(config, handled, t) && forall g: nat :: !Chosen(config, w, t, g)
    ensures var decision := Decision(config, handled, w, t);
            && decision.action == Skip(NoMatchingGroup)
            && decision.warns ==
               if config.workspaceOutput.Some? && !SomeHonours(config, w) then [WorkspaceOutputFallback] else []
  {
    ChosenExact(config, w, t);
    hide SelectGroup, BuildWorldStub, SomeHonours;
    assert SelectGroup(config, BuildInfoStub(t), BuildWorldStub(w)).0.None?;
  }

  /** A toplevel is to get a new workspace iff it wants one, and to go to one iff that is its first vacant entry. */
  lemma PlacesExactly(config: Config, handled: set<Id>, w: World, t: Toplevel)
    ensures var action := Decision(config, handled, w, t).action;
            && (action.Place? && action.workspace.Create? <==> WantsNew(config, handled, w, t))
            && (forall i: nat | WantsEntry(config, handled, w, t, i) ::
                  i < |w.workspaces| && action.Place? && action.workspace == Existing(w.workspaces[i].id))
            && (action.Place? && action.workspace.Existing? ==>
                  exists i: nat :: WantsEntry(config, handled, w, t, i) && w.workspaces[i].id == action.workspace.id)
            && (action.Place? ==> action.after == PostPlaceActions(config.switchToWorkspace, config.maximize))
  {
    OneChosen(config, w, t);
    SkipsExactly(config, handled, w, t);
    hide Decision, BuildGroupStub, Chosen, FirstEmpty, FirstVacant, Admitted;
    if Admitted(config, handled, t) {
      if g: nat :| Chosen(config, w, t, g) {
        DecisionOnChosen(config, handled, w, t, g);
        FirstEmptyExact(w, g);
        OneVacant(w, g);
      } else {
        DecisionOnNone(config, handled, w, t);
      }
    }
  }

  lemma OneChosen(config: Config, w: World, t: Toplevel)
    ensures forall f: nat, g: nat | Chosen(config, w, t, f) && Chosen(config, w, t, g) :: f == g
  {
    forall f: nat, g: nat | Chosen(config, w, t, f) && Chosen(config, w, t, g) ensures f == g {
      if SomeHonours(config, w) {
        hide IsNumber;
        var n: nat :| OverrideNumber(config, n) && FirstOnOutput(w, n, f);
        var m: nat :| OverrideNumber(config, m) && FirstOnOutput(w, m, g);
        OneNumber(config, n, m);
      }
    }
  }

  lemma OneNumber(config: Config, n: nat, m: nat)
    requires OverrideNumber(config, n) && OverrideNumber(config, m)
    ensures n == m
  {
  }

  lemma OneVacant(w: World, g: nat)
    ensures forall i: nat | FirstVacant(w, g, i) :: i < |w.workspaces|
    ensures forall i: nat, j: nat | FirstVacant(w, g, i) && FirstVacant(w, g, j) :: i == j
  {
  }

  /**
   The warnings of a decision: the fallback iff an admitted toplevel meets an output that no group honours, then the
   capability warning iff a new workspace is asked for and the chosen group cannot create one.
   */
  ghost predicate FallsBack(config: Config, handled: set<Id>, w: World, t: Toplevel) {
    Admitted(config, handled, t) && config.workspaceOutput.Some? && !SomeHonours(config, w)
  }

  ghost predicate CannotCreate(config: Config, handled: set<Id>, w: World, t: Toplevel) {
    && Admitted(config, handled, t) && config.workspaceMode == NewEach
    && exists g: nat :: Chosen(config, w, t, g) && !CreatesIn(config, w, g)
  }

  lemma WarnsExactly(config: Config, handled: set<Id>, w: World, t: Toplevel)
    ensures Decision(config, handled, w, t).warns ==
              (if FallsBack(config, handled, w, t) then [WorkspaceOutputFallback] else [])
              + (if CannotCreate(config, handled, w, t) then [NewEachUnsupported] else [])
  {
    OneChosen(config, w, t);
    SkipsExactly(config, handled, w, t);
    hide Decision, BuildGroupStub, Chosen, FirstEmpty, Admitted, SomeHonours;
    if Admitted(config, handled, t) {
      if g: nat :| Chosen(config, w, t, g) {
        DecisionOnChosen(config, handled, w, t, g);
      } else {
        DecisionOnNone(config, handled, w, t);
      }
    }
  }
}
