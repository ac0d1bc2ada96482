/**
 The compositor's world as one event handler sees it: an arbitrary snapshot, fixed while the handler
 runs. Toolkit iteration order is the order of the sequences; nothing is assumed about it.
 */
module Snapshot {
  import opened Wrappers

  /** One identifier type for protocol ids and object ids, taken to be injective. */
  type Id = nat

  datatype Workspace = Workspace(id: Id, coordinates: seq<nat>, active: bool)

  datatype Group = Group(id: Id, outputs: seq<Id>, workspaces: set<Id>, canCreate: bool)

  datatype Toplevel = Toplevel(id: Id, appId: string, title: string,
                               outputs: seq<Id>, workspaces: seq<Id>, cosmicPresent: bool)

  datatype World = World(groups: seq<Group>, workspaces: seq<Workspace>, toplevels: seq<Toplevel>)

  function FindWorkspace(w: World, id: Id): Option<Workspace> {
    Find(w.workspaces, (x: Workspace) => x.id == id)
  }

  function FindGroup(w: World, id: Id): Option<Group> {
    Find(w.groups, (g: Group) => g.id == id)
  }

  function FindToplevel(w: World, id: Id): Option<Toplevel> {
    Find(w.toplevels, (t: Toplevel) => t.id == id)
  }

  /** The workspaces of the settled state that belong to `g`, in state order. */
  function WorkspacesOf(w: World, g: Group): seq<Workspace> {
    Filter(w.workspaces, (x: Workspace) => x.id in g.workspaces)
  }

  /** Active bit of the first workspace carrying `id`; false when there is none. */
  predicate IsActive(w: World, id: Id) {
    var found := FindWorkspace(w, id);
    found.Some? && found.value.active
  }

  /** Every workspace some toplevel other than `closing` is on. */
  function OccupiedExcept(w: World, closing: Option<Id>): set<Id> {
    set t, x | t in w.toplevels && Some(t.id) != closing && x in t.workspaces :: x
  }

  function Occupied(w: World): set<Id> {
    OccupiedExcept(w, None)
  }

  /** Object ids are unique among the groups alive at one moment. */
  ghost predicate DistinctGroupIds(w: World) {
    forall i, j | 0 <= i < j < |w.groups| :: w.groups[i].id != w.groups[j].id
  }

  // ---- The same questions, read off the lists by index ----

  /** Entry `i` is the first of the workspace list with id `x`. */
  ghost predicate FirstListed(w: World, x: Id, i: nat) {
    i < |w.workspaces| && w.workspaces[i].id == x && forall j | 0 <= j < i :: w.workspaces[j].id != x
  }

  ghost predicate Listed(w: World, x: Id) {
    exists i: nat :: FirstListed(w, x, i)
  }

  /** The first entry with id `x` has its active bit set. */
  ghost predicate ShowsActive(w: World, x: Id) {
    exists i: nat :: FirstListed(w, x, i) && w.workspaces[i].active
  }

  /** Some toplevel is on workspace `x`. */
  ghost predicate InUse(w: World, x: Id) {
    exists t :: t in w.toplevels && x in t.workspaces
  }

  /** Some toplevel other than the closing one is on workspace `x`. */
  ghost predicate KeptBusy(w: World, closing: Id, x: Id) {
    exists t :: t in w.toplevels && t.id != closing && x in t.workspaces
  }

  /** Entry `k` is the first of the toplevel list with id `h`. */
  ghost predicate FirstToplevel(w: World, h: Id, k: nat) {
    k < |w.toplevels| && w.toplevels[k].id == h && forall j | 0 <= j < k :: w.toplevels[j].id != h
  }

  /** Entry `g` is the first of the group list with that id. */
  ghost predicate FirstNamed(w: World, id: Id, g: nat) {
    g < |w.groups| && w.groups[g].id == id && forall j | 0 <= j < g :: w.groups[j].id != id
  }

  /** Entry `g` is the first of the group list that contains workspace `x`. */
  ghost predicate FirstHolding(w: World, x: Id, g: nat) {
    g < |w.groups| && x in w.groups[g].workspaces && forall j | 0 <= j < g :: x !in w.groups[j].workspaces
  }

  /** Entry `g` is the first of the group list that lists `output`. */
  ghost predicate FirstOnOutput(w: World, output: Id, g: nat) {
    g < |w.groups| && output in w.groups[g].outputs && forall j | 0 <= j < g :: output !in w.groups[j].outputs
  }

  /** Entry `i` of the workspace list belongs to group `g`. */
  predicate Member(w: World, g: nat, i: nat) {
    g < |w.groups| && i < |w.workspaces| && w.workspaces[i].id in w.groups[g].workspaces
  }

  /** Workspace `x` is listed and in the first group with that id. */
  ghost predicate ListedMember(w: World, groupId: Id, x: Id) {
    exists g: nat, i: nat :: FirstNamed(w, groupId, g) && Member(w, g, i) && w.workspaces[i].id == x
  }

  /** Entry `i` is the first of group `g` that no toplevel is on. */
  ghost predicate FirstVacant(w: World, g: nat, i: nat) {
    && Member(w, g, i) && !InUse(w, w.workspaces[i].id)
    && forall j: nat | j < i && Member(w, g, j) :: InUse(w, w.workspaces[j].id)
  }

  /** Entry `i` is the first of group `g` that is not among `known`. */
  ghost predicate FirstNew(w: World, g: nat, i: nat, known: set<Id>) {
    && Member(w, g, i) && w.workspaces[i].id !in known
    && forall j: nat | j < i && Member(w, g, j) :: w.workspaces[j].id in known
  }

  ghost predicate HasVacant(w: World, g: nat) {
    exists i: nat :: Member(w, g, i) && !InUse(w, w.workspaces[i].id)
  }

  ghost predicate HasNew(w: World, g: nat, known: set<Id>) {
    exists i: nat :: Member(w, g, i) && w.workspaces[i].id !in known
  }

  lemma FindWorkspaceExact(w: World, x: Id)
    ensures FindWorkspace(w, x).Some? <==> Listed(w, x)
    ensures forall i: nat | FirstListed(w, x, i) :: FindWorkspace(w, x) == Some(w.workspaces[i])
    ensures FindWorkspace(w, x).None? <==> forall y | y in w.workspaces :: y.id != x
    ensures IsActive(w, x) <==> ShowsActive(w, x)
  {
    var named := (y: Workspace) => y.id == x;
    if FindWorkspace(w, x).Some? {
      var i := FoundBeforeOthers(w.workspaces, named);
      assert FirstListed(w, x, i);
    }
    forall i: nat | FirstListed(w, x, i) ensures FindWorkspace(w, x) == Some(w.workspaces[i]) {
      FindIsFirst(w.workspaces, named, i);
    }
  }

  lemma FindGroupExact(w: World, id: Id)
    ensures FindGroup(w, id).Some? ==> exists g: nat :: FirstNamed(w, id, g)
    ensures forall g: nat | FirstNamed(w, id, g) :: FindGroup(w, id) == Some(w.groups[g])
    ensures FindGroup(w, id).None? <==> forall g: nat | g < |w.groups| :: w.groups[g].id != id
  {
    var named := (g: Group) => g.id == id;
    if FindGroup(w, id).Some? {
      var g := FoundBeforeOthers(w.groups, named);
      assert FirstNamed(w, id, g);
    } else {
      forall g: nat | g < |w.groups| ensures w.groups[g].id != id {
        assert !named(w.groups[g]);
      }
    }
    forall g: nat | FirstNamed(w, id, g) ensures FindGroup(w, id) == Some(w.groups[g]) {
      FindIsFirst(w.groups, named, g);
    }
  }

  lemma FindToplevelExact(w: World, h: Id)
    ensures FindToplevel(w, h).Some? ==> exists k: nat :: FirstToplevel(w, h, k)
    ensures forall k: nat | FirstToplevel(w, h, k) :: FindToplevel(w, h) == Some(w.toplevels[k])
    ensures FindToplevel(w, h).None? <==> forall t | t in w.toplevels :: t.id != h
  {
    var named := (t: Toplevel) => t.id == h;
    if FindToplevel(w, h).Some? {
      var k := FoundBeforeOthers(w.toplevels, named);
      assert FirstToplevel(w, h, k);
    }
    forall k: nat | FirstToplevel(w, h, k) ensures FindToplevel(w, h) == Some(w.toplevels[k]) {
      FindIsFirst(w.toplevels, named, k);
    }
  }

  lemma OccupiedExact(w: World, x: Id)
    ensures x in Occupied(w) <==> InUse(w, x)
    ensures forall closing :: x in OccupiedExcept(w, Some(closing)) <==> KeptBusy(w, closing, x)
  {
  }

  /** The members of a group, in the order of the workspace list. */
  lemma MembersExact(w: World, g: nat, x: Workspace)
    requires g < |w.groups|
    ensures x in WorkspacesOf(w, w.groups[g]) <==> exists i: nat :: Member(w, g, i) && w.workspaces[i] == x
  {
    if x in WorkspacesOf(w, w.groups[g]) {
      var i :| 0 <= i < |w.workspaces| && w.workspaces[i] == x;
      assert Member(w, g, i);
    }
  }

  /** The first of a group's members that `p` holds of is the first member in the workspace list that it holds of. */
  lemma FirstOfMembers(w: World, g: nat, p: Workspace -> bool, k: nat) returns (i: nat)
    requires g < |w.groups| && k < |WorkspacesOf(w, w.groups[g])|
    requires p(WorkspacesOf(w, w.groups[g])[k])
    requires forall j | 0 <= j < k :: !p(WorkspacesOf(w, w.groups[g])[j])
    ensures Member(w, g, i) && w.workspaces[i] == WorkspacesOf(w, w.groups[g])[k]
    ensures forall j: nat | j < i && Member(w, g, j) :: !p(w.workspaces[j])
  {
    i := FirstInFilter(w.workspaces, (x: Workspace) => x.id in w.groups[g].workspaces, p, k);
  }
}
