/**
 When two toplevels queued for new workspaces end up on one: nothing is reserved between the entries of a scan.
 */
module Sharing {
  import opened Snapshot
  import opened Session
  import opened Wire
  import opened Deferred
  import Safety
  import P = Placement

  /** The first group with the entry's id has a listed workspace the snapshot lacks, or one no toplevel is on. */
  ghost predicate Lodges(w: World, p: PendingPlacement) {
    exists g: nat :: FirstNamed(w, p.group, g) && (HasNew(w, g, p.before) || HasVacant(w, g))
  }

  /**
   Of two entries of group `g`: neither sees a new workspace; or both do, and the first workspace missing from either
   snapshot is missing from both; or one does, and its first missing workspace is the first one no toplevel is on.
   */
  ghost predicate ShareIn(w: World, g: nat, p: PendingPlacement, q: PendingPlacement) {
    if HasNew(w, g, p.before) && HasNew(w, g, q.before) then
      exists i: nat :: FirstNew(w, g, i, p.before * q.before)
                       && w.workspaces[i].id !in p.before && w.workspaces[i].id !in q.before
    else if HasNew(w, g, p.before) then exists i: nat :: FirstNew(w, g, i, p.before) && FirstVacant(w, g, i)
    else if HasNew(w, g, q.before) then exists i: nat :: FirstNew(w, g, i, q.before) && FirstVacant(w, g, i)
    else true
  }

  ghost predicate ShareWorkspace(w: World, p: PendingPlacement, q: PendingPlacement) {
    exists g: nat :: FirstNamed(w, p.group, g) && ShareIn(w, g, p, q)
  }

  lemma FirstNewUnique(w: World, g: nat, i: nat, j: nat, known: set<Id>)
    requires FirstNew(w, g, i, known) && FirstNew(w, g, j, known)
    ensures i == j
  {
  }

  lemma FirstVacantUnique(w: World, g: nat, i: nat, j: nat)
    requires FirstVacant(w, g, i) && FirstVacant(w, g, j)
    ensures i == j
  {
  }

  /** Both see a new workspace: their firsts have one id iff the first missing from either is missing from both. */
  lemma BothNew(w: World, g: nat, p: PendingPlacement, q: PendingPlacement, i: nat, j: nat)
    requires FirstNew(w, g, i, p.before) && FirstNew(w, g, j, q.before)
    ensures w.workspaces[i].id == w.workspaces[j].id <==> ShareIn(w, g, p, q)
  {
    assert HasNew(w, g, p.before) && HasNew(w, g, q.before);
    if w.workspaces[i].id == w.workspaces[j].id {
      assert i <= j && j <= i;
      assert FirstNew(w, g, i, p.before * q.before);
    }
    if ShareIn(w, g, p, q) {
      var n: nat :| FirstNew(w, g, n, p.before * q.before)
                    && w.workspaces[n].id !in p.before && w.workspaces[n].id !in q.before;
      assert FirstNew(w, g, n, p.before) && FirstNew(w, g, n, q.before);
      FirstNewUnique(w, g, i, n, p.before);
      FirstNewUnique(w, g, j, n, q.before);
    }
  }

  /** One sees a new workspace and one takes a vacant one: they have one id iff they are one entry. */
  lemma NewAndVacant(w: World, g: nat, known: set<Id>, i: nat, j: nat)
    requires FirstNew(w, g, i, known) && FirstVacant(w, g, j)
    ensures w.workspaces[i].id == w.workspaces[j].id <==>
              exists n: nat :: FirstNew(w, g, n, known) && FirstVacant(w, g, n)
  {
    if n: nat :| FirstNew(w, g, n, known) && FirstVacant(w, g, n) {
      FirstNewUnique(w, g, i, n, known);
      FirstVacantUnique(w, g, j, n);
    }
    if w.workspaces[i].id == w.workspaces[j].id {
      assert i <= j && j <= i;
    }
  }

  /**
   Nothing is reserved between the entries of one scan: two entries of one group that find a place find the same
   one exactly in the cases of `ShareWorkspace`. Two that see no new workspace always do.
   */
  lemma LandTogetherIff(w: World, p: PendingPlacement, q: PendingPlacement)
    requires p.group == q.group && Lodges(w, p) && Lodges(w, q)
    ensures Resolve(w, Aged(p)).Lands? && Resolve(w, Aged(q)).Lands?
    ensures Resolve(w, Aged(p)).ws == Resolve(w, Aged(q)).ws <==> ShareWorkspace(w, p, q)
  {
    LandsOnFreshElseEmpty(w, p);
    LandsOnFreshElseEmpty(w, q);
    var g: nat :| FirstNamed(w, p.group, g) && (HasNew(w, g, p.before) || HasVacant(w, g));
    assert forall f: nat | FirstNamed(w, p.group, f) :: f == g;
    hide Resolve, FirstNamed, FirstNew, FirstVacant, HasNew, HasVacant, ShareIn;
    LandInGroup(w, g, p, q);
  }

  lemma LandInGroup(w: World, g: nat, p: PendingPlacement, q: PendingPlacement)
    requires p.group == q.group && FirstNamed(w, p.group, g)
    requires HasNew(w, g, p.before) || HasVacant(w, g)
    requires HasNew(w, g, q.before) || HasVacant(w, g)
    ensures Resolve(w, Aged(p)).Lands? && Resolve(w, Aged(q)).Lands?
    ensures Resolve(w, Aged(p)).ws == Resolve(w, Aged(q)).ws <==> ShareIn(w, g, p, q)
  {
    LandsOnFreshElseEmpty(w, p);
    LandsOnFreshElseEmpty(w, q);
    hide Resolve, FirstNamed, HasNew, HasVacant;
    var r, l := Resolve(w, Aged(p)), Resolve(w, Aged(q));
    if HasNew(w, g, p.before) {
      var i: nat :| FirstNew(w, g, i, p.before) && w.workspaces[i].id == r.ws;
      if HasNew(w, g, q.before) {
        var j: nat :| FirstNew(w, g, j, q.before) && w.workspaces[j].id == l.ws;
        BothNew(w, g, p, q, i, j);
      } else {
        var j: nat :| FirstVacant(w, g, j) && w.workspaces[j].id == l.ws;
        NewAndVacant(w, g, p.before, i, j);
      }
    } else {
      var i: nat :| FirstVacant(w, g, i) && w.workspaces[i].id == r.ws;
      if HasNew(w, g, q.before) {
        var j: nat :| FirstNew(w, g, j, q.before) && w.workspaces[j].id == l.ws;
        NewAndVacant(w, g, q.before, j, i);
      } else {
        var j: nat :| FirstVacant(w, g, j) && w.workspaces[j].id == l.ws;
        FirstVacantUnique(w, g, i, j);
      }
    }
  }

  /** Toplevels `g` and `h` are placed on one workspace by these blocks. */
  ghost predicate PlacedTogether(blocks: seq<Block>, g: Id, h: Id) {
    exists a, b :: a in blocks && b in blocks && a.Placed? && b.Placed? && a.toplevel == g && b.toplevel == h
                   && a.workspace == b.workspace
  }

  /**
   After any run, the next settled batch places two queued toplevels of one group on one workspace iff both
   find a place and their entries share it.
   */
  lemma BatchPlacesTogetherIff(config: P.Config, events: seq<Event>, w: World, env: Env, p: PendingPlacement,
                               q: PendingPlacement)
    requires p in Run(config, events).pending && q in Run(config, events).pending && p.group == q.group
    ensures PlacedTogether(StepBlocks(Run(config, events), config, Done(w, env)), p.toplevel, q.toplevel) <==>
              Lodges(w, p) && Lodges(w, q) && ShareWorkspace(w, p, q)
  {
    hide Run, Resolve, ShareWorkspace, Lodges;
    var s := Run(config, events);
    var blocks := QueueBlocks(w, env, DrainOrder(s.pending));
    Safety.QueueWithinHandledWithinOpen(config, events);
    BlocksOfEntry(w, env, s.pending, p);
    BlocksOfEntry(w, env, s.pending, q);
    LodgesIffLands(w, p);
    LodgesIffLands(w, q);
    if Lodges(w, p) && Lodges(w, q) {
      LandTogetherIff(w, p, q);
    }
  }

  lemma LodgesIffLands(w: World, p: PendingPlacement)
    ensures Lodges(w, p) <==> Resolve(w, Aged(p)).Lands?
  {
    LandsOnFreshElseEmpty(w, p);
    hide Resolve, HasNew, HasVacant;
    if g: nat :| g < |w.groups| && w.groups[g].id == p.group {
      FindGroupExact(w, p.group);
      var f: nat :| FirstNamed(w, p.group, f);
    }
  }

  /** The one block a queued toplevel gets from its batch, if its entry lands. */
  lemma BlocksOfEntry(w: World, env: Env, pending: seq<PendingPlacement>, p: PendingPlacement)
    requires DistinctToplevels(pending) && p in pending
    ensures var blocks, r := QueueBlocks(w, env, DrainOrder(pending)), Resolve(w, Aged(p));
            && (forall b | b in blocks && b.Placed? && b.toplevel == p.toplevel :: r.Lands? && b.workspace == r.ws)
            && (r.Lands? ==> exists b :: b in blocks && b.Placed? && b.toplevel == p.toplevel && b.workspace == r.ws)
  {
    hide Resolve;
    var k :| 0 <= k < |pending| && pending[k] == p;
    var blocks := QueueBlocks(w, env, DrainOrder(pending));
    DrainedOnce(w, env, pending, k);
    forall b | b in blocks && b.Placed? && b.toplevel == p.toplevel ensures b in EntryBlocks(w, env, p) {
      assert b in About(blocks, p.toplevel);
    }
    DrainOrderMembers(pending);
    EntryInQueue(w, env, DrainOrder(pending), p);
    if Resolve(w, Aged(p)).Lands? {
      assert EntryBlocks(w, env, p)[0] in blocks;
    }
  }
}
