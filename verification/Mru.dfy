/**
 The most-recently-visited index: a bounded move-to-front list that stands in for the whole visit
 history, fed by the active-workspace transitions of each group.
 */
module Mru {
  import opened Wrappers
  import opened Snapshot

  const MRU_CAP: nat := 16

  /** A group together with its active workspace, as collected from the settled state. */
  datatype ActivePair = ActivePair(group: Id, workspace: Id)

  function Without(s: seq<Id>, x: Id): (r: seq<Id>)
    ensures forall y :: y in r <==> y in s && y != x
    ensures |r| <= |s|
  {
    if s == [] then []
    else (if s[0] == x then [] else [s[0]]) + Without(s[1..], x)
  }

  function Truncate(s: seq<Id>, cap: nat): seq<Id> {
    if |s| <= cap then s else s[..cap]
  }

  function Recorded(deque: seq<Id>, ws: Id, cap: nat): seq<Id> {
    Truncate([ws] + Without(deque, ws), cap)
  }

  function RecordAll(deque: seq<Id>, visits: seq<Id>, cap: nat): seq<Id> {
    if visits == [] then deque
    else Recorded(RecordAll(deque, visits[..|visits| - 1], cap), visits[|visits| - 1], cap)
  }

  /** New last-known map and newly active workspaces, after scanning `batch` in order. */
  function Detected(known: map<Id, Id>, batch: seq<ActivePair>): (map<Id, Id>, seq<Id>) {
    if batch == [] then (known, [])
    else
      var (m, out) := Detected(known, batch[..|batch| - 1]);
      var p := batch[|batch| - 1];
      if p.group in m && m[p.group] == p.workspace then (m, out)
      else (m[p.group := p.workspace], out + [p.workspace])
  }

  function FirstActiveOf(w: World, g: Group): Option<Workspace> {
    Find(w.workspaces, (x: Workspace) => x.id in g.workspaces && x.active)
  }

  /** One pair per group with an active workspace, in group order. */
  function ActivePairs(w: World, groups: seq<Group>): seq<ActivePair> {
    if groups == [] then []
    else
      var found := FirstActiveOf(w, groups[0]);
      (if found.Some? then [ActivePair(groups[0].id, found.value.id)] else []) + ActivePairs(w, groups[1..])
  }

  class MruIndex {
    var recent: seq<Id>
    var lastKnownActive: map<Id, Id>

    constructor ()
      ensures recent == [] && lastKnownActive == map[]
    {
      recent, lastKnownActive := [], map[];
    }

    method RecordTransition(ws: Id, cap: nat)
      modifies this`recent
      ensures recent == Recorded(old(recent), ws, cap)
    {
      recent := Without(recent, ws);
      recent := [ws] + recent;
      ghost var full := recent;
      while |recent| > cap
        invariant recent == full[..|recent|]
        invariant |recent| == |full| || cap <= |recent| < |full|
      {
        recent := recent[..|recent| - 1];
      }
    }

    method DetectTransitionsAndUpdate(batch: seq<ActivePair>) returns (out: seq<Id>)
      modifies this`lastKnownActive
      ensures (lastKnownActive, out) == Detected(old(lastKnownActive), batch)
    {
      out := [];
      for i := 0 to |batch|
        invariant (lastKnownActive, out) == Detected(old(lastKnownActive), batch[..i])
      {
        assert batch[..i + 1][..i] == batch[..i];
        var p := batch[i];
        if p.group in lastKnownActive && lastKnownActive[p.group] == p.workspace {
          continue;
        }
        lastKnownActive := lastKnownActive[p.group := p.workspace];
        out := out + [p.workspace];
      }
      assert batch[..|batch|] == batch;
    }

    method UpdateFromActiveTransitions(w: World, cap: nat)
      modifies this
      ensures var (known, visits) := Detected(old(lastKnownActive), ActivePairs(w, w.groups));
              lastKnownActive == known && recent == RecordAll(old(recent), visits, cap)
    {
      var transitions := DetectTransitionsAndUpdate(ActivePairs(w, w.groups));
      for i := 0 to |transitions|
        invariant lastKnownActive == Detected(old(lastKnownActive), ActivePairs(w, w.groups)).0
        invariant recent == RecordAll(old(recent), transitions[..i], cap)
      {
        assert transitions[..i + 1][..i] == transitions[..i];
        RecordTransition(transitions[i], cap);
      }
      assert transitions[..|transitions|] == transitions;
    }
  }

  // ---- The bounded list against the whole visit history ----

  /** Position of the latest visit of `x`. */
  function LatestVisit(visits: seq<Id>, x: Id): (i: nat)
    requires x in visits
    ensures i < |visits| && visits[i] == x
    ensures forall j | i < j < |visits| :: visits[j] != x
  {
    if visits[|visits| - 1] == x then |visits| - 1 else LatestVisit(visits[..|visits| - 1], x)
  }

  ghost predicate LaterVisit(visits: seq<Id>, x: Id, y: Id) {
    x in visits && y in visits && LatestVisit(visits, x) > LatestVisit(visits, y)
  }

  /** Each entry of `r` was latest visited strictly later than those after it. */
  ghost predicate LatestFirst(r: seq<Id>, visits: seq<Id>) {
    forall i, j | 0 <= i < j < |r| :: LaterVisit(visits, r[i], r[j])
  }

  /** `r` lists exactly the visited ids, latest visited first. */
  ghost predicate IsRecencyOrder(r: seq<Id>, visits: seq<Id>) {
    && (forall x :: x in r <==> x in visits)
    && LatestFirst(r, visits)
  }

  lemma RecencyOrderNoDup(r: seq<Id>, visits: seq<Id>)
    requires IsRecencyOrder(r, visits)
    ensures NoDup(r)
  {
    forall i, j | 0 <= i < j < |r| ensures r[i] != r[j] {
      assert LaterVisit(visits, r[i], r[j]);
    }
  }

  /** The unbounded index: what the list would be with no cap. */
  function ByLatestVisit(visits: seq<Id>): seq<Id> {
    if visits == [] then []
    else
      var last := visits[|visits| - 1];
      [last] + Without(ByLatestVisit(visits[..|visits| - 1]), last)
  }

  /** `Without` keeps the order of what it keeps. */
  lemma {:induction false} WithoutOrder(s: seq<Id>, x: Id, i: nat, j: nat) returns (k: nat, l: nat)
    requires i < j < |Without(s, x)|
    ensures k < l < |s| && s[k] == Without(s, x)[i] && s[l] == Without(s, x)[j]
  {
    var r := Without(s[1..], x);
    if s[0] == x {
      k, l := WithoutOrder(s[1..], x, i, j);
      k, l := k + 1, l + 1;
    } else if i > 0 {
      k, l := WithoutOrder(s[1..], x, i - 1, j - 1);
      k, l := k + 1, l + 1;
    } else {
      assert r[j - 1] in s[1..];
      var at :| 0 <= at < |s| - 1 && s[1..][at] == r[j - 1];
      k, l := 0, at + 1;
    }
  }

  lemma {:induction false} ByLatestVisitIsRecencyOrder(visits: seq<Id>)
    ensures IsRecencyOrder(ByLatestVisit(visits), visits)
  {
    if visits != [] {
      var init, last := visits[..|visits| - 1], visits[|visits| - 1];
      ByLatestVisitIsRecencyOrder(init);
      VisitMovesToFront(init, ByLatestVisit(init), last);
      assert visits == init + [last];
    }
  }

  /** Moving a newly visited id to the front keeps the recency order. */
  lemma VisitMovesToFront(visits: seq<Id>, older: seq<Id>, last: Id)
    requires IsRecencyOrder(older, visits)
    ensures IsRecencyOrder([last] + Without(older, last), visits + [last])
  {
    var kept, all := Without(older, last), visits + [last];
    KeptOrder(visits, older, last);
    forall y | y in kept ensures LaterVisit(all, last, y) {
      FrontIsLatest(visits, last, y);
    }
    PrependKeepsOrder(all, last, kept);
  }

  lemma PrependKeepsOrder(visits: seq<Id>, x: Id, kept: seq<Id>)
    requires forall y | y in kept :: LaterVisit(visits, x, y)
    requires LatestFirst(kept, visits)
    ensures LatestFirst([x] + kept, visits)
  {
    hide LaterVisit;
    var r := [x] + kept;
    forall i, j | 0 <= i < j < |r| ensures LaterVisit(visits, r[i], r[j]) {
      assert r[j] == kept[j - 1] && kept[j - 1] in kept;
      if i > 0 {
        assert r[i] == kept[i - 1];
      }
    }
  }

  lemma KeptOrder(visits: seq<Id>, older: seq<Id>, last: Id)
    requires IsRecencyOrder(older, visits)
    ensures LatestFirst(Without(older, last), visits + [last])
  {
    var kept := Without(older, last);
    hide LatestVisit, LaterVisit;
    forall i, j | 0 <= i < j < |kept| ensures LaterVisit(visits + [last], kept[i], kept[j]) {
      assert kept[i] in kept && kept[j] in kept;
      var k, l := WithoutOrder(older, last, i, j);
      StillLater(visits, last, kept[i], kept[j]);
    }
  }

  lemma FrontIsLatest(visits: seq<Id>, last: Id, y: Id)
    requires y in visits && y != last
    ensures LaterVisit(visits + [last], last, y)
  {
    LatestAfter(visits, last, y);
    assert (visits + [last])[|visits|] == last;
  }

  lemma StillLater(visits: seq<Id>, last: Id, x: Id, y: Id)
    requires LaterVisit(visits, x, y) && x != last && y != last
    ensures LaterVisit(visits + [last], x, y)
  {
    LatestAfter(visits, last, x);
    LatestAfter(visits, last, y);
  }

  lemma LatestAfter(visits: seq<Id>, last: Id, x: Id)
    requires x in visits && x != last
    ensures x in visits + [last] && LatestVisit(visits + [last], x) == LatestVisit(visits, x)
  {
    assert (visits + [last])[..|visits|] == visits;
  }

  /** There is only one recency order, so `ByLatestVisit` is the reference list. */
  lemma {:induction false} RecencyOrderUnique(r: seq<Id>, s: seq<Id>, visits: seq<Id>)
    requires IsRecencyOrder(r, visits) && IsRecencyOrder(s, visits)
    ensures r == s
  {
    RecencyOrderNoDup(r, visits);
    RecencyOrderNoDup(s, visits);
    RecencyOrderFrom(r, s, visits, 0);
  }

  lemma {:induction false} RecencyOrderFrom(r: seq<Id>, s: seq<Id>, visits: seq<Id>, k: nat)
    requires IsRecencyOrder(r, visits) && IsRecencyOrder(s, visits) && NoDup(r) && NoDup(s)
    requires k <= |r| && k <= |s| && r[..k] == s[..k]
    ensures r == s
    decreases |r| - k
  {
    if k < |r| {
      assert r[k] in r && r[k] in s;
      var l := FoundAfter(r, s, k);
      assert s[k] in s && s[k] in r;
      var m := FoundAfter(s, r, k);
      assert l > k ==> LaterVisit(visits, s[k], s[l]);
      assert m > k ==> LaterVisit(visits, r[k], r[m]);
      assert r[..k + 1] == r[..k] + [r[k]] && s[..k + 1] == s[..k] + [s[k]];
      RecencyOrderFrom(r, s, visits, k + 1);
    } else if k < |s| {
      assert s[k] in s && s[k] in r;
      var m := FoundAfter(s, r, k);
    } else {
      assert r == r[..k] && s == s[..k];
    }
  }

  /** If two duplicate-free lists agree up to `k`, a later entry of one is not among the agreed ones of the other. */
  lemma FoundAfter(r: seq<Id>, s: seq<Id>, k: nat) returns (l: nat)
    requires NoDup(r) && k < |r| && k <= |s| && r[..k] == s[..k] && r[k] in s
    ensures k <= l < |s| && s[l] == r[k]
  {
    l :| l < |s| && s[l] == r[k];
    assert forall i | 0 <= i < k :: r[i] == r[..k][i] && s[i] == s[..k][i];
    if l < k {
      assert false;
    }
  }

  lemma {:induction false} WithoutAbsent(s: seq<Id>, x: Id)
    requires x !in s
    ensures Without(s, x) == s
  {
    if s != [] {
      WithoutAbsent(s[1..], x);
    }
  }

  /** Removing one id and cutting to `n` sees only the first `n + 1` entries. */
  lemma {:induction false} TruncateWithout(s: seq<Id>, x: Id, n: nat)
    requires NoDup(s)
    ensures Truncate(Without(Truncate(s, n + 1), x), n) == Truncate(Without(s, x), n)
  {
    if |s| > n + 1 {
      var t := Truncate(s, n + 1);
      assert t[0] == s[0] && t[1..] == s[1..][..n];
      if s[0] == x {
        assert x !in s[1..] by {
          forall j | 1 <= j < |s| ensures s[j] != x { assert s[0] != s[j]; }
        }
        WithoutAbsent(s[1..], x);
        WithoutAbsent(t[1..], x);
      } else if n > 0 {
        assert NoDup(s[1..]);
        assert t[1..] == Truncate(s[1..], n);
        TruncateWithout(s[1..], x, n - 1);
        TruncateCons(s[0], Without(t[1..], x), n);
        TruncateCons(s[0], Without(s[1..], x), n);
      }
    }
  }

  lemma TruncateCons(x: Id, s: seq<Id>, n: nat)
    requires n > 0
    ensures Truncate([x] + s, n) == [x] + Truncate(s, n - 1)
  {
  }

  /**
   Truncating at every step agrees with truncating once at the end: the list built from empty is the
   first `cap` entries of the unbounded recency order, for every history and every cap.
   */
  lemma {:induction false} BoundedIndexIsTopOfHistory(visits: seq<Id>, cap: nat)
    ensures RecordAll([], visits, cap) == Truncate(ByLatestVisit(visits), cap)
  {
    if visits != [] {
      var n := |visits| - 1;
      var init, last := visits[..n], visits[n];
      var older := ByLatestVisit(init);
      BoundedIndexIsTopOfHistory(init, cap);
      ByLatestVisitIsRecencyOrder(init);
      RecencyOrderNoDup(older, init);
      if cap > 0 {
        TruncateWithout(older, last, cap - 1);
        TruncateCons(last, Without(Truncate(older, cap), last), cap);
        TruncateCons(last, Without(older, last), cap);
      }
    }
  }

  lemma {:induction false} RecordAllAppend(deque: seq<Id>, a: seq<Id>, b: seq<Id>, cap: nat)
    ensures RecordAll(deque, a + b, cap) == RecordAll(RecordAll(deque, a, cap), b, cap)
  {
    if b == [] {
      assert a + b == a;
    } else {
      var n := |b| - 1;
      assert (a + b)[..|a + b| - 1] == a + b[..n];
      RecordAllAppend(deque, a, b[..n], cap);
    }
  }

  // ---- Transition detection ----

  ghost predicate DistinctPairGroups(batch: seq<ActivePair>) {
    forall i, j | 0 <= i < j < |batch| :: batch[i].group != batch[j].group
  }

  function GroupsIn(batch: seq<ActivePair>): set<Id> {
    set p | p in batch :: p.group
  }

  /** The workspaces of the pairs whose group was not already at that workspace, in input order. */
  function Changed(known: map<Id, Id>, batch: seq<ActivePair>): seq<Id> {
    if batch == [] then []
    else
      var p := batch[|batch| - 1];
      Changed(known, batch[..|batch| - 1]) +
        (if p.group in known && known[p.group] == p.workspace then [] else [p.workspace])
  }

  /** With distinct groups a batch sets each listed group to its workspace and leaves every other group alone. */
  ghost predicate SetsListed(known: map<Id, Id>, batch: seq<ActivePair>, on: map<Id, Id>) {
    && (forall p | p in batch :: p.group in on && on[p.group] == p.workspace)
    && (forall g | g !in GroupsIn(batch) :: (g in on <==> g in known) && (g in on ==> on[g] == known[g]))
  }

  lemma SetOneMore(known: map<Id, Id>, batch: seq<ActivePair>, on: map<Id, Id>)
    requires batch != [] && DistinctPairGroups(batch) && SetsListed(known, batch[..|batch| - 1], on)
    ensures var p := batch[|batch| - 1];
            && (p.group in on <==> p.group in known) && (p.group in on ==> on[p.group] == known[p.group])
            && SetsListed(known, batch, on[p.group := p.workspace])
  {
    var init, last := batch[..|batch| - 1], batch[|batch| - 1];
    LastGroupIsNew(batch);
    hide DistinctPairGroups;
    assert batch == init + [last];
    assert forall p | p in init :: p.group in GroupsIn(init);
  }

  /** That, and the workspaces emitted are exactly the changed ones in input order. */
  lemma {:induction false} DetectedExact(known: map<Id, Id>, batch: seq<ActivePair>)
    requires DistinctPairGroups(batch)
    ensures var (on, out) := Detected(known, batch);
            SetsListed(known, batch, on) && out == Changed(known, batch)
  {
    if batch != [] {
      hide SetsListed;
      var init := batch[..|batch| - 1];
      assert DistinctPairGroups(init);
      DetectedExact(known, init);
      DetectedStep(known, batch);
      SetOneMore(known, batch, Detected(known, init).0);
    }
  }

  /** One more pair sets its group, and emits its workspace unless the group was already there. */
  lemma DetectedStep(known: map<Id, Id>, batch: seq<ActivePair>)
    requires batch != []
    ensures var (before, out), p := Detected(known, batch[..|batch| - 1]), batch[|batch| - 1];
            var (after, more) := Detected(known, batch);
            && after == before[p.group := p.workspace]
            && more == out + if p.group in before && before[p.group] == p.workspace then [] else [p.workspace]
  {
  }

  lemma {:induction false} ChangedExact(known: map<Id, Id>, batch: seq<ActivePair>, x: Id)
    ensures x in Changed(known, batch) <==>
              exists p :: p in batch && p.workspace == x && !(p.group in known && known[p.group] == x)
  {
    if batch != [] {
      var init, last := batch[..|batch| - 1], batch[|batch| - 1];
      ChangedExact(known, init, x);
      assert batch == init + [last];
      assert forall p :: p in batch <==> p in init || p == last;
    }
  }

  lemma LastGroupIsNew(batch: seq<ActivePair>)
    requires batch != [] && DistinctPairGroups(batch)
    ensures var init, last := batch[..|batch| - 1], batch[|batch| - 1];
            && DistinctPairGroups(init) && last.group !in GroupsIn(init)
            && GroupsIn(batch) == GroupsIn(init) + {last.group}
  {
    var init, last := batch[..|batch| - 1], batch[|batch| - 1];
    assert batch == init + [last];
    assert last in batch;
  }

  /** A batch whose pairs are all known changes nothing. */
  lemma {:induction false} KnownBatchIsSilent(known: map<Id, Id>, batch: seq<ActivePair>)
    requires forall p | p in batch :: p.group in known && known[p.group] == p.workspace
    ensures Detected(known, batch) == (known, [])
  {
    if batch != [] {
      var init := batch[..|batch| - 1];
      assert forall p | p in init :: p in batch;
      KnownBatchIsSilent(known, init);
      assert batch[|batch| - 1] in batch;
    }
  }

  /** Repeating a batch with distinct groups emits nothing and leaves map and list unchanged. */
  lemma RepeatIsSilent(known: map<Id, Id>, deque: seq<Id>, batch: seq<ActivePair>, cap: nat)
    requires DistinctPairGroups(batch)
    ensures var m := Detected(known, batch).0;
            Detected(m, batch) == (m, []) && RecordAll(deque, Detected(m, batch).1, cap) == deque
  {
    DetectedExact(known, batch);
    KnownBatchIsSilent(Detected(known, batch).0, batch);
  }

  /** Distinct groups are needed: a batch listing one group twice emits both workspaces every time. */
  lemma RepeatedGroupKeepsEmitting()
    ensures var batch := [ActivePair(1, 10), ActivePair(1, 11)];
            var m := Detected(map[], batch).0;
            Detected(m, batch).1 == [10, 11]
  {
    var batch := [ActivePair(1, 10), ActivePair(1, 11)];
    assert batch[..1] == [ActivePair(1, 10)];
    var one := [ActivePair(1, 10)];
    assert one[..0] == [];
    assert Detected(map[], []) == (map[], []) && Detected(map[1 := 11], []) == (map[1 := 11], []);
    assert Detected(map[], one).0 == map[1 := 10];
    assert Detected(map[], batch).0 == map[1 := 11];
    assert Detected(map[1 := 11], one).0 == map[1 := 10] && Detected(map[1 := 11], one).1 == [10];
  }

  lemma {:induction false} ActivePairsFromGroups(w: World, groups: seq<Group>)
    ensures forall p | p in ActivePairs(w, groups) ::
              exists g :: g in groups && g.id == p.group && p.workspace in g.workspaces && FirstActiveOf(w, g).Some?
                          && FirstActiveOf(w, g).value.id == p.workspace
  {
    if groups != [] {
      ActivePairsFromGroups(w, groups[1..]);
      forall p | p in ActivePairs(w, groups)
        ensures exists g :: g in groups && g.id == p.group && p.workspace in g.workspaces && FirstActiveOf(w, g).Some?
                            && FirstActiveOf(w, g).value.id == p.workspace
      {
        if p in ActivePairs(w, groups[1..]) {
          var g :| g in groups[1..] && g.id == p.group && p.workspace in g.workspaces && FirstActiveOf(w, g).Some?
                   && FirstActiveOf(w, g).value.id == p.workspace;
          assert g in groups;
        } else {
          assert groups[0] in groups;
        }
      }
    }
  }

  // ---- Which pair a group yields ----

  predicate ActiveMember(w: World, g: Group, i: nat) {
    i < |w.workspaces| && w.workspaces[i].id in g.workspaces && w.workspaces[i].active
  }

  ghost predicate SomeActive(w: World, g: Group) {
    exists i: nat :: ActiveMember(w, g, i)
  }

  ghost predicate TwoActive(w: World, g: Group) {
    exists i: nat, j: nat :: i < j && ActiveMember(w, g, i) && ActiveMember(w, g, j)
  }

  ghost predicate AnyTwoActive(w: World, groups: seq<Group>) {
    exists g :: g in groups && TwoActive(w, g)
  }

  lemma AnyOneMore(w: World, groups: seq<Group>)
    requires groups != []
    ensures AnyTwoActive(w, groups) <==> TwoActive(w, groups[0]) || AnyTwoActive(w, groups[1..])
  {
    hide TwoActive;
    assert forall x :: x in groups <==> x == groups[0] || x in groups[1..];
  }

  /** A group yields a pair iff some listed member is active, and the pair is the first such member. */
  lemma PairIffActiveMember(w: World, g: Group)
    ensures FirstActiveOf(w, g).Some? <==> SomeActive(w, g)
    ensures FirstActiveOf(w, g).Some? ==>
              exists i: nat :: ActiveMember(w, g, i) && w.workspaces[i] == FirstActiveOf(w, g).value
                               && forall j: nat | j < i :: !ActiveMember(w, g, j)
  {
    var active := (x: Workspace) => x.id in g.workspaces && x.active;
    if FirstActiveOf(w, g).Some? {
      var i := FoundBeforeOthers(w.workspaces, active);
      assert ActiveMember(w, g, i);
    }
    if i: nat :| ActiveMember(w, g, i) {
      assert w.workspaces[i] in w.workspaces && active(w.workspaces[i]);
    }
  }

  /** One pair per group with exactly one active workspace. */
  ghost function SingleActivePairs(w: World, groups: seq<Group>): seq<ActivePair> {
    if groups == [] then []
    else
      var found := FirstActiveOf(w, groups[0]);
      (if found.Some? && !TwoActive(w, groups[0]) then [ActivePair(groups[0].id, found.value.id)] else [])
        + SingleActivePairs(w, groups[1..])
  }

  /** Collecting the first active member is collecting the only one iff no group has two. */
  lemma {:induction false} PairsAreSingleIff(w: World, groups: seq<Group>)
    ensures |SingleActivePairs(w, groups)| <= |ActivePairs(w, groups)|
    ensures ActivePairs(w, groups) == SingleActivePairs(w, groups) <==> !AnyTwoActive(w, groups)
  {
    if groups == [] {
      assert !AnyTwoActive(w, groups);
    } else {
      var g, rest := groups[0], groups[1..];
      hide FirstActiveOf, TwoActive, AnyTwoActive;
      AnyOneMore(w, groups);
      PairsAreSingleIff(w, rest);
      PairIffActiveMember(w, g);
      TwoAreSome(w, g);
      if FirstActiveOf(w, g).Some? {
        var pair := [ActivePair(g.id, FirstActiveOf(w, g).value.id)];
        assert ActivePairs(w, groups) == pair + ActivePairs(w, rest);
        if TwoActive(w, g) {
          assert SingleActivePairs(w, groups) == SingleActivePairs(w, rest);
        } else {
          assert SingleActivePairs(w, groups) == pair + SingleActivePairs(w, rest);
          assert (pair + ActivePairs(w, rest))[1..] == ActivePairs(w, rest);
          assert (pair + SingleActivePairs(w, rest))[1..] == SingleActivePairs(w, rest);
        }
      } else {
        assert ActivePairs(w, groups) == ActivePairs(w, rest);
        assert SingleActivePairs(w, groups) == SingleActivePairs(w, rest);
      }
    }
  }

  lemma TwoAreSome(w: World, g: Group)
    ensures TwoActive(w, g) ==> SomeActive(w, g)
  {
  }

  /** A group with two active workspaces yields the first of them, where the comment promises nothing. */
  lemma TwoActiveYieldFirst()
    ensures var w := World([Group(1, [], {10, 11}, false)], [Workspace(10, [], true), Workspace(11, [], true)], []);
            ActivePairs(w, w.groups) == [ActivePair(1, 10)] && SingleActivePairs(w, w.groups) == []
  {
    var g := Group(1, [], {10, 11}, false);
    var w := World([g], [Workspace(10, [], true), Workspace(11, [], true)], []);
    assert ActiveMember(w, g, 0) && ActiveMember(w, g, 1);
    assert w.groups[1..] == [];
    assert ActivePairs(w, []) == [] && SingleActivePairs(w, []) == [];
  }

  /** Entry `i` is the first active one of group `g`. */
  ghost predicate FirstActiveIn(w: World, g: nat, i: nat) {
    && Member(w, g, i) && w.workspaces[i].active
    && forall j: nat | j < i && Member(w, g, j) :: !w.workspaces[j].active
  }

  /** Some group with that id has `x` as its first active workspace. */
  ghost predicate ShowsVisit(w: World, groupId: Id, x: Id) {
    exists g: nat, i: nat :: FirstActiveIn(w, g, i) && w.groups[g].id == groupId && w.workspaces[i].id == x
  }

  lemma FirstActiveExact(w: World, g: nat)
    requires g < |w.groups|
    ensures var found := FirstActiveOf(w, w.groups[g]);
            && (found.Some? ==> exists i: nat :: FirstActiveIn(w, g, i))
            && forall i: nat | FirstActiveIn(w, g, i) :: found == Some(w.workspaces[i])
  {
    var active := (x: Workspace) => x.id in w.groups[g].workspaces && x.active;
    if FirstActiveOf(w, w.groups[g]).Some? {
      var i := FoundBeforeOthers(w.workspaces, active);
      assert forall j | 0 <= j < i :: !active(w.workspaces[j]);
      assert FirstActiveIn(w, g, i);
    }
    forall i: nat | FirstActiveIn(w, g, i) ensures FirstActiveOf(w, w.groups[g]) == Some(w.workspaces[i]) {
      FindIsFirst(w.workspaces, active, i);
    }
  }

  lemma {:induction false} ActivePairsAll(w: World, groups: seq<Group>)
    ensures forall g | g in groups && FirstActiveOf(w, g).Some? ::
              ActivePair(g.id, FirstActiveOf(w, g).value.id) in ActivePairs(w, groups)
  {
    if groups != [] {
      hide FirstActiveOf;
      ActivePairsAll(w, groups[1..]);
      forall g | g in groups && FirstActiveOf(w, g).Some?
        ensures ActivePair(g.id, FirstActiveOf(w, g).value.id) in ActivePairs(w, groups)
      {
        assert g == groups[0] || g in groups[1..];
      }
    }
  }

  lemma {:induction false} ActivePairsDistinct(w: World, groups: seq<Group>)
    requires forall i, j | 0 <= i < j < |groups| :: groups[i].id != groups[j].id
    ensures DistinctPairGroups(ActivePairs(w, groups))
  {
    if groups != [] {
      hide FirstActiveOf;
      ActivePairsDistinct(w, groups[1..]);
      ActivePairsFromGroups(w, groups[1..]);
      var rest := ActivePairs(w, groups[1..]);
      forall p | p in rest ensures p.group != groups[0].id {
        var g :| g in groups[1..] && g.id == p.group;
        var k :| 0 <= k < |groups| - 1 && groups[1..][k] == g;
        assert groups[k + 1] == g;
      }
      if FirstActiveOf(w, groups[0]).Some? {
        PrependDistinct(ActivePair(groups[0].id, FirstActiveOf(w, groups[0]).value.id), rest);
      } else {
        assert ActivePairs(w, groups) == rest;
      }
    }
  }

  lemma PrependDistinct(p: ActivePair, rest: seq<ActivePair>)
    requires DistinctPairGroups(rest) && forall q | q in rest :: q.group != p.group
    ensures DistinctPairGroups([p] + rest)
  {
  }

  /** The collected pairs are the visits the world shows. */
  lemma PairsAreVisits(w: World, p: ActivePair)
    ensures p in ActivePairs(w, w.groups) <==> ShowsVisit(w, p.group, p.workspace)
  {
    hide FirstActiveOf, FirstActiveIn;
    ActivePairsFromGroups(w, w.groups);
    ActivePairsAll(w, w.groups);
    if p in ActivePairs(w, w.groups) {
      var group :| group in w.groups && group.id == p.group && FirstActiveOf(w, group).Some?
                   && FirstActiveOf(w, group).value.id == p.workspace;
      var g :| 0 <= g < |w.groups| && w.groups[g] == group;
      FirstActiveExact(w, g);
      var i: nat :| FirstActiveIn(w, g, i);
      InGroup(w, g, i);
    }
    if ShowsVisit(w, p.group, p.workspace) {
      Shown(w, p);
    }
  }

  lemma InGroup(w: World, g: nat, i: nat)
    requires FirstActiveIn(w, g, i)
    ensures g < |w.groups| && i < |w.workspaces|
  {
  }

  lemma Shown(w: World, p: ActivePair)
    requires ShowsVisit(w, p.group, p.workspace)
    ensures exists group :: group in w.groups && group.id == p.group && FirstActiveOf(w, group).Some?
                            && FirstActiveOf(w, group).value.id == p.workspace
  {
    var g: nat, i: nat :| FirstActiveIn(w, g, i) && w.groups[g].id == p.group && w.workspaces[i].id == p.workspace;
    FirstActiveExact(w, g);
    assert w.groups[g] in w.groups;
  }

  // ---- The first member of each group is the group's last known active workspace ----

  /**
   Every entry that is the first of its group in `deque` is that group's last known workspace; groups
   in `seen` have had their first entry already. `home` is the fixed partition of workspaces.
   */
  predicate GroupFronts(deque: seq<Id>, known: map<Id, Id>, home: Id -> Id, seen: set<Id>) {
    if deque == [] then true
    else
      && (home(deque[0]) in seen || (home(deque[0]) in known && known[home(deque[0])] == deque[0]))
      && GroupFronts(deque[1..], known, home, seen + {home(deque[0])})
  }

  /** Cutting the tail, skipping the entries of one group and letting that group's value change keep it. */
  lemma {:induction false} GroupFrontsWithout(deque: seq<Id>, known: map<Id, Id>, home: Id -> Id, seen: set<Id>,
                                              x: Id, more: set<Id>)
    requires GroupFronts(deque, known, home, seen)
    requires seen <= more && home(x) in more
    ensures GroupFronts(Without(deque, x), known[home(x) := x], home, more)
  {
    if deque != [] {
      var g := home(deque[0]);
      GroupFrontsWithout(deque[1..], known, home, seen + {g}, x, more + {g});
      if deque[0] == x {
        assert more + {g} == more && Without(deque, x) == Without(deque[1..], x);
      } else {
        assert Without(deque, x)[1..] == Without(deque[1..], x);
      }
    }
  }

  lemma {:induction false} GroupFrontsTruncate(deque: seq<Id>, known: map<Id, Id>, home: Id -> Id, seen: set<Id>,
                                               cap: nat)
    requires GroupFronts(deque, known, home, seen)
    ensures GroupFronts(Truncate(deque, cap), known, home, seen)
  {
    if |deque| > cap > 0 {
      GroupFrontsTruncate(deque[1..], known, home, seen + {home(deque[0])}, cap - 1);
      assert Truncate(deque, cap)[1..] == Truncate(deque[1..], cap - 1);
    }
  }

  /** A whole batch, detected first and recorded afterwards, keeps it, despite eviction by other groups. */
  lemma {:induction false} BatchKeepsGroupFronts(deque: seq<Id>, known: map<Id, Id>, home: Id -> Id,
                                                 batch: seq<ActivePair>, cap: nat)
    requires GroupFronts(deque, known, home, {})
    requires forall p | p in batch :: home(p.workspace) == p.group
    ensures var (m, visits) := Detected(known, batch);
            GroupFronts(RecordAll(deque, visits, cap), m, home, {})
  {
    if batch != [] {
      var n := |batch| - 1;
      var init, p := batch[..n], batch[n];
      assert forall q | q in init :: q in batch;
      assert p in batch;
      BatchKeepsGroupFronts(deque, known, home, init, cap);
      var (m, visits) := Detected(known, init);
      var d := RecordAll(deque, visits, cap);
      if !(p.group in m && m[p.group] == p.workspace) {
        var m' := m[p.group := p.workspace];
        GroupFrontsWithout(d, m, home, {}, p.workspace, {p.group});
        var longer := [p.workspace] + Without(d, p.workspace);
        assert longer[1..] == Without(d, p.workspace) && {} + {p.group} == {p.group};
        assert GroupFronts(longer, m', home, {});
        GroupFrontsTruncate(longer, m', home, {}, cap);
        assert (visits + [p.workspace])[..|visits|] == visits;
      }
    }
  }

  /** What the invariant says of any one group: its first entry, if any, is its last known workspace. */
  lemma {:induction false} FirstMemberIsLastKnown(deque: seq<Id>, known: map<Id, Id>, home: Id -> Id, seen: set<Id>,
                                                  g: Id, i: nat)
    requires GroupFronts(deque, known, home, seen) && g !in seen
    requires i < |deque| && home(deque[i]) == g
    requires forall j | 0 <= j < i :: home(deque[j]) != g
    ensures g in known && known[g] == deque[i]
  {
    if i > 0 {
      FirstMemberIsLastKnown(deque[1..], known, home, seen + {home(deque[0])}, g, i - 1);
    }
  }
}
