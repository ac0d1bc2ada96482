/**
 The two-tier activation verifier: the mutable state, its meaning as a ledger value, and the exact
 characterisation of every timeout's event over the whole history of calls.
 Signal A is INFO once per workspace handle, Signal B is WARN once per verifier.
 */
module Verify {
  import opened Wrappers
  import opened Snapshot

  type TimerId = nat

  datatype VerifyEvent = NoEvent | InfoOnceForHandle | WarnOnceForProcess | InfoAndWarn {
    predicate EmitsInfo() { InfoOnceForHandle? || InfoAndWarn? }
    predicate EmitsWarn() { WarnOnceForProcess? || InfoAndWarn? }
  }

  /** The verifier's fields as one value. */
  datatype Ledger = Ledger(pending: map<Id, TimerId>, attempted: set<Id>, everConfirmed: bool,
                           warnFired: bool, infoEmitted: set<Id>, threshold: nat)

  /** One call on the verifier. */
  datatype Call =
    | Attempt(handle: Id, timer: Option<TimerId>)
    | Confirm(handle: Id)
    | Timeout(handle: Id)

  function FreshLedger(threshold: nat): Ledger {
    Ledger(map[], {}, false, false, {}, threshold)
  }

  function AfterAttempt(l: Ledger, h: Id, timer: Option<TimerId>): Ledger {
    l.(attempted := l.attempted + {h},
       pending := if timer.Some? then l.pending[h := timer.value] else l.pending)
  }

  function AfterConfirm(l: Ledger, h: Id): Ledger {
    l.(pending := l.pending - {h}, everConfirmed := true, attempted := {}, infoEmitted := {})
  }

  predicate WarnDue(l: Ledger) {
    !l.everConfirmed && !l.warnFired && |l.attempted| >= l.threshold
  }

  function AfterTimeout(l: Ledger, h: Id): Ledger {
    l.(pending := l.pending - {h}, infoEmitted := l.infoEmitted + {h}, warnFired := l.warnFired || WarnDue(l))
  }

  function TimeoutEvent(l: Ledger, h: Id): VerifyEvent {
    match (h !in l.infoEmitted, WarnDue(l))
    case (true, true) => InfoAndWarn
    case (true, false) => InfoOnceForHandle
    case (false, true) => WarnOnceForProcess
    case (false, false) => NoEvent
  }

  function AfterCall(l: Ledger, c: Call): Ledger {
    match c
    case Attempt(h, timer) => AfterAttempt(l, h, timer)
    case Confirm(h) => AfterConfirm(l, h)
    case Timeout(h) => AfterTimeout(l, h)
  }

  /** The ledger after a whole history on a fresh verifier. */
  function After(threshold: nat, calls: seq<Call>): Ledger {
    if calls == [] then FreshLedger(threshold)
    else AfterCall(After(threshold, calls[..|calls| - 1]), calls[|calls| - 1])
  }

  /** The ledger after more calls on top of `l`. */
  function AfterAll(l: Ledger, calls: seq<Call>): Ledger {
    if calls == [] then l else AfterCall(AfterAll(l, calls[..|calls| - 1]), calls[|calls| - 1])
  }

  lemma {:induction false} AfterAllAppend(l: Ledger, a: seq<Call>, b: seq<Call>)
    ensures AfterAll(l, a + b) == AfterAll(AfterAll(l, a), b)
  {
    if b == [] {
      assert a + b == a;
    } else {
      assert (a + b)[..|a + b| - 1] == a + b[..|b| - 1];
      AfterAllAppend(l, a, b[..|b| - 1]);
    }
  }

  lemma {:induction false} AfterAppend(threshold: nat, a: seq<Call>, b: seq<Call>)
    ensures After(threshold, a + b) == AfterAll(After(threshold, a), b)
  {
    if b == [] {
      assert a + b == a;
    } else {
      assert (a + b)[..|a + b| - 1] == a + b[..|b| - 1];
      AfterAppend(threshold, a, b[..|b| - 1]);
    }
  }

  class VerifierState {
    var pending: map<Id, TimerId>
    var attemptedDistinct: set<Id>
    var everConfirmed: bool
    var processWarnFired: bool
    var infoEmitted: set<Id>
    const warnThreshold: nat

    function View(): Ledger
      reads this
    {
      Ledger(pending, attemptedDistinct, everConfirmed, processWarnFired, infoEmitted, warnThreshold)
    }

    constructor (threshold: nat)
      requires threshold >= 1
      ensures View() == FreshLedger(threshold)
    {
      pending, attemptedDistinct, infoEmitted := map[], {}, {};
      everConfirmed, processWarnFired := false, false;
      warnThreshold := threshold;
    }

    method RecordAttempt(handle: Id, timer: Option<TimerId>)
      modifies this
      ensures View() == AfterAttempt(old(View()), handle, timer)
    {
      attemptedDistinct := attemptedDistinct + {handle};
      if timer.Some? {
        pending := pending[handle := timer.value];
      }
    }

    method RecordConfirm(handle: Id)
      modifies this
      ensures View() == AfterConfirm(old(View()), handle)
    {
      pending := pending - {handle};
      everConfirmed := true;
      attemptedDistinct := {};
      infoEmitted := {};
    }

    method RecordTimeout(handle: Id) returns (event: VerifyEvent)
      modifies this
      ensures View() == AfterTimeout(old(View()), handle)
      ensures event == TimeoutEvent(old(View()), handle)
    {
      pending := pending - {handle};
      var infoFired := handle !in infoEmitted;
      infoEmitted := infoEmitted + {handle};
      var warnFires := !everConfirmed && !processWarnFired && |attemptedDistinct| >= warnThreshold;
      if warnFires {
        processWarnFired := true;
      }
      if infoFired && warnFires {
        event := InfoAndWarn;
      } else if infoFired {
        event := InfoOnceForHandle;
      } else if warnFires {
        event := WarnOnceForProcess;
      } else {
        event := NoEvent;
      }
    }
  }

  // ---- Meaning of a history, independent of the ledger ----

  ghost predicate EverConfirmed(calls: seq<Call>) {
    exists c :: c in calls && c.Confirm?
  }

  /** The calls made after the last confirm. */
  function SinceConfirm(calls: seq<Call>): seq<Call> {
    if calls == [] then []
    else if calls[|calls| - 1].Confirm? then []
    else SinceConfirm(calls[..|calls| - 1]) + [calls[|calls| - 1]]
  }

  function AttemptedIn(calls: seq<Call>): set<Id> {
    set c | c in calls && c.Attempt? :: c.handle
  }

  function TimedOutIn(calls: seq<Call>): set<Id> {
    set c | c in calls && c.Timeout? :: c.handle
  }

  /** Call `i` is a timeout with enough distinct attempts before it and no confirm before it. */
  ghost predicate WarnCondition(threshold: nat, calls: seq<Call>, i: nat)
    requires i < |calls|
  {
    calls[i].Timeout? && !EverConfirmed(calls[..i]) && |AttemptedIn(calls[..i])| >= threshold
  }

  /** The event call `i` of the history produces; only timeouts produce one. */
  function EventAt(threshold: nat, calls: seq<Call>, i: nat): VerifyEvent
    requires i < |calls|
  {
    if calls[i].Timeout? then TimeoutEvent(After(threshold, calls[..i]), calls[i].handle) else NoEvent
  }

  /** Before the first confirm nothing has been forgotten. */
  lemma {:induction false} SinceConfirmWhole(calls: seq<Call>)
    requires !EverConfirmed(calls)
    ensures SinceConfirm(calls) == calls
  {
    if calls != [] {
      var init := calls[..|calls| - 1];
      forall c | c in init ensures !c.Confirm? { assert c in calls; }
      assert calls[|calls| - 1] in calls;
      SinceConfirmWhole(init);
      assert calls == init + [calls[|calls| - 1]];
    }
  }

  /** The handle sets and the confirmation flag are read off the history. */
  lemma {:induction false} SetsAreHistory(threshold: nat, calls: seq<Call>)
    ensures var l := After(threshold, calls);
            && l.threshold == threshold
            && (l.everConfirmed <==> EverConfirmed(calls))
            && l.attempted == AttemptedIn(SinceConfirm(calls))
            && l.infoEmitted == TimedOutIn(SinceConfirm(calls))
  {
    if calls != [] {
      var n := |calls| - 1;
      var init, last := calls[..n], calls[n];
      SetsAreHistory(threshold, init);
      assert calls == init + [last];
      assert forall c :: c in calls <==> c in init || c == last;
      var since := SinceConfirm(init);
      assert forall c :: c in since + [last] <==> c in since || c == last;
    }
  }

  /** The WARN latch is set iff some timeout of the history met the condition. */
  lemma {:induction false} LatchIsHistory(threshold: nat, calls: seq<Call>)
    ensures After(threshold, calls).warnFired <==>
              exists i: nat :: i < |calls| && WarnCondition(threshold, calls, i)
  {
    if calls != [] {
      var n := |calls| - 1;
      var init, last := calls[..n], calls[n];
      var l := After(threshold, init);
      LatchIsHistory(threshold, init);
      SetsAreHistory(threshold, init);
      if !EverConfirmed(init) {
        SinceConfirmWhole(init);
      }
      WarnConditionPrefix(threshold, calls);
      assert WarnCondition(threshold, calls, n) <==>
             last.Timeout? && !l.everConfirmed && |l.attempted| >= threshold;
      if l.warnFired {
        var i: nat :| i < n && WarnCondition(threshold, init, i);
        assert WarnCondition(threshold, calls, i);
      }
      if i: nat :| i < n && WarnCondition(threshold, calls, i) {
        assert WarnCondition(threshold, init, i);
      }
      assert After(threshold, calls) == AfterCall(l, last);
    }
  }

  /** Whether an earlier call met the condition does not depend on the last one. */
  lemma WarnConditionPrefix(threshold: nat, calls: seq<Call>)
    requires calls != []
    ensures forall i: nat | i < |calls| - 1 ::
              WarnCondition(threshold, calls, i) <==> WarnCondition(threshold, calls[..|calls| - 1], i)
  {
    var init := calls[..|calls| - 1];
    forall i: nat | i < |calls| - 1
      ensures WarnCondition(threshold, calls, i) <==> WarnCondition(threshold, init, i)
    {
      assert init[..i] == calls[..i];
    }
  }

  /**
   A timeout warns iff it is the first timeout with at least `threshold` distinct handles attempted
   and no confirm, both counted over everything before it; it informs iff its handle has not timed
   out since the last confirm.
   */
  lemma TimeoutEventExact(threshold: nat, calls: seq<Call>, i: nat)
    requires i < |calls| && calls[i].Timeout?
    ensures EventAt(threshold, calls, i).EmitsWarn() <==>
              WarnCondition(threshold, calls, i) && forall j: nat | j < i :: !WarnCondition(threshold, calls, j)
    ensures EventAt(threshold, calls, i).EmitsInfo() <==>
              calls[i].handle !in TimedOutIn(SinceConfirm(calls[..i]))
  {
    var before := calls[..i];
    SetsAreHistory(threshold, before);
    LatchIsHistory(threshold, before);
    if !EverConfirmed(before) {
      SinceConfirmWhole(before);
    }
    forall j: nat | j < i ensures WarnCondition(threshold, calls, j) <==> WarnCondition(threshold, before, j) {
      assert before[..j] == calls[..j];
    }
  }

  /** Over any history at most one call warns, and no call warns once a confirm has happened. */
  lemma WarnsAtMostOnce(threshold: nat, calls: seq<Call>, i: nat, j: nat)
    requires i < |calls| && j < |calls|
    requires EventAt(threshold, calls, i).EmitsWarn()
    ensures EventAt(threshold, calls, j).EmitsWarn() ==> i == j
    ensures !EverConfirmed(calls[..i])
  {
    TimeoutEventExact(threshold, calls, i);
    if calls[j].Timeout? {
      TimeoutEventExact(threshold, calls, j);
    }
  }

  // ---- Pending handles against attempted handles ----

  /** The last call that concerns `h` in `pending` registered a timer for it. */
  ghost predicate AwaitsTimer(calls: seq<Call>, h: Id) {
    exists i: nat :: i < |calls| && RegistersAt(calls, h, i) && Undisturbed(calls, h, i)
  }

  ghost predicate RegistersAt(calls: seq<Call>, h: Id, i: nat)
    requires i < |calls|
  {
    calls[i].Attempt? && calls[i].handle == h && calls[i].timer.Some?
  }

  ghost predicate Undisturbed(calls: seq<Call>, h: Id, i: nat)
    requires i < |calls|
  {
    forall j | i < j < |calls| :: calls[j].Attempt? || calls[j].handle != h
  }

  lemma {:induction false} PendingIsHistory(threshold: nat, calls: seq<Call>, h: Id)
    ensures h in After(threshold, calls).pending <==> AwaitsTimer(calls, h)
  {
    if calls != [] {
      var n := |calls| - 1;
      var init, last := calls[..n], calls[n];
      PendingIsHistory(threshold, init, h);
      if AwaitsTimer(init, h) && (last.Attempt? || last.handle != h) {
        var i: nat :| i < n && RegistersAt(init, h, i) && Undisturbed(init, h, i);
        assert RegistersAt(calls, h, i) && Undisturbed(calls, h, i);
      }
      if RegistersAt(calls, h, n) {
        assert Undisturbed(calls, h, n);
      }
      if AwaitsTimer(calls, h) {
        var i: nat :| i < |calls| && RegistersAt(calls, h, i) && Undisturbed(calls, h, i);
        if i < n {
          assert RegistersAt(init, h, i) && Undisturbed(init, h, i);
        }
      }
    }
  }

  /** The assertion made at a timeout: its handle is an attempted one. */
  predicate AssertionHolds(threshold: nat, calls: seq<Call>, i: nat)
    requires i < |calls|
  {
    calls[i].handle in After(threshold, calls[..i]).attempted
  }

  /** Call `a` attempted `h`, and nothing has been confirmed since. */
  ghost predicate AttemptStands(calls: seq<Call>, h: Id, a: nat) {
    && a < |calls| && calls[a].Attempt? && calls[a].handle == h
    && forall j | a < j < |calls| :: !calls[j].Confirm?
  }

  lemma {:induction false} AttemptedSinceConfirm(calls: seq<Call>, h: Id)
    ensures h in AttemptedIn(SinceConfirm(calls)) <==> exists a: nat :: AttemptStands(calls, h, a)
  {
    if calls != [] {
      var n := |calls| - 1;
      var init, last := calls[..n], calls[n];
      AttemptedSinceConfirm(init, h);
      var since := SinceConfirm(init);
      assert forall c :: c in since + [last] <==> c in since || c == last;
      if a: nat :| AttemptStands(init, h, a) && !last.Confirm? {
        assert AttemptStands(calls, h, a);
      }
      if last.Attempt? && last.handle == h {
        assert AttemptStands(calls, h, n);
      }
      if a: nat :| AttemptStands(calls, h, a) && a < n {
        assert AttemptStands(init, h, a);
      }
    }
  }

  /** The assertion holds at a timeout iff an earlier call attempted its handle with no confirm in between. */
  lemma AssertionExact(threshold: nat, calls: seq<Call>, i: nat)
    requires i < |calls| && calls[i].Timeout?
    ensures AssertionHolds(threshold, calls, i) <==> calls[i].handle in AttemptedIn(SinceConfirm(calls[..i]))
    ensures AssertionHolds(threshold, calls, i) <==> exists a: nat :: AttemptStands(calls[..i], calls[i].handle, a)
  {
    SetsAreHistory(threshold, calls[..i]);
    AttemptedSinceConfirm(calls[..i], calls[i].handle);
  }

  /** Pending handles being attempted ones does not save it: the only attempt may be confirmed away. */
  lemma ContainmentIsNotEnough()
    ensures var calls := [Attempt(1, Some(1)), Attempt(1, Some(1)), Confirm(1), Timeout(1)];
            After(3, calls[..3]).pending == map[] && !AssertionHolds(3, calls, 3)
  {
    var calls := [Attempt(1, Some(1)), Attempt(1, Some(1)), Confirm(1), Timeout(1)];
    var before := calls[..3];
    assert before == [Attempt(1, Some(1)), Attempt(1, Some(1)), Confirm(1)];
    assert SinceConfirm(before) == [];
    SetsAreHistory(3, before);
    assert before[2] == Confirm(1);
    assert !Undisturbed(before, 1, 0) && !Undisturbed(before, 1, 1);
    forall h ensures h !in After(3, before).pending {
      PendingIsHistory(3, before, h);
    }
  }

  /**
   Every pending handle is an attempted one iff every handle awaiting its timer was attempted after the last
   confirm; always so before the first confirm.
   */
  lemma ContainmentExact(threshold: nat, calls: seq<Call>)
    ensures After(threshold, calls).pending.Keys <= After(threshold, calls).attempted <==>
            forall h | AwaitsTimer(calls, h) :: h in AttemptedIn(SinceConfirm(calls))
    ensures !EverConfirmed(calls) ==> After(threshold, calls).pending.Keys <= After(threshold, calls).attempted
  {
    SetsAreHistory(threshold, calls);
    forall h ensures h in After(threshold, calls).pending <==> AwaitsTimer(calls, h) {
      PendingIsHistory(threshold, calls, h);
    }
    if !EverConfirmed(calls) {
      SinceConfirmWhole(calls);
      forall h | AwaitsTimer(calls, h) ensures h in AttemptedIn(calls) {
        var i: nat :| i < |calls| && RegistersAt(calls, h, i) && Undisturbed(calls, h, i);
        assert calls[i] in calls;
      }
    }
  }

  /** Attempt 1, attempt 2, confirm 1: handle 2 still awaits its timer but is no longer attempted. */
  lemma ConfirmForgetsPendingAttempt()
    ensures var calls := [Attempt(1, Some(1)), Attempt(2, Some(2)), Confirm(1)];
            2 in After(3, calls).pending && 2 !in After(3, calls).attempted
  {
    var calls := [Attempt(1, Some(1)), Attempt(2, Some(2)), Confirm(1)];
    assert calls[..2] == [Attempt(1, Some(1)), Attempt(2, Some(2))];
    assert calls[..2][..1] == [Attempt(1, Some(1))];
    assert After(3, []) == FreshLedger(3);
    assert After(3, [Attempt(1, Some(1))]) == AfterAttempt(FreshLedger(3), 1, Some(1));
    assert 2 in After(3, calls[..2]).pending;
  }

  /** Signal B fires with one handle timed out: it counts attempts, not timeouts. */
  lemma WarnCountsAttempts()
    ensures var calls := [Attempt(1, Some(1)), Attempt(2, Some(2)), Attempt(3, Some(3)), Timeout(1)];
            EventAt(3, calls, 3) == InfoAndWarn && |TimedOutIn(calls)| == 1
  {
    hide After, EventAt;
    var calls := [Attempt(1, Some(1)), Attempt(2, Some(2)), Attempt(3, Some(3)), Timeout(1)];
    TimeoutEventExact(3, calls, 3);
    var attempts := calls[..3];
    assert attempts == [Attempt(1, Some(1)), Attempt(2, Some(2)), Attempt(3, Some(3))];
    assert attempts[0] in attempts && attempts[1] in attempts && attempts[2] in attempts;
    assert AttemptedIn(attempts) == {1, 2, 3};
    SinceConfirmWhole(attempts);
    assert calls[3] in calls;
    assert TimedOutIn(calls) == {1};
  }
}
