# Verified model of the COSMIC window daemon

The daemon watches a Wayland compositor and decides where new windows go. Each new toplevel is moved to a
workspace by policy (next free, one each, or left alone); a workspace activation is verified by a timer; closing
the last window of the active workspace can jump to the most recently visited one; and when the compositor
goes away, a supervisor reconnects with a backoff ladder. This project models that behaviour in Dafny and
proves what it promises. Release semantics are modelled: debug assertions are not part of the steps.

One compositor session is a state machine (`Session`). An event is a new toplevel, an updated one, a closed
one, a settled batch (`Done`) or an expired timer; it carries an arbitrary snapshot of groups, workspaces and
toplevels, which stays fixed while the handler runs, and an environment that says whether the workspace manager
is bound and which timer insertions fail. `AppDataModule.AppData` is the mutable session record with the source's
handlers and loops, each proved to take the state where the state machine says. Every run-level theorem is about
`Session.Run(config, events)`, for every configuration and every sequence of events.

| module | source | about |
|---|---|---|
| `Wrappers`, `Snapshot` | toolkit iterators and state | `Option`, vector queries, the world snapshot |
| `Placement`, `Policy` | src/placement.rs, create branch of src/runtime.rs | which workspace a new toplevel goes to, on stubs and on the world behind them |
| `Verify` | src/verify.rs | the two-tier activation verifier and the meaning of its history |
| `Mru` | src/mru_jump.rs | the bounded visit index against the whole visit history |
| `Jump`, `JumpInput` | src/mru_jump.rs, src/runtime.rs | the jump decision, on its input and on the world behind it |
| `Session`, `AppDataModule` | src/runtime.rs, src/state.rs, src/wayland/*.rs | the state machine and the class that implements it |
| `Wire`, `Safety`, `Announcement`, `Deferred`, `Sharing`, `Activation`, `SessionVerifier`, `Timers`, `Warnings`, `History` | all handlers together | theorems over whole runs |
| `Scenarios` | all handlers together | short runs on which a promise of the comments does not hold |
| `Reconnect`, `SessionBoundary` | src/reconnect.rs, src/app.rs | the supervisor and what one connection attempt tells it |

The meaning of each operation is stated on list entries and fields of the snapshot, the configuration and the
environment (`Snapshot` and `Policy` define these by index), not on the lookup and selection functions that compute it.

The main results, hardest first:

- A toplevel is moved at most once between its announcement and its close, and never while it is not open
  (`Safety`), although the state that ensures it is spread over three collections and three handlers.
- The in-place `swap_remove` drain empties the queue in the order e0, e(n-1), ..., e1 and gives each toplevel
  what a plain map over the queue would give it (`AppDataModule`, `Wire`); the queue is exactly the creates
  not yet answered by a settled batch, and every placement takes a vacant or newly created workspace (`Deferred`).
- The 16-entry move-to-front list is the top of the full recency order of the session's visit history, so a jump
  goes to the latest visited candidate of the whole history unless none is that recent (`Mru`, `History`).
- Every event is its activations: verifier, tokens and timers after it are what confirming or expiring and then the
  activations it puts on the wire make of them (`Activation`). So the verifier's fields, its INFO and WARN and the
  assertion on an expiring timer are read off the run (`SessionVerifier`, `Warnings`), and the stored tokens are all
  the live timers exactly when no event re-activates a workspace whose timer is stored (`Timers`).
- Each one-time line is emitted in a session iff some event calls for it, and by a process at most once iff at most one
  of its sessions does (`Warnings`).
- Two toplevels queued in one group are placed on one workspace exactly when their snapshots, the members and the
  empty workspaces say so (`Sharing`).
- Every supervisor run, for any results, resets and moment of shutdown, is the owed connects and waits, cut at the poll
  that reads the flag (`Reconnect`); the wait counts from the last session that was up (`SessionBoundary`).

## Where the code and its comments disagree

The model follows the code. Each difference has an input that shows it and the exact condition.

- src/verify.rs:6 says the WARN counts handles that timed out. The code counts attempted handles
  (src/verify.rs:152-154): `Verify.WarnCountsAttempts`, and `SessionVerifier.HeaderAgreesIff` for when the
  two agree.
- src/verify.rs:141-145 asserts that an expiring timer's handle is an attempted one. src/verify.rs:122-128 clears the
  attempted handles on any confirmation, so this fails for another handle still pending
  (`Verify.ConfirmForgetsPendingAttempt`) and, with nothing pending at all, for a forgotten timer
  (`Verify.ContainmentIsNotEnough`, and `Scenarios.OrphanBreaksAssertion` on a run). It holds exactly as
  `Verify.AssertionExact` says of a call and `SessionVerifier.TimerAssertionIff` of a session.
- src/runtime.rs:416-461 re-activates a workspace without cancelling its pending timer, which leaves a live timer that
  nothing can cancel, and fails the assertion at src/verify.rs:106-112: `Scenarios.TwoWindowsOrphanTimer`, and
  `Timers.StoredAreAllLiveIff` with `Timers.AttemptAssertionFailsIff` for the exact condition.
- "Once per process" (src/state.rs:141, src/verify.rs:60) is once per session, because latches and verifier are built
  anew at src/app.rs:242-256: `Scenarios.TwoSessionsWarnTwice`, and `Warnings.OncePerProcessIff` for the four lines.
- README.md:56 calls `WORKSPACE_OUTPUT` an output name. Only a value that parses as a number is honoured
  (src/placement.rs:266-281): `Placement.OutputNameIsIgnored`, and `Placement.ParsesIffNumber`.
- src/app.rs:298 and src/reconnect.rs:147 describe an internal error as one with no `io::Error` in the chain. An
  `io::Error` without an errno is one too, even above a deeper one that has an errno:
  `SessionBoundary.ErrnolessIoErrorIsInternal`, and `SessionBoundary.DocumentedNoneIff`.
- src/runtime.rs:303-323 creates the workspace in the first group listing the toplevel's first output, which need
  not be the group whose capability was checked: `Placement.TwoOutputsCreateElsewhere`,
  `Placement.OverrideCreatesElsewhere`, and `Placement.CreationGroupAgreesIff` and
  `Placement.OverriddenCreationAgreesIff` for the exact conditions.
- src/runtime.rs:798-819 reserves nothing between entries, so two toplevels that each asked for a workspace of their own
  can share one: `Scenarios.TwoWindowsShareWorkspace`, and `Sharing.BatchPlacesTogetherIff`.
- src/mru_jump.rs:298 speaks of groups with exactly one active workspace. The code takes the first active one
  (src/mru_jump.rs:304-307): `Mru.TwoActiveYieldFirst`, and `Mru.PairsAreSingleIff`.

## Model

| member | source | states |
|---|---|---|
| `Safety.QueueWithinHandledWithinOpen` | src/wayland/toplevel.rs:32-109 | After every run queued placements are for pairwise distinct toplevels, all handled, and only announced and not yet closed toplevels are handled; none has been scanned. |
| `Safety.AtMostOneMovePerLifetime` | src/runtime.rs:206-237 | Whatever happened before, over any events without a close of a toplevel at most one move request for it reaches the wire. |
| `Safety.NoMoveWhileNotOpen` | src/wayland/toplevel.rs:92-109 | A toplevel that is not open is not moved by any events that do not announce it. |
| `Safety.NoMoveAfterClose` | src/wayland/toplevel.rs:98-101 | From its close on, a toplevel is never moved unless announced again, even when its placement was queued. |
| `Safety.StepBudget` | src/runtime.rs:372-381 | No event raises moves sent plus queued plus still-allowed for a toplevel except its close, and none raises moves sent plus queued except its announcement. |
| `Warnings.JournalFollowsLatches` | src/state.rs:145-171 | After every run each one-time line, and the verifier's WARN, is in the journal once iff its latch is set, and otherwise never. |
| `Warnings.StepLatches` | src/runtime.rs:219-225 | An event sets a one-time latch iff it announces an admitted toplevel with no group on the configured output, or whose chosen group cannot create what is asked for, or its batch settles a queued placement whose workspace did not appear. |
| `Warnings.ExpiryExact` | src/runtime.rs:438-448 | What an expiring timer does after any run: the line about its own workspace, with INFO and WARN each exactly when, and what it removes; nothing is sent. |
| `Warnings.LatchedIffCalledFor` | src/runtime.rs:853-854 | After every run a latch, the verifier's included, is set iff some event of the run called for its line. |
| `Warnings.EmittedIffCalledFor` | src/state.rs:140-172 | A session emits a line exactly once if some event called for it, and never otherwise. |
| `Warnings.SessionWarnsIff` | src/runtime.rs:440-448 | An expiring timer warns iff at least three distinct workspaces were activated on the wire, no batch ever showed an awaited one active, and no such warning was emitted. |
| `Warnings.ProcessEmitsPerSession` | src/app.rs:242-256 | Over any list of sessions a line is emitted once per session that calls for it. |
| `Warnings.OncePerProcessIff` | src/app.rs:242-256 | It is emitted at most once iff at most one of the sessions calls for it. |
| `Scenarios.TwoSessionsWarnTwice` | src/app.rs:242-256 | With an output name configured, two sessions that each place one window emit the fallback warning twice. |
| `Wire.StepEmitsBlocks` | src/runtime.rs:387-402 | Every event appends exactly the rendering of its blocks: a placement is move, then optionally activate and commit, then optionally maximize. |
| `Wire.RunEmitsBlocks` | src/runtime.rs:893-920 | The wire log of every run is the rendering of its blocks in order. |
| `Wire.EveryMutationIsCommitted` | src/wayland/workspace.rs:143-160 | In every run each activate or create is directly followed by a commit, and each commit directly follows one, so nothing is uncommitted at an event boundary. |
| `Deferred.BatchSendsExactly` | src/runtime.rs:769-920 | After any run a settled batch sends exactly the landings of the creates not yet answered that find a place: each on its own output, on the first new workspace of its group, else the first no toplevel is on, activated and maximized as configured. |
| `Deferred.PlacementsFollowConfig` | src/runtime.rs:391-402 | Over every run a placement activates iff switching is asked for and the manager is bound, and maximizes iff asked, except one made at once whose activation failed. |
| `Wire.DrainOrderPermutes` | src/runtime.rs:774-886 | The order e0, e(n-1), ..., e1 visits every queue entry exactly once. |
| `Wire.ScanRefinesMap` | src/runtime.rs:769-886 | A scan empties the queue, and each queued toplevel gets exactly the block a plain map over the entries with one more cycle waited gives it; no entry keeps waiting. |
| `Sharing.LandTogetherIff` | src/runtime.rs:798-819 | Two entries of one group that find a place find the same one iff neither sees a new workspace, or both do and the first member missing from either snapshot is missing from both, or one does and its first missing member is the first empty one. |
| `Sharing.BatchPlacesTogetherIff` | src/runtime.rs:817-880 | After any run the next batch places two queued toplevels of a group on one workspace iff both find a place and that condition holds. |
| `Scenarios.TwoWindowsShareWorkspace` | src/runtime.rs:817-880 | Two windows that each asked for a new workspace are placed on one by the next batch, whether it brings one new workspace or none. |
| `Deferred.QueuedIffUnanswered` | src/runtime.rs:303-384 | After every run an entry is queued iff an earlier event sent its create, in the first group on the toplevel's first output and with the listed workspaces of the group with that id as its snapshot, and no batch has settled and its toplevel has not closed since. |
| `Deferred.CreatesExact` | src/runtime.rs:336-381 | The entry the create branch pushes is that one: toplevel, output, actions and app id, and a workspace is in its snapshot iff it is listed and in the first group with that id. |
| `Deferred.StepQueue` | src/runtime.rs:372-381 | An event keeps an entry iff it is neither a settled batch nor its toplevel's close, and adds one iff it sends a create. |
| `Deferred.EvaluatesExactly` | src/runtime.rs:91-121 | Each outcome of one evaluation exactly when, for any snapshot, members, occupancy and cycle count, 0 included. |
| `Deferred.LandsOnFreshElseEmpty` | src/runtime.rs:91-121 | A dequeued entry lands on the first listed workspace of its group that its snapshot lacks, else on the first that no toplevel is on, with the warning; it is dropped iff no group has that id, or every workspace of the group is both in the snapshot and in use; the vanished-handle and keep-waiting exits are never taken. |
| `Deferred.ImmediatePlacementIsVacant` | src/runtime.rs:131-172 | A toplevel placed at once goes to the first listed workspace of a group that no toplevel of the world is on. |
| `Announcement.SendsExactly` | src/runtime.rs:206-409 | Everything a new toplevel makes the daemon send: it is placed on the first vacant entry of its chosen group, or a named workspace is asked for in the first group on its first output, or nothing, each exactly when. |
| `Announcement.UnknownIsIgnored` | src/wayland/toplevel.rs:42-52 | An announcement no toplevel entry answers changes nothing. |
| `Announcement.HandledIffAnnounced` | src/wayland/toplevel.rs:59-62 | After every run a toplevel is handled iff it was announced, placed or skipped alike, and has not closed since. |
| `Policy.ChosenExact` | src/placement.rs:252-294 | The group a decision works with is the first on the configured output, else the one with the lowest id, first listed among equals, sharing an output; and when the fallback is warned of. |
| `Policy.SkipsExactly` | src/placement.rs:158-191 | Each skip reason exactly when, on the toplevel's own id, app id, title, outputs and shell handle. |
| `Policy.PlacesExactly` | src/placement.rs:214-238 | A new workspace is decided on iff the admitted toplevel's chosen group is to create one; a listed workspace iff it is the first vacant one of a chosen group that is not. |
| `Policy.WarnsExactly` | src/placement.rs:193-218 | The two warnings of a decision, in order, each exactly when, on world and configuration. |
| `Deferred.PlacementsTakeVacantOrNew` | src/runtime.rs:286-301 | Over every run a placement lands on a listed workspace that no toplevel is on at that moment, or on one that was not listed in its group in the world in which that very toplevel asked for a new one. |
| `Deferred.ListingReadsWorld` | src/runtime.rs:312-323 | Looking up the first group of an output in the stubs gives the stub of the group found in the world. |
| `Deferred.CreateIsInSelectedGroup` | src/runtime.rs:303-323 | A create request goes to the first group listing the toplevel's first output; with one output, disjoint groups and no honoured override it is the selected group, and its create capability was checked. |
| `Deferred.StepNames` | src/runtime.rs:328-334 | A numbered workspace name takes the counter's value and moves it on, once per event; nothing else sent is numbered. |
| `Deferred.AutoNamesAreDistinct` | src/runtime.rs:325-334 | Until the 64-bit counter could have wrapped, no two workspaces of a session are requested under one number. |
| `Timers.TokensAgreeAndAreLive` | src/runtime.rs:416-461 | After every run the verifier's pending handles are the keys of the stored tokens, and every stored token is a live timer of its handle. |
| `Timers.BatchCancelsShown` | src/wayland/workspace.rs:227-255 | After any run a batch cancels a live timer iff it is the stored one of a workspace whose first entry has its active bit set; every other stays live for its workspace, and stored unless the batch activates that workspace again. |
| `Timers.BatchConfirmsIff` | src/wayland/workspace.rs:236-255 | A batch makes a confirmation known iff some pending workspace's first entry has its active bit set. |
| `Session.ConfirmedExact` | src/wayland/workspace.rs:236-248 | The handles confirmed are those with a stored token whose first listed entry is active. |
| `Activation.StepIsItsActivations` | src/wayland/workspace.rs:227-261 | Every event confirms or expires first, and then changes verifier, tokens and timers exactly by the activations it puts on the wire, in order. |
| `Activation.StepActivates` | src/wayland/workspace.rs:180-183 | The activations an event puts on the wire are its targets, in order. |
| `Activation.ConfirmsInAnyOrder` | src/wayland/workspace.rs:250-255 | Confirming a list of handles reaches one ledger, whatever the order. |
| `Activation.VerifierIsHistory` | src/verify.rs:98-166 | After every run the verifier's fields are those a fresh verifier has after the calls the run made. |
| `Timers.StoredAreAllLiveIff` | src/runtime.rs:416-461 | The stored tokens are exactly the live timers throughout a run iff no event sends an accepted activation of a workspace whose timer is stored after the confirm walk, or that was accepted earlier in the event. |
| `Timers.AttemptAssertionFailsIff` | src/verify.rs:106-112 | The assertion that an attempted handle is not pending fails in an event iff it does so. |
| `Timers.EngageAllOrphans` | src/runtime.rs:450-455 | A list of activations leaves a forgotten timer iff there was one, or the list reuses a handle held before or accepted earlier in it. |
| `Scenarios.TwoWindowsOrphanTimer` | src/runtime.rs:440-455 | Two windows announced in one world activate one empty workspace twice: both timers are live and only the second is stored. |
| `Scenarios.OrphanBreaksAssertion` | src/verify.rs:141-145 | When that workspace then shows active, nothing is pending or attempted and the first timer is still live for it. |
| `SessionVerifier.MarksFollowRun` | src/runtime.rs:424-453 | After every run a workspace is attempted iff an event activated it, and informed iff an event fired a live timer of it, with no batch since that showed an awaited workspace active. |
| `SessionVerifier.ConfirmedIffObserved` | src/wayland/workspace.rs:236-248 | After every run a confirmation is known iff in some batch the first entry of an awaited workspace had its active bit set. |
| `SessionVerifier.TimerAssertionIff` | src/verify.rs:141-145 | The assertion on an expiring timer holds iff its workspace was activated on the wire after the last batch that showed an awaited workspace active. |
| `SessionVerifier.SessionInformsIff` | src/verify.rs:149-150 | An expiring timer informs iff no timer of its workspace expired since the last such batch. |
| `SessionVerifier.AttemptsAreActivations` | src/runtime.rs:424-453 | Until such a batch the attempted handles are exactly the workspaces activated on the wire. |
| `History.IndexIsTopOfSessionHistory` | src/wayland/workspace.rs:218-225 | After every run the bounded list is the first 16 entries of the recency order of every visit of the session. |
| `History.CloseActivatesIff` | src/runtime.rs:482-720 | In any state a close sends a jump iff the feature is on, the manager is bound and some workspace of the closing toplevel shows active, carries no other toplevel, and the first group containing it has another listed workspace that some other toplevel is on; otherwise it sends nothing. |
| `History.JumpStaysInGroup` | src/runtime.rs:562-611 | A jump leaves the first such workspace of the closing toplevel for such a neighbour in the first group containing it. |
| `History.JumpGoesToLatestVisited` | src/runtime.rs:621-663 | After any run that neighbour is the latest visited of all in the whole session, or, when none is among the 16 most recently visited, the least by coordinates then id. |
| `History.LastKnownIffShown` | src/mru_jump.rs:264-279 | With unique group ids, after every run a group's last known workspace is the first active one of the latest batch that showed it one. |
| `History.VisitsExactly` | src/mru_jump.rs:289-315 | A batch visits exactly the first active workspaces of groups for which they were not that before. |
| `History.FirstOfGroupIsLastKnown` | src/mru_jump.rs:289-315 | With a fixed partition into groups, after every run every entry that is first of its group is that group's last known active workspace. |
| `History.FirstEntryAfterRun` | src/mru_jump.rs:289-315 | The same for one entry by index. |
| `Mru.MruIndex.RecordTransition` | src/mru_jump.rs:239-252 | The list becomes the visited id followed by the others in order, cut to the cap. |
| `Mru.MruIndex.DetectTransitionsAndUpdate` | src/mru_jump.rs:264-279 | Map and returned ids are those of the batch scanned in order. |
| `Mru.MruIndex.UpdateFromActiveTransitions` | src/mru_jump.rs:289-315 | One pair per group with an active workspace is detected, then all changes are recorded in order. |
| `Mru.ByLatestVisitIsRecencyOrder` | src/mru_jump.rs:239-252 | The unbounded list holds exactly the visited ids, each latest visited strictly later than those after it. |
| `Mru.RecencyOrderUnique` | src/state.rs:130-133 | Only one list is a recency order of a history, so the reference list is determined by its meaning. |
| `Mru.BoundedIndexIsTopOfHistory` | src/mru_jump.rs:239-252 | For every history and cap, 0 included, truncating at each step equals truncating the full recency order once. |
| `Mru.TruncateWithout` | src/mru_jump.rs:245-251 | Removing one id and cutting to n sees only the first n + 1 entries of a duplicate-free list. |
| `Mru.DetectedExact` | src/mru_jump.rs:264-279 | With distinct groups a batch sets each listed group, leaves the others, and emits exactly the changed workspaces in input order. |
| `Mru.RepeatIsSilent` | src/mru_jump.rs:270-272 | Repeating a batch with distinct groups emits nothing and leaves map and list unchanged. |
| `Mru.RepeatedGroupKeepsEmitting` | src/mru_jump.rs:264-279 | With one group listed twice every repetition emits both workspaces. |
| `Mru.BatchKeepsGroupFronts` | src/mru_jump.rs:311-314 | A batch keeps the first entry of each group equal to its last known workspace despite eviction by other groups. |
| `Mru.FirstMemberIsLastKnown` | src/mru_jump.rs:255-263 | What that invariant says of any one group and index. |
| `Mru.PairsAreVisits` | src/mru_jump.rs:298-309 | The collected pairs are exactly the groups with an active listed workspace, each with its first. |
| `Mru.PairIffActiveMember` | src/mru_jump.rs:304-307 | A group yields a pair iff some listed member is active, and the pair is the first such member. |
| `Mru.PairsAreSingleIff` | src/mru_jump.rs:298-309 | The pairs are those of the groups with exactly one active workspace iff no group has two. |
| `Mru.TwoActiveYieldFirst` | src/mru_jump.rs:298-309 | A group with two active workspaces yields the first. |
| `Jump.CompareLexTotal` | src/mru_jump.rs:227 | Exactly one of less, equal, greater holds of two coordinate vectors, and equal means identical. |
| `Jump.CompareLexTransitive` | src/mru_jump.rs:227 | The lexicographic order on coordinate vectors of any length is transitive. |
| `Jump.LowestIsLeast` | src/mru_jump.rs:224-228 | The minimum exists iff the list is not empty and is strictly below every different element. |
| `Jump.FallbackIsLeast` | src/mru_jump.rs:223-231 | The fallback is the unique least occupied member other than the current one. |
| `Jump.SelectsIffCandidate` | src/mru_jump.rs:208-232 | A target is chosen iff the group has an occupied member other than the current one, and it is one. |
| `Jump.SelectionIgnoresListOrder` | src/mru_jump.rs:208-232 | The choice does not depend on how the group's workspaces are listed. |
| `Jump.ScanFindsLatestVisited` | src/mru_jump.rs:216-221 | A target found by the scan has the latest visit of all candidates in the unbounded history. |
| `Jump.ScanMissesExactly` | src/mru_jump.rs:216-221 | The scan finds nothing iff no candidate is among the cap most recently visited distinct workspaces. |
| `Jump.SmallHistoryIsExact` | src/mru_jump.rs:22-23 | With at most cap distinct visits the answer is the unbounded one. |
| `Jump.EvaluateTrigger` | src/mru_jump.rs:106-187 | The loop with early returns computes the combined verdict, and its final unreachable is never reached. |
| `Jump.JumpIffSomeFires` | src/mru_jump.rs:117-157 | A jump happens iff some closed workspace is active, unoccupied, grouped and has another occupied member, and it leaves the first such one. |
| `Jump.NoJumpReason` | src/mru_jump.rs:83-99 | Without a jump the reason is exactly the documented one, both ways. |
| `JumpInput.OutcomeReadsWorld` | src/runtime.rs:515-632 | Evaluating through the collected maps is evaluating on the world. |
| `JumpInput.MembersOfOwnGroup` | src/runtime.rs:562-619 | With unique group ids the group collected for a workspace is the first containing it, the members collected are its listed workspaces with their coordinates, and the occupied ones those another toplevel is on. |
| `JumpInput.JumpsIffShouldLeave` | src/runtime.rs:515-634 | In any world with unique group ids a close jumps iff some workspace of the closing toplevel shows active, carries no other toplevel and has an eligible neighbour in the first group containing it, and the first such one is left. |
| `JumpInput.JumpIsSound` | src/runtime.rs:515-634 | The target is another listed workspace of the first group containing the source, and some other toplevel is on it. |
| `JumpInput.OnlyLastCloseCanJump` | src/mru_jump.rs:128-136 | As the single-workspace windows of an active workspace close one by one, every close but the last is a still-occupied no-op, and the last jumps iff it should. |
| `JumpInput.LastCloseEmptiesWorkspace` | src/runtime.rs:545-559 | When those are the only windows there, the last close leaves nobody. |
| `JumpInput.JumpTargetIsBest` | src/runtime.rs:613-632 | A jump's target is the latest visited eligible workspace of the whole history, or the least one with none recent. |
| `Verify.VerifierState.constructor` | src/verify.rs:77-91 | A fresh verifier with the given threshold of at least one. |
| `Verify.VerifierState.RecordAttempt` | src/verify.rs:98-115 | The new ledger after an attempt, with or without a timer. |
| `Verify.VerifierState.RecordConfirm` | src/verify.rs:122-128 | The new ledger after a confirm; the WARN latch stays. |
| `Verify.VerifierState.RecordTimeout` | src/verify.rs:135-166 | The new ledger and the event after a timeout. |
| `Verify.SetsAreHistory` | src/verify.rs:53-66 | Attempted and informed handles are those since the last confirm, and the flag says whether there was one, for every history. |
| `Verify.LatchIsHistory` | src/verify.rs:152-158 | The WARN latch is set iff some timeout came with enough distinct attempts and no confirm before it. |
| `Verify.TimeoutEventExact` | src/verify.rs:147-165 | A timeout warns iff it is the first one meeting that condition, and informs iff its handle has not timed out since the last confirm. |
| `Verify.WarnsAtMostOnce` | src/verify.rs:60-61 | At most one call of any history warns, and none after a confirm. |
| `Verify.PendingIsHistory` | src/verify.rs:53-55 | A handle is pending iff it was attempted with a timer and neither confirmed nor timed out since. |
| `Verify.AssertionExact` | src/verify.rs:141-145 | The assertion at a timeout holds iff an earlier call attempted its handle with no confirm in between. |
| `Verify.ContainmentIsNotEnough` | src/verify.rs:141-145 | Attempt 1 twice, confirm 1: nothing is pending, yet a timeout of 1 fails the assertion. |
| `Verify.ContainmentExact` | src/verify.rs:53-57 | Pending handles are attempted ones iff each was attempted after the last confirm; always so before the first confirm. |
| `SessionVerifier.HeaderAgreesIff` | src/verify.rs:4-6 | At every expiry of every run the header's condition and the code's agree iff a batch showed an awaited workspace active, or fewer than three were activated, or three timed out. |
| `Verify.ConfirmForgetsPendingAttempt` | src/verify.rs:122-128 | Attempt 1, attempt 2, confirm 1: handle 2 is pending but not attempted. |
| `Verify.WarnCountsAttempts` | src/verify.rs:152-154 | Three attempts and one timeout already warn. |
| `AppDataModule.AppData.constructor` | src/app.rs:242-264 | A session starts from the fresh state. |
| `AppDataModule.AppData.EmitOnce` | src/state.rs:140-172 | The line is emitted iff its latch was clear, and the latch is set. |
| `AppDataModule.AppData.TransactionOn` | src/wayland/workspace.rs:143-160 | The body goes out, followed by a commit iff it succeeded; nothing without a manager. |
| `AppDataModule.AppData.RegisterActivateWithVerification` | src/runtime.rs:416-461 | Activate, commit, attempt, and a stored timer unless verification is off or the insertion fails; false iff the manager is unavailable. |
| `AppDataModule.AppData.QueueCreateOn` | src/runtime.rs:303-384 | The create branch: name, counter with 64-bit wrap-around, snapshot, transaction and queue entry. |
| `AppDataModule.AppData.ExecutePlaceOn` | src/runtime.rs:263-409 | The whole new state of a placement's execution, with its guards and failure paths. |
| `AppDataModule.AppData.HandleNewToplevelOn` | src/runtime.rs:206-237 | Decision, warnings in order, execution. |
| `AppDataModule.AppData.NewToplevel` | src/wayland/toplevel.rs:32-63 | The handler's new state: handled whatever the outcome, unless the toplevel is unknown. |
| `AppDataModule.AppData.ToplevelClosed` | src/wayland/toplevel.rs:92-109 | Forget, evict, then the jump if the feature is on. |
| `AppDataModule.AppData.HandleEmptyWorkspaceIfTriggered` | src/runtime.rs:482-720 | The jump's new state, from the input collected from the world. |
| `AppDataModule.AppData.ConfirmActive` | src/wayland/workspace.rs:227-255 | Confirming one by one, in any order, reaches the state in which exactly the handles with a stored token whose first entry is active are confirmed. |
| `AppDataModule.AppData.ScanOne` | src/runtime.rs:775-885 | One iteration completes the entry at the index and removes it by swapping, or leaves it and moves on. |
| `AppDataModule.AppData.ScanPendingPlacements` | src/runtime.rs:769-886 | The loop terminates with the queue empty and the state of completing the entries in the order e0, e(n-1), ..., e1. |
| `AppDataModule.AppData.Done` | src/wayland/workspace.rs:210-262 | Visits, confirmations and the drain, in that order. |
| `AppDataModule.AppData.TimerFired` | src/runtime.rs:438-448 | The timer callback's new state and journal line. |
| `AppDataModule.AppData.RunSession` | src/app.rs:266-279 | A session object driven by any events ends in the state of the state machine's run. |
| `AppDataModule.RemainingStep` | src/runtime.rs:825-851 | Swap-removing the aged front of what is left of the queue exposes the next entry of the drain order. |
| `AppDataModule.AgedNeverWaits` | src/runtime.rs:776-777 | An entry whose counter was advanced is always resolved. |
| `AppDataModule.ConfirmOneMore` | src/wayland/workspace.rs:250-255 | Confirming a set and one more handle is confirming the larger set. |
| `Placement.SortByIdSorts` | src/placement.rs:286-292 | The sort by id is sorted and a permutation. |
| `Placement.SelectsLowestSharing` | src/placement.rs:284-293 | Selection finds the lowest-id group sharing an output, whenever there is one. |
| `Placement.SelectionIgnoresGroupOrder` | src/placement.rs:284-293 | With distinct ids the selection does not depend on the list order. |
| `Placement.ChosenGroupExact` | src/placement.rs:252-294 | The chosen group, when there is none, and when the fallback warning is given. |
| `Placement.PlacesIff` | src/placement.rs:151-239 | A toplevel is placed iff every guard passes and the chosen group offers a target. |
| `Placement.TargetIsEmptyMember` | src/placement.rs:304-335 | The target is a new workspace iff asked for and supported, otherwise the first empty workspace of the chosen group. |
| `Placement.WarnsExact` | src/placement.rs:193-218 | The warnings are the group warning then the capability warning, and none on an early exit. |
| `Placement.OutputNameIsIgnored` | src/placement.rs:266-281 | An override that is not a number selects as if unset, with the warning. |
| `Placement.ParsesIffNumber` | src/placement.rs:266 | A value is a number iff what follows an optional plus is a non-empty digit string of value at most 2^64 - 1, and then it is that value. |
| `Placement.CreationGroupAgreesIff` | src/runtime.rs:303-323 | Without an honoured override, creation happens in the selected group iff no sharing group has a lower id than the first group listing the first output. |
| `Placement.OverriddenCreationAgreesIff` | src/runtime.rs:303-323 | With an honoured override, iff one group is the first listing both the override and the first output. |
| `Placement.SingleOutputCreatesInChosenGroup` | src/runtime.rs:303-323 | With one output, listed by no two groups, creation happens in the group selected and checked. |
| `Placement.TwoOutputsCreateElsewhere` | src/runtime.rs:303-323 | With two outputs creation can happen in a group that was not checked and cannot create. |
| `Placement.OverrideCreatesElsewhere` | src/placement.rs:266-273 | With an honoured override too. |
| `Reconnect.BackoffState.constructor` | src/reconnect.rs:99-101 | The cursor starts at the first step. |
| `Reconnect.BackoffState.NextDelay` | src/reconnect.rs:105-111 | The current step is returned and the cursor moves on, saturating; it stays a valid index. |
| `Reconnect.BackoffState.Reset` | src/reconnect.rs:115-117 | The cursor is back at the first step. |
| `Reconnect.Supervisor.Sleep` | src/reconnect.rs:298-307 | The polled sleep's acts, with one poll and one slice per interval when it runs to the end. |
| `Reconnect.Supervisor.RunWithSleep` | src/reconnect.rs:271-316 | The nested loop's acts and exit, for any script, starting cursor and moment of shutdown. |
| `Reconnect.RunIsPollGuarded` | src/reconnect.rs:280-306 | Every connect and every slice directly follows a poll that read false, every slice is positive and at most 50 ms, and reading true is the last act. |
| `Reconnect.ShutdownCutsRun` | src/reconnect.rs:280-303 | Raising the flag at poll f gives the unflagged run cut at its poll f, ending cleanly there. |
| `Reconnect.WaitsAreOwed` | src/reconnect.rs:285-314 | For any results and resets, each disconnect is followed by exactly the wait its count since the last reset owes, and the first other result ends the run. |
| `Reconnect.EveryRunIsOwed` | src/reconnect.rs:271-316 | For any results, resets and moment of shutdown, a run is the owed connects and waits cut at the poll that reads the flag, and how it ends. |
| `Reconnect.RunSleepsOwed` | src/reconnect.rs:290-307 | As long as every attempt was a disconnect, the time slept up to the next connect is what the last one owes. |
| `Reconnect.SleepLastsDelay` | src/reconnect.rs:298-307 | An uninterrupted wait sums to its delay, in the fewest slices. |
| `Reconnect.ConsecutiveDisconnectsClimbLadder` | src/reconnect.rs:38-60 | n disconnects without reset wait 1, 3, 8, 18, 48 and then 30 more seconds each, in 20 slices per second. |
| `Reconnect.OnlyDisconnectsAreRetried` | src/reconnect.rs:285-314 | With the first other result at attempt k at most k + 1 connects are made, and the run fails with that result iff it reached it and it is an error. |
| `SessionBoundary.WalkForIoErrno` | src/app.rs:332-341 | The walk returns the errno of the first `io::Error` of the chain, if any. |
| `SessionBoundary.DisconnectIff` | src/app.rs:300-322 | A loop error is a disconnect iff its first `io::Error` carries an errno other than the two protocol violations. |
| `SessionBoundary.ErrnolessIoErrorIsInternal` | src/app.rs:298-299 | An `io::Error` without an errno makes it an internal error, whatever lies deeper. |
| `SessionBoundary.DocumentedNoneIff` | src/app.rs:298-299 | The walk finds no errno exactly when the chain has no `io::Error` iff its first `io::Error`, if any, carries one. |
| `SessionBoundary.OutcomeExact` | src/app.rs:113-280 | Each result of an attempt exactly when, on what the environment answered; the backoff is reset iff the session was up. |
| `SessionBoundary.ConnectAndRunOn` | src/app.rs:113-280 | The attempt on the supervisor's own backoff: each result exactly when, and the cursor back at the first step exactly when the session was up. |
| `SessionBoundary.RunEndsExactly` | src/reconnect.rs:285-314 | A supervisor's run goes on as long as every attempt is lost; the first that is not ends it, and how; a raised flag ends it cleanly. |
| `SessionBoundary.UnreachableIsRetried` | src/app.rs:149-160 | While the compositor cannot be reached every attempt is made, and only the flag ends the run. |
| `SessionBoundary.WaitCountsFromLastSession` | src/app.rs:233-236 | In a supervisor's run the wait after a lost attempt is the step for the number of attempts lost since the session was last up; an earlier outage does not count. |
| `SessionBoundary.FirstStepIffSessionUp` | src/app.rs:213-236 | That wait is one second iff the session was up in that attempt or no attempt came before it. |

## Left out

- Wayland connection, registry, event loop and signal installation (src/app.rs:143-231, src/reconnect.rs:222-260): each fallible step is one answer of an `Environment`, and a connection attempt is its result and whether it reset the backoff.
- Toolkit internals: the snapshot an event carries is arbitrary, and toolkit iteration order is the order of its sequences. Theorems that need unique group ids say so.
- `protocol_id` versus `ObjectId`: one injective identifier type, so the 32-bit cast at src/wayland/workspace.rs:241 loses nothing.
- Identifiers, cycle counters and collection lengths are unbounded; only the name counter wraps at 64 bits.
- Debug assertions (src/runtime.rs:97-101, src/verify.rs:106-112, src/verify.rs:141-145): release semantics; `Timers.AttemptAssertionFailsIff` and `SessionVerifier.TimerAssertionIff` say when the last two hold.
- Title regexes: an uninterpreted predicate in the configuration.
- Log text: only the one-time warnings and the verifier's lines are kept, as journal entries.
- `AppDataModule.AppData.ConfirmActive`: the collected vectors of src/wayland/workspace.rs:230-248 are one set, since the token map's order is unspecified.
- `Reconnect.Supervisor.RunWithSleep`: the endless loop is modelled over any finite script of connection attempts, so a run may end as still running; the flag is the number of the poll from which it reads true, and durations are whole milliseconds.
- Configuration parsing, seat and output handlers, required-globals messages, and compile-time lifetime tests: flat or outside the model.
- `select_group_for_output` and `first_empty_workspace_in_group` (src/wayland/workspace.rs:273-318): not called by the modelled code.
