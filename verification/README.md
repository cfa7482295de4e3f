# Verified models of the commerce platform's core services

This project models the parts of the platform whose correctness depends on
more than one call, and proves what they keep over every run. Pure code is
modelled by functions; services that change tables, caches or counters step by
step are classes whose methods are tied, statement for statement, to the step
function that the theorems are about. Check everything with
`dafny verify dfyconfig.toml`.

- **Publishing** (`Versions`, `Stamping`, `Publishing`, `PublishingHistory`,
  `PublishingSafety`, `PublishingTheorems`, `PublishingReplays`,
  `PublishingReviews`, `PublishingRollbacks`, `PublishingAnswers`,
  `PublishingForms`, `PublishingDecisions`, `PublishingExamples`,
  `PublishingService`). Submission,
  review, rejection, rollback and activation of app releases, with version
  allocation and stamping. Main results: in every reachable state the active
  release is the one published release, at most one release is pending and
  it can be approved, and every stored manifest passes both gates; a submission
  is accepted exactly when its manifest is well formed, fits the shell and asks
  for a version that can be granted; versions and builds advance in lock-step;
  what is served is what was submitted; resubmission is idempotent; tenants do
  not affect each other. Every call's answer and the tables it leaves are stated
  from the manifest and the tables before the call. The stored version text is incremented with a JavaScript number.
  While the first patch of a tenant is at most 2^53, each build's patch is one
  more than the last, up to 2^53, where the version stands still and nothing can
  be added any more; patches beyond that are left to a parameter, and what does
  not depend on their size is proved for all of them.
- **Manifest gates** (`Compatibility`, `ManifestValidator`, `GateTheorems`,
  `ActionTheorems`, `ValidatorTheorems`). Recursive walks over unbounded JSON
  against positions: each error, problem and warning is tied to the value it is
  about in both directions, what the two gates let through is characterised
  exactly, the counters are exact, and a manifest that passes can never trigger
  the validator's own nesting error.
- **Report export** (`CsvExport`). A printer and a paging loop; the reader of
  section 2 of RFC 4180 is the specification. A line without columns would read
  back as one empty field; no report prints one.
- **Bookings** (`Bookings`, `Slots`, `BookingAnswers`, `SlotAnswers`,
  `BookingStore`). Interval capacity over every run, when a request is accepted
  in terms of shared instants, the status machine and its recorded history, the
  slots a day lists, and how a slot's `available` mark relates to the booking
  check.
- **Feed likes** (`FeedLikes`). A read phase and a later transaction, under
  every interleaving with other actors, deletions and purges.
- **Themes** (`Themes`, `ThemeColumns`, `ThemeStore`, `Checksum`). Versions as
  time travel, what each call makes of each column, a cache that equals the
  store, and the 32-bit checksum of compiled themes.
- **Inventory** (`Inventory`, `InventoryAnswers`, `InventoryStore`).
  Reservations, the ledger they balance to, and when each call is refused.
- **Live preview** (`Preview`). Conditional rendering of component trees.
- **Admin login** (`TtlStore`, `AdminLogin`, `AdminLoginRuns`,
  `AdminLoginService`). One-time codes over a store with expiry: how often a
  challenge can be answered, whose session an answer gives, and when the right
  code is sure to give it.

Shared helpers are in `Options`, `Json` and `Decimal`.

## Results where the code promises less than it seems

- Confirming a reservation does not look at its status
  (`Inventory.ConfirmedTwice`). Reserved stock is the sum of active
  reservations exactly when what such confirmations took from each pool adds up
  to nothing (`Inventory.ReservedIsActiveSum`).
- A reservation of a negative quantity is accepted, and releasing it can leave
  more reserved than there is (`Inventory.NegativeReservation`).
  `Inventory.NeverOversold` and `Inventory.ReservedWithinStock` say exactly
  which calls break the bounds.
- Restoring a theme version leaves a JSON column alone when the snapshot has no
  truthy value for it, and never restores the active flag
  (`Themes.RestoreGivesBack` gives the exact condition, `Themes.TypographyStays` a
  run).
- The capacity of a whole service is not kept: a booking for a staff member
  does not see bookings of the service under other keys
  (`Bookings.AssignedIsBlindToUnassigned`). A request leaves the whole service
  within capacity exactly when it names no one
  (`Bookings.SeesWholeServiceExactly`), and over all runs the whole service
  stays within capacity exactly when its requests use at most one staff key
  (`Bookings.ServiceCapacityExactly`).
- A slot is shown as unavailable as soon as one loaded booking overlaps it
  (`Slots.UnavailableButAccepted`), although the booking check would accept more
  (`Slots.MarkedButAccepted`), or, when slots are listed for no one in particular,
  although that booking does not compete with the request at all
  (`Slots.MarkedByAnother`). And an available slot can be refused when bookings
  reach over midnight (`Slots.AvailableIsAccepted` says exactly when, with a run
  in `Slots.AvailableButRefused`).
- `appStatus = in_review` does not imply a pending release. Two accepted calls
  leave a tenant in review with nothing to approve: an app submission that asks
  for the published release again, and a rollback whose next version is already
  taken by its own bytes. `PublishingReviews.AppSubmissionReplay` and
  `PublishingReviews.RollbackReplay` give the exact conditions on the table
  before the call, `PublishingReviews.InReviewWithoutPending` says that over all
  runs there is no other way, and `PublishingExamples.ResubmittedApp` and
  `PublishingExamples.RolledBackToItself` are runs that get there. The converse
  is an invariant.
- Stamping changes the content of a manifest exactly when its `metadata` or
  `app` is truthy without being an object
  (`Stamping.StampKeepsContentExactly`); `PublishingExamples.StampedNote` is such
  a manifest that passes both gates.
- A rollback can meet a version conflict: exactly when the tenant's next version
  is taken by a release with other bytes
  (`PublishingRollbacks.RollbackConflictsExactly`). The next version is taken
  where the latest patch stands still (`PublishingTheorems.LimitIsExact`), at
  2^53 or above it at a double that prints unchanged, such as that of 2^53 + 4.
  `PublishingTheorems.LimitIsReachable` and `PublishingExamples.ConflictingRollback`
  are runs that get there. When the tenant's first patch is at most 2^53, a
  rollback never conflicts before the latest patch is 2^53
  (`PublishingTheorems.RollbackNeverConflicts`).
- A schedule's slot loop does not end when the service's duration is not
  positive and its first slot fits (`Slots.LoopNeverEnds`).

## Model

| member | source | states |
|---|---|---|
| Versions.RoundTrip | src/modules/publishing/publishing.service.ts:401-465 | every printed MAJOR.MINOR.PATCH text is accepted and parses back to the same three numbers |
| Versions.PrintOfParse | src/modules/publishing/publishing.service.ts:415-417 | every accepted version text is the print of what it parses to, so versions and texts correspond one to one |
| Versions.IncrementOfPrint | src/modules/publishing/publishing.service.ts:456-465 | incrementing a stored version adds one to the patch and nothing else below 2^53, and stands still at 2^53 |
| Stamping.StampIsStamped | src/modules/publishing/publishing.service.ts:422-431 | a stamped manifest carries its version and build at every place where the stamps belong |
| Stamping.StampAgain | src/modules/publishing/publishing.service.ts:422-431 | stamping a stamped manifest with the same version and build changes nothing |
| Stamping.StampKeepsContent | src/modules/publishing/publishing.service.ts:422-431 | stamping keeps everything but the version stamps when metadata and app are objects or falsy |
| Stamping.StampKeepsContentExactly | src/modules/publishing/publishing.service.ts:422-431 | and it keeps it only then: the exact condition under which the content survives |
| PublishingHistory.LatestBuildIsCount | src/modules/publishing/publishing.service.ts:406-410 | the highest build number of a tenant is its number of releases |
| PublishingHistory.EveryBuildExists | src/modules/publishing/publishing.service.ts:406-410 | a tenant's builds are 1 to n without a gap |
| PublishingHistory.BuildsAreUnique | src/modules/publishing/publishing.service.ts:406-410 | no two releases of a tenant share a build number |
| PublishingHistory.NextVersionIsFresh | src/modules/publishing/publishing.service.ts:411-438 | when the tenant's first patch is at most 2^53, the next version is one patch above the latest and unused, except that at 2^53 it is the latest version itself |
| PublishingHistory.StoredVersionsAreValid | src/modules/publishing/publishing.service.ts:456-465 | a stored version can always be incremented |
| PublishingHistory.HistoryOfAppend | src/modules/publishing/publishing.service.ts:372-398 | appending an allocated release keeps numbering, uniqueness, lock-step and soundness of the release table |
| PublishingSafety.GateIgnoresStamps | src/shared/compatibility/compatibility.service.ts:93-152 | stamping a manifest does not change what the compatibility gate reports |
| PublishingSafety.StagingKeepsHistory | src/modules/publishing/publishing.service.ts:331-398 | a granted allocation can always be staged, and the table stays sound |
| PublishingSafety.QueueConsistent | src/modules/publishing/publishing.service.ts:303-325 | queueing keeps consistency and every active release, puts the tenant in review, and leaves the staged release as its only pending one, or none if that release is not pending |
| PublishingSafety.ActivateConsistent | src/modules/publishing/publishing.service.ts:210-262 | activation leaves one published release, named by `activeReleaseId`, and nothing pending |
| PublishingSafety.RejectConsistent | src/modules/admin/merchant-app-review.service.ts:91-117 | rejection leaves nothing pending and the public release untouched |
| PublishingSafety.SubmitQueues | src/modules/publishing/publishing.service.ts:79-124 | a submission changes drafts only, or queues one soundly staged candidate |
| PublishingSafety.RollbackQueues | src/modules/publishing/publishing.service.ts:602-652 | a rollback changes nothing, or queues one soundly staged candidate: a new pending release, or the release that already has the next version |
| PublishingSafety.StepKeeps | src/modules/publishing/publishing.service.ts:79-124 | every service call keeps the invariant, and releases only evolve |
| PublishingSafety.EveryRunIsSafe | scripts/audit-active-release.js:154-179 | every reachable state satisfies the audited invariants: published is what `activeReleaseId` names, one pending release at most, pending implies in review |
| PublishingSafety.EveryRunEvolves | src/modules/publishing/publishing.service.ts:195-244 | over every run releases keep version, build, manifest and checksum, none disappears, and statuses only move down |
| PublishingTheorems.PublicReleaseIsUnique | scripts/audit-active-release.js:154-179 | in every reachable state `activeReleaseId` names the one published release of its tenant, which the shell can render |
| PublishingTheorems.ApprovalIsNeverStuck | src/modules/admin/merchant-app-review.service.ts:59-89 | a pending release can always be approved, exactly that release goes public, and no other release of the tenant stays public or pending |
| PublishingTheorems.ApprovalNeedsPending | src/modules/admin/merchant-app-review.service.ts:59-89 | an approval activates something exactly when the tenant has a pending release |
| PublishingTheorems.SubmissionOutcome | src/modules/publishing/publishing.service.ts:84-124 | a submission answered with a pending release puts the tenant in review without a note, that release and no other is then pending, and the stamped manifest is saved as the next draft |
| PublishingReviews.ReviewerIsTold | src/modules/admin/merchant-app-review.service.ts:62-76 | an approval answers that nothing was submitted exactly when the tenant is in review with no pending release |
| PublishingReviews.AppSubmissionReplay | src/modules/merchants/merchants.service.ts:419-435 | an accepted app submission leaves the tenant in review with nothing to approve exactly when, before the call, the version it asks for belongs to the published release with the same stamped bytes and no release is pending |
| PublishingReviews.RollbackReplay | src/modules/publishing/publishing.service.ts:602-652 | an accepted rollback does so exactly when, before the call, the next version is taken by the same stamped bytes in a release that is not pending |
| PublishingReviews.StepDecides | src/modules/publishing/publishing.service.ts:303-325 | every call either decides about a tenant's review or leaves it as it was, and only those two replays leave nothing to approve |
| PublishingReviews.InReviewWithoutPending | scripts/audit-active-release.js:154-179 | in a reachable state a tenant is in review with nothing to approve exactly when its last accepted call that decided about the review was one of those two replays |
| PublishingReviews.RejectedForGood | src/modules/admin/merchant-app-review.service.ts:91-117 | a rejected release stays rejected with its content and is never active, whatever happens later |
| PublishingReviews.RejectedIsRefused | src/modules/publishing/publishing.service.ts:98-103 | and its bytes are refused as already reviewed ever after |
| PublishingExamples.ResubmittedApp | src/modules/merchants/merchants.service.ts:419-435 | a run, with a concrete manifest, in which an app submitted again after its approval is in review with nothing to approve |
| PublishingExamples.RolledBackToItself | src/modules/publishing/publishing.service.ts:602-652 | a run in which an app rolled back to its only release at patch 2^53 is in review with nothing to approve |
| PublishingExamples.ConflictingRollback | src/modules/publishing/publishing.service.ts:419-438 | a run in which such a rollback is a version conflict, because the stamped keys come in another order |
| PublishingExamples.StampedNote | src/modules/publishing/publishing.service.ts:422-431 | a manifest that passes both gates and whose content stamping changes |
| PublishingRollbacks.VersionsAreChained | src/modules/publishing/publishing.service.ts:401-465 | in every reachable state, for first versions of any size, each build carries the increment of the version of the build before it |
| PublishingTheorems.VersionsMarchInLockStep | src/modules/publishing/publishing.service.ts:401-465 | when the tenant's first patch is at most 2^53, build k carries the first version with its patch advanced by k - 1 in every reachable state |
| PublishingTheorems.SubmitFindsValidVersions | src/modules/publishing/publishing.service.ts:456-465 | no submission ever fails with INVALID_STORED_VERSION |
| PublishingTheorems.RollbackFindsValidVersions | src/modules/publishing/publishing.service.ts:456-465 | no rollback ever fails with INVALID_STORED_VERSION |
| PublishingRollbacks.RollbackConflictsExactly | src/modules/publishing/publishing.service.ts:602-652 | a rollback is a version conflict exactly when the tenant's next version is taken by a release that the target, stamped as that release, is not |
| PublishingRollbacks.RollbackAddsExactly | src/modules/publishing/publishing.service.ts:602-652 | a rollback adds a release exactly when it is permitted, its target was public, its assets are there and the tenant's next version is free |
| PublishingTheorems.RollbackNeverConflicts | src/modules/publishing/publishing.service.ts:602-652 | when the tenant's first patch is at most 2^53 and its latest is below, every rollback to a release that was public adds the next version and build with the target's content |
| PublishingTheorems.LimitIsExact | src/modules/publishing/publishing.service.ts:456-465 | the next version is the latest one again exactly when the latest patch is 2^53, or is above it and its double prints unchanged |
| PublishingTheorems.LimitIsReachable | src/modules/publishing/publishing.service.ts:412-417 | a first submission that names such a version reaches that state |
| PublishingTheorems.SubmitAddsNothingAtTheLimit | src/modules/publishing/publishing.service.ts:419-438 | there no submission adds a release |
| PublishingTheorems.RollbackAddsNothingAtTheLimit | src/modules/publishing/publishing.service.ts:602-652 | there no rollback adds a release |
| PublishingTheorems.RollbackAtTheLimit | src/modules/publishing/publishing.service.ts:419-438 | there a rollback is a version conflict exactly when the target, stamped as the latest release, has another checksum |
| PublishingTheorems.ServedAsSubmitted | src/modules/publishing/publishing.service.ts:195-244 | whatever happens later, a submitted release keeps the submitted manifest up to its stamps |
| PublishingRollbacks.ServedAsRolledBack | src/modules/publishing/publishing.service.ts:612-636 | whatever happens after a rollback that added a release, that release keeps the target's content, and the target keeps its own |
| PublishingReplays.AllocatesAgain | src/modules/publishing/publishing.service.ts:419-438 | asking for a taken version is granted exactly for the bytes that have it, with their build number |
| PublishingReplays.ReplayOutcome | src/modules/publishing/publishing.service.ts:84-124 | a submission that asks for a taken version changes no release and is answered by the bytes and the status of the release that has it |
| PublishingReplays.ResubmissionOverRuns | src/modules/publishing/publishing.service.ts:372-398 | after an accepted submission under an explicit version, and whatever happens later, the same manifest adds and changes no release; it is answered with the same release, version, build and checksum while that is pending or published, and refused as already reviewed otherwise |
| PublishingReplays.AddedIsFoundAgain | src/modules/publishing/publishing.service.ts:372-398 | the same for a submission that added a release: the added one is found again |
| PublishingReplays.ResubmissionIsIdempotent | src/modules/publishing/publishing.service.ts:372-398 | resubmitting the bytes of a pending release finds that release again and changes no row |
| PublishingReplays.SubmitTwice | src/modules/publishing/publishing.service.ts:84-103 | an accepted submission under an explicit version, repeated at once, gives the same answer and the same tables |
| PublishingTheorems.TenantsAreIsolated | src/modules/publishing/publishing.service.ts:79-124 | any sequence of calls for other tenants leaves rows, active release and draft of a tenant alone |
| PublishingAnswers.GateExactly | src/modules/publishing/publishing.service.ts:264-301 | the two gates refuse a manifest that is not well formed or whose navigation is not in order as invalid, else one that does not fit the shell as incompatible, else a version that is truthy and no text as invalid, and nothing else |
| PublishingAnswers.NextExactly | src/modules/publishing/publishing.service.ts:406-414 | the next version is 1.0.0 for a tenant without releases, and otherwise the increment of the version of its release with the highest build |
| PublishingAnswers.TextExactly | src/modules/publishing/publishing.service.ts:415-417 | exactly the texts that some MAJOR.MINOR.PATCH prints as are accepted as versions |
| PublishingAnswers.NextBuildExactly | src/modules/publishing/publishing.service.ts:406-410 | the next build is one more than the number of the tenant's releases |
| PublishingAnswers.AcceptedExactly | src/modules/publishing/publishing.service.ts:79-124 | in every reachable state a submission is accepted exactly when it is permitted, its manifest is well formed and fits the shell, and the version it asks for is a MAJOR.MINOR.PATCH text that is either free, and the next one unless there is no release yet, or taken by the same stamped bytes in a pending or published release |
| PublishingAnswers.SubmittedRefused | src/modules/publishing/publishing.service.ts:264-301 | a submission that does not get past the gates changes nothing and names the first thing that is wrong |
| PublishingAnswers.SubmittedBad | src/modules/publishing/publishing.service.ts:415-417 | one that asks for a version of another form changes nothing and is told so |
| PublishingAnswers.SubmittedFree | src/modules/publishing/publishing.service.ts:84-124 | under a free version the tenant's first release may carry any, a later one only the next, and else the expected version is named; what is added, what is superseded, the tenant's row and the draft are stated in full |
| PublishingAnswers.SubmittedTaken | src/modules/publishing/publishing.service.ts:98-124 | under a taken version the holder is answered while it is pending or published and has the same stamped bytes, other bytes are a conflict, and a decided holder is already reviewed; no release changes |
| PublishingForms.FormIgnoresStamps | src/modules/publishing/publishing.service.ts:422-431 | stamping neither makes nor mends a fault that the structural validator looks for |
| PublishingForms.RolledBackRow | src/modules/publishing/publishing.service.ts:612-636 | a release that a rollback adds is its target's manifest without the version, stamped anew |
| PublishingForms.StoredManifestsAreValid | src/modules/publishing/publishing.service.ts:79-124 | in every reachable state every stored manifest is well formed: the structural validator reports nothing about it |
| PublishingDecisions.RollbackRefused | src/modules/publishing/publishing.service.ts:602-611 | without permission, or without a release of that version that has been public, a rollback changes nothing |
| PublishingDecisions.RolledBackFree | src/modules/publishing/publishing.service.ts:612-652 | a rollback whose next version is free and whose assets are there queues the target's manifest under that version; what is added, superseded and saved is stated in full |
| PublishingDecisions.RolledBackTaken | src/modules/publishing/publishing.service.ts:612-652 | one whose next version is taken conflicts with other bytes, and queues the holder again for the same ones |
| PublishingDecisions.RolledBackBad | src/modules/publishing/publishing.service.ts:415-417 | one whose next version has another form is refused |
| PublishingDecisions.ApprovedPending | src/modules/admin/merchant-app-review.service.ts:59-89 | an approval makes the pending release the tenant's one public release and supersedes what was public or pending; all tables are stated in full |
| PublishingDecisions.ApprovedNothing | src/modules/admin/merchant-app-review.service.ts:59-76 | without a pending release, or by someone who is no reviewer, it changes nothing and says why |
| PublishingDecisions.RejectedExactly | src/modules/admin/merchant-app-review.service.ts:91-117 | which rejections are refused and why, and what the others make of pending releases, tenant and drafts |
| PublishingDecisions.AppSubmittedExactly | src/modules/merchants/merchants.service.ts:419-435 | an owner's app submission is answered like the submission itself, and an accepted one leaves the tenant in review without a note |
| PublishingService.Service.CheckManifest | src/modules/publishing/manifest-validator.service.ts:124-146 | both walks, run one after the other, refuse exactly the manifests that are not well formed or do not fit the shell, with the error of the first check that fails |
| PublishingService.Service.SupersedePendingCandidates | src/modules/publishing/publishing.service.ts:316-325 | the row-by-row update supersedes exactly the tenant's other pending rows |
| PublishingService.Service.StageCandidate | src/modules/publishing/publishing.service.ts:372-398 | inserts the candidate or recovers the row that already holds its version and checksum |
| PublishingService.Service.SubmitForReview | src/modules/publishing/publishing.service.ts:79-124 | performs exactly the protocol's submission step, with its answer; `PublishingAnswers` says which submissions that accepts, what it writes and how it refuses the others |
| PublishingService.Service.PublishClientManifest | src/modules/publishing/publishing.service.ts:264-301 | runs both gates once more and then performs exactly the step of a permitted submission |
| PublishingService.Service.SubmitAppReview | src/modules/merchants/merchants.service.ts:419-435 | performs exactly the app-submission step, with the given manifest or else with what the drafts compile to |
| PublishingService.Service.SubmitDraftsForReview | src/modules/publishing/publishing.service.ts:126-141 | performs exactly the submission step of the compiled drafts, or refuses drafts that are not valid |
| PublishingService.Service.Rollback | src/modules/publishing/publishing.service.ts:602-652 | performs exactly the rollback step, with its answer, which `PublishingDecisions` states case by case |
| PublishingService.Service.ActivateReviewRelease | src/modules/publishing/publishing.service.ts:210-262 | performs exactly the activation of the newest pending release |
| PublishingService.Service.ApproveApp | src/modules/admin/merchant-app-review.service.ts:59-89 | performs exactly the approval step, with its answer, which `PublishingDecisions` states case by case |
| PublishingService.Service.RejectApp | src/modules/admin/merchant-app-review.service.ts:91-117 | performs exactly the rejection step, with its answer, which `PublishingDecisions` states case by case |
| Compatibility.Evaluation.WalkNodes | src/shared/compatibility/compatibility.service.ts:234-250 | the recursive walk adds the node count and the errors of exactly the values it reaches |
| Compatibility.Evaluation.WalkAll | src/shared/compatibility/compatibility.service.ts:253-272 | the full walk counts and warns about actions outside nested actions and within depth 40, and nothing when it is inside them |
| Compatibility.Evaluation.Visit | src/shared/compatibility/compatibility.service.ts:293-313 | one visited object adds each action it declares once |
| Compatibility.Evaluation.WalkScreens | src/shared/compatibility/compatibility.service.ts:115-146 | both walks over all screens add up counters, errors and warnings |
| Compatibility.Evaluation.Evaluate | src/shared/compatibility/compatibility.service.ts:69-152 | the gate's errors and counters are exactly those of the specification, and it passes when there are no errors |
| GateTheorems.NodesAreReachableNodes | src/shared/compatibility/compatibility.service.ts:234-250 | the counted positions are exactly the node-shaped objects reachable without crossing a skipped key |
| GateTheorems.NodeCountIsExact | src/shared/compatibility/compatibility.service.ts:118-119 | the node counter equals the number of such positions |
| GateTheorems.ErrorHasSource | src/shared/compatibility/compatibility.service.ts:116-133 | every error of the walk is raised by some reachable value at its depth |
| GateTheorems.SourceHasError | src/shared/compatibility/compatibility.service.ts:116-133 | every reachable value's errors are reported |
| GateTheorems.GateIsExact | src/shared/compatibility/compatibility.service.ts:93-152 | the gate passes exactly when the schema is supported, there are at most 200 screens, every reachable node has a published type at depth at most 25, and there are at most 2000 nodes |
| GateTheorems.GateReportsExactly | src/shared/compatibility/compatibility.service.ts:69-152 | each error of the gate is reported exactly when its fault is there: another schema version, more than 200 screens, more than 2000 nodes with their number, or a reachable value that is too deep or of an unpublished type |
| GateTheorems.SchemaExactly | src/shared/compatibility/compatibility.service.ts:94-101 | the schema check accepts exactly the versions 1.0.0, 1.0 and none at all |
| GateTheorems.ComponentShape | src/shared/compatibility/compatibility.service.ts:279-291 | a renderable node is an object with a text type that has no payload, or one of six keys only nodes have |
| GateTheorems.ShellFollowsChildren | src/shared/compatibility/compatibility.service.ts:30-52 | the shell's node walk skips exactly twenty keys, and children and layout are not among them |
| GateTheorems.TooDeepVisits | src/modules/publishing/manifest-validator.service.ts:148-195 | when the validator reports nesting, the gate's walk reaches a position at least twice as deep as the validator's remaining depth |
| GateTheorems.PassedIsNeverTooDeep | src/modules/publishing/manifest-validator.service.ts:148-195 | a manifest that passes the gate never triggers the validator's nesting error |
| ActionTheorems.ActionsAreDefinitions | src/shared/compatibility/compatibility.service.ts:253-326 | the counted positions are exactly the action definitions of objects outside nested actions within depth 40 |
| ActionTheorems.ActionCountIsExact | src/shared/compatibility/compatibility.service.ts:135-145 | each of them is counted exactly once |
| ActionTheorems.DefinitionShape | src/shared/compatibility/compatibility.service.ts:316-326 | an action by itself is an object with a text type and a payload and none of four keys only nodes have |
| ActionTheorems.WarnedExactly | src/shared/compatibility/compatibility.service.ts:135-146 | the walk warns of an action type exactly when the contract does not publish it and a definition outside nested actions has it |
| ActionTheorems.ScreensWarnedExactly | src/shared/compatibility/compatibility.service.ts:115-146 | and an evaluation exactly of those of its screens |
| ManifestValidator.Validation.ValidateScreenNode | src/modules/publishing/manifest-validator.service.ts:148-208 | the recursive check pushes exactly the problems of a node, in order |
| ManifestValidator.Validation.ValidateChildren | src/modules/publishing/manifest-validator.service.ts:184-195 | and those of its children, in order |
| ManifestValidator.Validation.ValidateActions | src/modules/publishing/manifest-validator.service.ts:156-183 | and those of its action list or map; which these are `ValidatorTheorems.ReportedExactly` says |
| ManifestValidator.Validation.Validate | src/modules/publishing/manifest-validator.service.ts:18-122 | the list of errors is exactly the manifest's problems, and it is valid when there are none; `ValidatorTheorems.ValidExactly` says when |
| ValidatorTheorems.ReportedExactly | src/modules/publishing/manifest-validator.service.ts:18-208 | each problem is reported exactly when the fault it stands for is there, at its own place: which version, which screen without an id, which value below a screen is 26 steps down, has a scalar `tapAction` or `actions`, an entry that is no object, or a navigation without a destination |
| ValidatorTheorems.ValidExactly | src/modules/publishing/manifest-validator.service.ts:18-208 | a manifest has no problems exactly when its version is 1.0.0, 1.0 or none, `screens` is a non-empty list or map whose screens have an id, `splash` and `identity` are no scalars, and every value below a screen of a map is at most 25 steps down and in order |
| ValidatorTheorems.DestinationExactly | src/modules/publishing/manifest-validator.service.ts:166-181 | a navigation has a destination exactly when the first of its six payload keys that is not null is truthy |
| ValidatorTheorems.PrintsExactly | src/modules/publishing/manifest-validator.service.ts:30-35 | a version prints as a text exactly when it is that text, alone in any number of lists |
| CsvExport.EscapedRoundTrip | src/modules/platform-admin/platform-admin.service.ts:679-684 | reading a quoted text up to its closing quote gives the text back, whatever it contains |
| CsvExport.LineRoundTrip | src/modules/platform-admin/platform-admin.service.ts:685-686 | reading a printed line as a record gives its texts back and stops at the line's end |
| CsvExport.DocumentReads | src/modules/platform-admin/platform-admin.service.ts:685-687 | reading a printed document as a file gives every line back |
| CsvExport.ExportRoundTrip | src/modules/platform-admin/platform-admin.service.ts:678-687 | an export reads back as its header and rows, cell by cell, exactly when no line is without columns |
| CsvExport.NoFormulaCells | src/modules/platform-admin/platform-admin.service.ts:679-683 | every export can be read, and no decoded cell starts with a formula character |
| CsvExport.DecodedCells | src/modules/platform-admin/platform-admin.service.ts:678-687 | every header and cell is read back in its place: as itself, behind a quote mark when it starts with one of the six formula characters, or empty when the value is missing |
| CsvExport.CollectReportRows | src/modules/platform-admin/platform-admin.service.ts:658-676 | the paging loop ends and returns exactly the first rows up to the cap of 5000 |
| CsvExport.ExportReport | src/modules/platform-admin/platform-admin.service.ts:642-656 | a whole export reads back as the report's headers and, for each of the first 5000 rows, the cells of its columns |
| Bookings.Allowed | src/modules/booking/booking.service.ts:448-456 | which changes of status are possible: to confirmed from requested and rescheduled, to in progress and rescheduled from confirmed, to completed and no-show from in progress, to cancelled from requested, confirmed and rescheduled |
| Bookings.CoveringIsRivalry | src/modules/booking/booking.service.ts:358-367 | bookings that cover an instant of a requested interval are among those the request competes with |
| Bookings.CreateKeepsCapacity | src/modules/booking/booking.service.ts:349-391 | an accepted booking overbooks no instant of any service and staff key |
| Bookings.NeverReactivated | src/modules/booking/booking.service.ts:448-461 | only active bookings can change status, so cancelled and no-show bookings stay inactive |
| Bookings.UpdateKeepsCapacity | src/modules/booking/booking.service.ts:444-512 | a status change overbooks no instant |
| Bookings.NeverOverbooked | src/modules/booking/booking.service.ts:349-391 | over every run, at every instant the active bookings of a service and staff key (or none) stay within capacity |
| Bookings.UnassignedSeesWholeService | src/modules/booking/booking.service.ts:358-371 | an accepted request without a staff member leaves the whole service within capacity over its interval |
| Bookings.AssignedIsBlindToUnassigned | src/modules/booking/booking.service.ts:358-371 | a run in which a request for a staff member exceeds the capacity of the whole service |
| Bookings.SeesWholeServiceExactly | src/modules/booking/booking.service.ts:358-371 | an accepted request leaves the whole service within capacity, in every reachable state, exactly when it names no staff member |
| Bookings.OneKeyKeepsService | src/modules/booking/booking.service.ts:349-391 | over every run in which all requests for a service use one staff key (or none), the whole service stays within capacity at every instant |
| Bookings.ServiceCapacityExactly | src/modules/booking/booking.service.ts:349-391 | for a set of staff keys that requests may use, the whole service stays within capacity over all runs exactly when the set holds at most one key |
| Bookings.HistoriesAreTruthful | src/modules/booking/booking.service.ts:444-475 | over every run no booking is lost or moved, each history is a growing path of the status machine, and terminal bookings never change |
| BookingAnswers.OverlapIsSharedInstant | src/modules/booking/booking.service.ts:364-365 | a booking and a request overlap exactly when some instant belongs to both, so that abutting intervals do not |
| BookingAnswers.CreatedExactly | src/modules/booking/booking.service.ts:349-391 | in every reachable state a request is accepted exactly when the bookings of its tenant and service (and staff member, if it names one) that are neither cancelled nor no-show and share an instant with it are fewer than the capacity; the new row is stated in full |
| BookingAnswers.CreatedForAnyDuration | src/modules/booking/booking.service.ts:349-391 | the same for any duration, with competing bookings told by their bounds |
| BookingAnswers.UpdatedExactly | src/modules/booking/booking.service.ts:444-512 | a status change is refused for an unknown booking or a pair of statuses that is not permitted, and otherwise written and recorded in full |
| BookingAnswers.FinishedWasConfirmed | src/modules/booking/booking.service.ts:448-456 | in every reachable state a completed or missed booking was in progress right before, and confirmed right before that |
| BookingAnswers.SpacedRequestsAreAccepted | src/modules/booking/booking.service.ts:358-371 | requests for intervals that at most abut are all accepted one after the other |
| BookingAnswers.DayIsBookedOut | src/modules/booking/booking.service.ts:316-371 | all slots of a schedule can be booked one after the other, and every request is accepted |
| Slots.ClockRoundTrip | src/modules/booking/booking.service.ts:324-325 | a printed time of day reads back as its minute, and is HH:MM below 100 hours |
| Slots.SlotTexts | src/modules/booking/booking.service.ts:324-325 | the texts of a slot read back as its minutes |
| Slots.LoopNeverEnds | src/modules/booking/booking.service.ts:323 | when the duration is not positive and the first slot fits, the loop's guard holds in every round |
| Slots.SlotCount | src/modules/booking/booking.service.ts:323 | a schedule yields as many slots as fit between opening and closing |
| Slots.SlotsTile | src/modules/booking/booking.service.ts:316-339 | its slots abut, lie inside the opening hours and leave less than one slot |
| SlotAnswers.OneScheduleInOrder | src/modules/booking/booking.service.ts:282-345 | a schedule is listed exactly when it is active, of the tenant and the day, and of the staff member if one is asked for; it gives as many slots as fit, each right after the one before, available exactly when no booking of the day that takes a place shares an instant with it |
| SlotAnswers.ScheduleBySchedule | src/modules/booking/booking.service.ts:316-345 | several schedules give their slots one after the other |
| SlotAnswers.MarkedExactly | src/modules/booking/booking.service.ts:303-338 | a slot is marked available exactly when the service has room at all and no booking of the tenant and service inside the day shares an instant with it |
| Slots.AvailableMeansFree | src/modules/booking/booking.service.ts:332-338 | a slot is available exactly when capacity is positive and no loaded booking overlaps it |
| Slots.AvailableIsAccepted | src/modules/booking/booking.service.ts:303-371 | a request for an available slot is accepted exactly when the competing bookings that reach over the day's edges stay below capacity |
| Slots.AvailableInsideTheDay | src/modules/booking/booking.service.ts:303-371 | an available slot is accepted when every competing booking lies inside the day |
| Slots.ListedIsAccepted | src/modules/booking/booking.service.ts:282-371 | every slot listed as available is accepted for its own staff member when the bookings it competes with lie inside the day |
| Slots.UnavailableButAccepted | src/modules/booking/booking.service.ts:332-371 | whatever staff member the slots were asked for and the request names, an acceptable request is shown as unavailable exactly when some loaded booking overlaps it |
| Slots.AvailableButRefused | src/modules/booking/booking.service.ts:303-371 | a run with a booking shortly before midnight: the first slot of the day is available and refused |
| Slots.MarkedButAccepted | src/modules/booking/booking.service.ts:332-371 | a run with one booking of a service for two: its slot is shown as unavailable and accepted |
| Slots.MarkedByAnother | src/modules/booking/booking.service.ts:303-371 | a run in which another staff member's booking marks a slot of an unfiltered list, although it does not compete with the request |
| BookingStore.BookingService.CreateBooking | src/modules/booking/booking.service.ts:349-405 | performs exactly the creation step, with its answer, which `BookingAnswers.CreatedExactly` states in terms of shared instants |
| BookingStore.BookingService.UpdateBookingStatus | src/modules/booking/booking.service.ts:444-512 | performs exactly the status step, with its answer |
| BookingStore.BookingService.CollectSlots | src/modules/booking/booking.service.ts:323-339 | the loop ends and builds one slot for each start that fits |
| BookingStore.BookingService.GetAvailableSlots | src/modules/booking/booking.service.ts:282-345 | returns the slots of every schedule of the day in turn, with their marks |
| FeedLikes.UnlikeKeeps | src/bff/mobile/mobile-bff.service.ts:279-283 | an unlike removes the remembered row and decrements its post, or changes nothing when that row is gone |
| FeedLikes.LikeKeeps | src/bff/mobile/mobile-bff.service.ts:296-312 | a like inserts a row and increments its post exactly when the post exists and the actor has none, and otherwise changes nothing |
| FeedLikes.DeletionKeeps | src/modules/feed/feed.service.ts:115-120 | deleting posts with their likes keeps every counter right |
| FeedLikes.EveryInterleavingIsConsistent | src/bff/mobile/mobile-bff.service.ts:276-312 | under every interleaving each counter equals its number of like rows, likes are unique, and none hangs on a missing post |
| FeedLikes.LikedIsTrue | src/bff/mobile/mobile-bff.service.ts:296-312 | the answer "liked" is true while the post exists, even after a lost race |
| FeedLikes.UnlikedIsTrue | src/bff/mobile/mobile-bff.service.ts:279-289 | a removed like leaves its actor without one on the post |
| FeedLikes.ToggleTwice | src/bff/mobile/mobile-bff.service.ts:265-313 | without interference two toggles restore the actor's state and every counter |
| FeedLikes.FeedStore.ReadExisting | src/bff/mobile/mobile-bff.service.ts:276-278 | finds the actor's like row on the post, if there is one |
| FeedLikes.FeedStore.UnlikeTransaction | src/bff/mobile/mobile-bff.service.ts:279-283 | both statements or neither, and which |
| FeedLikes.FeedStore.LikeTransaction | src/bff/mobile/mobile-bff.service.ts:296-304 | both statements or neither, and which |
| FeedLikes.FeedStore.DeletePosts | prisma/schema.prisma:1173 | removing posts removes their likes by cascade |
| FeedLikes.FeedStore.DeletePost | src/modules/feed/feed.service.ts:224-229 | removes exactly the tenant's post with its likes, and is refused when the tenant has no such post |
| FeedLikes.FeedStore.PurgeExpired | src/modules/feed/feed.service.ts:115-120 | removes exactly the expired posts and counts them |
| FeedLikes.FeedStore.ToggleFeedLike | src/bff/mobile/mobile-bff.service.ts:265-313 | an uninterrupted toggle flips the like, keeps the invariant and answers with the true state and count; without an actor key it only reads, and a first like without login is refused on a post that is not live |
| Themes.PerformKeeps | src/modules/theme/theme.service.ts:35-89 | every call keeps exact history and cache, forgets no version, and never meets a taken version key |
| Themes.EveryRunKeepsHistory | src/modules/theme/theme.service.ts:21-232 | in every reachable state the snapshots are exactly the versions 1 to current - 1, the cache equals the store, and the unique key never clashes |
| Themes.TimeTravel | src/modules/theme/theme.service.ts:35-89 | the theme a tenant had after any part of a run is ever after the current one or the snapshot under its version |
| Themes.SnapshotsWereThemes | src/modules/theme/theme.service.ts:35-89 | and every snapshot held was the tenant's theme at some earlier point of the run |
| Themes.RestorableExactly | src/modules/theme/theme.service.ts:113-122 | a version can be restored exactly when it is an earlier one |
| Themes.RestoreGivesBack | src/modules/theme/theme.service.ts:124-161 | a restore gives back the twelve scalar columns of any earlier state, each JSON column exactly when it had a truthy value or is unchanged, and the whole theme exactly when all three do and the active flag is unchanged |
| Themes.TypographyStays | src/modules/theme/theme.service.ts:152-154 | a run in which restoring a version without typography leaves a later typography in place |
| Themes.ReadsAreCurrent | src/modules/theme/theme.service.ts:21-33 | a read is served the stored theme, cached or not, and makes no version |
| ThemeColumns.UpdateWritesColumns | src/modules/theme/theme.service.ts:35-89 | an update writes what it asks for into each of the sixteen columns that it names, leaves the others as they were or at their first value, keeps the row before under its version and empties the cache |
| ThemeColumns.ResetGivesDefaults | src/modules/theme/theme.service.ts:180-224 | a reset gives every column its first value, except that it leaves an existing active flag alone |
| ThemeColumns.RestoreTakesColumns | src/modules/theme/theme.service.ts:113-168 | a restore is refused for want of a theme or a version, and otherwise takes every column from the snapshot, except the active flag and JSON columns without a truthy value there |
| ThemeColumns.ReadGivesColumns | src/modules/theme/theme.service.ts:21-33 | a read answers with what is stored, or creates a theme of first values |
| ThemeColumns.ThemesAreIsolated | src/modules/theme/theme.service.ts:35-89 | no call touches another tenant's theme, snapshots or cache entry |
| ThemeColumns.LastUpdateDecides | src/modules/theme/theme.service.ts:35-89 | over every run the last update to name a column decides it, until a restore or reset of it |
| ThemeStore.ThemeService.GetTheme | src/modules/theme/theme.service.ts:21-33 | performs exactly the read step on tables and cache |
| ThemeStore.ThemeService.UpdateTheme | src/modules/theme/theme.service.ts:35-89 | performs exactly the update step, with its answer, which `ThemeColumns.UpdateWritesColumns` states column by column |
| ThemeStore.ThemeService.RestoreVersion | src/modules/theme/theme.service.ts:113-168 | performs exactly the restore step, with its answer |
| ThemeStore.ThemeService.ResetToDefaults | src/modules/theme/theme.service.ts:180-224 | performs exactly the reset step, with its answer, which `ThemeColumns.ResetGivesDefaults` states column by column |
| ThemeStore.ThemeService.InvalidateCache | src/modules/theme/theme.service.ts:232-235 | drops the tenant's cached theme and bundle and no other |
| Checksum.PolynomialOfAppend | src/modules/theme/theme-compiler.service.ts:73-77 | the sum of code units times powers of 31 obeys the step of the rolling hash |
| Checksum.RoundIsExact | src/modules/theme/theme-compiler.service.ts:74-76 | one round of shift, subtraction and truncation agrees with the polynomial modulo 2^32 |
| Checksum.TextIsExact | src/modules/theme/theme-compiler.service.ts:78 | the text is always eight hexadecimal digits, also at -2^31, and reads back as the hash without its sign |
| Checksum.SameText | src/modules/theme/theme-compiler.service.ts:78 | two hashes have the same text exactly when they are equal up to sign |
| Checksum.SimpleHash | src/modules/theme/theme-compiler.service.ts:71-79 | the loop computes the base-31 polynomial of the code units reduced to signed 32 bits, as such a text |
| Inventory.LedgerBalances | src/modules/commerce/commerce.service.ts:308-419 | over every run stock and reserved stock are what was there plus what calls adjusted, took, released and confirmed |
| Inventory.RunExcess | src/modules/commerce/commerce.service.ts:308-403 | over every run only confirmations of inactive reservations separate reserved stock from the sum of active reservations, and by exactly their quantities |
| Inventory.ReservedIsActiveSum | src/modules/commerce/commerce.service.ts:308-403 | from a fresh stock, reserved stock is the sum of active reservations in every pool exactly when what stray confirmations took from each pool adds up to nothing |
| Inventory.ReservedIsActiveSumExactly | src/modules/commerce/commerce.service.ts:308-403 | with no negative quantities, exactly when every confirmation found its reservation active or empty |
| Inventory.CoveredExactly | src/modules/commerce/commerce.service.ts:351-419 | a call leaves every pool covered exactly when it is neither an adjustment below what is reserved nor the release of an active reservation whose negative quantity exceeds what is free |
| Inventory.NeverOversold | src/modules/commerce/commerce.service.ts:308-419 | throughout a run reserved stock never exceeds stock, exactly when no call of the run is one of these, even after stray confirmations |
| Inventory.SensibleCalls | src/modules/commerce/commerce.service.ts:308-419 | with no negative quantities only such adjustments can break it |
| Inventory.BoundedExactly | src/modules/commerce/commerce.service.ts:308-419 | a call leaves reserved stock between zero and stock exactly when it neither oversells nor takes the reserved stock of its pool below zero |
| Inventory.ReservedWithinStock | src/modules/commerce/commerce.service.ts:294-419 | throughout a run reserved stock stays between zero and stock exactly when no call of the run does either |
| Inventory.CarefulCallers | src/modules/commerce/commerce.service.ts:294-419 | with no negative quantities, no adjustment below what is reserved and only active reservations confirmed, it does |
| Inventory.NegativeReservation | src/modules/commerce/commerce.service.ts:308-373 | a run in which a negative reservation, released, leaves more reserved than there is |
| Inventory.ConfirmedTwice | src/modules/commerce/commerce.service.ts:375-403 | a run whose second confirmation takes reserved stock below zero |
| InventoryAnswers.AvailableExactly | src/modules/commerce/commerce.service.ts:294-306 | what is free is stock less reserved stock, and nothing when more is reserved than there is |
| InventoryAnswers.ReservedExactly | src/modules/commerce/commerce.service.ts:308-349 | a reservation is refused exactly when the product or the named variant is missing, or the quantity is more than zero and more than what is free; else exactly its pool and one new reservation change |
| InventoryAnswers.ReleasedExactly | src/modules/commerce/commerce.service.ts:351-373 | a release gives back what an active reservation holds, once, and otherwise changes nothing |
| InventoryAnswers.ConfirmedExactly | src/modules/commerce/commerce.service.ts:375-403 | a confirmation takes the quantity from stock and reserved stock whatever the reservation's status |
| InventoryAnswers.AdjustedExactly | src/modules/commerce/commerce.service.ts:405-419 | an adjustment is refused exactly when there is no such stock or less than nothing would be left of it |
| InventoryAnswers.StockStaysExactly | src/modules/commerce/commerce.service.ts:308-419 | a call makes some stock negative exactly when it confirms more than is there |
| InventoryStore.InventoryService.GetAvailableStock | src/modules/commerce/commerce.service.ts:294-306 | answers with stock, reserved stock and what is free, never below zero |
| InventoryStore.InventoryService.ReserveInventory | src/modules/commerce/commerce.service.ts:308-349 | performs exactly the reservation step, with its answer |
| InventoryStore.InventoryService.ReleaseReservation | src/modules/commerce/commerce.service.ts:351-373 | performs exactly the release step, and tells whether it released anything |
| InventoryStore.InventoryService.ConfirmReservation | src/modules/commerce/commerce.service.ts:375-403 | performs exactly the confirmation step, with its answer |
| InventoryStore.InventoryService.AdjustStock | src/modules/commerce/commerce.service.ts:405-419 | performs exactly the adjustment step, with its answer |
| Preview.RenderedAtRank | src/modules/builder/live-preview.service.ts:225-229 | a visible sibling is found, rendered, at the number of visible siblings before it |
| Preview.RankKeepsOrder | src/modules/builder/live-preview.service.ts:225-229 | siblings keep their order |
| Preview.GroupMeaning | src/modules/builder/conditional-engine.service.ts:20-29 | a group under AND holds when all its conditions and nested groups do, any other group when one does |
| Preview.GroupIsMonotone | src/modules/builder/conditional-engine.service.ts:20-29 | a group that holds goes on holding when more single conditions hold |
| Preview.ShownExactly | src/modules/builder/live-preview.service.ts:302-328 | a component counts as shown exactly when its own conditions and those of every ancestor hold |
| Preview.ShownIsRendered | src/modules/builder/live-preview.service.ts:302-328 | every shown component is rendered at its target position, with its own identity, props, actions and style, in children and layout alike |
| Preview.RenderedIsShown | src/modules/builder/live-preview.service.ts:302-328 | everything rendered is the target of a shown component |
| Preview.ChildrenAreVisible | src/modules/builder/live-preview.service.ts:302-328 | a rendered component has a list of children exactly when some child of the draft is visible |
| Preview.TargetsDiffer | src/modules/builder/live-preview.service.ts:302-328 | different shown components have different targets |
| Preview.RenderIsIdempotent | src/modules/builder/live-preview.service.ts:302-345 | rendering a rendered tree again in the same context changes nothing, when the props of its visible components resolve to props that resolve to themselves, are visible and have the same actions |
| Preview.BindingFreeSettles | src/modules/builder/live-preview.service.ts:330-336 | which holds of every tree without bindings |
| Preview.DroppingSettles | src/modules/builder/live-preview.service.ts:338-344 | and of every tree when resolving drops bindings and conditions and leaves actions alone |
| Preview.PageKeepsOrder | src/modules/builder/live-preview.service.ts:269-300 | a page renders section by section in order, whatever the cut |
| Preview.SectionMeaning | src/modules/builder/live-preview.service.ts:269-300 | a section is shown, as itself with its components rendered, exactly when it has no conditions or they hold |
| Preview.RenderPageIsIdempotent | src/modules/builder/live-preview.service.ts:269-300 | the same for a rendered page, taken as a draft again |
| TtlStore.KeyTextInjective | src/modules/auth/auth.service.ts:340-370 | challenge, attempt and code keys never share a text |
| TtlStore.RedisService.Get | src/common/redis/redis.service.ts:33-44 | an entry is read while it has not expired, and an expired one is dropped |
| TtlStore.RedisService.Set | src/common/redis/redis.service.ts:46-59 | writes an entry with its time to live in seconds, or without end |
| TtlStore.RedisService.Increment | src/common/redis/redis.service.ts:69-79 | counts up from a live counter or from zero; in memory every increment renews the time to live, on a server only the first sets it |
| AdminLogin.AnswerToLive | src/modules/auth/auth.service.ts:340-386 | an answer to a live challenge counts one wrong answer, or is the fifth and ends it, or ends it with a session |
| AdminLogin.ChallengeBounds | src/modules/auth/auth.service.ts:195-202 | over every timed run, with either store, one challenge yields at most one session and takes at most five right or wrong answers |
| AdminLogin.SessionUsesUpTheCode | src/modules/auth/auth.service.ts:356-386 | a session needs the live code of the challenge's own email and an active account, and the code cannot give a second one |
| AdminLogin.EveryUseHasItsCode | src/modules/auth/auth.service.ts:299-412 | over every run, sessions and email checks for an email are at most the codes delivered to it |
| AdminLoginRuns.ReadableUntil | src/common/redis/redis.service.ts:33-59 | what is written with a time to live can be read up to its last millisecond, and other keys are not affected |
| AdminLoginRuns.CountsWhileAlive | src/common/redis/redis.service.ts:69-79 | a counter incremented while it lives counts the increments; in memory it lives until a time to live after the last one, on a server after the first |
| AdminLoginRuns.SessionBelongsToLogin | src/modules/auth/auth.service.ts:340-392 | over every run a session is for the user of the last login that issued its challenge, at most five minutes ago and for that email, and its answer was the code last delivered to the email, at most five minutes ago |
| AdminLoginRuns.VerifiedByLastCode | src/modules/auth/auth.service.ts:394-412 | over every run an email is verified only by the code last delivered to it, at most five minutes ago |
| AdminLoginRuns.SentExactly | src/modules/auth/auth.service.ts:299-338 | a code is sent exactly when the email is given, the adapter delivers it, and a challenge that is named is live and for that email |
| AdminLoginRuns.AnsweredExactly | src/modules/auth/auth.service.ts:340-392 | which answer a challenge gets, by the live challenge and the live code of the email |
| AdminLoginRuns.RightAnswerGivesSession | src/modules/auth/auth.service.ts:340-392 | after a login under a new identifier, then a code delivered to its email and fewer than five wrong answers, that code gives a session of that user within five minutes of both, if the account is active |
| AdminLoginRuns.RightCodeVerifiesEmail | src/modules/auth/auth.service.ts:394-412 | a code delivered to an email and not used since verifies that email for five minutes |
| AdminLoginService.AuthService.Login | src/modules/auth/auth.service.ts:195-202 | performs exactly the challenge step on the store |
| AdminLoginService.AuthService.SendOtp | src/modules/auth/auth.service.ts:299-338 | performs exactly the code step on the store, with its answer |
| AdminLoginService.AuthService.VerifyAdminLoginOtp | src/modules/auth/auth.service.ts:340-392 | performs exactly the answering step, and creates a session only with its answer; `AdminLoginRuns.SessionBelongsToLogin` says whose |
| AdminLoginService.AuthService.VerifyOtp | src/modules/auth/auth.service.ts:394-412 | performs exactly the email check, which shares the code's key |

## Left out

- Concurrency between service calls: each call is one step, except toggling a like, whose read phase and transaction are separate steps; two calls that race on find-then-create are not modelled.
- Publishing, tables: releases are an append-only sequence and a release's identifier is its row number; the channel is always production; the idempotency-key wrapper of `publish`, events, cache invalidation, memberships and audit rows are not modelled, and permission is a fact of each call.
- Publishing, hashing: the checksum is an arbitrary function of the manifest and is not taken to be injective; JSON text and the reordering of keys by the database are not modelled.
- PublishingHistory.NextVersionIsFresh: covers tenants whose first patch is at most 2^53, because beyond that the next version need not be fresh; `PublishingTheorems.LimitIsExact` says when it is not.
- PublishingTheorems.VersionsMarchInLockStep: covers the same tenants; `PublishingRollbacks.VersionsAreChained` covers all.
- Versions.IncrementOfPrint: says nothing of patches above 2^53, which the source accepts; what their doubles print as is a parameter.
- Publishing, gates: whether navigation targets exist and whether asset references and capabilities are in order are facts of each call; a rejection reason is taken as already trimmed; ActiveReleaseService is not part of this model.
- PublishingService.Service.CheckManifest: the navigation, asset and capability parts of the two gates are facts handed in with the call.
- PublishingService.Service.SubmitDraftsForReview: what the saved drafts compile to, and whether they pass their own validation, is handed in.
- ManifestValidator.Validation.Validate: the errors about navigation in lines 74-101 are not in its list; whether there are any is a fact of each call.
- ValidatorTheorems.ReportedExactly: says nothing of the order of the problems or of how often one is listed; in that the methods of `ManifestValidator.Validation` follow the function `Problems`.
- Compatibility: the catalogs of component and action types are parameters of the contract, the skipped keys are a parameter of the walks with the shell's own value given, and warnings are kept as sets of action types.
- GateTheorems.PassedIsNeverTooDeep: requires that the skipped keys do not include `children` and `layout`, which `GateTheorems.ShellFollowsChildren` shows of the shell's own keys.
- Manifest validator: warnings and the texts of messages; problems carry their place instead.
- Report export: which rows a listing selects and in which order; the table does not change while it is paged through; `String(value)` of a cell is given as its text; the reader takes any character outside quote, comma, CR and LF as text.
- Bookings: times are whole milliseconds and a day has 24 hours, so daylight saving is not modelled; a service's capacity and duration do not change during a run; opening hours are taken as whole minutes after midnight; reminders, refunds, waiting lists and events are not modelled.
- BookingStore.BookingService.GetAvailableSlots: requires that the loop over each schedule ends; where it does not, `Slots.LoopNeverEnds` shows that the source never returns.
- BookingAnswers.CreatedExactly: covers services of positive duration, because an empty interval has no instant; `BookingAnswers.CreatedForAnyDuration` covers all.
- SlotAnswers.OneScheduleInOrder: covers services of positive duration, and states the mark for opening hours that do not start before midnight, where `setHours` counts backwards.
- Bookings.NeverOverbooked: counts the bookings of one staff key, because the code does not bound the whole service.
- Feed likes: whether a post is publicly live is handed in with the call.
- Themes: columns that the store refuses (null in a required or a JSON column) and the 32-bit range of the version column; a read that fills the cache while another call writes the theme; writes to the theme table by other services.
- Inventory: products and variants are not added or removed during a run; expiry times of reservations, carts and sessions.
- Preview: how a single condition compares values and what bindings resolve to are parameters; nodes are taken to be objects.
- Admin login: passwords, tokens, roles and the random code are facts or parameters of each call; each call runs without interruption; other uses of the code key besides the plain email check.
- Controllers, guards, payment, messaging, storage, analytics, search and plain list endpoints: they hold no invariant across calls.
