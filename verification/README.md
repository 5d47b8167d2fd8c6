# A verified model of the document-management system's rules

This project models the algorithmic rules the system rests on and proves what its documentation and
tests promise of them, for every input, every run and every reachable state:

- **Deadlines** (`WallClock`, `WorkingCalendar`, `WorkingDeadlines`, `NextWorkingDay`, `SteadyClock`): a duration
  becomes an instant by walking days and hours of a working calendar in a time zone. A zone is an arbitrary function from
  instants to offsets, in milliseconds; a reading of the clock is `instant + offset(instant)`; days are
  numbered from 1 January 1970.
- **Materialised-path trees** (`MaterialisedPath`, `TreeRuns`, `TreeBins`): folders, departments and categories
  store their ancestry as text. The tree is a state machine of creates, moves, deletions and restores, with the
  recycle bin as part of the state; the stored text of the live rows is the parent chain at every point of a run
  exactly when no restore brought back a path its parent had left.
- **Permissions** (`AclWalk`, `AclRegions`, `AclChains`, `AclVisibility`, `AclLists`, `AclQuery`, `AclTenants`): one decision
  exists in three forms, a walk up an object's chain, a pair of token sets in the search index, and regions turned
  into a list query. The three are proved to agree, or the exact condition for it is proved. Only live rows are
  read, and what is asked of the stored paths is asked of the document's own folder and its library's owner alone.
- **Delegations** (`DelegationGraph`, `DelegationRuns`, `DelegationChains`): the cycle search, the depth rule, and
  the graph of delegations in force over time.
- **Bulk operations** (`BulkTargets`, `LockOrder`): the one order every caller locks in, and freedom from
  deadlock over all schedules.
- **Archives** (`Crc`, `CrcErrors`, `ZipFormat`, `ZipWriter`, `ZipReader`, `ZipRoundTrip`, `ZipStored`): the ZIP writer used
  for fixtures, its table-driven CRC and what it is bound to notice, and the production reader of untrusted archives, against each other.
  Fields and signatures follow PKWARE APPNOTE sections 4.3.7, 4.3.12 and 4.3.16; the CRC is that of
  section 8 of RFC 1952.
- **Revision comparison** (`Paragraphs`, `ParagraphBreaks`, `TextDiff`, `DiffChoice`, `TextComparison`): where paragraphs
  end, longest common subsequence by table, which of the shortest alignments of two texts is shown, and word marks.
- **Text formats** (`Uuid`, `ProxyTrust`, `Signature`, `SignatureLines`, `Whitespace`, `DurationText`, `Text`): UUID
  version 7 (section 5.7 of RFC 9562), the forwarded-address walk, the signature statement's serialisation, and
  ISO 8601 durations.

`dafny verify dfyconfig.toml` checks the whole project.

Code that updates variables or buffers step by step is modelled by methods with loops, arrays where the
source has buffers, each proved equal to a specification function; the theorems are lemmas about those
functions.

## Where the code and its documentation differ

The model follows the code. Each of these is stated as a lemma.

- The comment at packages/domain/src/working-calendar.ts:211-213 says a skipped wall time resolves to the
  instant the clock jumped to and a repeated one to its first occurrence. The second holds exactly when the
  wanted reading, taken as an instant, precedes the change (`WallClock.RepeatedReading`). A skipped reading is
  shifted by the size of the change, backwards when it precedes the change in the same sense and forwards
  otherwise; it meets the instant of the change only as the first reading skipped
  (`WallClock.SkippedReading`).
- An hour of a working deadline is an hour of worked time exactly when the start is on the hour or no hour's
  end falls on a day nobody works; otherwise the minutes past the hour are dropped
  (`WorkingDeadlines.WholeHoursAreExact`, `WorkingDeadlines.HalfAnHourIsDropped`).
- "Midnight at the beginning of the first working day strictly after" and "the same time of day on the first
  working day strictly after" hold exactly when that reading exists and no earlier one strays onto a worked day
  (`NextWorkingDay.StartOfNextIsMidnightExactlyWhen`, `NextWorkingDay.NextAtSameTimeExactlyWhen`). Where the clock
  skips it, a working day can be lost or the step can stay on its own day
  (`NextWorkingDay.SkippedMidnightLosesADay`, `NextWorkingDay.SkippedReadingStaysOnTheDay`).
- The placement check alone does not keep a moved subtree under the depth ceiling; the height check the
  services add beside it is exact (`TreeRuns.PlacementAloneBreaksTheCeiling`,
  `TreeRuns.MoveKeepsCeilingExactlyWhen`).
- A restored folder or department comes back with the path it was deleted with
  (apps/api/src/modules/library/infrastructure/prisma-library-admin.repository.ts:414-430,
  apps/api/src/modules/organization/application/scope-admin.service.ts:607-640), while a move rewrites live rows only.
  If its parent was moved in between, the row is below its parent by link and not by path
  (`TreeBins.RestoreLeavesTheIndex`; `TreeBins.RestoreKeepsPathsExactlyWhen` is the exact condition, and
  `TreeBins.EveryRunIndexesItsTree` the one for whole runs). A restored category has its path derived again and needs no
  condition.
- In such a tenant a list and a direct read of one document differ both ways: what an allow on the moved parent opens
  the list hides, and what a deny on it refuses the list shows (`AclTenants.RestoredFolderDisagrees`). What the lists
  need of the stored paths is exact (`AclVisibility.FoldersAgreeExactlyWhen`, `AclRegions.WideningAgreesExactlyWhen`),
  and every run without such a restore provides it (`AclTenants.RunsMakeWorlds`).
- "A chain is at most one hop" (packages/domain/src/delegation.ts:6-9, docs/architecture/07-workflow-architecture.md:144)
  holds of the depth recorded at creation and not of the live paths: the check looks at delegations into the
  delegator and not at those out of the delegate (`DelegationChains.DepthDoesNotBoundPaths`, with the exact
  conditions in `DelegationChains.OneHopKeptExactlyWhen` and `DelegationChains.TwoHopsKeptExactlyWhen`).
- A delegation requested for later, or approved later, is checked against the graph of the moment of the
  request alone, so two of them can form a cycle when they come into force
  (`DelegationRuns.ScheduledRequestsCanCycle`, `DelegationRuns.ApprovedRequestsCanCycle`, with the exact condition
  in `DelegationRuns.EventIsSafeExactlyWhen`, over whole histories in `DelegationRuns.HistoriesAreSafeExactlyWhen`).
- The comment at apps/api/src/modules/library/domain/acl-walk.ts:200-204 says the entry query filters on the
  kind of subject. The query at apps/api/src/modules/library/infrastructure/prisma-acl.repository.ts:58-66
  filters on the identifier alone, so search and direct read agree exactly as
  `AclWalk.IndexAgreesWithTheDirectRead` says.
- apps/api/src/core/authorization/document-visibility.ts:28 drops an unconditional denied region, and line 72
  puts an unconditional base into an `OR`, which lines 30-34 of the same file describe the query engine as
  dropping. `AclQuery.ListAgreesWithTheDirectRead` gives the exact condition; `AclQuery.DenyOnTheTenantIsNotListed`
  and `AclQuery.GrantBesideALibraryIsLost` show both effects.
- apps/api/src/modules/preview/domain/zip.ts:61-67 says the declared size is checked again against what came out.
  That holds of inflated entries; a stored one is returned as it stands, whatever it declares
  (`ZipReader.EntriesRespectTheLimits`, `ZipStored.StoredContentIsNotCapped`).
- packages/domain/src/duration.ts:54-59 says a duration read and written back is the same string. That holds
  exactly of canonical texts (`DurationText.PrintingGivesBack`, `DurationText.NotEveryTextIsCanonical`).
- The duration schema accepts a zero such as `P0D` that the parser refuses (`DurationText.SchemaAcceptsZero`).
- The comment on the signature serialisation names the signer's name and the statement as the stripped
  fields; the code strips the revision label and the e-mail too, and the proof relies on it
  (`Signature.SerialisationIsInjective`). Identifiers are not stripped, and with a line break in one another statement
  can have the same bytes (`Signature.BreaksInIdentifiersCollide`), exactly when the lines can be told apart into the
  fields in another way (`SignatureLines.CollidesExactlyWhen`).

## Model

| member | source | states |
|---|---|---|
| `WallClock.ResolveInvertsTheClock` | packages/domain/src/working-calendar.ts:215-243 | for any zone with at most one change near the reading and offsets of any sign, the result reads exactly the wanted time if and only if some instant does |
| `WallClock.RepeatedReading` | packages/domain/src/working-calendar.ts:203-228 | a reading shown twice resolves to its first occurrence exactly when it precedes the change, else to its second |
| `WallClock.SkippedReading` | packages/domain/src/working-calendar.ts:203-228 | a skipped reading has no instant, and by how much and which way the result misses it |
| `WallClock.FixedIsExact` | packages/domain/src/working-calendar.ts:215-243 | on a clock that never changes every reading is found exactly |
| `WorkingCalendar.WalkDays` | packages/domain/src/working-calendar.ts:132-155 | the bounded day loop computes the walk: first worked day within 3650, or failure |
| `WorkingCalendar.AddWorkingDays` | packages/domain/src/working-calendar.ts:97-103 | the day loop is n steps to the next working day at the same time |
| `WorkingCalendar.AddWorkingHours` | packages/domain/src/working-calendar.ts:113-122 | the hour loop is n hour steps, each rolled to the next working day when it leaves one |
| `WorkingCalendar.DeadlineFor` | packages/domain/src/working-calendar.ts:76-89 | start adjustment, days, then hours, or plain elapsed time for calendar days |
| `WorkingCalendar.DaysStayWorked` | packages/domain/src/working-calendar.ts:97-155 | in every zone, every cursor of the day loop is on a working day |
| `WorkingCalendar.HoursStayWorked` | packages/domain/src/working-calendar.ts:113-142 | in every zone, every cursor of the hour loop is on a working day |
| `WorkingCalendar.DeadlineIsWorked` | packages/domain/src/working-calendar.ts:76-142 | in every zone, a working deadline falls on a working day: on no holiday and no weekend day by the calendar's own clock |
| `WorkingCalendar.WalksTakeTheFirst` | packages/domain/src/working-calendar.ts:131-155 | in every zone and calendar, each walk takes the first candidate of the next 3650 days that falls on a working day, at the same reading or at midnight, and fails exactly when there is none |
| `WorkingCalendar.DeadlinesAddUp` | packages/domain/src/working-calendar.ts:76-122 | in every zone and of either kind, a duration is its days and then its hours, and waiting it out in parts gives the same deadline |
| `WorkingCalendar.WeekdaysFollow` | packages/domain/src/working-calendar.ts:157-168 | the weekdays follow one another from Thursday 1 January 1970 |
| `WorkingCalendar.DaysOffAddUp` | packages/domain/src/working-calendar.ts:124-129 | a holiday or weekday off closes exactly the days it names, whatever was closed before |
| `WorkingCalendar.AddDaysCountsWorkedDays` | packages/domain/src/working-calendar.ts:97-155 | n working days later is a working day, at the same time on the clock, with exactly n worked days after the start up to and including it |
| `WorkingCalendar.NthWorkedDayIsUnique` | packages/domain/src/working-calendar.ts:97-155 | those facts determine the day |
| `WorkingDeadlines.WalkSucceeds` | packages/domain/src/working-calendar.ts:57-155 | of at least 521 occurrences of a worked weekday, fewer holidays and skipped readings cannot take them all, so the walk finds a day |
| `WorkingDeadlines.DeadlineNeverThrows` | packages/contracts/src/admin/approval-routing.ts:108-144 | for every calendar the contract admits (at most 6 weekend days, 400 holidays), every start and duration, no walk fails |
| `WorkingDeadlines.DeadlineIsMonotone` | packages/domain/src/working-calendar.ts:76-155 | a later submission never gets an earlier deadline, through the adjustment and both loops |
| `WorkingDeadlines.DayStepKeepsOrderExactlyWhen` | packages/domain/src/working-calendar.ts:144-155 | two starts keep their order over a day step exactly when a worked day lies between them or the earlier one's time of day comes first |
| `WorkingDeadlines.DayStepReversesWeekendStarts` | packages/domain/src/working-calendar.ts:144-155 | Saturday night and Sunday morning: the later start arrives first |
| `WorkingDeadlines.WorkingIsNoEarlierThanCalendar` | packages/domain/src/working-calendar.ts:76-142 | the working deadline is never earlier than the elapsed-time deadline for the same start and duration |
| `WorkingDeadlines.EverydayWorkIsElapsedTime` | packages/domain/src/duration.ts:50-52 | where every day up to it is worked, the working deadline is the elapsed one: from plus 86 400 seconds a day and 3600 an hour |
| `WorkingDeadlines.HoursAreConserved` | packages/domain/src/working-calendar.ts:105-122 | the worked time spent by the hour loop is the hours asked for, less the start's minutes past the hour, plus the end's |
| `WorkingDeadlines.WholeHoursAreExact` | packages/domain/src/working-calendar.ts:105-122 | the hours spent are the hours asked for exactly when the start is on the hour or every hour's end by the plain clock falls on a worked day |
| `WorkingDeadlines.HalfAnHourIsDropped` | packages/domain/src/working-calendar.ts:113-122 | a concrete start from which an hour spends half an hour |
| `NextWorkingDay.CloseOffsetsMissUnderADay` | packages/domain/src/working-calendar.ts:215-243 | where offsets lie within a day of each other, a resolved reading misses the wanted one by less than a day |
| `NextWorkingDay.LandsExactlyWhen` | packages/domain/src/working-calendar.ts:131-155 | in such a zone the walk lands on the first worked day after, at the same time of day, exactly when that reading is found exactly and no reading tried before it strays onto a worked day |
| `NextWorkingDay.StartOfNextIsMidnightExactlyWhen` | packages/domain/src/working-calendar.ts:131-142 | from an unworked day the start of the next working day is its midnight exactly when that midnight is found exactly |
| `NextWorkingDay.NextAtSameTimeExactlyWhen` | packages/domain/src/working-calendar.ts:144-155 | the day step, from any start, reaches the same time on the first working day after under exactly that condition |
| `NextWorkingDay.LandingsKeepOrderExactlyWhen` | packages/domain/src/working-calendar.ts:144-155 | in any zone, two day steps that land keep the order of their starts on the clock exactly when a worked day lies between the starts or the earlier one's time of day comes first |
| `NextWorkingDay.SkippedMidnightLosesADay` | packages/domain/src/working-calendar.ts:131-142 | a concrete zone and calendar where a skipped midnight loses a working day |
| `NextWorkingDay.SkippedReadingStaysOnTheDay` | packages/domain/src/working-calendar.ts:144-155 | a concrete start from which the day step stays on the same day |
| `SteadyClock.DeadlineSeesNoFurther` | packages/domain/src/working-calendar.ts:76-155 | a deadline depends on the clock only up to the deadline: with no change before then it is that of a fixed clock |
| `SteadyClock.SteadyDeadlineIsMonotone` | packages/domain/src/working-calendar.ts:76-155 | in any zone, with no change between the earlier submission and the later deadline, deadlines keep the order of submissions |
| `SteadyClock.SteadyWorkingIsNoEarlier` | packages/domain/src/working-calendar.ts:76-142 | in any zone, with no change before it, the working deadline is never earlier than the elapsed-time one |
| `SteadyClock.SteadyHoursAreExact` | packages/domain/src/working-calendar.ts:105-122 | the exact condition on hours spent, in any zone with no change before the end |
| `SteadyClock.SteadyHoursAreConserved` | packages/domain/src/working-calendar.ts:105-122 | the balance of hours asked for, hours spent and minutes past the hour, in any zone with no change before the end |
| `SteadyClock.SeldomChangingNeverThrows` | packages/contracts/src/admin/approval-routing.ts:108-144 | in every zone with offsets under a day and at most 60 clock changes in any ten years, no walk fails for any calendar the contract admits |
| `MaterialisedPath.CheckTreePlacement` | packages/domain/src/tree.ts:88-121 | every reason for refusal is reported, each once, exactly when it holds and in a fixed order; a root is never refused |
| `MaterialisedPath.IdsOfJoinedPaths` | packages/domain/src/tree.ts:31-47 | reading a path is a homomorphism: identifiers and depth add over joined paths |
| `MaterialisedPath.PathForReadsBack` | packages/domain/src/tree.ts:31-43 | the path built for a node reads back as its parent's identifiers and its own |
| `MaterialisedPath.BoundaryIsASeparator` | packages/domain/src/tree.ts:49-60 | below a child's path is at or below the parent's: no identifier is mistaken for a prefix |
| `MaterialisedPath.RerootKeepsRelativeDepth` | packages/domain/src/tree.ts:123-139 | a rewritten row sits as far below the new root as it did below the old one |
| `MaterialisedPath.RerootUndone` | packages/domain/src/tree.ts:123-139 | moving there and back restores every path |
| `MaterialisedPath.RelativeDepthIsTheMaximum` | packages/domain/src/tree.ts:141-157 | the reduction is at least one, bounds every row and is attained |
| `MaterialisedPath.HeightBoundsTheMove` | packages/domain/src/tree.ts:116-157 | after a move no row is deeper than the parent's depth plus the height, and some row is exactly that deep |
| `MaterialisedPath.RewriteKeepsHeight` | packages/domain/src/tree.ts:123-157 | measured again after the move, the height is unchanged |
| `TreeRuns.RewrittenRowsMakeTheMove` | apps/api/src/modules/administration/application/configuration.service.ts:433-472 | writing the rewritten rows of a subtree read, in any order, and the new parent is the move |
| `TreeRuns.StepKeepsPaths` | packages/domain/src/tree.ts:31-139 | every accepted create or move keeps each stored path equal to the path of its parent and its own identifier |
| `TreeRuns.RunKeepsPaths` | packages/domain/src/tree.ts:31-139 | and so does every run |
| `TreeRuns.ContainmentIsAncestry` | packages/domain/src/tree.ts:49-60 | the prefix test is ancestry by parent links, both ways |
| `TreeRuns.PathListsTheChain` | packages/domain/src/tree.ts:35-47 | the identifiers in a path are the parent chain, step by step, and nothing beyond |
| `TreeRuns.ConsistentIsAcyclic` | packages/domain/src/tree.ts:88-121 | no node is its own ancestor |
| `TreeRuns.ConsistentIndexes` | packages/domain/src/tree.ts:31-139 | where each path is the parent's and the identifier, the paths index the tree: acyclic, prefix test equals ancestry, paths list the chain |
| `TreeRuns.AcceptedExactlyWhen` | packages/domain/src/tree.ts:88-121 | in terms of parent links, an operation is accepted exactly when its parent is there with room below it, a new identifier is free, and a move does not go under itself |
| `TreeRuns.CreateAddsOne` | packages/domain/src/tree.ts:27-33 | a create adds its node under its parent, with that parent's ancestors, and changes nothing else |
| `TreeRuns.MoveTakesTheSubtree` | packages/domain/src/tree.ts:123-139 | a move hangs the node under its new parent, takes along exactly what hung below it by links, and leaves every other row alone |
| `TreeRuns.MoveUndone` | packages/domain/src/tree.ts:123-139 | moving a node back restores the whole tree |
| `TreeBins.DeleteKeepsPaths` | apps/api/src/modules/library/infrastructure/prisma-library-admin.repository.ts:384-412 | a folder's deletion takes its whole subtree by path and a department's or category's one row without live children, and either leaves the live rows in place |
| `TreeBins.DeletableExactlyWhen` | apps/api/src/modules/library/application/library-admin.service.ts:547-578 | a folder can be deleted when it is live, any other row when nothing live is under it by links |
| `TreeBins.DeletionTakesTheSubtree` | apps/api/src/modules/library/infrastructure/prisma-library-admin.repository.ts:384-412 | a deletion takes the folder and everything under it by links, or the one row, into the bin as it was, and touches nothing else |
| `TreeBins.RestoreUndoesDeletion` | apps/api/src/modules/library/application/library-admin.service.ts:614-690 | a restore undoes the deletion: live rows, paths and bin are what they were |
| `TreeBins.RestoreBringsBackTheDeleted` | apps/api/src/modules/library/infrastructure/prisma-library-admin.repository.ts:414-422 | whatever happens while the deleted row stays in the bin, its restore holds exactly the rows its deletion took |
| `TreeBins.RestoredRowsAreLive` | apps/api/src/modules/library/infrastructure/prisma-library-admin.repository.ts:414-430 | what a restore holds is live afterwards and in the bin no more, with its parents and, but for a category, its paths; nothing else moves |
| `TreeBins.RestorableExactlyWhen` | apps/api/src/modules/library/application/library-admin.service.ts:614-690 | a row in the bin can be restored exactly when its parent is live and, for a category, has room below it |
| `TreeBins.EveryRunConservesRows` | apps/api/src/modules/library/application/library-admin.service.ts:547-708 | over every run, refused changes might as well not have been asked for, and a row is live or in the bin, never both, exactly when an accepted change created it |
| `TreeBins.PlacementsAreARun` | apps/api/src/modules/administration/application/configuration.service.ts:433-472 | without deletions the runs of the store are the runs of the tree |
| `TreeBins.RestoreKeepsPathsExactlyWhen` | apps/api/src/modules/library/application/library-admin.service.ts:614-708 | bringing back what a deletion took, by the flag alone, leaves the live rows in place exactly when the top row's path is the one its parent's path now gives; a category, whose path is derived, always does |
| `TreeBins.StaleRestoreMisreads` | apps/api/src/modules/organization/application/scope-admin.service.ts:607-640 | otherwise the prefix test no longer finds the restored row below its own parent |
| `TreeBins.RestoreIsRefusedOnlyForDepth` | apps/api/src/modules/administration/application/configuration.service.ts:1076-1102 | the cycle check of a restored category, made against the path it kept, refuses nothing: only depth can |
| `TreeBins.EveryRunIndexesItsTree` | apps/api/src/modules/administration/application/configuration.service.ts:1052-1102 | over every run of creates, moves, deletions and restores, the live rows are at every point acyclic, with the prefix test equal to ancestry and paths that list the chain, exactly when no restore brought back a path its parent had left; of categories that is every run |
| `TreeBins.RestoreLeavesTheIndex` | apps/api/src/modules/library/infrastructure/prisma-library-admin.repository.ts:274-284 | a concrete run, every step accepted, for folders and departments alike: delete a child, move its parent, restore the child |
| `TreeRuns.MeasuredRunKeepsCeiling` | apps/api/src/modules/administration/application/configuration.service.ts:433-472 | with the height check, no run takes any node past the ceiling |
| `TreeRuns.MeasuredRunIsARun` | apps/api/src/modules/administration/application/configuration.service.ts:433-472 | the height check only leaves operations out: a measured run is the plain run of those performed |
| `TreeRuns.MoveKeepsCeilingExactlyWhen` | packages/domain/src/tree.ts:116-157 | an accepted move keeps the ceiling exactly when the height check passes |
| `TreeRuns.PlacementAloneBreaksTheCeiling` | packages/domain/src/tree.ts:88-121 | a concrete run of accepted creates and a move shows that the placement check alone does not |
| `AclWalk.EffectiveChain` | apps/api/src/modules/library/domain/acl-walk.ts:78-94 | the loop returns the chain from its deepest break, or all of it |
| `AclWalk.DecideFromEntries` | apps/api/src/modules/library/domain/acl-walk.ts:109-146 | grouping and one pass compute the decision with its node and reason |
| `AclWalk.NearestIsTheLatest` | apps/api/src/modules/library/domain/acl-walk.ts:101-133 | a deciding node is found exactly when an entry of that effect is on the chain, and no node below it carries one |
| `AclWalk.DecisionIsDenyWins` | apps/api/src/modules/library/domain/acl-walk.ts:101-146 | allowed exactly when no deny is on the chain at any level and there is an allow, or a role grant while the chain reaches the tenant |
| `AclWalk.DecisionIsExplained` | apps/api/src/modules/library/domain/acl-walk.ts:101-146 | each reason is given exactly when it applies, and the node named is the nearest deny, else the nearest allow, else the tenant, else none |
| `AclWalk.ResolveIsDenyWins` | apps/api/src/modules/library/infrastructure/prisma-acl.resolver.ts:119-143 | the direct read in terms of what is stored, whatever order rows come in: its answer, its reason and the node that decides; the early refusal changes no answer |
| `AclWalk.IndexSubjectsFromEntries` | apps/api/src/modules/library/domain/acl-walk.ts:164-183 | the loop computes the token sets of the entries on the chain, and the grant token when it reaches the tenant |
| `AclWalk.TokensAreTyped` | apps/api/src/modules/library/domain/acl-subjects.ts:34-66 | a caller's tokens hold a subject's token exactly when the caller is that subject, as that kind |
| `AclWalk.IndexIsDenyWins` | apps/api/src/infrastructure/search/postgres-search.adapter.ts:151-166 | the overlap predicate is deny-wins over typed subjects |
| `AclWalk.IndexAgreesWithTheDirectRead` | apps/api/src/modules/library/domain/acl-walk.ts:148-216 | search and direct read agree on an object exactly when the caller is denied as themselves, or is let in and meets no deny under another kind of subject, or is not let in and meets no allow under another kind without such a deny |
| `AclWalk.DistinctIdentifiersAgree` | apps/api/src/modules/library/domain/acl-walk.ts:148-183 | with identifiers distinct between kinds they agree on every object, for every caller |
| `AclWalk.SharedIdentifiersDisagree` | apps/api/src/modules/library/domain/acl-walk.ts:197-216 | a concrete entry on which they differ |
| `AclRegions.AncestorOnPath` | apps/api/src/modules/library/infrastructure/prisma-scope-chain.reader.ts:150-195 | every identifier a path names is a stored ancestor whose own path is that much of it |
| `AclRegions.BelowIsOnPath` | apps/api/src/modules/library/infrastructure/prisma-scope-chain.reader.ts:150-195 | what a path is at or below by prefix, it names |
| `AclRegions.DepartmentIsNamed` | apps/api/src/modules/library/infrastructure/prisma-scope-chain.reader.ts:61-91 | a department is reached by widening from named nodes exactly when one of them is on its chain |
| `AclRegions.WideningInvertsTheChain` | apps/api/src/modules/library/infrastructure/prisma-scope-chain.reader.ts:50-112 | the libraries found beneath organisation nodes are exactly those whose chain names one |
| `AclRegions.WideningAgreesExactlyWhen` | apps/api/src/modules/library/infrastructure/prisma-scope-chain.reader.ts:50-112 | widening agrees with the chain from every set of nodes exactly when the department's path names its ancestors and they are of its entity |
| `AclRegions.WorldsAreIndexed` | apps/api/src/modules/library/infrastructure/prisma-scope-chain.reader.ts:150-195 | where live paths are in place and departments share their parents' entity, every document meets what lists ask of the paths |
| `AclChains.ChainIsTheWayUp` | apps/api/src/modules/library/infrastructure/prisma-scope-chain.reader.ts:124-288 | the chain assembled from stored paths, one read a table, is the chain found by going up from row to parent row, with the same breaks, and is missing exactly when a row on that way is |
| `AclVisibility.CutIsABreakOnTheChain` | apps/api/src/modules/library/infrastructure/prisma-scope-chain.reader.ts:114-120 | a document lies under a broken folder's path exactly when its chain breaks |
| `AclVisibility.NodesAboveFolders` | apps/api/src/modules/library/infrastructure/prisma-acl.resolver.ts:376-387 | a node above the folders is on the effective chain of exactly the documents beneath it outside every cut |
| `AclVisibility.FolderNode` | apps/api/src/modules/library/infrastructure/prisma-acl.resolver.ts:388-404 | a folder is on the effective chain of exactly the documents its region covers: at or below it, and under no break strictly beneath it |
| `AclVisibility.FoldersAgreeExactlyWhen` | apps/api/src/modules/library/infrastructure/prisma-acl.resolver.ts:388-404 | folders contribute to the documents their regions cover, wherever inheritance is broken, exactly when the document's folder names its ancestors in the order of their paths |
| `AclVisibility.TenantIsReached` | apps/api/src/modules/library/domain/acl-walk.ts:96-99 | the effective chain reaches the tenant for exactly the documents outside every cut |
| `AclVisibility.SmallWorld` | apps/api/src/modules/library/infrastructure/prisma-scope-chain.reader.ts:124-195 | a world that meets every assumption: its document's chain is tenant, library, broken folder, document, and the walk starts at the folder |
| `AclLists.RegionsInvertTheWalk` | apps/api/src/modules/library/infrastructure/prisma-acl.resolver.ts:347-416 | the regions of a list of entries cover a document exactly when one of the entries is on its effective chain, or the tenant-wide grant reaches it |
| `AclLists.FilterAgreesWithTheDirectRead` | apps/api/src/modules/library/infrastructure/prisma-acl.resolver.ts:182-236 | within the bound, any allowed region and no denied one is exactly what the direct read allows |
| `AclLists.CutFilterExactlyWhen` | apps/api/src/modules/library/infrastructure/prisma-acl.resolver.ts:201-220 | past the bound the filter is the walk over the first entries up to it, without the tenant-wide grant |
| `AclLists.TruncationOnlyNarrows` | apps/api/src/modules/library/infrastructure/prisma-acl.resolver.ts:201-220 | past the bound, whatever entries were lost, the filter reaches nothing the direct read refuses |
| `AclLists.PageKeepsDenies` | apps/api/src/modules/library/infrastructure/prisma-acl.repository.ts:70-94 | a page with an allow on the chain has lost no deny on it |
| `AclQuery.WhereHolds` | apps/api/src/core/authorization/document-visibility.ts:26-88 | what the built list condition selects, region by region |
| `AclQuery.ListAgreesWithTheDirectRead` | apps/api/src/core/authorization/document-visibility.ts:26-88 | document by document, within the bound and past it: a list hides what a direct read allows exactly when a tenant-wide allow is lost beside named libraries or the page was cut before every allow that reaches it, and shows what the read refuses exactly when a tenant-level deny is lost beside named libraries or for want of cuts |
| `AclQuery.DenyOnTheTenantIsNotListed` | apps/api/src/core/authorization/document-visibility.ts:28-44 | without breaks, a tenant-level deny refuses every read and hides nothing from a list |
| `AclQuery.GrantBesideALibraryIsLost` | apps/api/src/core/authorization/document-visibility.ts:54-72 | a role grant beside an entry on one library lists that library alone |
| `AclTenants.RunsMakeWorlds` | apps/api/src/modules/library/application/library-admin.service.ts:614-708 | over every run of folder and department operations without a stale restore, every document whose chain resolves meets what lists ask of the paths |
| `AclTenants.RestoredFolderDisagrees` | apps/api/src/modules/library/application/library-admin.service.ts:614-708 | a tenant reached by a delete, a move and a restore in which an allow lets the direct read in and the list hides the document, and a deny keeps the read out and the list shows it |
| `DelegationGraph.ReachesBack` | packages/domain/src/delegation.ts:162-195 | terminates on every edge list, cyclic ones included, and is true exactly when a live path leads from the delegate to the delegator, the empty path included |
| `DelegationGraph.Visit` | packages/domain/src/delegation.ts:180-192 | one turn of the search keeps its invariant: seen is reachable, and what left the queue has its successors seen |
| `DelegationGraph.ProposedDelegationDepth` | packages/domain/src/delegation.ts:142-153 | the loop computes one more than the deepest live delegation into the person, or zero |
| `DelegationGraph.DelegationChainProblem` | packages/domain/src/delegation.ts:110-133 | the cycle is reported first, then chaining, then depth |
| `DelegationGraph.RefusalsAreThese` | packages/domain/src/delegation.ts:110-133 | a cycle is refused exactly when a live path leads back; else chaining exactly when it is off and a delegation is held; else depth exactly when a re-delegation is held |
| `DelegationGraph.NewArcClosesACycle` | packages/domain/src/delegation.ts:98-133 | a graph with one arc more is acyclic exactly when it was and nothing led back |
| `DelegationRuns.EveryRunIsSound` | packages/domain/src/delegation.ts:22-153 | over every run of accepted requests and endings, with chaining switched freely, the live graph is acyclic and every depth 0 or 1 |
| `DelegationRuns.StepDoesWhatItSays` | packages/domain/src/delegation.ts:22-153 | a granted request adds its own delegation at the derived depth, a refused one nothing, an ending takes away the one it names |
| `DelegationRuns.WithoutChainingDepthIsZero` | packages/domain/src/delegation.ts:110-153 | with chaining always off every depth is 0 |
| `DelegationRuns.GrantedTakesForce` | apps/api/src/modules/identity/application/delegation.service.ts:228-290 | a request is granted exactly when an instant of its period is still to come and its chain is no problem now |
| `DelegationRuns.EventChangesWhatIsInForce` | apps/api/src/modules/identity/application/delegation.service.ts:428-612 | what is in force at any instant after a request, an approval or a revocation is what was, without the delegation revoked, and what the event brings into force |
| `DelegationRuns.RevokedStaysEnded` | apps/api/src/modules/identity/application/delegation.service.ts:593-612 | a revoked delegation is never in force again, whatever follows |
| `DelegationChains.BoundKeptExactlyWhen` | packages/domain/src/delegation.ts:98-153 | one delegation more keeps every live path within n exactly when the paths into the delegator and out of the delegate are short enough together |
| `DelegationChains.OneHopKeptExactlyWhen` | packages/domain/src/delegation.ts:98-133 | with chaining off and no chain yet, a granted delegation starts none exactly when no live delegation leaves the delegate |
| `DelegationChains.RunsToTheEndStayOneHop` | packages/domain/src/delegation.ts:98-153 | over every run of such requests and of endings no live path takes more than one delegation |
| `DelegationChains.TwoHopsKeptExactlyWhen` | packages/domain/src/delegation.ts:98-133 | with chaining on, the exact condition for every live path to stay within a delegation and a re-delegation |
| `DelegationChains.DepthDoesNotBoundPaths` | packages/domain/src/delegation.ts:22-36 | a line of any length, asked for from its far end, is granted with chaining off and recorded at depth zero throughout |
| `DelegationRuns.GrantIsSafeExactlyWhen` | apps/api/src/modules/identity/application/delegation.service.ts:228-290 | storing a delegation keeps every later instant free of cycles exactly when nothing leads back at any instant it is in force |
| `DelegationRuns.ImmediateHistoriesHaveNoCycle` | apps/api/src/modules/identity/application/delegation.service.ts:228-290 | over every history of requests that take force at once and revocations, no later instant holds a cycle |
| `DelegationRuns.ScheduledRequestsCanCycle` | apps/api/src/modules/identity/infrastructure/prisma-delegation.repository.ts:99-114 | two requests for tomorrow, granted today, form a cycle tomorrow |
| `DelegationRuns.ApprovalIsSafeExactlyWhen` | apps/api/src/modules/identity/application/delegation.service.ts:428-503 | approving keeps every later instant free of cycles exactly when nothing leads back at any instant from now on of the delegation's period |
| `DelegationRuns.EventIsSafeExactlyWhen` | apps/api/src/modules/identity/application/delegation.service.ts:228-290 | the exact condition for every event: request, approval and revocation |
| `DelegationRuns.HistoriesAreSafeExactlyWhen` | apps/api/src/modules/identity/application/delegation.service.ts:228-290 | over whole histories in order of time, no part of the history ever leads to a cycle exactly when every event was safe where it happened |
| `DelegationRuns.ApprovedRequestsCanCycle` | apps/api/src/modules/identity/application/delegation.service.ts:428-503 | two requests that wait for approval form a cycle once both are approved |
| `DelegationRuns.HistoriesRecordShallowDepths` | apps/api/src/modules/identity/application/delegation.service.ts:228-290 | depths stay 0 or 1 in every history, scheduled and approved ones included |
| `BulkTargets.NormalisedInOrder` | packages/domain/src/bulk.ts:130-143 | the list is strictly increasing and names exactly the identifiers given |
| `BulkTargets.OneOrderPerSet` | packages/domain/src/bulk.ts:130-143 | a set of identifiers has one strictly increasing list |
| `Text.LessExactlyWhen` | packages/domain/src/bulk.ts:130-143 | the order of the lists: the first character that differs decides, and a text comes before what it begins |
| `BulkTargets.NormalisedDependsOnTheSet` | packages/domain/src/bulk.ts:130-143 | two requests give the same list exactly when they name the same set |
| `BulkTargets.NothingIsDropped` | packages/domain/src/bulk.ts:107-127 | counting outcomes keeps the tally consistent, and every item is counted once |
| `LockOrder.RunsAreValid` | packages/domain/src/bulk.ts:130-143 | over every schedule no row is held twice and every caller holds an initial part of its list |
| `LockOrder.StepTakesOneLock` | packages/domain/src/bulk.ts:130-143 | a step takes the one lock waited for and keeps the rest, a commit releases all, and nobody else's locks change |
| `LockOrder.SomebodyCanStep` | packages/domain/src/bulk.ts:130-143 | in every valid state with an unfinished caller some step is enabled |
| `LockOrder.RunsUseUpWork` | packages/domain/src/bulk.ts:130-143 | every step uses up work, so every schedule ends |
| `LockOrder.ScheduleEndsExactlyWhen` | packages/domain/src/bulk.ts:130-143 | everybody has committed exactly when each lock was taken once and each caller committed once, and nobody commits without all its locks |
| `LockOrder.BulkCallersNeverDeadlock` | packages/domain/src/bulk.ts:130-143 | any number of callers, any requests, any schedule: no deadlock |
| `LockOrder.UnsortedCallersCanDeadlock` | packages/domain/src/bulk.ts:130-143 | without the order two callers can |
| `Crc.StepIsLinear` | apps/api/src/testing/office-fixtures.ts:196-206 | a division step distributes over XOR |
| `Crc.StepsByTable` | apps/api/src/testing/office-fixtures.ts:196-214 | eight steps are the table's answer for the low byte and a shift of the rest |
| `Crc.TableStepFeedsAByte` | apps/api/src/testing/office-fixtures.ts:208-214 | one table step is eight bits through reflected division |
| `Crc.BuildTable` | apps/api/src/testing/office-fixtures.ts:196-206 | the nested loops fill the table with the remainder of each byte |
| `Crc.Crc32` | apps/api/src/testing/office-fixtures.ts:208-214 | for every byte string the table-driven loop equals bit-at-a-time division by 0xEDB88320 |
| `CrcErrors.BurstsAreDetected` | apps/api/src/testing/office-fixtures.ts:196-214 | two messages that differ only within four bytes at one place never share a CRC |
| `CrcErrors.CheckValue` | apps/api/src/testing/office-fixtures.ts:196-214 | a published message and its CRC, which fix the polynomial, the initial and final word and the order of bits |
| `ZipWriter.WriteLocalHeader` | apps/api/src/testing/office-fixtures.ts:28-38 | in-place writes fill the header with the fields of section 4.3.7 |
| `ZipWriter.WriteCentralHeader` | apps/api/src/testing/office-fixtures.ts:41-57 | and those of section 4.3.12 |
| `ZipFormat.LocalHeaderFollowsTheFormat` | apps/api/src/testing/office-fixtures.ts:28-38 | the bytes of the local header no entry changes: signature, version 2.0, no flags, method 8, no time and no extra field |
| `ZipFormat.CentralHeaderFollowsTheFormat` | apps/api/src/testing/office-fixtures.ts:41-57 | and those of the central header |
| `ZipFormat.EndRecordFollowsTheFormat` | apps/api/src/testing/office-fixtures.ts:63-73 | and of the end record: one disk, both counts the same, no comment |
| `ZipWriter.MakeZip` | apps/api/src/testing/office-fixtures.ts:17-74 | the loop and its three accumulators produce locals, directory and end record |
| `ZipWriter.FitsExactlyWhen` | apps/api/src/testing/office-fixtures.ts:17-74 | in sizes: an archive is written exactly when there are fewer than 65536 entries, each small enough, and both halves are under 4 GiB |
| `ZipRoundTrip.ArchiveIsLaidOut` | apps/api/src/testing/office-fixtures.ts:17-74 | byte for byte: where each local and central record and the end record stand, each header with the CRC-32 of the content and the central one with the place of the local one |
| `ZipReader.FindEndOfCentralDirectory` | apps/api/src/modules/preview/domain/zip.ts:170-178 | the backward loop finds the last signature in its window |
| `ZipReader.EndIsTheLast` | apps/api/src/modules/preview/domain/zip.ts:170-178 | the end record found is the last in the 65557 bytes an archive comment leaves it, and none is found exactly when there is none |
| `ZipReader.NotAnArchiveExactlyWhen` | apps/api/src/modules/preview/domain/zip.ts:87-178 | bytes are refused as no archive exactly when that window holds no end record |
| `ZipReader.ReadCentralDirectory` | apps/api/src/modules/preview/domain/zip.ts:87-122 | the record loop computes the directory, or the first fault |
| `ZipReader.LastEndDecides` | apps/api/src/modules/preview/domain/zip.ts:87-105 | the last end record's disk, count and offset decide |
| `ZipReader.EndRecordDecides` | apps/api/src/modules/preview/domain/zip.ts:87-122 | each refusal exactly when it applies, in order, and else exactly the records that stand where the end record points |
| `ZipReader.RecordsAreThoseThere` | apps/api/src/modules/preview/domain/zip.ts:106-121 | the loop reads a list of records exactly when they stand one behind another, and otherwise finds the directory corrupt |
| `ZipReader.RecordIsReadExactlyWhen` | apps/api/src/modules/preview/domain/zip.ts:109-120 | a record is read exactly where a whole header stands under its signature; its name as far as the bytes go, and the next behind what the header declares |
| `ZipReader.ContentComesOutExactlyWhen` | apps/api/src/modules/preview/domain/zip.ts:124-151 | content comes out exactly when it stands there stored, or deflated and inflates to the size declared, within the cap |
| `ZipReader.ContentFailsExactlyWhen` | apps/api/src/modules/preview/domain/zip.ts:124-151 | and each failure exactly when it applies |
| `ZipReader.FailsWithTheFirst` | apps/api/src/modules/preview/domain/zip.ts:76-85 | reading entries fails exactly when a wanted one does, with the fault of the first |
| `ZipReader.EntriesRespectTheLimits` | apps/api/src/modules/preview/domain/zip.ts:124-168 | whatever the bytes, the declared size of an entry read is within the limits; what is read is as long as declared exactly when it was inflated or declares what it stores, and within the cap exactly when it was inflated or stores no more |
| `ZipReader.RefusedExactlyWhen` | apps/api/src/modules/preview/domain/zip.ts:153-168 | an entry is refused exactly when its size passes the cap or the ratio times its compressed size, nothing compressed counting as one byte; and which refusal it is |
| `ZipReader.DirectoryRespectsTheLimit` | apps/api/src/modules/preview/domain/zip.ts:87-122 | no directory read holds more entries than allowed |
| `ZipRoundTrip.ZipDirectoryReadsBack` | apps/api/src/modules/preview/domain/zip.ts:87-122 | a written archive's directory is read exactly when it is within the reader's bounds, every entry in order, each offset at a local header with the same name, sizes and CRC |
| `ZipRoundTrip.ZipReadsBack` | apps/api/src/modules/preview/domain/zip.ts:76-85 | every wanted file comes back with its content, in order, exactly when the archive is within the reader's bounds and the size of each wanted file is within the cap and the ratio times its compressed size |
| `ZipRoundTrip.ZipEntryReadsBack` | apps/api/src/modules/preview/domain/zip.ts:68-74 | a name is answered with the first entry that has it, or with the refusal its sizes call for |
| `ZipRoundTrip.AbsentNameReadsBack` | apps/api/src/modules/preview/domain/zip.ts:68-74 | a name no entry has is answered with none |
| `ZipStored.StoredContentIsNotCapped` | apps/api/src/modules/preview/domain/zip.ts:68-145 | read by name from an archive of one stored entry, content of any length the fields can carry comes back whole exactly when the size it declares is within the cap and the ratio, and a declared size of zero always is |
| `TextDiff.FillTable` | apps/api/src/modules/revision/domain/text-diff.ts:161-172 | the flat table, filled backwards, holds the length of the longest common subsequence of every pair of tails |
| `TextDiff.Lcs` | apps/api/src/modules/revision/domain/text-diff.ts:161-192 | the walk through it returns the traced pairs, and flags that mark exactly their positions |
| `TextDiff.TraceIsCommon` | apps/api/src/modules/revision/domain/text-diff.ts:173-191 | the traced pairs are a common subsequence of the tabled length |
| `TextDiff.TraceIsLongest` | apps/api/src/modules/revision/domain/text-diff.ts:161-192 | no common subsequence is longer |
| `TextDiff.AlignmentTellsBothSides` | apps/api/src/modules/revision/domain/text-diff.ts:122-151 | removed and matched lines are the old text, added and matched lines the new, in order and in full |
| `TextDiff.AlignedIsShortest` | apps/api/src/modules/revision/domain/text-diff.ts:122-151 | no other telling of the two texts has fewer lines |
| `DiffChoice.WalkIsEarliest` | apps/api/src/modules/revision/domain/text-diff.ts:173-191 | of all longest common subsequences, the one traced matches each line as early in the second text as any does: what ties decide |
| `DiffChoice.ShownIsEarliest` | apps/api/src/modules/revision/domain/text-diff.ts:122-191 | so does the alignment shown among all as short, and it tells what was removed before what was added |
| `TextComparison.Align` | apps/api/src/modules/revision/domain/text-diff.ts:123-151 | the pass over pairs and a sentinel, with its flag tests, computes that alignment |
| `TextComparison.UnmarkedWordsAgree` | apps/api/src/modules/revision/domain/text-diff.ts:100-115 | the words left unmarked read the same on both sides and are as many as can |
| `TextComparison.ChangedPair` | apps/api/src/modules/revision/domain/text-diff.ts:100-111 | an edited pair carries all words of both sides, well marked |
| `TextComparison.PairEdits` | apps/api/src/modules/revision/domain/text-diff.ts:56-91 | the rows stand for exactly the alignment, and no removal is left directly before an addition |
| `Paragraphs.ParagraphsKeepInk` | apps/api/src/modules/revision/domain/text-diff.ts:40-45 | read in order, the paragraphs print exactly what the text prints: only white space is lost |
| `Paragraphs.ParagraphsAreParagraphs` | apps/api/src/modules/revision/domain/text-diff.ts:40-45 | every paragraph is non-empty, has text at both ends and single blanks inside, so no line break |
| `ParagraphBreaks.SpaceDecides` | apps/api/src/modules/revision/domain/text-diff.ts:40-45 | between two words the white space ends the paragraph exactly when it holds a blank line or ends in a line feed, and else is one blank in it |
| `ParagraphBreaks.OuterSpaceIsLost` | apps/api/src/modules/revision/domain/text-diff.ts:40-45 | white space before the first word and behind the last is no paragraph |
| `ParagraphBreaks.WordIsAParagraph` | apps/api/src/modules/revision/domain/text-diff.ts:40-45 | a word alone is a paragraph; the three laws determine the cut of every text |
| `TextComparison.ComparedAreTheFirst` | apps/api/src/modules/revision/domain/text-diff.ts:37-53 | what is compared is the first thousand paragraphs, or all |
| `TextComparison.CompareTexts` | apps/api/src/modules/revision/domain/text-diff.ts:40-98 | the rows tell the shortest alignment of what was compared, truncation is reported, and identical is said exactly of untruncated texts with the same paragraphs, which then print the same |
| `Uuid.Uuidv7` | packages/utils/src/uuid.ts:13-35 | overwriting the random buffer in place and printing it gives the layout's text |
| `Uuid.EveryUuidIsWellFormed` | packages/utils/src/uuid.ts:13-41 | for every time and all random bytes the text passes the pattern, as version 7 |
| `Uuid.TimestampReadsBack` | packages/utils/src/uuid.ts:13-35 | the time below 2^48 is read back from the text |
| `Uuid.EarlierSortsFirst` | packages/utils/src/uuid.ts:13-35 | an earlier identifier sorts strictly before a later one, whatever was drawn |
| `Uuid.TimeWraps` | packages/utils/src/uuid.ts:13-35 | times 2^48 apart give the same text |
| `Uuid.SameTextExactlyWhen` | packages/utils/src/uuid.ts:13-35 | two identifiers are the same text exactly when their times agree modulo 2^48 and the same 74 bits were drawn |
| `Uuid.PatternIsExact` | packages/utils/src/uuid.ts:37-41 | the pattern lets through exactly the printed forms, in either case, of sixteen bytes with a version from 1 to 8 and the variant of RFC 9562 |
| `ProxyTrust.ClientAddressOf` | packages/utils/src/proxy-trust.ts:143-163 | no socket, no client; else the first hop that settles the walk, or the last |
| `ProxyTrust.PrependingAddsOuterHops` | packages/utils/src/proxy-trust.ts:172-181 | what is written left of a header becomes hops beyond those it had |
| `ProxyTrust.SettledAnswerStands` | packages/utils/src/proxy-trust.ts:143-181 | once a hop settles the walk nothing prepended changes the answer |
| `ProxyTrust.SendersCannotChooseTheirAddress` | packages/utils/src/proxy-trust.ts:143-181 | and exactly then |
| `ProxyTrust.NoTrustMeansTheSocket` | packages/utils/src/proxy-trust.ts:108-134 | trusting nothing, the socket is the client whatever the header says |
| `ProxyTrust.HopsCountOutward` | packages/utils/src/proxy-trust.ts:108-163 | trusting n hops, the client is the hop n out or the last one reached through addresses, whichever is nearer; nothing further left matters exactly when the chain is longer than n or holds a non-address |
| `ProxyTrust.MappedIsTheSameAddress` | packages/utils/src/proxy-trust.ts:165-170 | a mapped IPv4 address normalises to the address |
| `ProxyTrust.OnlyTheMappingComesOff` | packages/utils/src/proxy-trust.ts:165-170 | of seven characters before a dotted address only the mapping prefix, in either case, is taken off |
| `ProxyTrust.DottedExactlyWhen` | packages/utils/src/proxy-trust.ts:165-170 | the dotted form is four groups of one to three digits with dots between, and nothing else is |
| `ProxyTrust.AddressIsUnwrapped` | packages/utils/src/proxy-trust.ts:165-181 | white space around an entry is no part of it, and but for the mapped form an address is kept as it is |
| `Signature.OneLineHasNoBreak` | packages/domain/src/signature.ts:134-143 | whatever was typed occupies one line |
| `Signature.OneLineIs` | packages/domain/src/signature.ts:134-143 | a value without a break is only trimmed, every run of breaks becomes one blank, and the line has no white space at either end |
| `Whitespace.TrimIsTheMiddle` | packages/domain/src/signature.ts:141-143 | trimming takes white space off both ends, all of it and nothing else |
| `Whitespace.TrimUnwraps` | packages/utils/src/proxy-trust.ts:166-168 | whatever white space a text is wrapped in comes off again |
| `Whitespace.SpacesAreThese` | apps/api/src/modules/revision/domain/text-diff.ts:40-45 | the code points that are white space |
| `Signature.SerialisationIsInjective` | packages/domain/src/signature.ts:96-132 | a statement whose identifiers hold no line break has the bytes of another, whatever that one holds, exactly when the two attest the same, up to line breaks and outer space in free text and null against empty |
| `Signature.BreaksInIdentifiersCollide` | packages/domain/src/signature.ts:115-132 | a break in an identifier, which nothing strips, makes two statements share bytes |
| `SignatureLines.CollidesExactlyWhen` | packages/domain/src/signature.ts:115-143 | another statement, attesting something else, has the bytes of a statement exactly when its lines can be told apart into the twelve labelled fields in another way |
| `SignatureLines.FieldsReadBack` | packages/domain/src/signature.ts:115-132 | under each label stands its own field, and the version line first |
| `DurationText.LanguageMatches` | packages/domain/src/duration.ts:20-33 | every text of the language matches with its own captures |
| `DurationText.MatchesLanguage` | packages/domain/src/duration.ts:20-33 | and only those |
| `DurationText.ParsesWhatTheSchemaAccepts` | packages/contracts/src/admin/workflow.ts:56-59 | parsing succeeds exactly on the texts the schema accepts whose total is not zero |
| `DurationText.DaysThenHours` | packages/domain/src/duration.ts:33-48 | the number before the D is days and the number before the H hours, and a zero is refused |
| `DurationText.NumbersAreDecimal` | packages/domain/src/duration.ts:33-48 | the numbers are decimal |
| `DurationText.SchemaAcceptsZero` | packages/contracts/src/admin/workflow.ts:56-59 | the schema accepts a zero the parser refuses |
| `DurationText.RoundTrip` | packages/domain/src/duration.ts:33-64 | parsing what was printed gives the duration back exactly when it is not zero and its numbers have at most three digits |
| `DurationText.PrintingGivesBack` | packages/domain/src/duration.ts:54-64 | printing gives back exactly the texts in which no number starts with a zero and no T stands last |
| `DurationText.PrintingIsCanonical` | packages/domain/src/duration.ts:33-64 | printing what was parsed parses to the same duration, prints the same again, and is such a text |
| `DurationText.NotEveryTextIsCanonical` | packages/domain/src/duration.ts:54-64 | P03D and P3DT are texts of three days that printing does not give back |

## Left out

- Civil dates and `Intl.DateTimeFormat`: a calendar day is its number, and a reading of the clock is one
  number of milliseconds; converting between the two and year, month and day fields is not modelled.
- WorkingDeadlines.DeadlineNeverThrows: the zone is assumed to skip a given time of day on at most 120 days in
  any ten years; `SteadyClock.SeldomChangingNeverThrows` derives that from at most 60 clock changes. A zone that
  changes more often is not covered.
- WorkingDeadlines.DeadlineIsMonotone: for fixed offsets; `SteadyClock.SteadyDeadlineIsMonotone` carries it to any
  zone with no clock change in between. No order is claimed across a change.
- WorkingDeadlines.DayStepKeepsOrderExactlyWhen: for fixed offsets; `NextWorkingDay.LandingsKeepOrderExactlyWhen` carries
  it, for readings of the clock, to any zone in which both steps land.
- WorkingDeadlines.WorkingIsNoEarlierThanCalendar: for fixed offsets; `SteadyClock.SteadyWorkingIsNoEarlier` carries it
  to any zone with no clock change before the deadline.
- WorkingDeadlines.EverydayWorkIsElapsedTime: for fixed offsets.
- WorkingDeadlines.HoursAreConserved: for fixed offsets; `SteadyClock.SteadyHoursAreConserved` carries it on.
- WorkingDeadlines.WholeHoursAreExact: for fixed offsets; `SteadyClock.SteadyHoursAreExact` carries it on.
- NextWorkingDay.LandsExactlyWhen: for zones in which a resolved reading misses by less than a day, and a next
  worked day within the 3650 the walk tries.
- WorkingCalendar.AddDaysCountsWorkedDays: for starts whose visited readings all exist; a skipped reading is
  shifted, as `WallClock.SkippedReading` says.
- Database transactions, row locks and versions of a tree move: a step of `TreeRuns` or `TreeBins` is one whole
  operation.
- A library's top folder, which is neither moved nor deleted on its own, is not told apart from other folders; the
  names, codes and documents a deletion or restore also looks at are not modelled, nor are rows deleted by earlier
  releases without a recorded deletion.
- AclLists.FilterAgreesWithTheDirectRead: for documents whose chain resolves and whose folder and library owner have
  paths that name their ancestors, which is exactly what it needs and what a stale restore breaks; for identifiers not
  shared between kinds of node and tenant-level entries that carry the tenant's own identifier. Reading the caller's
  roles and departments, the decision cache and the modifiers of state and confidentiality are not modelled.
- AclLists.TruncationOnlyNarrows: under the same conditions.
- AclLists.CutFilterExactlyWhen: under the same conditions.
- AclChains.ChainIsTheWayUp: where live paths are in place, departments share their parents' entity and folders their
  parents' library, which the services check on every create and move.
- AclQuery.ListAgreesWithTheDirectRead: under the same conditions.
- The ACL fingerprint is a digest and is not modelled.
- Delegation periods' maximum length, eligibility of delegates, and notifications.
- Raw deflate and inflate: arbitrary functions of which the round trip assumes only that one undoes the other
  on the contents archived. Names are bytes; UTF-8 coding is not modelled. Entries that overflow a 16- or
  32-bit field are outside the round trip.
- The reader's expansion ratio is computed over reals.
- Table entries of the comparison are unbounded numbers, not 32-bit ones; characters are whole code points.
- Signature.SerialisationIsInjective: one of the two statements has no line break in its identifiers;
  `SignatureLines.CollidesExactlyWhen` covers the rest.
- Address ranges of the proxy setting (`BlockList`), its parsing, and what an IP address is: `isIP` and the
  trust of a hop are arbitrary functions beside the two settings modelled.
- Randomness and the clock are arguments.
- The workflow, numbering, retention and notification engines, the web application, and the tables of
  permissions, roles and queues.
