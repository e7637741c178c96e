# Verified model of the question-and-answer corpus

The repository turns yearly PDF reports into a corpus of cases that can be searched and cited, and publishes it
release by release. This project models the parts where one part of the program must agree with another over many
runs, and proves that agreement in Dafny. `dafny verify dfyconfig.toml` checks everything.

| module | what it models |
|---|---|
| `CaseIds`, `CaseIdLaws`, `BusinessSlugs` | the printer and the parser of canonical case ids, and the registered slugs |
| `Patterns`, `CaseIdPatterns`, `CaseNumberPatterns`, `CaseIdGrammar` | regular expressions, the checks on ids and numbers against the patterns of the source, and the grammar of valid ids |
| `CaseIdNames`, `CaseIdIssuing` | what an issued id says of the labels, the number and the title it was made from, and which ids are issued for which |
| `Registry` | the issuance tables and `_read_head`, the checker of the whole registry |
| `Issuance`, `RegistryLimits` | one lease as a function of the registry, every run of leases from genesis, and a run into the limit |
| `IssuanceLease` | the lease, its receipt and its transaction as objects that change |
| `BuildStages` | the stages of a build, where it stops, and what it leaves behind, as a function of the build and its interruptions |
| `BuildBundle` | the code of the build around a lease: temporary directory, rename, bind, commit, cleanup |
| `OverlappingBuilds` | any number of builds over one disk, their steps interleaved in any order |
| `Promotion`, `PromotionReuse` | alias promotion and readiness as a state machine over any number of interleaved callers, and what reused names do to it |
| `PromotionReadiness` | exactly when a ready answer is false |
| `PromotionPending` | exactly when a pending manifest is left behind |
| `PromotionCode` | the code of both calls, refining that state machine among arbitrary other callers |
| `ReviewLog` | the replay of a review log, and the eligibility that rests on it |
| `ChunkWindows`, `ChunkGroups`, `ChunkSets` | token windows, greedy grouping, the chunk builder and its revalidator |
| `ChunkTexts`, `ChunkRules` | where every source text stands in the chunks, and which cases and chunk sets are taken |
| `RasterCards`, `RasterDrawings` | the detector of green card borders, the check on what it reports, and which drawn pages have which cards |
| `ReadingOrder`, `ReadingRule`, `ReadingOrderTies` | the two-column reading order, its rule in numbers, and when it depends on the input order |
| `NativeTemplates`, `NativeDocuments`, `NativeRemovals` | removal of repeated page templates, the writer that recounts it, and exactly which blocks are removed |
| `NormalForms`, `ComposedText`, `Normalizer`, `UncoveredWraps`, `NormalizedText`, `NormalizerRules` | the text normalizer, and each of its passes in terms of words, lines and letters |
| `TextLayers` | the correction history |
| `RankingMetrics` | recall, reciprocal rank, discounted gain, and the latency percentile |
| `Strings`, `TextWords`, `Sorting`, `Wrappers` | decimals, string order, words, stable sorting, optional values and results |

## What the proofs found

* `validate_case_id` takes ids that `make_case_id` never issues, such as
  `senqa-2020-audit-audit-p1-deadbeef-p2-cafebabe`. `CaseIdLaws.ValidIdIssuableExactly` gives the exact condition:
  an id that the validator takes can be issued from its own parts if and only if it has no duplicate suffix or its
  number does not itself read as one. `BusinessSlugs.UnissuableValidId` shows for the registered slugs that no call,
  whatever its labels, number, page and title, issues that id.
* `_read_head` refuses tables with more than 100000 entries, but no commit enforces that limit.
  `Issuance.ReachableAcceptedExactly` shows that the limit is the only thing that separates a reachable registry from an
  accepted one, and `Issuance.FullTableLocksRegistry` that the commit that goes over it succeeds and that no lease
  ever succeeds again. `RegistryLimits.FullTableReachable` gives two leases that lead there, and
  `RegistryLimits.EnoughIds` the ids for them.
* An exception of the database engine at the commit is not among the exceptions that the cleanup of the build
  catches, so the published directory stays although the registry does not name it.
  `BuildStages.LeftBehindExactly` gives the exact condition for every stage: a directory that the registry does not name
  stays if and only if the first stage that does not go through lies between the rename and the commit and ends in a
  crash or in an exception that the cleanup does not catch, and a temporary directory stays if and only if that stage
  lies before. `BuildStages.InterruptedCommitLeavesBundle` is a build that leaves one.
  `BuildStages.HandledFailureRestores` says that a caught exception leaves nothing, at any stage up to the
  commit.
* The cleanup does not know whether the commit has happened. Nothing after the commit raises an exception that it
  catches; if something did, the cleanup would remove a bundle that the head names, unless another directory holds
  the same (`BuildStages.CleanupAfterCommitExactly`).
* The promotion window depends on how candidates are named. `PromotionReuse.WindowSharedExactly` gives the exact
  condition: some schedule puts two promoters into the window at once if and only if the promoters can take the
  service along a chain of candidates and back to a name where it has been, while one more promoter still expects that
  name. Fresh candidates never do that (`PromotionReuse.FreshNeverReturn`), a single promoter neither, and
  `PromotionReuse.ReusedCandidateOpensWindowTwice` is the smallest such case.
* A readiness check reads the manifest first and the alias second, and its answer can be false of both together when
  names come back. `PromotionReadiness.FalseReadyExactly` gives the exact condition for promoters that each move the
  service to another name: some schedule makes a check answer ready although alias and manifest agreed at no instant
  between its reads if and only if there is a check and the promoters can take the service away from a name and back.
  That needs one promoter less than a shared window. `PromotionReadiness.FreshNamesStayAway` says that fresh candidates
  never do it, and `PromotionReadiness.SelfPromotionMakesFalse` that a promoter to the name in service can do the same
  without any return.
* A removed header can leave a soft hyphen behind that a second normalization closes.
  `NormalizedText.SecondPassExactly` gives the exact condition on the lines and the evidence: the second pass changes the
  text if and only if the first one removes all lines between a line that ends in a letter and a soft hyphen and a line
  that starts with a letter. `NormalizedText.RemovalUncoversSoftWrap` is such a text.
* The reading order is independent of the order in which lines were recognised if and only if no two different
  lines agree in x0, y0, y1 and text (`ReadingOrderTies.OrderIndependentExactly`).

## How it is modelled

A database is a value with its rows, its releases and its head; a transaction is a working copy that replaces the
committed value or is dropped. A digest is a function of an abstract message, and results that need different digests
for different messages assume it for the messages that were hashed and for no others. Objects that the code changes
are classes; loops are loops with invariants, proved against functions or predicates about which the laws are stated.
Interruptions are a parameter: a plan says for every stage whether it goes through, fails with an exception that the
code handles, fails with another one, or kills the process. What a build does is a function of its plan and of the
disk that it starts on, and the code is proved to compute that function. Other callers of the promotion are a parameter as well: a
schedule says which steps they take between any two statements of the call, and the call is proved to make exactly
the steps of the protocol that the schedule leaves it.

What a function computes is also stated without it: over the cases of a lease, the actions of a log, the words of a
label, the slices of a source text, the numbers of a page. The patterns of ids and case numbers are regular expressions,
and the checks are proved to take what these read. No lemma relies on automatic induction.

## Model

| member | source | states |
|---|---|---|
| CaseIds.SplitDuplicateExact | src/corpus/ids.py:158-175 | the greedy match of the duplicate suffix has exactly one way to succeed |
| CaseIdLaws.NormalizeIdempotent | src/corpus/ids.py:99-114 | normalizing a case number twice is the same as once |
| CaseIdLaws.IssuedIdParses | src/corpus/ids.py:158-237 | whatever slugs, number and suffix an id is issued from, parsing gives exactly them back |
| CaseIdLaws.MadeIdParses | src/corpus/ids.py:195-237 | every issued id is valid and parses to the year, slugs, number and suffix of its call; `CaseIdNames.IssuedIdNames` says over labels, number and title what these are |
| CaseIdNames.CleanedIsSentence | src/corpus/ids.py:78-82 | cleaning a label, number or title leaves its words with one blank between them, and refuses it when it has none |
| CaseIdNames.IssuedIdNames | src/corpus/ids.py:79-237 | an issued id parses to the slug of each registered label and the first ten characters of the digest of any other, to its number in lower case without leading zeros, and to the page and the title's digest, all over words |
| CaseIdNames.NeatLabelNames | src/corpus/ids.py:91-96 | a label without outer or repeated white space is named by its registered slug, or by ten characters of its own digest |
| CaseIdNames.SpacingIgnored | src/corpus/ids.py:79-237 | labels, numbers and titles that differ only in white space issue the same id, or the same error |
| CaseIdIssuing.MadeExactly | src/corpus/ids.py:78-237 | a call issues an id exactly when the id is made by the grammar of the year, the slugs, the number and the anchor that the call names, and its body without the anchor does not read as one with a suffix |
| CaseIdLaws.EqualSuffixes | src/corpus/ids.py:215-232 | equal duplicate suffixes name the same page and title hash |
| CaseIdLaws.EqualIdsEqualParts | src/corpus/ids.py:195-237 | two calls that issue the same id had the same year, slugs, number and anchor |
| CaseIdLaws.ParsedIdRenders | src/corpus/ids.py:129-192 | re-joining the parsed parts of any id the validator takes gives the same id |
| CaseIdLaws.ParsedPartsAreCanonical | src/corpus/ids.py:143-192 | the number of a valid id is its own normal form, and its suffix is empty or well formed |
| CaseIdLaws.ValidIdIssuableExactly | src/corpus/ids.py:183-237 | a valid id can be issued from its parts exactly when its suffix is empty or its number does not read as a suffix |
| CaseIdLaws.NeverMade | src/corpus/ids.py:183-237 | no call issues an id whose number reads as a suffix in front of another suffix |
| BusinessSlugs.UnissuableValidId | src/corpus/ids.py:22-237 | under the registered slugs, an id that the validator takes and no call of the printer issues |
| CaseIdPatterns.HyphenatedExactly | src/corpus/ids.py:12-21 | the check for runs joined by single hyphens takes exactly what the pattern reads |
| CaseIdPatterns.DuplicateExactly | src/corpus/ids.py:13-15 | the duplicate suffix splits off exactly where the base of the pattern ends |
| CaseIdPatterns.DuplicateLikeExactly | src/corpus/ids.py:16-16 | the check for suffix look-alikes takes exactly what the pattern reads |
| CaseNumberPatterns.GroupedExactly | src/corpus/ids.py:23-28 | looking at three neighbouring groups finds exactly the grouped numbers that the pattern finds |
| CaseNumberPatterns.ProviderExactly | src/corpus/ids.py:29-36 | five prefixes with sixteen characters find exactly the tokens that the pattern finds |
| CaseNumberPatterns.RejectedExactly | src/corpus/ids.py:117-126 | a number is refused exactly for ten digits in all, a part that a pattern finds, its length or a long component |
| CaseNumberPatterns.NumberExactly | src/corpus/ids.py:99-114 | a number is normalized exactly when its words joined by hyphens match the safe pattern and are neither reserved nor refused; digits alone give the numeral of their value |
| CaseIdGrammar.ConsumedExactly | src/corpus/ids.py:129-140 | a slug is consumed exactly when it is the first registered one that heads the text, or ten hexadecimal digits when none does |
| CaseIdGrammar.StandingExactly | src/corpus/ids.py:143-155 | a number stays as it is exactly when it is lower-case runs, not refused, and without a leading zero before digits alone |
| CaseIdGrammar.ParsesExactly | src/corpus/ids.py:143-192 | an id is valid with these parts exactly when it is made of them by the grammar: length, pattern, year, leading slugs, number and suffix |
| CaseIdLaws.FirstRegisteredIsLongest | src/corpus/ids.py:129-140 | with the longest slugs first, the first match is the longest match |
| BusinessSlugs.RegisteredSlugsWellFormed | src/corpus/ids.py:22-76 | the registered slugs come longest first and hold no digits |
| Registry.IssuanceRecords | src/corpus/storage.py:1193-1221 | reading the rows succeeds exactly on valid rows, and lists them by id |
| Registry.IssuanceReleases | src/corpus/storage.py:1224-1256 | reading the releases succeeds exactly on valid rows |
| Registry.CheckChain | src/corpus/storage.py:1277-1310 | the loop accepts exactly the chains in which every release links to the one before and is named once |
| Registry.ReadHead | src/corpus/storage.py:1259-1329 | the checker takes exactly the accepted registries, and returns their head |
| Registry.AcceptedExactly | src/corpus/storage.py:1193-1329 | a registry is accepted exactly when every row and release is good, ids and bundles are named once, each release follows the one before, and the head is the last release over the rows |
| Registry.ListingInjective | src/corpus/storage.py:912-932 | the listing that is hashed determines the row table |
| Registry.ChainsAgree | src/corpus/storage.py:935-955 | chains that agree on one authority agree on everything before it |
| Registry.HeadDeterminesHistory | src/corpus/storage.py:931-998 | two accepted registries with the same head authority are equal: generation, every release, every row |
| Issuance.ProjectionAccepted | src/corpus/storage.py:1408-1461 | a lease's own projection passes every row check of the commit |
| Issuance.CommitSucceedsExactly | src/corpus/storage.py:1653-1761 | the commit of a projection succeeds exactly when its bundle digest was never issued |
| Issuance.CommitAcceptedExactly | src/corpus/storage.py:1653-1761 | after a commit the checker accepts exactly while both tables stay within the limit |
| Issuance.ReachableAcceptedExactly | src/corpus/storage.py:1259-1329 | after any sequence of leases from genesis the registry is accepted exactly while it is within the limits |
| Issuance.FullTableLocksRegistry | src/corpus/storage.py:1653-1761 | the commit that overfills the table succeeds, and afterwards no lease does |
| RegistryLimits.FullTableReachable | src/corpus/storage.py:1653-1806 | two leases with valid batches fill the table and go over it, and the registry never changes again |
| RegistryLimits.EnoughIds | src/corpus/ids.py:129-192 | there are enough different ids that the validator takes to fill the table |
| Issuance.HistoryPreserved | src/corpus/storage.py:1408-1461 | over every run no row vanishes, first fields never change, retired rows are frozen, releases are only appended |
| Issuance.ProjectionListsCases | src/corpus/storage.py:1408-1461 | a projection lists one record for every case, with that case's content, and one for every other issued id, in the order of the ids |
| Issuance.ListsCasesUnique | src/corpus/storage.py:1408-1461 | that leaves one list of records |
| Issuance.EveryRowWasIssued | src/corpus/storage.py:1436-1461 | every row names the lease of the run that first issued it, whose batch holds a case with this id and the row's first content |
| Issuance.ActiveAreLastCases | src/corpus/storage.py:1436-1461 | after a run the active rows are the cases of its last committed lease, each with the content of its case |
| Issuance.EveryRetiredRowWasDropped | src/corpus/storage.py:1436-1461 | every retired row names the lease of the run that dropped the case |
| Issuance.DeltasMatchExactly | src/corpus/finalize.py:641-660 | storage under the lease takes exactly the deltas that finalization computes |
| Issuance.DeltasExactly | src/corpus/finalize.py:641-660 | created are the cases that were never issued, deleted the active rows without a case, and changed the active rows whose case has other content |
| Issuance.DeltasFollowExactly | src/corpus/storage.py:2291-2318 | storage takes exactly the sorted deltas with these members |
| Issuance.DeltasDescribeProjection | src/corpus/storage.py:2291-2318 | active after a projection is active before plus created minus deleted, and changed are the rows whose content changes |
| IssuanceLease.ProjectRows | src/corpus/storage.py:1436-1461 | the row loops compute the projection of the prior rows, one record for every case and every other issued id |
| IssuanceLease.WriteRecords | src/corpus/storage.py:1683-1724 | the row statements succeed exactly on acceptable records and leave exactly the projected table |
| IssuanceLease.BundleDeterminesDirectory | src/corpus/storage.py:1509-1651 | complete directories with the same bundle digest are equal, entries, database, exports and manifest, unless hashed messages collide |
| IssuanceLease.ContentDeterminesExports | src/corpus/storage.py:1509-1651 | complete directories with the same content digest hold the same exports, unless hashed messages collide |
| IssuanceLease.Lease.Close | src/corpus/storage.py:1400-1406 | closing rolls back, frees the lock and leaves the committed data alone |
| IssuanceLease.Lease.ProjectedRecords | src/corpus/storage.py:1408-1461 | projecting succeeds exactly on new releases, distinct cases and no reactivation, and lists every case with its own content and every other issued id |
| IssuanceLease.Lease.IssueProjectionReceipt | src/corpus/storage.py:1463-1507 | a lease issues one receipt, exactly for a sorted projection on an open lease |
| IssuanceLease.Lease.BindPublishedBundle | src/corpus/storage.py:1509-1651 | binding succeeds exactly for the issued receipt and a complete directory whose manifest names the release, the database, the projection and the predecessor of the receipt |
| IssuanceLease.Lease.CommitPublishedBundle | src/corpus/storage.py:1653-1761 | a commit succeeds exactly for the bound receipt with acceptable rows and fresh unique columns, and a failure leaves the committed data alone |
| IssuanceLease.AcquireIssuanceLease | src/corpus/storage.py:1764-1806 | a lease is given exactly on an unlocked, accepted registry whose head is the expected one |
| BuildStages.StopIsFirst | src/corpus/build.py:251-333 | the build stops at the first stage that does not go through, and only there |
| BuildStages.PublishBeforeCommit | src/corpus/build.py:259-330 | wherever the build is interrupted, at every moment the registry only names bundles that are in place and complete |
| BuildStages.HandledFailureRestores | src/corpus/build.py:328-333 | a handled failure at any stage up to the commit ends as a failed build with registry, targets and temporaries as before |
| BuildStages.LeftBehindExactly | src/corpus/build.py:259-333 | exactly when a temporary directory, or a published directory that the registry does not name, is left behind |
| BuildStages.InterruptedCommitLeavesBundle | src/corpus/build.py:304-333 | a build with a good lease and a good batch whose COMMIT raises leaves its published directory under an empty registry |
| BuildStages.CleanupAfterCommitExactly | src/corpus/build.py:318-333 | a handled exception after the commit would keep the registry sound exactly when another directory holds the same bundle |
| BuildStages.RegistryMovesExactly | src/corpus/build.py:318-330 | the registry changes exactly when nothing stops the build up to its commit, and then as one abstract lease |
| BuildStages.StorageAcceptsExactly | src/corpus/storage.py:2291-2318 | storage takes a batch exactly with one to 100000 different valid cases, none of them retired, a release that is well named and new, and the sorted deltas that follow from cases and rows |
| BuildStages.UninterruptedBuild | src/corpus/build.py:179-333 | a build that nothing interrupts succeeds exactly when its target is free, its lease is given, its batch is accepted, and its bundle was never issued |
| BuildStages.BuiltNamesBundle | src/corpus/build.py:318-330 | a build that succeeds returns the registry's new head and the bundle that it names, which lies complete at the target with the batch's database and exports |
| BuildStages.CleanupRestores | src/corpus/build.py:328-333 | what the cleanup removes is what a handled failure has left, and without cleanup everything stays |
| BuildStages.BuildsAreLeases | src/corpus/build.py:179-333 | any sequence of builds, with whatever expected heads and interruptions, leaves the registry of the leases of those that commit |
| BuildStages.TurnsPublishFirst | src/corpus/build.py:179-333 | every persistent state of any sequence of builds only names published, complete bundles |
| BuildBundle.WriteStorage | src/corpus/storage.py:2291-2318 | storage takes a batch exactly when its cases, its deltas and its projection are good, and issues the receipt of its projection |
| BuildBundle.PrepareBundle | src/corpus/build.py:267-301 | the temporary directory holds what the stages up to the first failure have written |
| BuildBundle.RenameBundle | src/corpus/build.py:302-303 | the finished directory moves to its free target, or everything stays |
| BuildBundle.BindAndCommit | src/corpus/build.py:304-318 | after the rename the registry moves exactly when sync, bind and commit go through |
| BuildBundle.PublishUnderLease | src/corpus/build.py:261-330 | under the lease the build stops where the stages say, with the disk and the persistent states they say |
| BuildBundle.BuildCanonicalBundle | src/corpus/build.py:251-333 | the call ends with exactly the outcome, the disk and the persistent states that follow from its plan and the disk before |
| BuildBundle.BuildAll | src/corpus/build.py:179-333 | any sequence of builds, each with the head it expects, ends with exactly the registry, directories, outcomes and persistent states of its turns |
| OverlappingBuilds.StepKeepsInv | src/corpus/build.py:251-333 | every step of every build keeps lock, owned targets and the bundles that the registry names |
| OverlappingBuilds.AlwaysPublished | src/corpus/build.py:251-333 | however builds overlap and are interrupted, the registry only ever names bundles that are in place and complete |
| OverlappingBuilds.LeasesExclude | src/corpus/storage.py:1764-1806 | at most one build is between its lease and its COMMIT |
| OverlappingBuilds.RegistryIsRun | src/corpus/build.py:251-333 | however builds overlap, the registry is the run of the leases that commit, in the order of their COMMITs |
| OverlappingBuilds.SoloIsBuild | src/corpus/build.py:251-333 | a build that nobody overlaps leaves exactly what the code of a single build leaves |
| Promotion.StepKeepsInv | src/release.py:1670-1730 | every step of every caller keeps the invariant on alias, manifest and the history of service |
| Promotion.OnePromoterInWindow | src/release.py:1700-1730 | at most one caller is between its swap and its manifest replace; outside the window alias and manifest agree |
| Promotion.RollbackSucceeds | src/release.py:1716-1729 | a rollback that is carried out finds its own candidate and restores agreement |
| Promotion.ReadyStepIsTrue | src/release.py:1608-1628 | at the alias read of a ready answer, the manifest is still the one that was read |
| Promotion.ReadinessLinearizable | src/release.py:1608-1628 | every ready answer was true of alias and manifest together at an instant during the call |
| Promotion.StuckFailsClosed | src/release.py:1670-1713 | after a caller dies in the window nothing changes, nothing promotes and nothing becomes ready any more |
| Promotion.ServedArePromoted | src/release.py:1714-1730 | every manifest in the history is the first one or was put there by a successful promotion |
| Promotion.PromotesAlone | src/release.py:1670-1730 | an undisturbed promotion whose comparisons hold succeeds |
| PromotionReuse.WindowSharedExactly | src/release.py:1670-1730 | two promoters can be in the window at once exactly when candidate names return in a cycle |
| PromotionReuse.FreshNeverReturn | src/release.py:1670-1730 | fresh candidates never close such a cycle |
| PromotionReuse.ReusedCandidateOpensWindowTwice | src/release.py:1670-1730 | three different candidates, one of them the name in service before, put two promoters into the window |
| PromotionReadiness.FalseReadyExactly | src/release.py:1608-1628 | when every promoter moves the service, a ready answer can be false exactly when a name can be left and brought back |
| PromotionReadiness.ReturnMakesFalse | src/release.py:1608-1628 | a name that comes back makes a ready answer false, whatever else the promoters do |
| PromotionReadiness.FreshNamesStayAway | src/release.py:1608-1730 | fresh candidates bring no name back |
| PromotionReadiness.SelfPromotionMakesFalse | src/release.py:1608-1730 | a promoter to the name in service makes a ready answer false without any return |
| PromotionPending.PendingExactly | src/release.py:1689-1730 | over every run, the release of a finished promoter is pending exactly when it was at the start, its write or its unlink failed late, or its manifest was not replaced |
| PromotionCode.LonePromotion | src/release.py:1656-1730 | a call that nobody disturbs ends as its failures say: with which outcome, alias, manifest and pending files |
| PromotionCode.LoneReadiness | src/release.py:1608-1628 | a check that nobody disturbs is ready exactly when alias and manifest agree and both reads work |
| PromotionCode.RanOnce | src/release.py:1656-1730 | the schedule of a call determines how many statements it takes and the world at its end |
| PromotionCode.UndisturbedPromotes | src/release.py:1656-1730 | an undisturbed call whose comparisons hold promotes |
| PromotionCode.ReadyWasTrue | src/release.py:1608-1628 | whatever the others do during the call, a ready answer was true of alias and manifest just before its last step |
| PromotionCode.ReleaseService.PromoteRelease | src/release.py:1656-1730 | the call ends in exactly the world of its schedule, with its own final state as the result; undisturbed it promotes, alone it ends as its failures say, and among any others it leaves its pending file exactly when that was there before or its write, its unlink or its replacement failed |
| PromotionCode.ReleaseService.ReconcileReleaseState | src/release.py:1608-1628 | the call ends in exactly the world of its schedule, a ready answer was true at an instant during the call, and alone it answers ready exactly when alias and manifest agree and both reads work |
| ReviewLog.SameReviewerEquivalence | src/corpus/storage.py:195-206 | sameness of named actors is reflexive, symmetric and transitive |
| ReviewLog.PaddedUidIsSame | src/corpus/storage.py:195-206 | an operating-system actor with a padded number is the same reviewer |
| ReviewLog.SameReviewerExactly | src/corpus/storage.py:195-206 | two named actors are the same exactly when they are equal, or both have the form uid:digits: with equal numbers |
| ReviewLog.AcceptedExactly | src/corpus/storage.py:657-796 | a log is accepted exactly when it is ordered and linked, takes one of the decided action sequences, carries the record that its actors and outcome dictate, and its answer actor is nobody who verified fields or approved search |
| ReviewLog.StorableExactly | src/corpus/storage.py:657-796 | a case with an accepted log can be stored exactly when the log rejects it or the case is neither credits nor public credit nor restricted |
| ReviewLog.ParseReviewCase | src/corpus/storage.py:657-796 | the checker takes exactly the logs and records of the accepted kind, over their actions and actors |
| ReviewLog.ReplayEvents | src/corpus/storage.py:733-760 | the loop computes the replay |
| ReviewLog.ReplaysExactly | src/corpus/storage.py:733-760 | a log replays exactly when each event starts where the last ended, is allowed and takes a new action |
| ReviewLog.ReplayedLogs | src/corpus/storage.py:733-760 | a replayable log of whatever length is one of twelve and has at most four events |
| ReviewLog.EligibilityRestsOnLog | src/corpus/models.py:219-245 | a stored case is search-eligible exactly with approve_search and no reject, answer-eligible exactly with approve_answer, never for credits or restricted classes |
| ReviewLog.AnswerReviewerIndependent | src/corpus/storage.py:762-796 | whoever approved the answer is nobody who verified fields or approved search |
| ChunkWindows.ChunkTextWindows | src/corpus/chunking.py:956-985 | the loop ends, fails exactly on bad offsets or a capacity without a step, and returns the windows of the stated ranges |
| ChunkWindows.OverlapIsNearest | src/corpus/chunking.py:973-976 | the overlap is the integer nearest to 12% of the capacity, never a tie, and at least one |
| ChunkWindows.WindowShape | src/corpus/chunking.py:956-985 | no window exceeds the capacity, neighbours share exactly the overlap, the last one ends at the last token |
| ChunkWindows.WindowRangesUnique | src/corpus/chunking.py:956-985 | token count and capacity determine the windows |
| ChunkWindows.NeighboursShareWindow | src/corpus/chunking.py:956-985 | every token lies in one window together with the next one |
| ChunkWindows.WindowsLoseNothing | src/corpus/chunking.py:956-985 | every character from the first token to the last, gaps included, is in a window |
| ChunkGroups.GroupedChunkUnits | src/corpus/chunking.py:1042-1087 | the loop succeeds exactly when its groups can be cut into no more units than the bound, and returns their units, whose texts are those of `ChunkTexts.UnitsKeep` |
| ChunkTexts.GroupTextLaid | src/corpus/chunking.py:988-998 | in the text of a group every fragment stands in order, separated by exactly one line end, behind the header for tables |
| ChunkTexts.LaidUnique | src/corpus/chunking.py:988-998 | that leaves one text |
| ChunkTexts.SpansEachOnce | src/corpus/chunking.py:1001-1016 | the spans of a group are those of its fragments and headers, each once, in the order of first use |
| ChunkTexts.UnitsKeep | src/corpus/chunking.py:988-1087 | every fragment stands whole in a unit of its role and spans, or each of its characters between its first and last token does |
| ChunkTexts.GroupsAlike | src/corpus/chunking.py:1019-1039 | fragments of one group agree in role, page and header, and several of them fit together |
| ChunkTexts.GroupsApart | src/corpus/chunking.py:1042-1087 | the next fragment is in another group because it is not alike, does not fit as well, or follows a fragment that is too long |
| ChunkGroups.FragmentsGiveGroups | src/corpus/chunking.py:1042-1087 | when every fragment can be cut on its own, so can every group, and only the bound on units is left to fail |
| ChunkGroups.GroupsAreGreedy | src/corpus/chunking.py:1042-1087 | the groups are the sources in order, obey the rule, and none was closed before it had to be |
| ChunkGroups.UnitsUnique | src/corpus/chunking.py:1050-1069 | the groups determine their units |
| ChunkGroups.UnitsCounted | src/corpus/chunking.py:956-1087 | the number of units follows from the token counts alone |
| ChunkGroups.GreedyStaysAhead | src/corpus/chunking.py:1042-1087 | after every group the greedy grouping has covered at least as much as any other |
| ChunkGroups.GreedyIsMinimal | src/corpus/chunking.py:1042-1087 | for monotone token counts no grouping under the same rule has fewer groups |
| ChunkGroups.GreedyIsUnique | src/corpus/chunking.py:1042-1087 | for monotone token counts the rule leaves one greedy grouping |
| ChunkSets.ChunkIdInjective | src/corpus/chunking.py:1504-1534 | within a case the chunk id names role and sequence |
| ChunkSets.RolesNumberedFromOne | src/corpus/chunking.py:1361-1390 | checked chunks of a role are numbered without a gap from one |
| ChunkSets.RevalidateChunkSet | src/corpus/chunking.py:1307-1421 | the revalidator takes exactly the accepted sets, and returns them unchanged |
| ChunkSets.ChunksOf | src/corpus/chunking.py:1512-1541 | the builder loop succeeds exactly when every unit makes a valid chunk, and then the checker accepts each of them |
| ChunkSets.RequiredRolesExactly | src/corpus/chunking.py:1541-1548 | the chunks have the required roles exactly when the sources have them |
| ChunkSets.OrderedPlaces | src/corpus/chunking.py:1424-1510 | the builder takes every source once, by role, and in its own order within a role |
| ChunkSets.BuildChunks | src/corpus/chunking.py:1424-1556 | the builder succeeds exactly on eligible, pinned and divisible sources with buildable units and the required roles; chunk i carries unit i, every source text stands in the chunks of its role and spans, and the revalidator takes the set under the same case, pins and binding digest |
| ChunkRules.MayBuildExactly | src/corpus/chunking.py:1424-1510 | only search-eligible cases that are neither public credit nor restricted are chunked, with exactly their tables pinned to their evidence |
| ChunkRules.AcceptedSetExactly | src/corpus/chunking.py:1307-1421 | the revalidator takes a set exactly when every chunk is the case's, with its name, texts, flags and spans, is numbered within its role, the required roles are there, and pins and binding are the expected ones |
| RasterCards.CeilExactly | src/ingestion/extract_ocr.py:213-260 | a count reaches a rounded-up limit exactly when it is positive and reaches the share itself |
| RasterCards.LargestCluster | src/ingestion/extract_ocr.py:216-246 | a row's scan finds the first of the clusters with the most hits, with at most one sample missing between hits |
| RasterCards.DenseRows | src/ingestion/extract_ocr.py:215-251 | exactly the bands of the dense rows, from top to bottom |
| RasterCards.MergeRows | src/ingestion/extract_ocr.py:253-259 | runs are separated by a row that is not dense, cover exactly the dense rows, and have exactly their common extent |
| RasterCards.PairBorders | src/ingestion/extract_ocr.py:272-301 | a border opens a card exactly when it pairs with the next one and does not close one itself |
| RasterCards.ChoiceIsLargest | src/ingestion/extract_ocr.py:272-301 | no choice of pairs without a shared border finds more cards |
| RasterCards.Detect | src/ingestion/extract_ocr.py:202-301 | the regions of every raster are in bounds, apart from each other, sorted, and within the size limits |
| RasterCards.WellFormedAccepted | src/ingestion/extract_ocr.py:1483-1503 | well-formed regions pass the order and bounds check |
| RasterCards.LayoutEvidence | src/ingestion/extract_ocr.py:1448-1510 | the evidence fails exactly on a raster that the detector refuses, and otherwise reports exactly the cards found |
| RasterDrawings.CardsExactly | src/ingestion/extract_ocr.py:262-301 | the regions are exactly the cards between borders that no other border and nothing thick separates, 10% to 30% of the page apart with edges within 8% of its width, from the top of one to the bottom of the other; one is left out only where its upper border closes the card before |
| RasterDrawings.PairsUnique | src/ingestion/extract_ocr.py:272-301 | that rule leaves one list of regions |
| RasterDrawings.DrawnRuns | src/ingestion/extract_ocr.py:202-261 | on a page with green stripes and nothing else the runs are exactly the stripes |
| RasterDrawings.TwoStripesExactly | src/ingestion/extract_ocr.py:202-301 | a page with two stripes has one card if they are borders that pair, and none otherwise |
| ReadingOrder.SortOneColumn | src/ingestion/extract_ocr.py:1281-1307 | the loop over rows and row centers computes the column |
| ReadingOrder.SortReadingOrder | src/ingestion/extract_ocr.py:1310-1319 | a positive width gives the left column followed by the right one, any other is refused |
| ReadingOrder.RowsExactly | src/ingestion/extract_ocr.py:1288-1300 | the rows are the only cut of the sorted lines into segments that stay near their mean and start away from the previous mean |
| ReadingOrder.ColumnRows | src/ingestion/extract_ocr.py:1281-1307 | row centers go down the page by more than the tolerance, and each row is sorted by its key |
| ReadingOrder.LayoutKeeps | src/ingestion/extract_ocr.py:1310-1319 | the output is the input rearranged, everything left of the middle first |
| ReadingRule.ColumnReads | src/ingestion/extract_ocr.py:1281-1307 | a column is its lines from top to bottom, cut where a line is farther from the mean of its row than half the median height and at least one point, each row from left to right |
| ReadingRule.PageReads | src/ingestion/extract_ocr.py:1310-1319 | a page is the column of the lines that start left of the middle, then the column of the others |
| ReadingOrderTies.LayoutStable | src/ingestion/extract_ocr.py:1281-1319 | lines that tie keep their order |
| ReadingOrderTies.OrderIndependentExactly | src/ingestion/extract_ocr.py:1281-1319 | the reading order depends on the input order exactly when two different lines tie |
| NativeTemplates.ThresholdExactly | src/ingestion/extract_native.py:380-389 | a count is at the threshold exactly when it is positive and at least 40% or 50% of the body pages |
| NativeTemplates.Discover | src/ingestion/extract_native.py:354-377 | counts are the labelled pages with a signature, and repeated are exactly those at their threshold |
| NativeTemplates.RemoveRepeated | src/ingestion/extract_native.py:392-467 | blocks are removed exactly as templates or blanks, everything else is kept, and the result passes the projection check |
| NativeTemplates.CleanedIsValid | src/ingestion/extract_native.py:276-326 | retained and removed split the blocks, and every evidence can be reproduced from its block |
| NativeDocuments.LabelledBound | src/ingestion/manifest.py:238-243 | no document has more labelled pages than body pages |
| NativeDocuments.ExtractDocument | src/ingestion/extract_native.py:547-634 | an extraction never fails over its own evidence, and yields one record for every page |
| NativeDocuments.CheckDocument | src/ingestion/extract_native.py:637-697 | the writer's checks with their independent recount |
| NativeDocuments.WriterTakesExactly | src/ingestion/extract_native.py:637-697 | the writer takes the records of an extraction in any order exactly when every removed template recounts by digest |
| NativeDocuments.ExtractorAgreesWithWriter | src/ingestion/extract_native.py:547-697 | with collision-free digests and the approved body range, extractor and writer always agree |
| NativeRemovals.RemovedExactly | src/ingestion/extract_native.py:276-467 | a block is kept exactly when it has text and does not lie at an edge where labelled pages show its text, at least 40% or 50% of the number of body pages; the page's text is the kept blocks in their order |
| NativeRemovals.WriterVouches | src/ingestion/extract_native.py:637-697 | what the writer accepts has every page once, every block retained or removed, and every removed template counted over the records |
| Normalizer.ApplyLexicalWraps | src/ingestion/normalize.py:261-286 | the loop over the evidence, latest line first, computes the wrapped text |
| Normalizer.WrapsOnlyJoin | src/ingestion/normalize.py:261-286 | for any evidence only hyphens at line ends between letters are deleted, each with its line end |
| NormalizedText.RemovableIndexes | src/ingestion/normalize.py:223-242 | exactly the lines that some evidence names by number or by being the only match |
| NormalizedText.NormalizeText | src/ingestion/normalize.py:201-250 | the passes in their order compute the normalized text |
| NormalizedText.ResultNormal | src/ingestion/normalize.py:201-250 | every result has single inner spaces, no carriage return, no triple or outer line ends, and without line evidence no soft wrap |
| NormalizedText.UnchangedExactly | src/ingestion/normalize.py:201-250 | a composed text is left alone by a pass without evidence exactly when it is in normal form |
| NormalizedText.ResultComposed | src/ingestion/normalize.py:201-250 | every pass keeps composed text composed, so every result is composed |
| NormalizedText.NormalizeIdempotent | src/ingestion/normalize.py:201-250 | without evidence of repeated lines a second pass changes nothing |
| NormalizedText.SoftWrapExactly | src/ingestion/normalize.py:223-250 | the result has a soft wrap exactly when the removed lines stood between two halves of a word |
| NormalizedText.SecondPassExactly | src/ingestion/normalize.py:201-250 | after evidence a second pass changes something exactly when all lines between a soft hyphen behind a letter and a letter were removed |
| NormalizedText.SecondPassComposed | src/ingestion/normalize.py:201-250 | the same for every text and evidence under any composition |
| NormalizedText.RemovalUncoversSoftWrap | src/ingestion/normalize.py:201-250 | a text whose removed header uncovers a soft wrap |
| UncoveredWraps.StayingWraps | src/ingestion/normalize.py:236-250 | joining the lines that stay makes a soft wrap exactly where a removal brings its two halves together |
| NormalizerRules.PreparedExactly | src/ingestion/normalize.py:209-216 | preparing a text gives its lines, over any line end, with separators as dots and their words with single blanks |
| NormalizerRules.WrapsExactly | src/ingestion/normalize.py:261-286 | reviewed wraps join a line with the next exactly where evidence for this text and line names the two halves |
| NormalizerRules.SoftenExactly | src/ingestion/normalize.py:221-222 | joining soft wraps takes out exactly the soft hyphens at line ends between letters, with their line ends |
| NormalizerRules.RemovedExactly | src/ingestion/normalize.py:223-242 | a line is removed exactly when evidence for this text from more than half of the pages, in the upper or lower tenth, names its words and its number, or its words when no other line has them |
| NormalizerRules.ResultThinned | src/ingestion/normalize.py:243-250 | the result is the kept text without outer line ends and with at most two line ends in a row, and nothing else is taken out |
| NormalizerRules.NormalizedExactly | src/ingestion/normalize.py:201-250 | the normalizer is these steps one after the other |
| TextLayers.WithCorrectionExactly | src/ingestion/normalize.py:159-198 | a correction goes through exactly when it changes the digest, is later than the last one, meets its expected digests, and has a reviewer, a reason and a UTC time in canonical form; it then only adds itself |
| TextLayers.CheckChain | src/ingestion/normalize.py:134-157 | the validator takes exactly the linked histories with increasing times |
| TextLayers.CorrectionKeepsChain | src/ingestion/normalize.py:159-198 | a correction of valid layers gives valid layers, extends the history and keeps the other layers |
| TextLayers.ValidExactlyMade | src/ingestion/normalize.py:106-198 | layers with given texts at their boundaries are valid exactly when corrections made them from these texts |
| RankingMetrics.ItemScoresExactly | src/evaluation/retrieval_metrics.py:176-189 | an item is found when one of its first ten ranks is accepted, scores the reciprocal of the first such rank and the earned share of the ideal discounts, and is evidenced when the id of such a rank has evidence |
| RankingMetrics.NdcgBound | src/evaluation/retrieval_metrics.py:186-189 | an item's gain is at most the ideal gain, with equality exactly when the leading ranks are all relevant |
| RankingMetrics.PositiveMetrics | src/evaluation/retrieval_metrics.py:167-196 | discounted gain and reciprocal rank are at most recall, which is at most one, and when each bound is reached |
| RankingMetrics.P95Exact | src/evaluation/retrieval_metrics.py:160-164 | the percentile is a sampled value and the only number with 95% at most it and fewer than 95% below it |

## Left out

- Unicode: composition is a function parameter of the normalizer, with the laws of `ComposedText.Composition` where a
  proof needs them; NFKC is a parameter without laws, and the texts that case ids are made from are taken as composed
  already. Full case folding is modelled for ASCII letters only.
- Floating point: thresholds, page coordinates and metrics are exact rationals or reals, so a decision that hangs on
  the rounding of a product is not modelled.
- SHA-256 and JSON: digests are functions of abstract messages.
- The dictionary of business labels is a parameter (`Naming.labels`); the registered slugs are the constant of the source.
- SQLite text, triggers, schema identity, file descriptors, stat comparisons, fsync and bounded reads.
- Failures of directory removal: the cleanup of a failed build is assumed to remove the directory.
- BuildBundle.BuildAll: the code of the builds runs one after the other; overlapping builds are a state machine
  (`OverlappingBuilds`) whose single build is proved to leave what the code leaves.
- OverlappingBuilds.AlwaysPublished: removing a directory is one atomic step, and no exception that the cleanup catches
  comes after the COMMIT.
- PromotionReadiness.FalseReadyExactly: assumes that no promoter's candidate is the name it expects; the code does not
  refuse such a promoter, and `PromotionReadiness.SelfPromotionMakesFalse` shows what it can do.
- BuildStages.PublishBeforeCommit: leaves out an exception after the commit that the cleanup catches; no statement
  there raises one, and `BuildStages.CleanupAfterCommitExactly` says what it would do.
- Promotion: a compare-and-swap is one atomic step that tells the truth, and a manifest
  read sees one whole manifest; attestations and release gates are one flag of the caller.
- ReviewLog.ParseReviewCase: the corrections of a decision and the shape checks of single fields are one flag of the event.
- ChunkSets.BuildChunks: role sources are taken as approved and bound to their spans; their hashes and the aggregate
  comparison with the case text are not modelled, nor are exceptions of the tokenizer.
- ChunkGroups.GreedyIsMinimal, ChunkGroups.GreedyIsUnique: need token counts that do not shrink when a group grows, which a real tokenizer does not promise.
- RankingMetrics.PositiveMetrics: the discount is any positive strictly decreasing function; case-id validity inside an
  observation, the yearly slices and the release thresholds are not modelled.
- RasterCards.LayoutEvidence: scaling the regions to page points is not modelled.
- NativeDocuments.ExtractDocument: page contents are given, or missing where the PDF library fails; the rendering digest and
  the writing of the file are not modelled.
- `IssuedIdRegistry`, promotion envelopes, chunk and relation tables of the stored bundle, gold sets, model locks, the
  command line and the container scripts.
