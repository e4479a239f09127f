# Release and supply-chain gates: a verified model

The tools of this repository decide what may be published: which packages a consumer receives
and whether an advisory or a licence stops a merge, which version number a release may carry,
whether a public name may go, and whether the committed pages still say what the code says. This
project models that logic in Dafny and proves what the tools promise.

| module | what it models |
|---|---|
| `Lockfile` | the dependency graph of a lock: a LIFO worklist over a cyclic graph with extras, one walk per entry point over one shared table |
| `Audit`, `Admissions`, `Expressions`, `Licences`, `Shipping` | the tools that classify what the graph says, licence expressions among them, and why they agree |
| `ReleaseNumbers`, `Surface` | version strings; class signatures and the API snapshot, printed and read back |
| `Planner`, `Gate`, `ReleasePolicy` | the planner that derives a version, the gate that refuses one, and both compared over whole runs of releases |
| `Deprecations` | the published table of deprecation records, and the notice a record must give |
| `Disclosure` | the generated blocks of the security page, edited in place |
| `Alpha` | alpha numbering and retention over versions in the order of PEP 440, "Summary of permitted suffixes and relative ordering" |
| `Recipes` | longest-prefix routing and the factored contract |
| `Reference` | the generated reference directory |
| `Wrappers`, `Ordering`, `Text` | option and result types, `sorted`, and the string operations the tools share |

Code that updates state step by step is a method with a loop, proved against a function or
predicate that says what it computes; the shared label table of the lock walks and the reference
directory are classes with one field that is updated in place. Where a Python loop body is long,
its branches are methods of their own (`Visit` and `ExpandExtras` are the body of `Walk`). Sets
and dictionaries are iterated in arbitrary order wherever the result does not depend on it.
Error messages are datatypes; only the blast radius is text, because the audit decides on it.

## What turned out not to hold

For each of these one lemma says exactly when the code does what it is meant to, and one gives an
input on which it does not.

- A walk whose label is already on packages misses nothing exactly when everything those packages
  depend on is reached another way (`Lockfile.LabelledStartMissesNothing`,
  `Lockfile.StaleLabelHidesDependencies`). `from_lock` never starts a walk like that:
  `Lockfile.EntryPoints` yields no label twice, and by `Lockfile.EntryLabelsAreDistinct` no two
  extras or groups can share one.
- A package that the lock holds and nothing reaches is reported as "not in the lock"
  (`Shipping.NotInLockMeansUnreached`, `Shipping.LockedButUnreached`).
- The audit report is the same under every order of the findings exactly when package and advisory
  tell them apart (`Audit.ReportIgnoresOrder`; `Audit.BroughtForward` gives the two orders).
- The owner printed beside a suppressed finding is one who granted it exactly when the first entry
  with that id, of whatever kind and date, grants it or shares an owner with one that does
  (`Audit.PrintedOwnerGranted`, `Audit.SecretOwnerPrinted`).
- An acceptance permits what it names exactly when it is recorded in normal form, and otherwise
  permits nothing (`Licences.AcceptanceMustBeNormal`, `Licences.ProseAcceptanceIsIgnored`).
- Parentheses in a licence expression do not group. Wherever they stand, an expression is accepted
  exactly when some stretch between two `OR`s is a single identifier that the decision takes
  (`Licences.LoneOperandAccepted`). So in a group an alternative next to an outside obligation is
  never accepted, and with any other alternative the outside obligations are not looked at.
  `Licences.GroupAnsweredRightly` says exactly when that comes to the right answer;
  `(MIT OR X) AND GPL` passes where GPL is forbidden (`Licences.ForbiddenObligationAccepted`), and
  `(X OR MIT) AND GPL` is refused where all is permitted (`Licences.PermittedObligationRefused`).
- docs/versioning.md makes a new protocol member breaking. The gate stops a class that gained
  members exactly when the text of its bases starts with `Protocol`
  (`Surface.LateProtocolGrowsUnnoticed`).
- The planner is minimal exactly when its bump is the one the gate requires, or moves the same digit
  (`ReleasePolicy.PlannerIsMinimal`); a class that gains a method after 1.0.0 is planned as 2.0.0
  where 1.1.0 would do (`ReleasePolicy.GrownClassPlannedAsMajor`).
- The gate makes the number go up exactly when the surface differs
  (`ReleasePolicy.GateForcesIncrease`), so over a release that changes nothing a number can go back.
  For a sequence of tags, the promise to a consumer who pins a channel holds over every clean run
  exactly when no release between two of one channel is a breaking one
  (`ReleasePolicy.PinIsSafeExactly`, `ReleasePolicy.GateLetsNumbersGoBack`). Since a suffix is
  dropped before comparing, it also refuses a release after its own candidate as soon as the
  surface differs (`ReleasePolicy.CandidateBlocksItsRelease`).
- Before 1.0 the decorator accepts removal dates the gate will not ship, 1.7.0 for one, and refuses
  every major, which the gate would take (`ReleasePolicy.WindowMeetsGate`,
  `ReleasePolicy.LateMinorPassesWindow`, `ReleasePolicy.GateMeetsWindow`,
  `ReleasePolicy.FirstMajorIsRefused`).
- A record gives the promised notice exactly when the release that publishes it leaves two minors
  to the removal date or is past 1.0, whatever the date the record claims to be from
  (`ReleasePolicy.PublicationIsNotice`); over a clean run of such records every lost name had it
  (`ReleasePolicy.LostNameHadNotice`). Any other record can be followed by a clean release that
  gives none (`ReleasePolicy.LateRecordGivesNoNotice`, `ReleasePolicy.BackdatedRecordGivesNoNotice`).
- A block body is overwritten by the next run exactly when it does not hold its own end marker
  (`Disclosure.PutAfterPut`, `Disclosure.RenderIsStableExactly`); an advisory titled with that marker
  makes the page grow (`Disclosure.MarkerInTitleGrowsPage`). When the end marker stands only before
  the begin marker, the page editor raises a bare unpacking error instead of its own
  (`Disclosure.ReplaceSucceedsOnBlocks`, `Disclosure.EndBeforeBeginEscapes`).
- Retention keeps the next alpha number exactly when it keeps the newest alpha of the open base
  (`Alpha.RetentionKeepsNumbering`, `Alpha.DroppedAlphaIsRenumbered`), and keeps as many as it was
  asked for exactly when no version is listed on both sides of the cut (`Alpha.RetentionKeepsEnough`).

## Model

| member | source | states |
|---|---|---|
| `Lockfile.Walk` | tools/lockfile.py:86-112 | Terminates on every lock, cycles included; adds one label and touches no other; succeeds only if no edge of the least closure is unanswered, and then labels exactly the packages the closure names; fails only with an error that an edge of the closure explains. For labels already present the closure is that of the lock cut at those packages |
| `Lockfile.Visit` | tools/lockfile.py:95-112 | One popped edge: dependencies are queued on a first visit only, an extra is expanded once per walk even on a package visited before, and the failure names the absent package or extra |
| `Lockfile.ExpandExtras` | tools/lockfile.py:106-111 | In whatever order the new extras are iterated, the queue gains exactly what they open, or an absent one is reported |
| `Lockfile.ClosureIsReachability` | tools/lockfile.py:92-112 | The least set of edges closed under opening is exactly what chains of openings from an entry edge lead to |
| `Lockfile.LabelledStartMissesNothing` | tools/lockfile.py:100-103 | For every lock and every set of packages already labelled: the walk meets all edges of the closure exactly when each dependency of a labelled package it meets is met another way |
| `Lockfile.StaleLabelHidesDependencies` | tools/lockfile.py:100-103 | Two packages for which a walk whose label was already in the table misses a reachable one |
| `Lockfile.LabelIsOwnClosure` | tools/lockfile.py:56-60 | In a built graph a label is on exactly the packages the closure of its own entry edges names, whatever the other entry points are |
| `Lockfile.EntryPoints` | tools/lockfile.py:78-83 | Yields every entry point of the root, nothing else, no label twice |
| `Lockfile.EntryLabelsAreDistinct` | tools/lockfile.py:78-83 | A label determines its entry edges, since no extra or group can be named so that two labels collide |
| `Lockfile.LastEntryWins` | tools/lockfile.py:46 | Of repeated package names the last entry is the one in the graph |
| `Lockfile.VersionsAreLocked` | tools/lockfile.py:50-54 | A package has a version exactly when its last entry in the lock gives one and it is not the project, and then that one |
| `Lockfile.FromLock` | tools/lockfile.py:38-60 | Succeeds exactly when the root is in the lock and no entry point's closure holds an unanswered edge; then a label is on a package exactly when that label's own closure names it; every refusal is explained by the root or by an edge of a closure |
| `Lockfile.GraphIsUnique` | tools/lockfile.py:56-60 | That specification has one solution, so pop order, set order and the order of entry points cannot show |
| `Lockfile.BlastRadiusTells` | tools/lockfile.py:62-75 | The text "not in the lock" is given exactly for packages without an entry in the reach table, and "development only" exactly for those with only group labels, whatever a package or extra is called |
| `Lockfile.EveryConsumerTells` | tools/lockfile.py:67-68 | "every consumer" is said exactly of packages with the runtime label |
| `Ordering.LeqAtParting` | tools/lockfile.py:70-72 | Names are in order by the first character at which they part, the end of a name coming first |
| `Shipping.EveryConsumerReceives` | tools/lockfile.py:67-68 | Over a graph built from a lock: exactly of what the runtime dependencies reach |
| `Shipping.ExtrasAreNamed` | tools/lockfile.py:70-74 | Where only extras reach a package, the text between "consumers of the" and "extra" splits at ", " into the names of exactly those extras, in order |
| `Audit.Assess` | tools/audit.py:121-156 | Blocks exactly when a suppression has expired or some finding stops the build; tracks exactly the unsuppressed findings that do not, sorted; the report has one line per finding, then one per expired suppression, or the single line for none |
| `Audit.WhatFailsTheBuild` | tools/security_policy.py:48-68 | The build fails exactly when some entry expired before today, or a finding of blocking severity that is not for developers alone has no advisory entry for its id that runs to today or later |
| `Audit.WhatBlocks` | tools/security_policy.py:71-76 | A severity blocks exactly when it spells critical, high or unknown, in whatever case |
| `Audit.ReportIsInOrder` | tools/audit.py:127 | The report goes by package, and by advisory within one |
| `Audit.ReportIgnoresOrder` | tools/audit.py:127-156 | The report is the same under every permutation of the findings if and only if no two different findings share package and advisory |
| `Audit.BroughtForward` | tools/audit.py:127 | Two different findings of one package and advisory, brought to the front in either order, sort differently |
| `Audit.Judge` | tools/audit.py:128-139 | Deciding on the text of the blast radius comes to deciding on reachability |
| `Audit.PrintedOwnerGranted` | tools/audit.py:131-133 | The owner printed for a suppressed id granted the suppression exactly when the first entry with that id does so itself or shares its owner with a later one that does |
| `Audit.SecretOwnerPrinted` | tools/audit.py:131-133 | A secret of the same id, listed first and long expired, has its owner printed |
| `Audit.FindingOrderIsIrrelevant` | tools/audit.py:127-156 | Under every permutation of the findings the blocking decision and the tracked findings are the same |
| `Admissions.Inventory` | tools/admissions.py:152-163 | The packages with a label outside development groups, each with its sorted profiles |
| `Admissions.CheckInventory` | tools/admissions.py:229-246 | Lists every arrival, departure and move, nothing else, each once, in that order and sorted by name; nothing is listed exactly when the maps are equal |
| `Admissions.ProfileReadsBack` | tools/admissions.py:160-162 | The printed list of profiles splits back into the sorted profiles if and only if none of them holds the separator |
| `Admissions.CleanInventoryMeansSameReach` | tools/admissions.py:152-163 | For labels without the separator, two graphs have equal inventories exactly when every package carries the same labels outside development groups |
| `Shipping.InventoryComparesLocks` | tools/admissions.py:229-246 | From one lock to the next, extras named without the separator: the inventory is unchanged exactly when the runtime dependencies and every extra reach the packages they reached before |
| `Admissions.JoinedLabelPrintsAlike` | tools/admissions.py:160-162 | For any two extras, a third named like both together gives the same inventory |
| `Licences.PermitsIgnoresCase` | tools/licences.py:89-100 | Whether a licence is permitted does not depend on its case, prose aliases and outer white space included |
| `Expressions.FoldIgnoresCase` | tools/licences.py:91-95 | Two texts fold alike exactly when nothing but the case of letters tells them apart |
| `Licences.ProseIsNormalised` | tools/licences.py:47-55 | Each of the seven spellings in prose stands for its identifier, everything else for itself without outer white space |
| `Licences.AcceptanceMustBeNormal` | tools/licences.py:89-100 | An acceptance without outer white space that is no prose alias permits the licence it names; any other changes nothing for any licence asked about |
| `Licences.ProseAcceptanceIsIgnored` | tools/licences.py:89-100 | MIT accepted as "MIT License" is permitted under neither name |
| `Licences.Load` | tools/licences.py:118-133 | Succeeds exactly when something is allowed, every record is complete and every decision takes a permitted licence; each package then has the package, licence, owner and reason that its last table gives, and no other package has a record; every decision kept is permitted by the finished policy; a refusal is that of the first bad acceptance, or else of the first bad decision |
| `Licences.RecordFaults` | tools/licences.py:136-143 | A table is a record of its four fields, or is refused for exactly those that are missing or empty, or else for exactly the unknown ones |
| `Licences.PermittedByTable` | tools/licences.py:126-131 | What must be permitted is the licence each table names, for the package it names |
| `Licences.AcceptedChoiceIsPermitted` | tools/licences.py:151-178 | If a choice is accepted, some part, as the splitter cuts it out, is permitted for the package; without parentheses that is an alternative of the expression |
| `Expressions.SplitClauses` | tools/licences.py:42-43 | Splitting at `OR` gives back the clauses a text was joined from, wherever parentheses stand |
| `Expressions.SplitOnJoined` | tools/licences.py:42-43 | Splitting at an operator undoes joining identifiers with it |
| `Expressions.AnySpellingSplits` | tools/licences.py:42-43 | An operator is found in any case and with any white space around it |
| `Expressions.WrappingComesOff` | tools/licences.py:151-157 | Parentheses and spaces come off a part in any number |
| `Licences.Disjunction` | tools/licences.py:151-178 | `A AND B OR C OR …` is accepted exactly when a recorded decision takes one of the conjunctions, and then that one is permitted as it is written |
| `Licences.RefusalSaysWhy` | tools/licences.py:155-178 | A refused choice is one without a decision, or with a decision for something not offered; a refused conjunction is not allowed |
| `Licences.NothingDeclared` | tools/licences.py:148-149 | A package without a licence, or with an empty one, is refused as such |
| `Licences.ChoiceOfIdentifiers` | tools/licences.py:121-178 | Where everything allowed and accepted is an identifier, such a choice is accepted exactly when the decision takes a single-identifier alternative; it is then permitted, and one with two obligations can never be taken |
| `Expressions.GroupIsClauses` | tools/licences.py:42-43 | `A AND (B OR C) AND D` is the text of clauses in which what is outside stands with the first and the last alternative |
| `Licences.LoneOperandAccepted` | tools/licences.py:151-178 | Where everything allowed and accepted is an identifier: with parentheses around any words, nested or not, an expression is accepted exactly when some stretch between two `OR`s is one identifier that the decision takes |
| `Licences.GroupAccepted` | tools/licences.py:151-178 | A group among obligations is accepted exactly when the decision takes an alternative that no obligation stands next to |
| `Licences.GroupAnsweredRightly` | tools/licences.py:151-178 | That agrees with "some alternative is taken and every obligation is permitted" if and only if every obligation is permitted where such an alternative is taken, and otherwise not all that is meant is there |
| `Licences.GroupHidesObligations` | tools/licences.py:151-178 | For every identifier a decision takes and every text that follows, well formed or not, `(A OR …` is accepted |
| `Licences.PermittedObligationRefused` | tools/licences.py:151-178 | `(X OR MIT) AND GPL` is refused although MIT is taken and both are permitted, and so for any such identifiers |
| `Licences.ForbiddenObligationAccepted` | tools/licences.py:151-178 | `(MIT OR X) AND GPL` is accepted under a policy that permits MIT only, and so for any such identifiers (`Licences.ExampleIsApart` and `Licences.ExampleReads` for these) |
| `Licences.Conjunction` | tools/licences.py:155-162 | `A AND B AND …` is accepted exactly when every part is permitted |
| `Shipping.ReceivedIsLabelled` | tools/licences.py:204-208 | Over a graph built from a lock, the licence tool's shipped names are exactly the packages the runtime dependencies or an extra reach |
| `Shipping.InstalledIsReceived` | tools/licences.py:201-214 | The licence check runs over exactly the installed distributions that the runtime dependencies or an extra reach |
| `Shipping.ToolsAgree` | tools/admissions.py:152-163 | Inventory, shipped names, blast radius and the audit's development-only test describe one set |
| `Shipping.NotInLockMeansUnreached` | tools/lockfile.py:62-66 | Over a graph built from a lock, "not in the lock" is said exactly of packages no entry point reaches; it is right of a package exactly when that package is not one the lock holds unreached |
| `Shipping.LockedButUnreached` | tools/lockfile.py:62-66 | A lock that holds a package which its graph reports as not in the lock |
| `Shipping.AuditBlocksWhatShips` | tools/audit.py:127-139 | From lock to verdict: a finding stops the build exactly when it is unsuppressed, of blocking severity, and on a package that consumers receive or that nothing in the lock reaches |
| `ReleaseNumbers.PartsShow` | tools/versions.py:14-32 | A printed release reads back, whatever non-digit suffix follows |
| `ReleaseNumbers.TruncatedParts` | tools/versions.py:21-27 | A version with one or two numbers is read with zeros for the rest, whatever follows |
| `ReleaseNumbers.PartsNeedsDigit` | tools/versions.py:24-26 | A text names a release exactly when it starts with a digit |
| `Surface.MembersUndoesDescribe` | tools/api_surface.py:87-95 | The splitter recovers header and members from a described class exactly when no member is empty or holds the separator and the header holds no opening |
| `Surface.TwoMembersPrinted` | tools/api_surface.py:94-95 | Members are printed in braces after the header, with a semicolon between them |
| `Surface.OnlyGrewOnClasses` | tools/release_check.py:81-90 | On described classes, growth is the same header, not a protocol's, and inclusion of the member sets |
| `Surface.OnlyGrewIsTransitive` | tools/release_check.py:81-90 | Growth along a chain of releases is growth from the first |
| `Surface.OnlyClassesGrow` | tools/release_check.py:73-74 | Nothing but a class, before and after, can merely grow |
| `Surface.BareClassesGrow` | tools/release_check.py:75-78 | Without members a header counts the same with and without a closing brace |
| `Surface.ProtocolGuardSeesFirstBase` | tools/release_check.py:88 | The guard fires exactly when the list of bases starts with the protocol name |
| `Surface.LateProtocolGrowsUnnoticed` | docs/versioning.md:14-26 | A class that gains members passes as growth exactly when the text of its bases does not start with `Protocol`, so a protocol listed after another base grows unnoticed |
| `Surface.ParseUndoesRender` | tools/release_check.py:35-37 | The snapshot gives back the surface it was printed from exactly when no key or description breaks a line and no key runs into the arrow |
| `Surface.KeysInLines` | tools/api_surface.py:114-116 | The snapshot has one line for each name, in the order of the names |
| `Surface.LastLineWins` | tools/release_check.py:35-37 | Of any file, the names read are those some line is an entry for, each with what its last entry says; other lines are skipped |
| `Text.FirstLineEnds` | tools/release_check.py:37 | Any line boundary ends a line, and a carriage return takes a line feed with it |
| `Text.BreaksAreSpaces` | tools/deprecations.py:62-65 | The ten characters that end a line, all of which stripping takes off too |
| `Surface.DottedNamesArePrintable` | tools/api_surface.py:110-116 | A key without spaces never runs into the arrow |
| `Planner.Why` | tools/release.py:62-95 | A bump is a key exactly when something pending demands it, and its list holds the reasons in order |
| `Planner.NextVersion` | tools/release.py:98-141 | The first breaking fragment without a migration note is refused; with no release yet the first one is planned; otherwise the number is the current release moved by the largest demand |
| `Planner.PlannedDigits` | tools/release.py:134-141 | In the kinds of the fragments and the lists of the diff: which digit of the printed version moves, and that those after it start again |
| `Planner.PlanRefused` | tools/release.py:120-132 | A plan is refused exactly for a breaking or removed entry without a migration note, or for a current version that names no release; the first release is 0.1.0 |
| `Planner.ReasonsSay` | tools/release.py:74-95 | Under each bump stand exactly the fragments, removed and changed names, and the count of new ones, that demand it |
| `Planner.DiffHolds` | tools/release_notes.py:288-294 | The three lists of the diff hold exactly the added, removed and changed names, in order |
| `Planner.BumpedIsMonotone` | tools/release.py:134-141 | Every bump raises the number, and a larger bump never gives a smaller one |
| `Planner.MorePendingNeverLowers` | tools/release.py:98-141 | More fragments or a larger diff never lower the planned number |
| `Gate.Check` | tools/release_check.py:93-133 | The verdict on two surfaces, records and version strings, or the first version string that names no release |
| `Gate.RecordProblemsSay` | tools/release_check.py:121-132 | Record problems are reached exactly when every date on record can be read; they list each name that has no record or a date still to come, once, in order; otherwise the error is that of the first unreadable date |
| `Gate.VerdictSays` | tools/release_check.py:93-133 | A problem is reported exactly when it is true of the release: the surfaces differ and the number does not rise, something broke in no breaking release, something was added in a patch, a broken name has no record, or its date is still to come |
| `Gate.VerdictOnRelease` | tools/release_check.py:93-133 | The verdict in the words of the surfaces and records alone: what is broken, what appeared, and what the last record about a name promises |
| `Gate.LastRecordWins` | tools/release_check.py:121 | Every name with a record is scheduled by its last one, and no other name is |
| `Gate.ChangedFunctionBreaks` | tools/release_check.py:103-128 | A changed name that is no class, before or after, needs a breaking release and a record |
| `Gate.RemovalsComeFirst` | tools/release_check.py:102-107 | Broken names are listed removals first, and each part in order |
| `ReleasePolicy.PlannerSatisfiesGate` | tools/release.py:98-141 | For all surfaces, fragments and current versions, the planned number is higher and trips none of the gate's number rules |
| `ReleasePolicy.PlannedReleaseNeedsOnlyRecords` | tools/release_check.py:109-133 | From version text to verdict: after a planned release only deprecation records can be left to fix |
| `ReleasePolicy.RequiredIsLeast` | tools/release_check.py:109-119 | The number the required bump gives is the least the gate accepts above the current one |
| `ReleasePolicy.PlannerIsMinimal` | tools/release.py:87-141 | The planned number is the least acceptable one exactly when the planner's bump is the required one, or both move the same digit before 1.0 |
| `ReleasePolicy.GrowthIsOverplanned` | tools/release.py:89-90 | From 1.0 on, when classes grew and nothing broke, a major is planned and a minor is the least the gate takes |
| `ReleasePolicy.GrownClassPlannedAsMajor` | tools/release.py:89-90 | A class with a second method after 1.0.0 |
| `ReleasePolicy.NoExcessMeansMinimal` | tools/release.py:62-95 | When no changed class merely grew and no fragment demands more than the diff, the plan is minimal |
| `ReleasePolicy.PinIsSafeExactly` | docs/versioning.md:33-45 | For every sequence of versions: every clean run with those versions keeps each public name, unchanged or grown, from any release of a channel to any later one of it, if and only if no release between two of one channel is a higher, breaking one |
| `ReleasePolicy.PinnedConsumerKeepsSurface` | docs/versioning.md:33-45 | So the promise holds along any run that the number rules let through and that never goes back |
| `ReleasePolicy.LostNameWasPromised` | tools/release_check.py:121-132 | Along any run with no problem reported, a name that is not kept was promised for removal in an earlier release, and the promise was due in a higher, breaking release |
| `ReleasePolicy.GateForcesIncrease` | tools/release_check.py:102-119 | The number rules make the version go up exactly when the two surfaces differ at all |
| `ReleasePolicy.BreakingOpensChannel` | tools/release_check.py:64-68 | Going up, a release is a breaking one exactly when it is the first of another channel; going down, exactly when it comes from 1.0 or later to a higher minor before 1.0 |
| `ReleasePolicy.GateLetsNumbersGoBack` | tools/release_check.py:111-119 | Three releases, each clean, that reuse a version and lose a name inside a channel |
| `ReleasePolicy.PlannedRunIsGated` | tools/release.py:126-141 | Every run of planned releases passes the number rules at every step and never goes back |
| `ReleasePolicy.PlannedVersionsIncrease` | tools/release.py:134-141 | Over a run of planned releases versions strictly increase, so none repeats |
| `ReleasePolicy.DerivedMajorStaysZero` | tools/release.py:126-141 | From the first release on, no derived number ever leaves 0 |
| `ReleasePolicy.MajorMovesOnlyOnBreaking` | tools/release.py:134-141 | From 1.0 on, the major moves between two releases exactly when a step in between had a breaking reason |
| `ReleasePolicy.WindowMeetsGate` | src/tesserix_adk/core/deprecation.py:105-128 | A removal date the decorator accepts is a breaking release to the gate exactly when it was announced after 1.0 or lies before it |
| `ReleasePolicy.LateMinorPassesWindow` | src/tesserix_adk/core/deprecation.py:114-128 | 1.7.0 is accepted as removal date for an announcement in 0.1.0 and is no breaking release after anything |
| `ReleasePolicy.GateMeetsWindow` | src/tesserix_adk/core/deprecation.py:105-128 | A date the gate would let the removal ship on is accepted exactly when it was announced after 1.0, or lies before 1.0 and two minors on |
| `ReleasePolicy.FirstMajorIsRefused` | src/tesserix_adk/core/deprecation.py:122-128 | From anywhere before 1.0 the first major is refused as too little notice although the gate takes it |
| `ReleasePolicy.PublicationIsNotice` | docs/versioning.md:45-48 | For an accepted window: every breaking release the removal may ship in leaves notice after the release that publishes the record, if and only if that release is past 1.0 or the removal date leaves notice after it |
| `ReleasePolicy.LostNameHadNotice` | docs/versioning.md:45-48 | Along any run with no problem reported whose records were each published early enough in that sense, a name that is not kept was announced two minors, or a major from 1.0 on, before the release that lost it |
| `ReleasePolicy.DatedInTimeIsAhead` | src/tesserix_adk/core/deprecation.py:105-128 | An accepted record that is published by the release it is dated to is early enough |
| `ReleasePolicy.LateRecordGivesNoNotice` | src/tesserix_adk/core/deprecation.py:105-128 | For any accepted record first published too late: the next minor may drop the name, with no problem reported and no notice given |
| `ReleasePolicy.BackdatedRecordGivesNoNotice` | src/tesserix_adk/core/deprecation.py:105-128 | Three releases, each clean, whose record is dated before the release that first publishes it: the name goes without notice |
| `ReleasePolicy.CandidateBlocksItsRelease` | tools/versions.py:21-27 | A candidate's tag reads as the release itself, which is then refused as already released exactly when the surface differs |
| `ReleasePolicy.GateReadsWhatWasReleased` | tools/release_check.py:93-133 | The gate on committed snapshot and records gives the verdict on the surface and records they were printed from |
| `Deprecations.Parse` | tools/deprecations.py:59-75 | The loop reads exactly the table rows, in order, or fails on the first row that has not five cells |
| `Deprecations.RenderReadsBack` | tools/deprecations.py:48-75 | A rendered page gives back its records, an empty or dashed reason read as none; the empty page gives none |
| `Deprecations.ReadUndoesRender` | tools/deprecations.py:48-75 | The page gives back exactly its records if and only if every record is well formed |
| `Deprecations.RenderAfterReadIsStable` | tools/deprecations.py:48-75 | Rendering what was read changes nothing more |
| `Deprecations.PageLines` | tools/deprecations.py:48-56 | Line by line: the opening, then that nothing is live, or the head of the table and a row for each record |
| `Deprecations.EmptyCellIsEmptyReason` | tools/deprecations.py:65-73 | A row whose last cell is empty is read with an empty reason, not without one |
| `Deprecations.FiveCellsAreRead` | tools/deprecations.py:65 | A table row is read exactly when it has five cells |
| `Deprecations.NoReasonIsDash` | tools/deprecations.py:53 | No reason, or an empty one, is printed as a dash |
| `Deprecations.WindowFaults` | src/tesserix_adk/core/deprecation.py:109-128 | Which of the three faults a removal date has |
| `Disclosure.ReplaceSucceedsOnBlocks` | tools/disclosure.py:278-284 | Replacing succeeds exactly when some end marker follows some begin marker, and the unpacking error escapes exactly when both occur and none does |
| `Disclosure.GetAfterPut` | tools/disclosure.py:278-284 | Between the markers of a replaced block stands the body that was put there |
| `Disclosure.ProseIsKept` | tools/disclosure.py:278-284 | The text before and after the block is kept character for character |
| `Disclosure.PutAfterPut` | tools/disclosure.py:278-284 | A second replacement overwrites the first exactly when the first body does not hold the end marker |
| `Disclosure.DisjointBlocksCommute` | tools/disclosure.py:272-284 | Edits to two disjoint blocks can be made in either order |
| `Disclosure.EditBothIsStable` | tools/disclosure.py:272-284 | Editing both blocks twice is editing them once |
| `Disclosure.EndBeforeBeginEscapes` | tools/disclosure.py:280-283 | The page that holds the two markers the wrong way round gets the unpacking error |
| `Disclosure.EditBothIsStableInOrder` | tools/disclosure.py:272-284 | With one block before the other and the first body free of the markers that matter, editing twice is editing once exactly when the second body does not hold its end marker |
| `Disclosure.RenderIsStable` | tools/disclosure.py:272-308 | A page with both blocks in any order regenerates, and regenerating the result changes nothing, for tables that hold no marker |
| `Disclosure.RenderIsStableExactly` | tools/disclosure.py:272-308 | On a page laid out as the published one, with a table of targets that holds neither its own end marker nor the begin marker of the advisories: regenerating twice is regenerating once exactly when the table of advisories does not hold its own end marker |
| `Disclosure.RenderIsStableReversed` | tools/disclosure.py:272-308 | The same with the advisories above the targets, where the table of targets must not hold its own end marker nor the table of advisories the begin marker of the targets |
| `Disclosure.MarkerInTitleGrowsPage` | tools/disclosure.py:297-308 | An advisory titled with the end marker: the second run differs from the first |
| `Disclosure.PlainTablesAreNeutral` | tools/disclosure.py:287-308 | Tables whose cells hold no `<` hold no marker |
| `Disclosure.TablesAreRows` | tools/disclosure.py:287-308 | But for its last line feed a table is its head and a row for each record, in order; without advisories it is a sentence |
| `Disclosure.TargetColumnsByName` | tools/disclosure.py:293 | The columns of the targets, in order |
| `Disclosure.AdvisoryColumnsByName` | tools/disclosure.py:306 | The columns of the advisories, in order |
| `Disclosure.TargetRowShows` | tools/disclosure.py:288-291 | A target's row shows its severity, the days to acknowledge it and then the days to fix it |
| `Disclosure.AdvisoryRowShows` | tools/disclosure.py:300-304 | An advisory's row shows its six columns; no fix is a dash, no publication an embargo |
| `Disclosure.RenderedBlocks` | tools/disclosure.py:272-275 | After a run each block holds its own table |
| `Alpha.VersionsAreOrdered` | tools/alpha.py:101-115 | The order of PEP 440 on the modelled versions is total and antisymmetric |
| `Alpha.PhasesInOrder` | tools/alpha.py:101-115 | The phases of one release in the order of PEP 440, with development and post releases of each |
| `Alpha.ReleaseDecides` | tools/alpha.py:101-115 | Every version of a lower release comes first, whatever its suffixes |
| `Alpha.WhatIsStable` | tools/alpha.py:94-116 | Stable and shipped is what has no pre-release and no development number, post releases included; alphas are those of phase `a` |
| `Alpha.NextBaseIsNearest` | tools/alpha.py:92-102 | It opens a minor, and no other release that does lies above every stable one and below it; without a stable release it is 0.1.0 |
| `Alpha.NextAlphaIsNearest` | tools/alpha.py:84-89 | No smaller positive number is above every alpha of the base |
| `Alpha.NextAlphaAdvances` | tools/alpha.py:72-102 | The next alpha of the next base is never refused, is new, is above every stable version and every alpha of its base, and below that base's release |
| `Alpha.PublishNext` | tools/alpha.py:140 | The same from the raw index, entries that are no versions ignored |
| `Alpha.AlphaRefusedOnceShipped` | tools/alpha.py:78-82 | An alpha is refused exactly for a base that shipped as that very version |
| `Alpha.StaleNamesOnlyAlphas` | tools/alpha.py:105-119 | Retention names only alphas of the index, every alpha of a shipped base, in two sorted runs |
| `Alpha.AfterKeepsReleases` | tools/alpha.py:105-119 | What has shipped and the next base are the same after the removals |
| `Alpha.RetentionKeepsNewest` | tools/alpha.py:115-119 | At most `keep` open alphas are left, and none dropped is newer than one kept |
| `Alpha.RetentionKeepsEnough` | tools/alpha.py:115-119 | Exactly the newest `keep` open alphas are left, all of them when there are no more, if and only if no version is listed both before and after the cut |
| `Alpha.RetentionSettles` | tools/alpha.py:105-119 | After its own removals retention has nothing left to name |
| `Alpha.RetentionKeepsNumbering` | tools/alpha.py:72-119 | The next alpha number survives retention exactly when the base has no numbered alpha yet, or at most `keep` open alphas are no older than its newest |
| `Alpha.DroppedAlphaIsRenumbered` | tools/alpha.py:72-119 | Keeping none, the only alpha of 0.1.0 is dropped and its number is given out again |
| `Recipes.MatchIsSelected` | tools/recipe_coverage.py:82-85 | The first match in specificity order is the longest matching prefix, the earliest declared on a tie; there is none exactly when no prefix matches |
| `Recipes.Mapped` | tools/recipe_coverage.py:76-95 | Succeeds exactly when every route is usable and every symbol has a matching prefix; then each symbol carries the details of its own route; errors name an unusable route or an uncovered symbol |
| `Recipes.DetailsAreRoutes` | tools/recipe_coverage.py:88-94 | Each detail is the route's own, and an extra is there only where the route names one |
| `Recipes.RoutesAreChecked` | tools/recipe_coverage.py:46-55 | Routes are taken as declared exactly when no two share an identifier and one is the fallback; a refusal names exactly the shared identifiers |
| `Recipes.CoverageIsDetermined` | tools/recipe_coverage.py:76-95 | What `mapped` returns is the only coverage in which every symbol carries the details of its longest, earliest prefix |
| `Recipes.Render` | tools/recipe_coverage.py:111-125 | Succeeds exactly when every symbol has an identifier and symbols sharing one differ in nothing else; the tables then factor the coverage |
| `Recipes.FactoringIsLossless` | tools/recipe_coverage.py:111-125 | Joining the two tables gives back the coverage |
| `Recipes.FallbackCovers` | tools/recipe_coverage.py:47-55 | Validated routes cover every symbol under the fallback prefix |
| `Recipes.ValidatedRoutesNeverConflict` | tools/recipe_coverage.py:119-120 | The coverage that validated routes give is never refused as conflicting |
| `Reference.Directory.Write` | tools/api_reference.py:449-458 | The directory afterwards: built pages in place, orphans and temporaries gone, everything else as it was |
| `Reference.Directory.Check` | tools/api_reference.py:461-478 | True exactly when the generated pages are the built ones |
| `Reference.WriteThenCheck` | tools/api_reference.py:449-478 | After a write the check passes if and only if every built page carries the header |
| `Reference.WriteTouchesOnlyGenerated` | tools/api_reference.py:456-458 | A page that is not built survives a write, unchanged, exactly when it does not start with the header |
| `Reference.OtherFilesStay` | tools/api_reference.py:449-458 | A file that is no page outlives a write, unchanged, unless it has the name a page is staged under |
| `Reference.PagesAreWritten` | tools/api_reference.py:451-455 | Every built page is there afterwards as built, and nothing new beside them |
| `Reference.PagesEndInMd` | tools/api_reference.py:456 | What is a page is told by the end of its name |
| `Reference.GeneratedSaysSo` | tools/api_reference.py:457 | What counts as generated is what starts with the header line |
| `Reference.PageIsBlocks` | tools/api_reference.py:394-412 | But for its last line feed a page is its header and its blocks with an empty line between any two |
| `Reference.WriteIsIdempotent` | tools/api_reference.py:449-458 | A second write changes nothing |
| `Reference.LastWriteWins` | tools/api_reference.py:449-478 | After two writes the check passes for the last, and hand-written pages are still there |
| `Reference.PagesCarryTheHeader` | tools/api_reference.py:394-412 | A page joined from the stripped header and any blocks starts with the header |

## Left out

- Everything under `examples/` and `benchmarks/`, and the package re-exports.
- Subprocesses, the network, the file system, TOML and JSON, argument parsing and printing: the model starts from parsed values. `today` is a parameter, dates are day numbers, installed distributions are a set of names.
- Introspection of Python objects and the text of generated reference pages: classes are abstract descriptions, pages are given, and only the header they start with is modelled.
- Message wording, the release plan and the assembled notes: messages are datatypes.
- Unicode case folding, lower-casing and digits: `Fold`, `Lower` and `Parts` know ASCII only.
- Nested licence expressions: parentheses do not group in the code either, and what that accepts is stated; a grammar of SPDX expressions is not modelled. Licence lookup in distribution metadata is not modelled.
- Licences.Conjunction: asks, like `Licences.Disjunction`, that no identifier joined with `AND` is itself spelled "or", which no SPDX identifier is.
- Admissions.CleanInventoryMeansSameReach: asks for labels without the separator `, `; `Admissions.ProfileReadsBack` says that a printed list can be told apart into its profiles only without it, and `Admissions.JoinedLabelPrintsAlike` that two graphs can otherwise print alike. `Shipping.InventoryComparesLocks` puts it as a condition on the names of the extras, which no name that a lock file normalises fails.
- Alpha: versions have epoch 0, three release numbers and no local part, already normalised; parsing is an option type.
- Recipes.Mapped: whether a route's file exists and its page includes it is a parameter; which of several unusable routes or uncovered symbols is reported first is not stated.
- Lockfile.FromLock: when several edges are unanswered, which of them is reported is not stated, since set iteration order decides it.
- Audit: attaching severities and choosing the lowest fixing version are not modelled; the owner printed beside a suppressed finding is the first entry with that advisory id, as in the code.
- Reference.Directory.Write: page names end in `.md` with something before it, so that the temporary name is the name with `.tmp` appended; an interrupted write is not modelled.
- Checks of single records (admission records, advisory deadlines, undocumented symbols, stale deprecations, downstream pins): single-branch tests that would only add easy members.
