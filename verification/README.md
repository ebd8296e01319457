# pvecli, modelled and proved in Dafny

`pvecli` drives a Proxmox VE node through its API. Most of it is plumbing; this
project models the parts that decide something, and proves what they decide on
every input, every run and every reachable state:

- the service catalogue: a manifest checked for dependency cycles, and a request
  expanded into an install order (`Catalog`, `CycleCheck`, `Resolve`,
  `CatalogLimits`, `PairwiseOrder`);
- what apt would change on a node: version ordering, the pending list, the
  reboot verdict (`Versions`, `Assess`), and the guarded switch away from the
  enterprise repositories (`NoSubscription`, with a node that meets its
  assumptions in `PlainNode`);
- the block kept in a shell startup file (`ShellHook`);
- a Cloudflare tunnel's ingress table (`Ingress`);
- the declaration file of VMs and containers, which share one vmid namespace
  (`Declaration`), and what its commands leave in each field (`TypedFields`);
- the partial update of a backup job and its retention string (`BackupJob`,
  `Retention`);
- three small protocols: the cache in front of the release check
  (`UpdateCheck`), the replacement of the running binary (`Upgrade`), and the
  wait for a rebooted node (`NodeReturn`).

`Text` holds Go's string operations with the facts used about them, `Results`
the option and result types.

Code that changes state is a class with its fields or a method with its loop,
and each such method is proved equal to a specification function; the properties
are then lemmas about those functions, over single calls and over whole runs.
Strings are sequences of code points, which compare as their UTF-8 bytes do; text
that is not UTF-8 is not modelled. Whatever comes
from outside (answers of the node, the clock, prompts, failing file operations,
SHA-256, the order in which Go ranges over a map) is a parameter, so the
theorems hold for all of them.

## Where the code differs from its documentation

The model follows the code.

- `Resolve` is documented to break ties by manifest order
  (internal/catalog/catalog.go:147-150). Its order follows the request
  (`Resolve.OrderFollowsTheRequest`) and, inside one entry, the order of
  `requires` (`Resolve.OrderFollowsTheNeeds`). The documentation holds of every
  request exactly when the catalogue has no two unrelated services to order
  (`CatalogLimits.ManifestBreaksNoTie`); with ids a request cannot name, exactly
  when it holds of every request of two entries
  (`PairwiseOrder.RequestsOfTwoDecide`). `CatalogLimits.TiesIgnoreTheManifest` is a
  request for which it fails.
- `Parse` accepts ids with surrounding spaces, which `Resolve` trims away. Such a
  catalogue can produce a declaration that no longer resolves
  (`CatalogLimits.SpacedIdBreaksRedeclaration`); redeclaring keeps the tags
  exactly when each recorded id trims to nothing or to a recorded id
  (`Resolve.RedeclareKeepsTags`).
- Two versions can agree once all leading zeros are stripped and still differ: a
  run of zeros is not an absent run (`Versions.ZeroRunIsNotNothing`). The exact
  rule keeps one zero (`Versions.EqualMeansSameCanonical`).
- A retention change on a job with `remove=0` is refused even with `--prune` in
  the same command, which the refusal itself recommends (cmd/backup_job.go:658-670;
  `BackupJob.PruneInTheSameCommandDoesNotHelp`). Two commands work
  (`BackupJob.PruneFirstHelps`).
- The digest of the plan is said to make a changed node refuse the first write
  (cmd/node_apt.go:240-242). An empty digest is not sent
  (internal/pve/apt.go:135,152): a first write a node can carry out is made if
  and only if the digest is current or empty (`NoSubscription.SendAddition`,
  `NoSubscription.SendDisable`, `NoSubscription.ApplyNoSub`), so with an empty one
  a changed node is written to. A stanza is addressed by its index, and the write
  can hit one the plan never named (`PlainNode.StaleIndexHitsAnotherStanza`).
- A begin marker without an end marker makes removal drop the rest of the file
  (`ShellHook.UnclosedBlockLosesTheRest`).
- A block that sources anything but the current path is said to be replaced
  (cmd/update_hook.go:282-293). The code looks for the source line anywhere in the
  file, so a comment of the user's that holds it keeps a stale block
  (`ShellHook.CommentKeepsAStaleBlock`). `ShellHook.InstallRewires` says exactly
  when a block is replaced, `ShellHook.LastInstallIsWired` which install of a run
  takes effect.
- `wait` looks at its deadline only after a status call.
  `NodeReturn.WaitOutlastsItsDeadline` is a schedule on which it ends at twice its
  deadline; it ends in time exactly when some call over by then reads a lower
  uptime or is followed by a cancellation (`NodeReturn.EndsByTheDeadline`), and
  otherwise within one pause and one call (`NodeReturn.EndsNearTheDeadline`).
- `--notify` reads the tag of the cache and not its success bit; it tells the
  truth because no run writes a tag with a failure
  (`UpdateCheck.NotifyTrustsTheTag`, `UpdateCheck.RunsStaySincere`).
- The temporary file is said to be removed on every failure path
  (cmd/upgrade.go:258-260), but the removal ignores its own error (line 270): the
  file stays exactly when, after it was created, a step fails and the removal
  fails too (`Upgrade.LeftBehindExactly`); `Upgrade.FileLeftBehind` carries such
  a schedule through the model.
- An empty difference is said to mean that the declaration already says exactly
  this (cmd/declare.go:146-148). Differences are taken on joined lists: a
  difference is empty exactly when the entries differ in their lists only and the
  lists are cut alike at commas (`Declaration.EmptyDifferenceExactly`), and then
  nothing is written (`Declaration.FileChangesWithTheEntry`). A hand-edited entry
  whose lists are one string each is never put right
  (`Declaration.HandEditedListsStay`), nor are two ids with commas reordered
  (`Declaration.CommasHideAChange`). Between entries whose tags are derived from
  their services it does mean that nothing changes, if the ids of one of them hold
  no comma (`Declaration.EmptyDifferenceMeansSame`).
- Redeclaring is said to leave what was not typed alone (cmd/declare.go:205-207).
  Repeating the command that created a guest with picked services changes its tags
  exactly when the recorded ids resolve and one of them, once trimmed, is not
  recorded (`Declaration.RepeatingIsANoOp`); `Declaration.RepeatingCanRetag` is a
  catalogue and a command for which it does.

## Model

| member | source | states |
|---|---|---|
| Catalog.Find | internal/catalog/catalog.go:129-136 | the entry returned carries the id; none is returned only if no entry carries it |
| Catalog.FindOfUnique | internal/catalog/catalog.go:101-112 | with unique ids, looking up an entry's id gives that very entry |
| Catalog.ReachesFirstStep | internal/catalog/catalog.go:165-169 | whatever an id needs, directly or not, is a direct dependency or lies behind one |
| Catalog.ClosureUnfolds | internal/catalog/catalog.go:165-171 | what an id brings in is itself and what its dependencies bring in |
| Catalog.NeedsLieBelow | internal/catalog/catalog.go:199-202 | without cycles the dependencies of an id bring in strictly less than it does, so expansion ends |
| CycleCheck.SettledIsAcyclic | internal/catalog/catalog.go:211-227 | an id finished after everything it needs lies on no cycle |
| CycleCheck.Walker.Walk | internal/catalog/catalog.go:211-227 | grey ids stay exactly the current path and black ids closed under dependencies; a success leaves the id black, an error names an id that needs itself |
| CycleCheck.Walker.WalkNeeds | internal/catalog/catalog.go:219-226 | the loop over dependencies keeps that state and leaves all of them black, or reports a real cycle |
| CycleCheck.CheckCycles | internal/catalog/catalog.go:202-235 | no error if and only if the dependency graph has no cycle; an error names an id that needs itself |
| CycleCheck.ExplainedIsInvalid | internal/catalog/catalog.go:94-124 | no refusal is a false alarm: the fault it names makes the manifest invalid |
| CycleCheck.Parse | internal/catalog/catalog.go:89-126 | accepts exactly the manifests of version 1 with at least one service, ids and roles given, ids unique, dependencies declared and no cycle; a refusal names a fault present, in the order they are looked for |
| Resolve.PostOrderResult | internal/catalog/catalog.go:156-172 | visiting an id keeps what was listed in place, keeps dependencies first and ids unique, and adds exactly the id and what it reaches |
| Resolve.PostOrderAllResult | internal/catalog/catalog.go:165-169 | the same for a list of ids |
| Resolve.MarkedMeansListed | internal/catalog/catalog.go:157-164 | in an acyclic graph an id found marked already has its entry, so marking on entry hides nothing |
| Resolve.OpenBelow | internal/catalog/catalog.go:164-169 | on the way down, a mark without an entry always belongs to something that needs the id being visited |
| Resolve.Resolver.Visit | internal/catalog/catalog.go:156-172 | with its two captured variables, visit fails exactly on an unknown id (changing nothing) and otherwise extends the list as the reference order does |
| Resolve.Resolver.VisitNeeds | internal/catalog/catalog.go:165-169 | the loop over dependencies lists them all, without the service that needs them |
| Resolve.Resolve | internal/catalog/catalog.go:151-185 | Resolve with its marks computes the reference order of the trimmed, non-blank request, or names the first unknown id and the known ones |
| Resolve.RequestedMembers | internal/catalog/catalog.go:174-179 | an id is asked for exactly when it is non-blank and some entry trims to it |
| Resolve.RequestedConcat | internal/catalog/catalog.go:174-179 | ids are asked for in the order of the request |
| Resolve.ResolutionIsTheClosure | internal/catalog/catalog.go:147-185 | a request fails exactly when a non-blank entry names no service; otherwise the answer is its transitive closure, each service once, after all it needs |
| Resolve.RefusalNamesTheFirst | internal/catalog/catalog.go:157-163 | a refusal names the first entry that names no service, trimmed, and lists the ids of the catalogue |
| Resolve.ReplayFrom | internal/catalog/catalog.go:151-185 | replaying an install list from any point rebuilds the rest of it |
| Resolve.ResolveAgain | internal/catalog/catalog.go:151-185 | resolving the ids of an answer gives the same answer, when they carry no surrounding spaces |
| Resolve.TagsHoldTheIds | internal/catalog/catalog.go:190-197 | the tag list holds the tag of an id exactly when the id was resolved |
| Resolve.TagsDependOnTheIdsOnly | internal/catalog/catalog.go:187-197 | two install lists carry the same tag list if and only if they hold the same ids |
| Resolve.TagsDependOnTheRequestedSet | cmd/declare.go:269-298 | order, repetition, blanks and spaces in a request change neither its success nor its tags |
| Resolve.RedeclareKeepsTags | cmd/declare.go:290-298 | resolving the recorded ids again succeeds with the same tags if and only if each trims to nothing or to a recorded id |
| Resolve.PostOrderAllConcat | internal/catalog/catalog.go:165-169 | visiting a list is visiting its first part, then its second |
| Resolve.OrderFollowsTheRequest | internal/catalog/catalog.go:174-184 | whatever the first k entries of a request bring in stands before everything else, for every request and k |
| Resolve.OrderFollowsTheNeeds | internal/catalog/catalog.go:164-171 | inside an entry, whatever its first j dependencies bring in comes first, for every j, and the service itself last |
| CatalogLimits.AskedFirstListedFirst | internal/catalog/catalog.go:147-184 | of two unrelated services, the one asked for first is listed first |
| CatalogLimits.ManifestBreaksNoTie | internal/catalog/catalog.go:147-150 | unrelated services come out in manifest order on every request if and only if no two services are unrelated, when every id can be named in a request; otherwise no two unrelated services a request can name |
| PairwiseOrder.VisitAddsInOneOrder | internal/catalog/catalog.go:156-172 | what a visit adds to a longer list is what it adds to a shorter one, in the same order, but for what the longer one lists |
| PairwiseOrder.TwoEntriesSettle | internal/catalog/catalog.go:151-185 | if a request lists one service before another, so does a request of two of its entries |
| PairwiseOrder.RequestsOfTwoDecide | internal/catalog/catalog.go:147-150 | for every valid catalogue, ties follow the manifest on every request if and only if they do on every request of two entries |
| CatalogLimits.TiesIgnoreTheManifest | internal/catalog/catalog.go:147-150 | a valid manifest and a request whose answer is not in manifest order |
| CatalogLimits.SpacedIdBreaksRedeclaration | cmd/declare.go:290-298 | a valid manifest whose resolved ids cannot be resolved again |
| CatalogLimits.SpacedIdResolvesToAnother | cmd/declare.go:290-298 | a valid manifest whose resolved ids resolve again to more services |
| Versions.RunLengthIsMaximal | internal/aptcheck/aptcheck.go:269-279 | the run is of one kind and cannot be extended |
| Versions.HeadOfConcat | internal/aptcheck/aptcheck.go:269-279 | a run followed by the other kind is cut exactly after the run |
| Versions.Run | internal/aptcheck/aptcheck.go:269-279 | the loop returns the longest leading run and what follows it |
| Versions.CompareRunIsAntisymmetric | internal/aptcheck/aptcheck.go:281-292 | swapping two runs swaps the sign, across empty, digit and other runs |
| Versions.CompareRunIsTransitive | internal/aptcheck/aptcheck.go:281-292 | comparing runs is transitive, strictly if either step is strict |
| Versions.DigitRunsCompareByValue | internal/aptcheck/aptcheck.go:281-292 | digit runs of any length compare as the numbers they denote |
| Versions.SameLengthOrder | internal/aptcheck/aptcheck.go:291 | at equal length, comparing characters compares the numbers |
| Versions.OtherRunsCompareAsText | internal/aptcheck/aptcheck.go:291 | runs that are not both of digits compare as plain text |
| Versions.CompareVersions | internal/aptcheck/aptcheck.go:257-267 | the loop computes the order the next lemmas are about |
| Versions.FirstRunDecides | internal/aptcheck/aptcheck.go:257-267 | the first runs decide, and if they are equal what follows them does |
| Versions.NothingComesFirst | internal/aptcheck/aptcheck.go:257-267 | a version that has ended comes before one that goes on |
| Versions.OrderIsAntisymmetric | internal/aptcheck/aptcheck.go:252-267 | swapping two versions swaps the sign; a version equals itself |
| Versions.OrderIsTransitive | internal/aptcheck/aptcheck.go:252-267 | the order is transitive on all strings, strictly if either step is strict |
| Versions.CanonicalKeepsRuns | internal/aptcheck/aptcheck.go:257-283 | stripping redundant zeros moves no boundary between runs |
| Versions.EqualMeansSameCanonical | internal/aptcheck/aptcheck.go:257-292 | two versions compare equal if and only if they agree once the redundant leading zeros of each digit run are stripped |
| Versions.ZeroRunIsNotNothing | internal/aptcheck/aptcheck.go:282-283 | "a0b" is older than "ab", although stripping every zero makes them equal |
| Assess.KernelAbiMatches | internal/aptcheck/aptcheck.go:188-189 | an ABI is extracted if and only if it has the shape asked for and makes up the rest of the name, "-signed" apart |
| Assess.AbiMatches | internal/aptcheck/aptcheck.go:188-189 | an ABI is a digit, then characters other than a space, then "-pve" |
| Assess.KernelMetaMatches | internal/aptcheck/aptcheck.go:184-186 | a series package is "proxmox-kernel-", digits, a dot and digits, and nothing else is |
| Assess.Collect | internal/aptcheck/aptcheck.go:206-219 | the first loop gathers the first upgradable entry of each name, and notes whether one of them brings a kernel |
| Assess.Inspect | internal/aptcheck/aptcheck.go:231-248 | the second loop finds the manager, the restart verdict, the running and the newest kernel |
| Assess.Assess | internal/aptcheck/aptcheck.go:195-250 | the two loops and the sort give the report the next rows describe: from the update list if it could be read, from the versions otherwise |
| Assess.ListedBeforeIsStrictTotal | internal/aptcheck/aptcheck.go:220-229 | the three-level comparison is a strict total order on upgrades of different names |
| Assess.PendingDescribesTheAnswer | internal/aptcheck/aptcheck.go:206-229 | the list is sorted, holds an upgrade exactly for the first upgradable entry of a name, and holds it once |
| Assess.PendingIgnoresOrder | internal/aptcheck/aptcheck.go:206-229 | permuting the answer never changes the list if and only if the entries of each name agree, as they do when names are distinct |
| Assess.ReportListsNames | internal/aptcheck/aptcheck.go:195-219 | a name is in the report if and only if some entry of the answer read, the update list when it was obtained and the versions when not, has a candidate other than what is installed; the report is partial exactly in the second case |
| Assess.ReportListsEntries | internal/aptcheck/aptcheck.go:203-215 | an upgrade of the report copies the first upgradable entry of its name in the answer read, and is important if and only if the versions list its package; nothing else is in the report |
| Assess.ReportIsOrdered | internal/aptcheck/aptcheck.go:220-229 | tracked packages precede all others, among those of a kind Proxmox's own precede the others, and then names go up |
| Assess.KernelUpdateCauses | internal/aptcheck/aptcheck.go:216-242 | a new kernel is announced if and only if a listed entry is a series package or a kernel image not installed yet, or a tracked series package is upgradable |
| Assess.CutBeforeCuts | internal/aptcheck/aptcheck.go:235 | the text before the separator, whole if there is none |
| Assess.ManagerIsTheLastEntry | internal/aptcheck/aptcheck.go:233-236 | the manager copies the last pve-manager entry, and the daemons are to be restarted if and only if what is installed is newer than the version they report before the slash, both known |
| Assess.NoManagerEntry | internal/aptcheck/aptcheck.go:198-236 | without such an entry the manager is blank and no restart is called for |
| Assess.RunningIsTheLastReport | internal/aptcheck/aptcheck.go:237-238 | the running kernel is what the last proxmox-ve entry that names one says |
| Assess.NewestIsFirstAmongEquals | internal/aptcheck/aptcheck.go:243-247 | no installed image is newer than the newest kernel, and every image listed before it is older |
| Assess.NewestIsInstalled | internal/aptcheck/aptcheck.go:243-247 | the newest kernel is an installed image, and is empty exactly when there is none |
| Assess.NewestIsMaximal | internal/aptcheck/aptcheck.go:243-247 | no installed kernel image is newer than the one the loop kept |
| Assess.RebootMeansNewerKernel | internal/aptcheck/aptcheck.go:146-151 | a reboot is required if and only if a running kernel is known and some installed image is strictly newer |
| Assess.RebootIgnoresOrder | internal/aptcheck/aptcheck.go:146-151 | the verdict is the same for every order of the packages if and only if the running kernels reported agree on it |
| NoSubscription.PlanNoSubscription | internal/aptcheck/aptcheck.go:47-73 | the loops give the plan the next rows describe |
| NoSubscription.FilesToDisableMembers | internal/aptcheck/aptcheck.go:65-71 | the plan disables exactly the enabled stanzas on the enterprise mirror |
| NoSubscription.CounterpartsMembers | internal/aptcheck/aptcheck.go:55-63 | besides the PVE repository, it adds exactly the known, disabled counterparts of enabled enterprise repositories |
| NoSubscription.CounterpartOfRelease | internal/aptcheck/aptcheck.go:43-60 | the counterpart of an enabled "x-enterprise" is "x-no-subscription", of the same release x, and of nothing else |
| NoSubscription.PlanAddsTheSameRelease | internal/aptcheck/aptcheck.go:43-63 | for every release x, "x-no-subscription" is added if and only if an enabled "x-enterprise" is listed and "x-no-subscription" is listed and off |
| NoSubscription.PlanAddsNothingElse | internal/aptcheck/aptcheck.go:41-54 | "no-subscription" is added, first, if and only if neither it nor "test" is on; whatever else is added is the free repository of a release, so no test repository is |
| NoSubscription.FirstOfTheHandle | internal/aptcheck/aptcheck.go:50-51 | a repository is looked up by the first entry of its handle |
| NoSubscription.AdditionsInOrder | internal/aptcheck/aptcheck.go:55-63 | additions come in the order of the node's list |
| NoSubscription.FilesInOrder | internal/aptcheck/aptcheck.go:65-71 | disablings come file by file, in order |
| NoSubscription.StanzasInOrder | internal/aptcheck/aptcheck.go:66-70 | and inside a file by rising index |
| NoSubscription.EmptyPlanMeansSwitched | internal/aptcheck/aptcheck.go:35-73 | the plan is empty if and only if a free PVE repository is on, no counterpart is wanted and no enterprise stanza is enabled |
| NoSubscription.AptNode.AddStandardRepo | internal/pve/apt.go:133-139 | an addition takes effect only if the digest sent, when not empty, is current; an error leaves the node as it was or with the write done |
| NoSubscription.AptNode.DisableRepo | internal/pve/apt.go:146-156 | the same for disabling one stanza |
| NoSubscription.NextDigest | cmd/node_apt.go:244-255 | the first write carries the digest of the plan, each later one the digest just read |
| NoSubscription.SendAddition | cmd/node_apt.go:257-265 | on a node that answers and knows the handle, an addition succeeds if and only if its digest is current, empty or just read; one turned away writes nothing |
| NoSubscription.SendDisable | cmd/node_apt.go:266-274 | the same for disabling a stanza that is there |
| NoSubscription.StillOffered | cmd/node_apt.go:257-265 | when its turn comes a planned handle is one the node knows |
| NoSubscription.StillActive | cmd/node_apt.go:266-274 | when its turn comes a planned stanza is still at its index, enabled, on the enterprise mirror |
| NoSubscription.NextAddition | cmd/node_apt.go:257-265 | an addition moves the run one step forward and undoes nothing done before |
| NoSubscription.AfterAddition | cmd/node_apt.go:257-265 | a sent addition, answered or not, moves the run forward or stops it in a reachable state; with a stale digest it does nothing |
| NoSubscription.AfterDisable | cmd/node_apt.go:266-274 | the same for a sent disabling |
| NoSubscription.ReachableIsSafe | cmd/node_apt.go:240-242 | at any point a run may stop at, a free PVE repository is on or no planned stanza has been disabled, and stanzas outside the plan are as they were but for a free one switched on |
| NoSubscription.DoneMeansEmptyPlan | cmd/node_apt.go:217-221 | after all additions and disablings the new plan is empty |
| NoSubscription.SendAdditions | cmd/node_apt.go:257-265 | the first loop keeps the run on course or stops it in a reachable state; a first write turned away for its digest writes nothing, one admitted by a cooperative node is made |
| NoSubscription.SendDisables | cmd/node_apt.go:266-274 | so does the second, whose first write is guarded by the plan's digest if nothing was added |
| NoSubscription.ApplyNoSub | cmd/node_apt.go:243-276 | run on its own plan with no other writer, it ends in a reachable state whatever calls are lost, a success leaves an empty plan, and answered calls make it succeed; a changed node is left alone if the digest is not empty, and a cooperative node that can carry out the first write, an addition or a disabling, is written to if and only if the digest is empty or current |
| PlainNode.NewNode | cmd/node_apt.go:240-242 | from any state there is a node that meets the assumptions made of nodes |
| PlainNode.StaleIndexHitsAnotherStanza | cmd/node_apt.go:266-274 | a plan read without a digest, and a changed node on which its first write switches off a stanza the plan never named |
| ShellHook.EraseKeepsTheOutside | cmd/update_hook.go:125-146 | erasing keeps exactly the lines outside every block, in order |
| ShellHook.RemoveBlock | cmd/update_hook.go:130-146 | the loop drops each line from a begin marker to the first end marker at or after it, and no other |
| ShellHook.HookIsSound | cmd/update_hook.go:37-40 | the two markers can be told apart, hold no newline, and occur in none of the block's comments |
| ShellHook.BlockSourcesThePath | cmd/update_hook.go:104-123 | the lines of a block: the markers around it, and the line that tests the path and sources it last inside |
| ShellHook.SourceLineIsClean | cmd/update_hook.go:104-106 | the source line holds a marker only if the path does |
| ShellHook.EraseUndoesPrint | cmd/update_hook.go:108-146 | erasing a printed block between texts without a begin marker leaves both, one newline between them |
| ShellHook.EraseOfFree | cmd/update_hook.go:130-146 | text without a begin marker is left as it is |
| ShellHook.EraseIsIdempotent | cmd/update_hook.go:130-146 | erasing any text leaves no begin marker, and erasing again changes nothing |
| ShellHook.UnclosedBlockLosesTheRest | cmd/update_hook.go:134-144 | a begin marker with no end marker after it takes the rest of the file with it |
| ShellHook.OnlyClosedBlocksGo | cmd/update_hook.go:134-144 | removal drops only lines of blocks that end if and only if every begin marker has an end marker at or after it |
| ShellHook.HookFiles.Install | cmd/update_hook.go:256-312 | an unknown shell changes nothing; else the snippet is written and the startup file gets the block, keeps it if it sources the path, or has it replaced |
| ShellHook.HookFiles.Uninstall | cmd/update_hook.go:317-346 | the snippet goes, and the block if there is one |
| ShellHook.BlockTellsThePath | cmd/update_hook.go:111-123 | a file ends in the block of one path only |
| ShellHook.InstallRewires | cmd/update_hook.go:282-304 | installing over a block leaves a file that ends in the block of the new path if and only if the path is the same or the file does not hold its source line; and what the file is in each case |
| ShellHook.LastInstallIsWired | cmd/update_hook.go:294-304 | with paths without spaces the last install of a run takes effect if and only if nothing else was wired before it or the user's text does not hold its source line |
| ShellHook.CommentKeepsAStaleBlock | cmd/update_hook.go:292-299 | a user text on which installing a second path leaves the block of the first |
| ShellHook.InstallSources | cmd/update_hook.go:294-304 | after an install the source line of the path occurs in the file, in the block or elsewhere |
| ShellHook.StepWires | cmd/update_hook.go:256-346 | one command keeps the user's text as an untouched prefix, adds at most one newline, and moves the wired path as Wired says |
| ShellHook.EveryRunKeepsTheUsersText | cmd/update_hook.go:256-346 | after any sequence of installs and uninstalls on a file without a begin marker, the file is the user's text, at most one newline for each command, and the block of the path Wired tells, if any |
| Ingress.CatchAllIsTheFirst | internal/cf/tunnel.go:177-184 | the catch-all chosen is the first of the table, the default one exactly when there is none |
| Ingress.Config.Normalise | internal/cf/tunnel.go:175-191 | the table becomes its ordinary rules in order, then the first catch-all or the default one |
| Ingress.Validate | internal/cf/tunnel.go:194-211 | no error if and only if the last rule is the only catch-all and every other rule names a service; each error points at such a fault, the first there is |
| Ingress.Config.RemoveRoute | internal/cf/tunnel.go:225-238 | the rules of the host go, the table is normalised, and the answer says whether there was one |
| Ingress.Config.AddRoute | internal/cf/tunnel.go:216-222 | the rules of the host are replaced by the new one, before the catch-all |
| Ingress.NormalisedParts | internal/cf/tunnel.go:170-191 | normalising keeps the ordinary rules and the catch-all, and twice is once |
| Ingress.RemovedParts | internal/cf/tunnel.go:225-238 | removal takes the host's rules out of the ordinary ones and leaves the catch-all |
| Ingress.AddedParts | internal/cf/tunnel.go:216-222 | addition leaves the other hosts' rules in order, then the new rule, then the catch-all |
| Ingress.NormalisedRoutes | internal/cf/tunnel.go:170-174 | after normalising a request goes to the first ordinary rule that matches, else to the catch-all, wherever that stood |
| Ingress.OtherHostsKeepTheirRule | internal/cf/tunnel.go:213-238 | adding or removing a route leaves every request to another host on the same rule |
| Ingress.AddedHostIsReached | internal/cf/tunnel.go:213-222 | a request to the added host reaches the new rule if and only if no path rule for every host matches it, and otherwise reaches the first of those |
| Ingress.AddThenRemove | internal/cf/tunnel.go:213-238 | adding a route and removing it is removing it |
| Ingress.AddsCommute | internal/cf/tunnel.go:213-222 | two different hosts can be added in either order: every request is routed alike |
| Ingress.EveryRunKeepsTheTable | internal/cf/tunnel.go:175-238 | after any non-empty run of edits the whole table: the rules of hosts not edited in their order, the additions no later edit of their host undoes in theirs, and the first catch-all of the original, the only one |
| Ingress.EveryRunIsAcceptable | internal/cf/tunnel.go:162-238 | Validate accepts the table such a run leaves if and only if the ordinary rules it did not touch all name a service |
| Ingress.AddingNoHostAddsNothing | internal/cf/tunnel.go:216-222 | with an empty hostname the new rule is lost to the existing catch-all |
| Declaration.ResolveSuggestedId | cmd/suggest_id.go:40-92 | the refusals in their order; else the loop ends at the least id at or above the proposal that neither map holds |
| Declaration.Merge | cmd/declare.go:212-262 | the assignments, one after the other, give each field the value the rows of TypedFields describe; cmd/lxc_declare.go:188-227 does the same with the fields of a container |
| Declaration.Plan | cmd/declare.go:104-137 | the entry a command would leave, none exactly for --remove, or its refusal, a vmid held by another guest included; likewise cmd/lxc_declare.go:87-118 |
| Declaration.DeclarationFile.RunDeclare | cmd/declare.go:90-203 | the file changes only for a command that is not refused, not a dry run, allowed, saved, and changes something that shows; then exactly the named entry is put or removed; likewise cmd/lxc_declare.go:73-183 |
| Declaration.SaveMakesNoClash | cmd/declare.go:130-181 | saving touches no entry but the one of its name and kind, and every vmid clash it leaves was there before |
| Declaration.EveryRunKeepsVmidsUnique | cmd/declare.go:90-203 | over any run of vm and lxc declarations vmids stay unique across VMs and containers together |
| Declaration.SuggestedVmidIsFree | cmd/suggest_id.go:66-69 | the vmid of a created guest that keeps the suggestion is the least free one at or above the node's proposal, and it is never refused as taken |
| Declaration.SuggestionsDiffer | cmd/suggest_id.go:32-39 | once a guest is declared, no later suggestion gives its vmid, whatever runs in between and whatever the node proposes |
| Declaration.EveryRunKeepsUntypedFields | cmd/declare.go:205-262 | over any run that does not remove a guest, a field no command typed a flag for ends as it began; the gateway may also move with the ip, the services with --with |
| Declaration.BuildingAgain | cmd/declare.go:205-298 | building again from a built entry gives it back, but for the tags of picked services |
| Declaration.RetaggingShows | cmd/declare.go:290-298 | recorded ids, resolved again, give a tag line that reads the same if and only if each trims to nothing or to a recorded id, commas or not |
| Declaration.RepeatingIsANoOp | cmd/declare.go:90-203 | giving a command twice leaves the file as once if and only if it did not create a guest with picked services whose recorded ids resolve while one of them trims to an id not recorded |
| Declaration.RepeatingCanRetag | cmd/declare.go:290-298 | a catalogue and a creation that, repeated, changes the file |
| Declaration.LinesTellTheNumber | internal/iac/declare.go:305-306 | the joined services and the joined tags together tell how many services there are |
| Declaration.EmptyDifferenceExactly | internal/iac/declare.go:284-355 | for any two entries or none, the difference is empty if and only if they differ in their lists only and the lists are cut alike at commas |
| Declaration.EmptyDifferenceMeansSame | internal/iac/declare.go:284-355 | for entries whose tags are derived from their services, one of them with ids without commas, an empty difference means that nothing changes |
| Declaration.FileChangesWithTheEntry | cmd/declare.go:139-181 | a command that may write and is not refused leaves the file alone if and only if the entry it leaves reads like the one it found |
| Declaration.DerivedEntriesChangeVisibly | cmd/declare.go:139-181 | between derived entries, one of them with ids without commas, if and only if it leaves the entry as it was |
| Declaration.HandEditedListsStay | cmd/declare.go:146-148 | for any catalogue and request, an entry whose lists were run together by hand is not put right by the command that asks for its services |
| Declaration.CommasHideAChange | cmd/declare.go:146-148 | a catalogue, a derived entry and a command that would reorder its services and writes nothing |
| Declaration.GuestTagsAreFaithful | internal/iac/declare.go:241-246 | two sorted service tag lists give the same guest tags only if they are equal |
| Declaration.RedeclaringIsANoOp | cmd/declare.go:290-298 | a guest just declared, redeclared without flags, is rebuilt exactly if and only if each of its service ids trims to nothing or to one of them; likewise cmd/lxc_declare.go:253-259 |
| TypedFields.TypedFlagsArrive | cmd/declare.go:222-237 | in an accepted entry, new or not, each of the eleven fields a flag was typed for holds the value typed; likewise cmd/lxc_declare.go:197-209 |
| TypedFields.RedeclaredFields | cmd/declare.go:205-262 | a declared guest keeps each field no flag was typed for; its gateway is the one typed, else dropped on dhcp, else kept; likewise cmd/lxc_declare.go:188-227 |
| TypedFields.CreatedFields | cmd/declare.go:214-262 | in a new guest each field is the one typed, else the one answered, else the default of its kind, the vmid then being the least free one from the node's proposal on if a suggestion was asked for; likewise cmd/lxc_declare.go:190-227 |
| TypedFields.AcceptedKeepsTheRules | internal/iac/declare.go:218-265 | an accepted entry keeps every rule of Validate and shares its vmid with no other guest |
| TypedFields.RefusedExactly | cmd/declare.go:90-137 | a command is refused if and only if it has a fault, with the first in the order of suggestion, removal, services, missing fields, validity and vmid; else it is accepted; likewise cmd/lxc_declare.go:73-118 |
| TypedFields.RecordedServices | cmd/declare.go:269-298 | the services recorded are what --with or the list resolves to, else those recorded before; the tags are "managed", "pvecli" and "svc_" before each id resolved, in order; likewise cmd/lxc_declare.go:232-261 |
| TypedFields.OnlyAcceptedCommandsWrite | cmd/declare.go:139-181 | a dry run, a refusal at the prompt, a failed save or a refused command leave the file alone; any other leaves the entry announced, or one that reads alike, and every other entry; likewise cmd/lxc_declare.go:120-160 |
| TypedFields.EveryRunKeepsWhatWasTyped | cmd/declare.go:205-262 | over any run whose commands for a guest are accepted and carried out, each field ends as the last value typed for it, and as it began if none was |
| Retention.AtoiItoa | internal/pve/backupjob.go:67-73 | a printed counter is read back, up to Go's largest int |
| Retention.ParsePrint | internal/pve/backupjob.go:55-123 | a printed retention is read back counter by counter; a negative one comes back as zero |
| Retention.PrintOfOne | internal/pve/backupjob.go:55-75 | a single counter is printed as its own key, "=" and its digits |
| Retention.ParseReadsTheLastPair | internal/pve/backupjob.go:101-123 | of any string, a counter is the number after the last part that names it, or zero if that is no number |
| Retention.ParseWithoutAPair | internal/pve/backupjob.go:101-123 | and zero without such a part |
| BackupJob.MergeRetention | cmd/backup_job.go:631-670 | the counters given override those of the node one by one; refused when one is negative, when none is left, or when the job does not prune |
| BackupJob.CollectSimple | cmd/backup_job.go:704-739 | in any order of the flags, the same keys are set and deleted; refused exactly when the schedule or the storage is emptied, naming one that is |
| BackupJob.AddDeletes | cmd/backup_job.go:689-702 | the deletes hold each emptied field once, pool and all included |
| BackupJob.ChangedBackupJobValues | cmd/backup_job.go:625-752 | the loops give the update the next rows describe, or refuse as RefusedExactly says |
| BackupJob.BodyIgnoresTheOrder | cmd/backup_job.go:705-750 | the request does not depend on the order in which Go visits the flags |
| BackupJob.DroppedAreDeleted | cmd/backup_job.go:747-750 | splitting the delete parameter gives back exactly the keys to delete |
| BackupJob.NeverSetAndDeleted | cmd/backup_job.go:621-624 | no key is both set and deleted |
| BackupJob.OnlyPassedFieldsChange | cmd/backup_job.go:609-624 | applied to the job, the update changes only fields whose flag was given, but for the targets the node itself clears |
| BackupJob.StringFlagsArrive | cmd/backup_job.go:704-739 | each of the nine string flags is found in the job under the field it is for: the value given, no field if emptied, the old one without the flag |
| BackupJob.EnabledArrives | cmd/backup_job.go:741-745 | the job says enabled=1 or enabled=0 as the flag did, and what it said before without it |
| BackupJob.PruneArrives | cmd/backup_job.go:672-682 | it does not prune exactly when --prune said so, or, without the flag, when it did not before |
| BackupJob.TargetsArrive | cmd/backup_job.go:684-702 | the pool and the whole-node target are set by their flags, removed by an empty pool or --all=false, and cleared by another target |
| BackupJob.GuestsArrive | cmd/backup_job.go:686-688 | the guests given alone are read back from the job number by number; beside another target the list is empty |
| BackupJob.OtherFieldsStay | cmd/backup_job.go:609-624 | no other field of the job moves, and the retention only with a counter |
| BackupJob.RefusedExactly | cmd/backup_job.go:631-731 | refused if and only if the schedule or the storage is emptied, a counter is negative, none is left, or the retention of a job that does not prune is changed |
| BackupJob.OtherCountersAreKept | cmd/backup_job.go:617-620 | after a retention change the node reads back each counter given, and each other one as it was, or zero if it was negative |
| BackupJob.PruneInTheSameCommandDoesNotHelp | cmd/backup_job.go:658-670 | a retention change on a job with remove=0 is refused with --prune as without |
| BackupJob.PruneFirstHelps | cmd/backup_job.go:658-682 | after --prune alone, the change is accepted exactly when its counters are |
| UpdateCheck.UpdateChecker.ResolveLatestTag | cmd/update.go:292-310 | a fresh cache answers without the network; else the outcome is written, failures too |
| UpdateCheck.UpdateChecker.RunUpdateCheck | cmd/update.go:146-213 | what each mode prints and what it leaves in the cache |
| UpdateCheck.NotifyAnnounces | cmd/update.go:178-192 | --notify announces a tag if and only if a cache still good records it and it is not the installed one |
| UpdateCheck.HumanIsTold | cmd/update.go:194-213 | by hand, the outcome remembered, or asked for with --force or without a good cache: impossible after a failure, up to date on the installed tag, else the other tag |
| UpdateCheck.OthersAreSilent | cmd/update.go:150-166 | a local build never asks and only tells a human; --notify never writes; --refresh never prints |
| UpdateCheck.FetchIsRecorded | cmd/update.go:292-310 | any other call rewrites the file if and only if it is forced or finds no good cache and can write: the outcome, dated at its end |
| UpdateCheck.FileTellsTheLastFetch | cmd/update.go:302-309 | the cache always records the last fetch of a run |
| UpdateCheck.FetchesKeepTheirDistance | cmd/update.go:20-35 | the next fetch starts no earlier than a day after a success and an hour after a failure |
| UpdateCheck.WindowBound | cmd/update.go:24-35 | in a window of length L at most L/1h + 1 fetches start |
| UpdateCheck.NotifyTellsRecentNews | cmd/update.go:178-192 | what --notify prints is the answer of a success less than a day old, and differs from the installed version |
| UpdateCheck.NotifyAfterAFetch | cmd/update.go:178-192 | once a run has reached the network, --notify announces the tag of the last fetch for a day if it is not the installed one, and is silent otherwise |
| UpdateCheck.NotifyTrustsTheTag | cmd/update.go:186-190 | after any run, a tag recorded with a failure is announced if and only if the run never reached the network and started from such a file, still fresh, with another tag; no run writes one |
| UpdateCheck.RunsStaySincere | cmd/update.go:283-309 | no run ever records a tag with a failure |
| Upgrade.SumFor | cmd/upgrade.go:240-253 | the first line of two fields about the asset decides; no such line is an error |
| Upgrade.FieldsOfLine | cmd/upgrade.go:246-248 | a line of shasum splits into its sum and its name, in either spelling |
| Upgrade.FirstSumFindsTheEntry | cmd/upgrade.go:234-253 | on the lines shasum writes, the lookup gives the asset's entry and fails exactly when there is none |
| Upgrade.Fill | cmd/upgrade.go:272-284 | up to the rename only the temporary file is touched; a success leaves it complete and executable; how it ends, for any schedule of failures |
| Upgrade.Settle | cmd/upgrade.go:270-288 | the rename and the deferred removal leave the old disk or the complete new binary, at every step |
| Upgrade.ReplaceBinary | cmd/upgrade.go:262-289 | every state the disk goes through is the old one or the one with the complete new binary, but for one temporary file; after a failure that file is gone if and only if its removal worked; how it ends, for any schedule of failures and crashes |
| Upgrade.LeftBehindExactly | cmd/upgrade.go:258-270 | a failed replacement leaves its file if and only if the file was created, a later step failed and so did the removal after it |
| Upgrade.FileLeftBehind | cmd/upgrade.go:270 | on a schedule where the write and the removal fail, the temporary file is there at the end |
| Upgrade.Screen | cmd/upgrade.go:139-201 | before the write each refusal, "already current" and the dry run are given if and only if their cause is the first one met; else the verified bytes are returned |
| Upgrade.UpgradeTo | cmd/upgrade.go:139-213 | --dry-run writes nothing; each outcome is given if and only if its cause is the first one met; at every step of every run, with a failure or crash anywhere, the destination holds its old bytes or the complete bytes whose digest is the entry for the asset; refusals before the write touch nothing |
| NodeReturn.UptimeGrowsWithoutBoot | cmd/node.go:51-56 | without a boot between two instants the uptime grows by the time elapsed |
| NodeReturn.LowerUptimeProvesBoot | cmd/node.go:51-56 | a lower uptime proves a boot in between |
| NodeReturn.UptimeSinceTheLastBoot | cmd/node.go:51-56 | uptime counts from the last boot |
| NodeReturn.RebootReadsLower | cmd/node.go:51-56 | after a boot the node reads below the reference until it has been up as long again, in whole seconds |
| NodeReturn.Wait | cmd/node.go:57-82 | the loop ends at the first turn that reads a lower uptime, passes the deadline or is cancelled, and its answer says which |
| NodeReturn.SuccessProvesReboot | cmd/node.go:48-65 | a success means the node booted after the reference uptime was read, for every schedule of answers, errors and pauses |
| NodeReturn.ReturnsExactly | cmd/node.go:57-80 | the wait succeeds if and only if some call reads an uptime below the reference and no earlier call was over after the deadline or followed by a cancellation |
| NodeReturn.NoRebootNoSuccess | cmd/node.go:51-56 | no reading of a node that did not boot ends the wait with success |
| NodeReturn.EndsNearTheDeadline | cmd/node.go:66-77 | the wait ends by its deadline plus one pause and one call |
| NodeReturn.EndsByTheDeadline | cmd/node.go:66-77 | it ends by its deadline if and only if some call over by then reads a lower uptime or is followed by a cancellation |
| NodeReturn.WaitOutlastsItsDeadline | cmd/node.go:66-77 | a schedule on which it ends at twice its deadline |
| Text.CompareIsTransitive | internal/aptcheck/aptcheck.go:291 | string comparison is transitive, strictly if either step is strict |
| Text.CompareIsLexicographic | internal/aptcheck/aptcheck.go:291 | a string comes before another if and only if the first difference says so or it is a proper prefix |
| Text.TrimRemovesSpaces | internal/catalog/catalog.go:174-179 | trimming removes nothing but spaces at both ends |
| Text.TrimLeavesNoSpace | internal/catalog/catalog.go:174-179 | and leaves none there |
| Text.SortedIsUnique | internal/catalog/catalog.go:187-196 | under a strict total order a list has one sorted arrangement |
| Text.SameLine | internal/iac/declare.go:305-306 | two lists join to the same line if and only if they are cut alike at the separator |
| Text.FieldCount | internal/iac/declare.go:305-306 | joined text splits into at least as many fields as it was joined from, and into as many only if none holds the separator |
| Text.SplitJoin | cmd/backup_job.go:747-750 | splitting undoes joining when no part holds the separator |
| Text.JoinSplit | cmd/update_hook.go:131-145 | joining undoes splitting, and no field holds the separator |

## Left out

- Resolve.ResolveAgain: one direction only. With ids that carry spaces the list can come back in another order or not at all, depending on which spaced ids are needed by others; what always decides the tags is stated exactly by RedeclareKeepsTags.
- CatalogLimits.ManifestBreaksNoTie: with ids that carry spaces, which a request can only bring in, the absence of ties is not necessary; RequestsOfTwoDecide is the exact condition then.
- NoSubscription.ApplyNoSub: says nothing about another writer between two later writes, where the digest is read just before the write and guards only against that gap; an empty digest guards nothing.
- NoSubscription.AptNode.AddStandardRepo: what the node does with a write is assumed (AddsHandle for handles off the enterprise mirror, DisablesStanza for enabled enterprise stanzas): a handle ends up enabled, stanzas keep their places, a disabling touches one stanza and only the status of enterprise handles may fall with it. A cooperative node accepts the handles it lists and no-subscription. Whether a stanza is on the enterprise mirror is a field; IsEnterprise is not part of this model.
- BackupJob.OnlyPassedFieldsChange: the node's PUT is assumed to delete the listed keys, set the sent ones, and clear the other two targets when one is sent, as cmd/backup_job.go:683-685 says. A sent vmid may be empty when pool or all is given with it; it is treated as set. The three renderings of `remove` on the wire are one string.
- BackupJob.OtherCountersAreKept: for the six counters. keep-all and unknown retention keys of the node are dropped by any retention change, because the parsed form has no place for them. The refusal for a counter beyond 64 bits is the flag parser's.
- BackupJob.CollectSimple: when schedule and storage are both emptied, which one the refusal names depends on Go's map order.
- Ingress.AddedHostIsReached: hostnames match by equality; wildcard hostnames are not modelled. Matching a path is any relation between a rule's path and a request's.
- Declaration.Plan: a taken vmid is refused without the name of its owner, which VMIDOwner picks in sorted order. No terminal to pick services on and a choice given up are one refusal (cmd/pick.go:22-32); the drawing of the list is not modelled.
- TypedFields.EveryRunKeepsWhatWasTyped: the gateway over a run only while no command types an ip; RedeclaredFields gives it command by command. Lists over a run are given command by command by RecordedServices.
- Declaration.Merge: prompts are one optional answer a field; the questions promptInt repeats until a number is typed, and an interrupted one, are not modelled.
- Declaration.EmptyDifferenceMeansSame: for derived entries; EmptyDifferenceExactly is the condition for all entries.
- Declaration.DeclarationFile.RunDeclare: loading and saving are the identity on the declaration and a save happens or does not; JSON and the temporary file of Save are not modelled. A failed save and a refusal at the prompt are errors in the program; here they only leave the file as it was.
- ShellHook.HookFiles.Install: failures of file operations, permissions and symbolic links are not modelled. Paths are one line and name no marker in the claims about runs.
- UpdateCheck.WindowBound: for checks run one after another, without --force and with a cache that can be written; two terminals checking at once are not modelled.
- Upgrade.UpgradeTo: SHA-256 is any function; a crash loses no completed file operation (no fsync is modelled). Removing the update cache after an installation is not modelled.
- CycleCheck.Parse: starts from the decoded manifest; YAML is not modelled, nor the fields that play no part in the checks.
- The report's wording, majors and highlights, and the cache of node updates in cmd/node_apt.go would only add easy members.
- HTTP, TLS, SSH, keyrings, the terraform bridge, terminal drawing, command-line wiring, table rendering and completion decide nothing modelled here.
- The mutation runner around the writes, message texts and exit codes are not modelled.
