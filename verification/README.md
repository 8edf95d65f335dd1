# A verified model of whenfs provenance and undo

whenfs records which process wrote which file and why that process existed, and
undoes a command's writes from snapshots. This project models five parts of it in
Dafny and proves what each of them is relied on for.

**Who wrote what** (`ProcTrees`, `Graph`, `LazyStore`, `Daemon`). The daemon keeps
every fork, exec and exit in memory and stores a process and its unpersisted
ancestors only when it writes. `Graph` also has the calls that would store each of
them at once. `LazyStore.World` runs both side by side as one state machine (seed,
fork, exec, exit, write, evict); `Daemon.Whodidd` is the object whose methods take
those steps. Theorems: after every run lazy rows are eager rows but for the parents of
processes whose fork was missed (`LazyStore`, `MissedForks`), persisted processes have
persisted ancestors (`AncestorClosed`), lazily stored ancestry is a prefix of the eager
one exactly when it passes no missed fork, and the whole of it exactly when besides
nothing on it was evicted unstored (`AncestryRefinement`), the same question for the
manifest of a command (`LazyManifests`), a write that arrives late keeps its author
(`LateWrites`), memory is bounded for every run length (`MemoryBound`), a chain too
long to store at once (`LongChains`), and what a whole run leaves behind: the log of a
path is the run's writes to it, in order, each bound to its author under the last name
the author was given before it was stored (`RunHistories`).

**Asking the graph** (`Queries`, `Histories`, `Lineages`, `Incarnations`, `Kinship`,
`Climbs`, `Manifests`, `Retention`, `LazyAttribution`). The recursive queries are bounded
fixpoints over sequences of rows. Over any tables each query returns what its columns say
(`Histories`, `Lineages`). Over every run incarnations of a pid stay in turn and attribution
never moves, in the eager tables and in those the daemon fills. Over tables of at most
64 hops `ancestry` and `descendants` are each other's inverse exactly when each row finds
every incarnation of its parent's pid above itself, as where every parent was alive at
each birth; over such tables with one incarnation a pid a manifest holds each event of a
command once; and pruning leaves what it keeps as it was.

**Undo** (`FileTree`, `Revert`, `PlanProperties`, `Refusals`, `Apply`, `Outcomes`, `Undo`,
`Reapply`, `ExactUndo`, `RevertCommand`, `Renames`, `Limits`). The file system is a map from
component sequences to directories and files in which everything sits in a directory.
`Apply.Disk` changes it with the system calls the undo makes. Theorems: a plan selects
the pre-image of every touched spelling, and of the path under an exact condition;
applying it changes nothing else, restores the snapshot exactly under an exact
condition, and can be repeated under exact conditions.

**Event input and the event log** (`FidWalk`, `FidRecords`, `EventLog`, `LogText`). The walk over
a buffer of fanotify records visits every record once and reads nothing outside it;
printing the JSONL log and parsing it undo each other.

**Time** (`Stamps`, `TimeExpr`, `TimeWords`, `Lex`). Text order of names is time order, the three
searches for a snapshot agree over names in canonical spelling and, over any others,
under an exact condition, and the time expressions mean what their spelling says.

Code that changes things step by step is a class or a method with loops here, and each
such method is proved equal to a specification function; the theorems are about those
functions and about every run of them. What the functions themselves mean is stated
apart, without naming them: in the new state each such method promises, in the columns a
query shows, in bytes, characters, seconds and days.

## What turned out not to hold as written

- Undo does not recreate a directory that the live tree lost and the snapshot holds
  empty. `ExactUndo.UndoIsExact` proves that this is the only exception, and
  `Limits.RemovedDirectoryIsNotRestored` is a manifest that meets it.
- One path can be touched under two spellings. The legacy watcher reports a file of the
  root as `/a` and the info-record watcher as `//a` (src/bin/whodidd.rs:527-532), and
  planning takes them for two paths, with a step each. Of two restores the later has the
  say, from a snapshot that may lie after the command's first touch
  (`Limits.RootFileTakesTheLater`); of a restore and a removal the removal has, so that
  the undo puts a file back and then deletes it (`Limits.RootFileIsDroppedAgain`).
  A plan has one step a path if and only if no path was touched under two spellings
  (`PlanProperties.PlanIsShaped`). It both restores and removes a path if and only if
  two spellings' first touches chose snapshots of which one holds the path and one does
  not (`PlanProperties.PlanRestoresAndRemoves`), and a file put back is missing at the
  end if and only if its path is removed as well
  (`Undo.RestoredFileGoesExactlyWhenRemoved`, `RevertCommand.RestoredFileIsDroppedWhen`).
  The restores of a path agree if and only if no snapshot lies between the first touches
  of two spellings that are restored (`PlanProperties.PlanRestoresAgree`); a choice is
  the true pre-image if and only if no snapshot it could have taken follows another touch
  of the path (`PlanProperties.ChoiceIsTrue`). Frame, the fate of restored files,
  exactness and re-applying are proved for plans in which paths repeat.
- Refusals compare raw text, so `/processes` is refused because of `/proc`
  (`Limits.ProcessesIsRefused`) and no path is refused once its spelling starts with two
  slashes (`Limits.SpellingEscapesRefusal`).
- Re-applying an undo (`README.md:129` calls it safe) is safe when no step names a
  restore's source, which holds whenever the command touched nothing in the snapshot
  store (`RevertCommand.RevertTwice`). Where no restore writes a source, a plan can be
  re-applied if and only if no removal names one (`RevertCommand.RevertTwiceByPlan`);
  with one step a path, if and only if every source still holds what was restored
  (`Undo.ReappliesExactly`). `Limits.TamperingBreaksReapply` is a manifest that fails.
- An exec of a process whose fork was missed is stored with the parent read from
  `/proc`, while the eager call stores none. `MissedForks.ParentsDifferWhereMissed` says
  that over every run this is the only difference between the two rows.
- `descendants` looks at pids alone, so the children of a recycled pid are listed below
  its earlier incarnation, which is not in their ancestry:
  `Climbs.RecycledPidDividesThem`. What `ancestry` finds above is always below
  (`Climbs.UpImpliesDown`), and `Climbs.AgreeExactlyWhenParentsFound` is the exact
  condition for the converse.
- A chain cut off at 64 links can leave a stored row whose parent is known and not
  stored: `AncestorClosed.WriteClosesExactlyWhenCovered` is the exact condition,
  `LongChains.CutOffBreaksClosure` a run of 65 processes in which it happens.
- Attribution never moves in a run that starts from empty tables
  (`Incarnations.AttributionNeverMoves`, `LazyAttribution.LateRowsKeepAttribution`).
  From other tables an unbound event moves exactly when an incarnation of its own second
  is stored (`Incarnations.AttributionStays`; `Incarnations.AttributionMoves` is a case).
- The comments promise that the date search and the text searches for a snapshot agree.
  A directory whose name is no time can win the text searches only
  (`Stamps.DayDirectoryDividesThem`), and a time without padding, which the date parser
  accepts, can win the date search only (`Stamps.UnpaddedNameDividesThem`).
  `Stamps.SearchesAgree` says for every listing and every reader when they agree.
- Control characters other than newline and tab come back from the log as the text
  `uXXXX`: `EventLog.ReadBack`, `EventLog.MangleIsIdentity`.
- A count of months is cut to 32 bits, so a larger count can be later:
  `TimeExpr.AgoOrder` compares the counts that are left, `TimeExpr.MonthsWrap` is the
  example.

## Conditions the theorems state

Stamps do not go back; the messages of one pid arrive as fork, exec*, exit; a pid is
reborn only after the tree has forgotten it and no stored row names it as a parent;
storing a chain is one step. Calls of the eager store that record the past keep the
order of a pid's rows, and a process is stored no later than its first event. A stored
row keeps the identity it had when stored, so rows are compared by parent, start and
exit.

The two recursive queries are compared over rows with unique (pid, start) of which none
is more than 64 hops below another. The theorems about descendants and manifests ask for
a family (`Kinship.Family`): one incarnation a pid, every stored parent alive at each
child's birth, and at most 64 hops. A lazy manifest is compared with an eager one over
runs without missed forks whose eager rows are a family.

An undo is compared with one snapshot that is the pre-image of every touch; no touched
path is in the snapshot store, and one above the store must be held by the snapshot; the
live tree differs from the snapshot at touched paths only, and nothing changed from file
to directory or back.

## Model

| member | source | states |
|---|---|---|
| ProcTrees.ProcTree.Seed | src/proctree.rs:83-94 | a process running at startup enters the tree, replacing any entry of its pid |
| ProcTrees.ProcTree.OnFork | src/proctree.rs:96-107 | the child enters unpersisted, with its parent, start time and no identity yet |
| ProcTrees.ProcTree.OnExec | src/proctree.rs:113-129 | a known pid gets the new identity and keeps its parent, start, exit and mark; an unseen one enters with the given parent; no other entry changes |
| ProcTrees.ProcTree.OnExit | src/proctree.rs:133-137 | the entry stays, marked dead; its start comes back exactly if it was persisted |
| ProcTrees.ProcTree.Chain | src/proctree.rs:145-165 | the loop returns the bounded climb to the first persisted, unknown or self parent, root first |
| ProcTrees.ProcTree.MarkPersisted | src/proctree.rs:167-171 | only the persisted flag of that pid changes |
| ProcTrees.ProcTree.EvictStale | src/proctree.rs:178-184 | exactly the entries dead before the cutoff go, and their number is returned |
| ProcTrees.ChainIsRootFirst | src/proctree.rs:145-165 | a chain holds at most 64 entries, ends at the process, links parent to child without a self-parent, holds only unpersisted entries of the tree, is empty only for a persisted or unknown pid, and when shorter starts at a real top |
| Graph.Store.RecordForkRow | src/graph.rs:142-150 | a fork inserts the child's row unless that key exists |
| Graph.Store.RecordExecRow | src/graph.rs:157-183 | an exec updates the live rows of the pid, or inserts a row without parent |
| Graph.Store.RecordExistingRow | src/graph.rs:198-221 | insert-or-ignore of a row with the given parent and start |
| Graph.Store.RecordExit | src/graph.rs:225-233 | row by row: the live rows of the pid get the exit, every other row stays as it was |
| Graph.Store.RecordExitAt | src/graph.rs:243-250 | row by row: the row with that key gets the exit, every other row stays as it was |
| Graph.Store.RecordEventFull | src/graph.rs:261-322 | one event is added behind the others, with the given time, path, operation, pid and other path, the next id, and the start the lookup finds |
| Graph.LookupPicks | src/graph.rs:287-314 | the lookup finds the newest of the rows of the pid that were running then, failing those the newest that had begun, and nothing exactly when none had |
| Graph.Store.PrunePreview | src/graph.rs:536-552 | the two counts are how many rows and events a prune with that cutoff would remove |
| Graph.Store.Prune | src/graph.rs:567-579 | a row stays, as often as it was, if it has no exit, or its exit is not before the cutoff, or an event of its pid is not before it, and goes otherwise; an event stays unless it is older; the removed are counted |
| Graph.InsertKeepsUnique | src/graph.rs:142-150 | insert-or-ignore keeps (pid, start) a key |
| Graph.KeptEventsKeepIds | src/graph.rs:567-579 | event ids still increase after a prune |
| LazyAttribution.RunIdsIncrease | src/graph.rs:316-321 | and in every run of the daemon, as the manifest queries rely on |
| Daemon.Whodidd.PersistChain | src/bin/whodidd.rs:265-286 | after a chain is stored root first, tree and tables are those of the specification |
| Daemon.Whodidd.LogEventFull | src/bin/whodidd.rs:313-348 | a write is the Write step of the machine, adds one event with its own columns, and names on the log line what the tree knows, or /proc of an unknown pid |
| Daemon.Whodidd.OnFork | src/bin/whodidd.rs:857-874 | a fork is the Fork step: memory only |
| Daemon.Whodidd.OnExec | src/bin/whodidd.rs:875-888 | an exec is the Exec step: memory only |
| Daemon.Whodidd.OnExit | src/bin/whodidd.rs:889-903 | an exit is the Exit step: the row of that start gets it exactly for a persisted entry, and nothing else in the tables changes |
| Daemon.Whodidd.EvictStale | src/bin/whodidd.rs:288-298 | an eviction is the Evict step: the live entries stay and those that exited at most 90 seconds ago |
| LazyStore.StepKeepsInv | src/proctree.rs:96-183 | every enabled step of any kind keeps the agreement of both stores: mirrored live entries, agreeing rows, disjoint lifetimes |
| LazyStore.LazyRowsAreEagerRows | src/bin/whodidd.rs:265-286 | after every legal run each lazily stored row has an eager row of its start and exit, and of its parent unless the fork was missed: then the lazy row has one and the eager row none |
| LazyStore.StoredMeansMarked | src/proctree.rs:167-171 | after every legal run an entry of the tree is marked persisted if and only if its row is stored |
| MissedForks.MissedForkAgrees | src/proctree.rs:113-129 | after an exec of an unseen pid in any reachable state, the stored parents agree if and only if /proc gave none |
| MissedForks.ParentsDifferWhereMissed | src/proctree.rs:113-129 | after every legal run a stored row has an eager row of its start and exit, and their parents differ if and only if some step first saw the process at an exec and /proc gave a parent |
| MissedForks.ShellUnderInit | src/graph.rs:157-183 | a concrete run in which the two stores differ |
| AncestorClosed.EveryPrefixIsClosed | src/bin/whodidd.rs:265-286 | after any number of the root-first writes of a short chain, each stored row's parent is marked stored or unknown |
| AncestorClosed.WriteClosesExactlyWhenCovered | src/proctree.rs:145-171 | a write keeps the store ancestor-closed if and only if the top of its chain has a known resting place |
| LongChains.CutOffBreaksClosure | src/proctree.rs:145-165 | a legal run of 65 processes in a line after which a write stores a row whose known parent is not stored |
| AncestorClosed.ShortRunsAreNeverCutOff | src/proctree.rs:145-165 | a run whose writes meet only chains below the limit never meets a cut-off one |
| AncestorClosed.PersistedAncestors | src/proctree.rs:145-171 | in every reachable tree whose chains were never cut off, every ancestor of a persisted process is persisted |
| AncestryRefinement.LazyAncestryIsPrefix | src/graph.rs:418-453 | after every run and for any process the lazy ancestry is a prefix of the eager one if and only if none of its rows is of a missed fork |
| AncestryRefinement.LazyAncestryComplete | src/graph.rs:418-453 | over runs whose chains were never cut off, for a stored process it is the whole of it if and only if besides no eager ancestor was lost by eviction |
| LazyManifests.LazyManifestIsEager | src/graph.rs:491-533 | over runs without missed forks, the manifest of a stored command is the same in both stores if and only if, for each of its events, the writer and every process between it and the command are stored |
| LazyManifests.LazyManifestListsLess | src/graph.rs:491-533 | and it never lists more in the lazy store |
| LazyManifests.LazyManifestCompleteUnlessLost | src/proctree.rs:178-184 | where no chain was cut off and every event was bound when recorded, the two are the same if and only if none of those processes was evicted unstored |
| LateWrites.EntrySurvives | src/proctree.rs:133-183 | within the grace after its exit an entry stays as it is through any steps, except for being marked persisted |
| LateWrites.WriteBindsAuthor | src/bin/whodidd.rs:261-293 | a write by a known process stores it with its parent and exit and binds the event to that incarnation |
| LateWrites.LateWriteKeepsAuthor | src/graph.rs:287-314 | a write processed up to 90 seconds after its author's exit, whatever happens between, is bound to that author with its last identity |
| LateWrites.SameBindingAsEager | src/graph.rs:287-314 | the event is bound to the incarnation the eager store would have named |
| RunHistories.EventsAreWrites | src/graph.rs:261-322 | after any run the events are its writes, in order, column by column, numbered from 1 |
| RunHistories.TreeNames | src/proctree.rs:83-129 | after any run every entry of the tree bears the last identity its pid was given by a seed, fork or exec |
| RunHistories.RowsBearNames | src/bin/whodidd.rs:265-286 | every stored row was stored by one write of the run and bears the last identity its pid had been given by then, for good |
| RunHistories.ExecNamesRow | src/proctree.rs:113-129 | from the last exec of a process not yet stored, through any steps, to its first write: the stored row bears the identity of that exec |
| RunHistories.LogIsWrites | src/graph.rs:358-408 | after every legal run the log of a path shows the run's writes to that path, one line a write, in order |
| RunHistories.LogNamesAuthor | src/graph.rs:358-408 | whatever a legal run does before and after, a write by a known process is in the log of its path, bound to that incarnation, under the last identity it had been given by the write that stored it |
| MemoryBound.DeadEntriesBounded | src/proctree.rs:323-380 | with at most r exits a second and an eviction every E seconds, dead entries never exceed r * (G + E + 1) in any run |
| MemoryBound.DeadEntriesBoundedAfterEviction | src/proctree.rs:323-380 | and never r * (G + E) when counted after the eviction due that second |
| MemoryBound.LiveEntriesStay | src/proctree.rs:178-183 | no sequence of steps removes a live entry that does not exit |
| Incarnations.PerformOn | src/graph.rs:142-322 | each call of the sequences below is the store's own method |
| Incarnations.CallsDo | src/graph.rs:142-322 | what each of the six calls does to the row of any pid and start |
| Incarnations.CallKeepsSound | src/graph.rs:142-322 | fork, exec, exit, existing, exit_at and event calls in order keep each pid's rows one after the other |
| Incarnations.RunKeepsSound | src/graph.rs:142-322 | and so does every sequence of them |
| Incarnations.LookupIsNewest | src/graph.rs:287-314 | the two-step window lookup always names the newest start at or before the event |
| Incarnations.AttributionStays | src/graph.rs:374-393 | from any sound tables, over any sequence of calls: a resolved event stays resolved, and moves if and only if it was unbound and an incarnation of its own second is stored |
| Incarnations.AttributionNeverMoves | src/graph.rs:374-393 | over any sequence of calls from the empty tables, a resolved event keeps its incarnation through all later calls |
| Incarnations.AttributionMoves | src/graph.rs:374-393 | tables no run leads to, in which one moves |
| LazyAttribution.LateRowsKeepAttribution | src/graph.rs:374-393 | in every run of the daemon, with rows stored long after their process began, a resolved event keeps its incarnation |
| Queries.ParentRows | src/graph.rs:418-453 | exactly the stored rows that name the parent pid and were alive at the child's birth |
| Queries.ChildRows | src/graph.rs:460-487 | exactly the stored rows that name this pid as parent |
| Queries.SortByTimeSorts | src/graph.rs:504-516 | the manifest order is (time, id), and sorting loses or adds nothing |
| Lineages.AncestryIsLines | src/graph.rs:418-453 | over any rows ancestry returns exactly the ends of lines of at most 64 hops from the row asked for, each next row the one before's parent by pid, begun by its birth and not ended before it |
| Lineages.DescendantsAreLines | src/graph.rs:460-487 | over any rows descendants returns exactly the rows from which a line of at most 256 parent pids leads to the row asked for |
| Histories.LogLists | src/graph.rs:358-408 | over any tables the log of a path lists its events and no others, each as often as recorded, by time and id, with its own columns, its bound writer or else the newest alive at that time, and that row's name |
| Histories.BlameIsLast | src/graph.rs:411-413 | blame is the line of an event of the path that none of its others follows, and none exactly when the path has no event |
| Histories.TreeLists | src/graph.rs:491-533 | over any tables the query of a tree shows, by time and id, exactly the events that a descendant wrote: its bound start, or for an unbound event any start not after it |
| Climbs.UpImpliesDown | src/graph.rs:418-487 | over any rows with unique keys, if p is in ancestry(d) then d is in descendants(p) |
| Climbs.AgreeExactlyWhenParentsFound | src/graph.rs:418-487 | over at most 64 hops the two are each other's inverse if and only if each row finds every stored incarnation of its parent's pid above itself |
| Climbs.UpAndDownAgree | src/graph.rs:418-487 | so with every stored parent alive at each birth, pids recycled or not, d is in descendants(p) if and only if p is in ancestry(d) |
| Climbs.RecycledPidDividesThem | src/graph.rs:460-487 | three rows with a recycled pid, of which the third is listed below the first and does not have it above |
| Kinship.UpLevelIsAncestor | src/graph.rs:418-453 | each round of the upward recursion holds just the ancestor that many hops up |
| Kinship.DescendantsDescend | src/graph.rs:460-487 | over a family the downward recursion yields exactly the rows with p as an ancestor at any distance |
| Manifests.ManifestIsExact | src/graph.rs:491-533 | over a family a manifest lists every event of the command's tree once, in order, and nothing else |
| Manifests.UnrelatedManifestsAreDisjoint | src/graph.rs:491-533 | over a family two commands with no ancestor relation share no event |
| Manifests.EventsByTreeNamesWriters | src/graph.rs:491-533 | each line of the query is a manifest event shown with the name of the descendant that wrote it |
| Manifests.ManifestFeedsPlan | src/graph.rs:504-516 | the lines of the query are in the order the undo planner needs |
| Retention.PreviewIsExact | src/graph.rs:536-579 | the preview gives exactly the counts the prune removes |
| Retention.PruneKeepsHistory | src/graph.rs:358-408 | for every path the log after a prune is the log before, cut at the cutoff, attribution included |
| Retention.PruneKeepsBlame | src/graph.rs:411-413 | blame survives a prune exactly when its event does |
| Retention.PruneTwice | src/graph.rs:567-579 | two prunes in either order are one at the later cutoff |
| Revert.RecordTouch | src/revert.rs:102-110 | the first touch of a path fixes its place and time; later ones change nothing |
| Revert.FirstPass | src/revert.rs:111-121 | the loop collects every touched path once, rename sources included, with its first time |
| Revert.Plan | src/revert.rs:92-190 | the planning loop returns the specified plan |
| Revert.ComponentsJoin | src/revert.rs:123-160 | a slash joins the components of both sides, and a piece without one is a component unless it is empty or a dot |
| Revert.ComponentsOfRender | src/revert.rs:173-189 | so splitting a canonical path gives back its components |
| PlanProperties.TouchesAre | src/revert.rs:111-121 | an event touches its path and its other path, both at its time |
| PlanProperties.FirstTouchesAreFirst | src/revert.rs:98-121 | each touched path appears once, with the time of its first touch |
| PlanProperties.PlanIsShaped | src/revert.rs:161-189 | every plan has restores before removes before skips and removes never deeper than the one before, and one step a path if and only if no path was touched under two spellings |
| Outcomes.SafeOrderMeans | src/revert.rs:161-189 | that order in plain words: no restore behind another step, no skip before one, no deeper removal second |
| PlanProperties.SortDeepestSorts | src/revert.rs:173-189 | the removal sort orders by depth and permutes |
| PlanProperties.PlanSelectsPreImages | src/revert.rs:81-189 | as many steps as touched spellings, each with its step; a restore comes from the greatest snapshot name at or before the earliest touch of the spelling, a removal has no such source, a skip has its reason |
| PlanProperties.ChoiceIsTrue | src/revert.rs:81-86 | a chosen snapshot is the path's pre-image over all spellings if and only if no snapshot it could have taken follows another touch of the path, under whatever spelling |
| PlanProperties.PlanRestoresAgree | src/revert.rs:123-160 | all restores of a path agree if and only if no snapshot lies between the first touches they come from |
| PlanProperties.PlanRestoresAndRemoves | src/revert.rs:123-160 | a plan both restores and removes a path if and only if, of its spellings' first touches, one chose a snapshot that holds the path and one a snapshot that does not |
| Limits.RootFileTakesTheLater | src/bin/whodidd.rs:527-532 | a manifest with /a and //a that ends with the later snapshot's contents |
| Limits.RootFileIsDroppedAgain | src/bin/chronicle.rs:425-480 | a manifest with /a written and //a deleted whose undo restores the file and then removes it |
| Refusals.RefusedIsTextual | src/revert.rs:30-74 | a path is refused if and only if its text starts with one of ten listed prefixes |
| Refusals.RefusalReasons | src/revert.rs:61-74 | five of them as package manager state, five as not persistent |
| Limits.ProcessesIsRefused | src/revert.rs:61-74 | so /processes is refused because of /proc |
| Limits.SpellingEscapesRefusal | src/revert.rs:61-74 | and another slash in front of any refused path lifts the refusal |
| Apply.Disk.CreateDirAll | src/bin/chronicle.rs:428-432 | missing ancestors are created, or nothing when a file is in the way |
| Apply.Disk.Copy | src/bin/chronicle.rs:428-432 | the target gets the source's bytes; a directory at either end fails |
| Apply.Disk.RemoveDir | src/bin/chronicle.rs:433-453 | only an empty directory goes |
| Apply.Disk.RemoveFile | src/bin/chronicle.rs:433-453 | only a file goes |
| Apply.Disk.RestoreFile | src/bin/chronicle.rs:428-432 | create_dir_all then copy, with the directories kept when the copy fails |
| Apply.Disk.RemoveAny | src/bin/chronicle.rs:433-453 | kind-dependent removal in which an absent path is success |
| Apply.Disk.ApplySteps | src/bin/chronicle.rs:425-480 | the loop leaves the tree of the fold and returns its three tallies |
| Outcomes.RestoreDoes | src/bin/chronicle.rs:428-432 | when a restore succeeds and what it leaves at every path, also when it fails |
| Outcomes.RemoveDoes | src/bin/chronicle.rs:433-453 | when a removal succeeds, keeps a directory or fails, and that only its own path goes |
| Outcomes.CountsAreSizes | src/bin/chronicle.rs:456-480 | each tally is the number of steps that ended that way, each in the tree the steps before it left |
| Undo.StaysWellFormed | src/bin/chronicle.rs:425-480 | from any tree, any plan leaves everything sitting in a directory |
| Undo.Frame | src/bin/chronicle.rs:425-480 | any change at any path is a removal of something empty, a successful restore there, or a directory made for one |
| Undo.FileSurvives | src/bin/chronicle.rs:425-480 | a file no later step names stays, bytes included |
| Undo.TallyIsComplete | src/bin/chronicle.rs:456-480 | ok + kept + failed is the number of steps that are not skips |
| Undo.RestoredFileGoesExactlyWhenRemoved | src/revert.rs:173-189 | in planned order, paths repeating or not, a file put back is missing at the end if and only if the plan also removes its path |
| Undo.RestoredFilesStay | src/revert.rs:173-189 | and otherwise ends with what the last successful restore of it read |
| Undo.ReappliesExactly | src/bin/chronicle.rs:425-480 | after a run without failures a second is idle and without failures if and only if every restore's source still holds what its path holds |
| Reapply.ApplyTwice | README.md:129-130 | when no step names a restore's source, the second run ends on the same tree with the same numbers, even if paths repeat |
| Reapply.PlanDecidesReapply | src/bin/chronicle.rs:425-480 | where no restore writes a source, the second run is idle and without failures if and only if no removal names a source |
| ExactUndo.UndoLeaves | src/revert.rs:123-189 | at every path the undo leaves the snapshot's entry, and nothing where an empty directory was lost |
| ExactUndo.UndoIsExact | src/revert.rs:123-189 | so it equals the snapshot if and only if no lost directory is empty in it; the snapshot store is untouched |
| Limits.RemovedDirectoryIsNotRestored | src/bin/chronicle.rs:428-432 | the manifest of a removed empty directory meets the theorem's conditions, and the directory stays away |
| RevertCommand.CmdRevert | src/bin/chronicle.rs:341-486 | the plan is shown unless there are no events or no snapshots; without --apply nothing changes, and with it the tree and the tallies are those of the plan |
| RevertCommand.RevertIsExact | src/bin/chronicle.rs:341-486 | the same equivalence from the manifest alone, whatever its spellings: one pre-image for all touches, differences only there, no kind swapped |
| RevertCommand.RestoredFileIsDroppedWhen | src/revert.rs:123-189 | in the plan of any manifest, a file put back is missing at the end if and only if another first touch of its path chose a snapshot without it |
| RevertCommand.RevertTwice | README.md:129-130 | any manifest that touches nothing in the snapshot store can be re-applied, whatever its spellings |
| RevertCommand.RevertTwiceExactly | README.md:129-130 | a manifest of single spellings can be re-applied if and only if the snapshots still hold what was restored |
| RevertCommand.RevertTwiceByPlan | README.md:129-130 | any manifest whose restores write no source can be re-applied if and only if its plan removes no source |
| Limits.TamperingBreaksReapply | src/bin/chronicle.rs:425-480 | the plan of a manifest that touches /a and its snapshot succeeds once and fails the second time |
| Renames.RenamesPlanAlike | src/revert.rs:111-121 | replacing any renames of any manifest by moved_from/moved_to pairs keeps the steps, each as often |
| Renames.RenamesUndoAlike | src/revert.rs:173-189 | and both forms undo to the same live tree, lost empty directories included |
| Renames.AllExpanded | src/revert.rs:111-121 | with every rename replaced none is left, and both halves of each are there |
| EventLog.JsonEscape | src/bin/whodidd.rs:122-135 | the escaping loop is the specified escaping |
| EventLog.Field | src/bin/whodid.rs:30-60 | field lookup by first substring match is the specified lookup |
| EventLog.ReadQuoted | src/bin/whodid.rs:36-56 | the unescaping loop is the specified reading |
| EventLog.ReadBack | src/bin/whodid.rs:30-60 | reading an escaped value, whatever follows it, gives the value with other control characters as uXXXX |
| EventLog.MangleIsIdentity | src/bin/whodidd.rs:122-135 | which is the value itself if and only if it has no such character |
| EventLog.FieldReadsItem | src/bin/whodid.rs:30-60 | in a printed object every key reads as its own value: no value can fake a key |
| EventLog.LineReadsBack | src/bin/whodidd.rs:351-361 | a printed line parses to its event |
| EventLog.LogRoundTrip | src/bin/whodid.rs:62-88 | loading a printed log gives the target's events in order |
| EventLog.CleanEventsAreExact | src/bin/whodid.rs:62-88 | an event comes back as it was if and only if its strings are clean |
| LogText.LineIs | src/bin/whodidd.rs:351-361 | one line, written out |
| LogText.Escapes | src/bin/whodidd.rs:122-135 | every character's escape, and what each escape reads as |
| LogText.NatTextIsDecimal | src/bin/whodidd.rs:351-361 | numbers are decimal without leading zeros |
| LogText.LinesAre | src/bin/whodid.rs:77-88 | a line ends at its newline, and a carriage return before that is no part of it |
| LogText.BlankLines | src/bin/whodid.rs:62-66 | a line of blanks, and among ASCII lines no other, is no event |
| LogText.LoadPicks | src/bin/whodid.rs:77-88 | loading a printed log gives back, in order, exactly the events whose path is the target or its absolute form, field by field |
| Stamps.ParseUndoesFormat | src/time_expr.rs:5-14 | parsing a formatted name gives the instant |
| Stamps.FormatUndoesRead | src/time_expr.rs:5-14 | for every reader that reads canonical names as they are meant, formatting what it read gives the name back if and only if the name is canonical |
| Stamps.TextOrderIsTimeOrder | src/time_expr.rs:5-14 | names compare as their instants do, years 0 to 9999 |
| Lex.LeIs | src/revert.rs:81-86 | a string comes before those it begins, and otherwise the first difference decides |
| TimeWords.NameLooks | src/time_expr.rs:5-14 | a name, letter by letter |
| Stamps.FindNearest | src/time_expr.rs:120-134 | for every reader and listing the loop finds a newest readable name at or before the target, the first of equals, and nothing exactly when all are later |
| Stamps.Bracket | src/bin/whodid.rs:112-125 | before is the greatest name at or before the time and after its immediate successor |
| Stamps.SearchesAgree | src/revert.rs:81-86 | for every reader and listing, when the date search and the text search agree: with a canonical text winner, if and only if no odd name outdoes it |
| Stamps.SearchesAgreeWithoutOddNames | src/revert.rs:81-86 | so without odd names if and only if the text winner is a timestamp |
| Stamps.TimestampsAgree | src/bin/whodid.rs:112-125 | over canonical names all searches agree |
| Stamps.DayDirectoryDividesThem | src/time_expr.rs:120-134 | a directory named by a day alone is found by the text search only |
| Stamps.UnpaddedNameDividesThem | src/time_expr.rs:120-134 | a time without padding that the reader accepts is found by the date search only |
| FidWalk.ResolveDfidName | src/bin/whodidd.rs:474-533 | for arbitrary bytes, every index read lies before the record's end and the result is the specified one |
| FidWalk.ResolveStaysInside | src/bin/whodidd.rs:474-533 | the result depends on no byte outside the info record |
| FidWalk.CollectNames | src/bin/whodidd.rs:644-679 | the inner loop ends for arbitrary bytes and stays inside the event |
| FidWalk.HandleEvent | src/bin/whodidd.rs:628-736 | one event's logger calls and closed descriptor |
| FidWalk.WalkBuffer | src/bin/whodidd.rs:626-736 | the outer loop ends and reports what the hops from record to record hold |
| FidWalk.EventStaysInside | src/bin/whodidd.rs:626-736 | what an event reports depends on no byte outside it |
| FidWalk.WordsAt | src/bin/whodidd.rs:474-533 | words are little-endian |
| FidRecords.InfosReadBack | src/bin/whodidd.rs:644-679 | over encoded info records the last of each kind has the say |
| FidRecords.WalkReadsBack | src/bin/whodidd.rs:626-736 | over any concatenation of well-formed records every event is reported once, in order, with its encoded names |
| FidRecords.CallNamesRecords | src/bin/whodidd.rs:681-727 | at most one call an event, never for the daemon or a blocked path, and both ends of a rename come from the records of their kind |
| FidRecords.EventCalls | src/bin/whodidd.rs:644-727 | the one call of an event, from the last records of types 2, 10 and 12 and the bits of the mask, and when it is not made |
| FidRecords.CreateInBytes | src/bin/whodidd.rs:626-736 | one event byte by byte, and its call |
| TimeExpr.AgoOrder | src/time_expr.rs:44-56 | for every unit a count is no later than another if and only if what is left of it after the 32-bit cut is no smaller |
| TimeExpr.MonthsWrap | src/time_expr.rs:50-53 | 2^32 months ago is later than one month ago |
| TimeExpr.FormsAgree | src/time_expr.rs:58-75 | the long and the short form resolve alike for every numeral and unit spelling |
| TimeExpr.AgoResolves | src/time_expr.rs:80-118 | and no other form of the grammar takes those expressions first |
| TimeExpr.MostRecentPast | src/time_expr.rs:29-37 | the loop ends at the end of the specified day |
| TimeExpr.MostRecentDayIs | src/time_expr.rs:29-37 | which is the only matching day 1 to 7 days before today |
| TimeExpr.LastIsBare | src/time_expr.rs:105-115 | "last-X" equals "X" in the whole grammar, for every spelling and case of a weekday |
| TimeExpr.NameResolves | src/time_expr.rs:80-83 | a snapshot's name resolves to its own instant |
| TimeExpr.MonthWords | src/time_expr.rs:87-101 | last-month and last-year are one and twelve months ago |
| TimeWords.DaysAreGregorian | src/time_expr.rs:39-42 | the day of any date of the years 0 to 9999, in closed form |
| TimeWords.WeekdaysGoRound | src/time_expr.rs:29-37 | weekdays go round with the days, and 1 January 1970 was a Thursday |
| TimeWords.UnitsBack | src/time_expr.rs:44-56 | minutes, hours, days and weeks back in seconds |
| TimeWords.CountsRead | src/time_expr.rs:58-75 | a count is a signed number of 64 bits |
| TimeWords.MonthsBackIs | src/time_expr.rs:50-53 | months back: the end of the same day, or of the month's last |
| TimeWords.DayWords | src/time_expr.rs:87-101 | now, today, yesterday and last-week, in days and seconds |
| TimeWords.DateResolves | src/time_expr.rs:84-86 | a day written out is the end of that day |
| TimeWords.UnitSpellings | src/time_expr.rs:44-56 | the spellings of each unit |
| TimeWords.WeekdaySpellings | src/time_expr.rs:16-27 | the spellings of each weekday, in any case |

## Left out

- FUSE callbacks, the inode maps and read-only replies of the mount.
- System calls and `/proc` reads: their results are inputs, and opening a file handle, decoding a name and the blocklist are parameters of `FidWalk.Host`.
- SQLite, WAL, VACUUM and migration: tables are sequences, statements succeed, and a query is its meaning.
- Time zones, daylight saving and leap seconds: instants are naive local ones. Which odd names chrono reads is a parameter of the snapshot searches; `TimeExpr` reads names and dates in canonical spelling, years 0 to 9999.
- Symlinks, permissions, hard links and I/O errors: the file tree has files, directories and absence.
- Non-atomic `persist_chain`: the lock is taken again at src/bin/whodidd.rs:266 and src/bin/whodidd.rs:283; here a chain is stored in one step.
- Lost netlink messages and failing inserts; a restart on an existing database (runs start from an empty store).
- Names after a second exec: a stored row keeps the identity it had when stored, so the refinement compares lineage.
- Stamps inside `Graph`, `ProcTrees` and `LazyStore` are integers; `Stamps.TextOrderIsTimeOrder` is why that loses nothing.
- The legacy watcher, the sort and dedup of `whodid diff`, `trace`, command-line parsing, printing, shell scripts and service files.
- FidWalk.WalkBuffer: takes the buffer as a sequence, because the walk only reads it, and requires the kernel's framing as the unsafe block does.
- EventLog.LogRoundTrip: the timestamp and the operation name hold nothing to escape, as the daemon prints them without escaping.
- RevertCommand.RevertTwiceExactly: speaks of plans with one step a path; where spellings repeat a path, `RevertTwice` and `RevertTwiceByPlan` say when re-applying is safe, but not what happens when restores write into the snapshot store as well.
