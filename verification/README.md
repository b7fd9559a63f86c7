# Verified models of a terminal session manager

The program keeps a sidebar of coding-agent sessions running in tmux. This project models the parts of it whose
correctness is not visible from reading one function, and proves what those parts are for.

| file | what it models |
|---|---|
| `Notepad.dfy`, `NotepadRows.dfy` | word wrapping and cursor arithmetic of the sidebar notepad; what its rows show |
| `ManifestSync.dfy` | the queue of manifest patches and how a patch reaches a manifest entry |
| `ManifestInterleaving.dfy` | enqueues and flushes of that queue, interleaved step by step |
| `ManifestDebounce.dfy` | the timing of the loop that flushes it |
| `Calendar.dfy`, `Schedule.dfy` | civil dates and the recurrence-rule evaluator (a subset of section 3.3.10 of RFC 5545) |
| `Scheduler.dfy`, `Runner.dfy` | when an automation is due, and the scheduler tick with its run records |
| `McpSync.dfy` | reconciling agent configurations with the server inventory rebuilt from them |
| `Spool.dfy` | spooled notifications: drain, apply, remove, crash |
| `SpoolRetries.dfy` | what failing removals of spool files ask of the handler |
| `ParseCache.dfy` | the least-recently-used cache of parsed logs |
| `ProcessTree.dfy` | searching a pane's process tree for its foreground command |
| `GroupOrder.dfy`, `Order.dfy` | the sidebar's groups and rows; string order and stable sorting |
| `ShellQuote.dfy`, `ShellText.dfy` | quoting values for the shell, two ways of reading them back, and reading text written by hand |

`Common.dfy` holds what several of them share. `dafny verify dfyconfig.toml` checks everything.

Code of the source that updates variables in a loop is a method here, proved equal to a specification function or
against a predicate; objects updated in place are classes; protocols whose steps interleave, or may crash, are state
machines over their steps. The lemmas are about the specifications. A directory listing or hash map yields its members
in an arbitrary order here, so no result depends on one.

## What came out

- **Wrapping.** At every positive width, no visible character is lost or moved, no row is too wide, row starts strictly
  increase, and no other way of setting the same words takes fewer rows, when over-long words stand on rows of their
  own; a piece of one that shared a row could save a row, and wrapping does not try that. The cursor conversions undo
  each other.
- **Manifest queue.** In every run, however flushes overlap and wherever enqueues fall, nothing is lost if and only if
  each clear finds only what has been written and each write leaves what is written, overlaid with the queue, as it was;
  with one flush at a time only the clears matter. A discipline that implies this: one flush at a time, no enqueue under
  way from a successful generation re-check to its clear, and no re-check that succeeds because the 64-bit counter came
  round. Two runs show what its first two parts prevent. Queueing two patches as one does not always mean what applying
  them in turn means: an agent already written is not replaced, one still queued is. The exact condition is proved, entry
  by entry and step by step: the manifest overlaid with the queue stays the manifest with every patch applied in order if
  and only if each enqueued patch coalesces with what is queued for its session and each written snapshot with what was
  queued on top of it. Patches that a clear separates need nothing.
- **Recurrence.** The evaluator returns the least instant its rule accepts, and gives up exactly on rules with an
  impossible time of day, an empty day list, a zero month day, or a weekly interval of at least 58 whose only day is
  today with its time past. The loop at schedule.rs:264-271 never changes anything, and the fallback to the
  last day of the month at 319-322 is dead, because the day is never above 28.
- **Automations.** Catching up fires once. With ticks at most a minute apart a first occurrence is never missed, if the two
  minutes before it lie in the same hour, day, week or month that the rule's interval counts. A heartbeat that has never
  fired is due exactly when its period and jitter fit into 120 seconds, so with a longer interval the scheduler alone
  never starts it; nor does it start a daily, weekly or monthly rule on the hour that does not name its hour. Each
  automation has at most one running run, and it is the newest; finished runs stay as they are, and no run is still
  running at a tick two hours past its start.
- **MCP sync.** One round settles every configuration, although the inventory is rebuilt from what the round wrote: a
  second round changes nothing. It still plans something exactly where the first could not write or where a server is
  stuck: a gateway without a URL, or a local server over a table whose command the adapter neither uses nor replaces,
  such as an OpenCode remote entry under the same key. Sync also repairs entries that drift does not report.
- **Spool.** Each message written is on disk or has been applied, in every run with crashes at any step and failing
  file operations, and each drain applies in name order. The comment at spool.rs:22-24 asks the handler to be idempotent.
  What each kind of run needs is proved in both directions, in the states that messages lead to: where file operations
  succeed and names follow arrival, crashes included, that handling a message twice in a row is handling it once; where
  also removals may fail, the case of that comment, that a message handled before, at any time, changes nothing; and
  for all runs, that neither repeats nor the order of messages matter. Three runs with one idempotent handler fail.
- **Sidebar.** The rows are the groups in saved order, new groups by name, each sorted and cut to six, whatever order
  the hash maps yield. Reordering is undone by another reordering.
- **Quoting.** The shell reads back every list of values. The repository's own tokenizer reads a list back exactly
  when each value is non-empty, has no single quote or backslash, and is not wrapped in double quotes.

## Model

| member | source | states |
|---|---|---|
| Notepad.LogicalLineRanges | src/bar/notepad.rs:632-648 | the ranges of the logical lines, by the loop over characters |
| Notepad.RangesAreTheOnlyCut | src/bar/notepad.rs:632-648 | they are the one cut of the text at exactly its newlines |
| Notepad.WordSegments | src/bar/notepad.rs:650-672 | the words of a line with their offsets, by the nested loops |
| Notepad.WordsAreMaximalRuns | src/bar/notepad.rs:650-672 | they are the line's maximal runs without whitespace, in order, and hold all its visible characters |
| Notepad.PushHardBrokenWord | src/bar/notepad.rs:674-697 | a long word is cut into full-width pieces and a rest, appended with their offsets |
| Notepad.HardBreakIsShortest | src/bar/notepad.rs:674-697 | no cutting of the word into pieces of at most that width has fewer pieces |
| Notepad.WrapLogicalLine | src/bar/notepad.rs:699-759 | the loop appends the greedy rows of the line and leaves earlier rows alone |
| Notepad.GreedyIsShortest | src/bar/notepad.rs:699-759 | greedy filling emits at most as many rows as any layout of the same words, long words on rows of their own |
| Notepad.GreedyIsALayout | src/bar/notepad.rs:699-759 | the greedy rows are such a layout themselves |
| Notepad.WrapIsShortest | src/bar/notepad.rs:699-759 | wrapping a logical line takes the fewest rows of all layouts of its words in which over-long words stand on rows of their own |
| Notepad.NoRowsAreFewer | src/bar/notepad.rs:699-759 | however the line's words, none cut, are spread over rows that fit, with whatever spaces, wrapping takes no more rows |
| Notepad.OverlongWordStandsAlone | src/bar/notepad.rs:712-721 | an input that takes three rows where two rows that fit show the same characters, a piece of the over-long word sharing one |
| Notepad.WrappedDisplayLines | src/bar/notepad.rs:761-786 | the rows of the whole text, for every width, zero included |
| Notepad.WrappedKeepsInk | src/bar/notepad.rs:761-786 | the rows hold exactly the text's visible characters, in order |
| Notepad.WrappedRowsFit | src/bar/notepad.rs:761-786 | each row fits, a non-empty one begins with the character at its start, and starts strictly increase |
| NotepadRows.BlankLinesAreEmptyRows | src/bar/notepad.rs:699-786 | every empty row starts where a line without visible characters starts, and every such line has exactly one row, empty, at its start |
| NotepadRows.CursorOnBlankLine | src/bar/notepad.rs:788-796 | a cursor at the start of a blank line is on that line's own row |
| NotepadRows.RowsShowTheWords | src/bar/notepad.rs:699-759 | when no word of a line is over-long, reading the words of its rows gives the words of the line, in order |
| NotepadRows.RowsAreTidy | src/bar/notepad.rs:761-786 | the whitespace in a row is plain spaces, one between neighbouring words, none at the ends |
| Notepad.CursorLineCol | src/bar/notepad.rs:580-595 | the line and column of a clamped cursor, tied to the line ranges |
| Notepad.LineLenAt | src/bar/notepad.rs:601-620 | the length of a line is that of its range, zero past the end |
| Notepad.CursorFromLineCol | src/bar/notepad.rs:891-915 | the cursor at a line and column, the column clamped to the line |
| Notepad.CursorRoundTrip | src/bar/notepad.rs:580-595 | converting a cursor to line and column and back is the identity up to the text length |
| Notepad.LineColRoundTrip | src/bar/notepad.rs:891-915 | converting line and column to a cursor and back clamps the column to the line's length |
| Notepad.DisplayLineIndex | src/bar/notepad.rs:788-796 | the last row starting at or before the cursor |
| Notepad.DisplayIndexFollowsCursor | src/bar/notepad.rs:788-796 | that row is unique and monotone in the cursor, and a row's start leads back to the row |
| ManifestSync.MergeLaws | src/daemon/manifest_sync.rs:21-34 | merging patches is associative, right-biased, has the empty patch as unit and yields it only from empty patches |
| ManifestSync.ApplySyncPatchToEntry | src/session/manifest.rs:287-326 | the new entry, field by field with every guard, and whether it differs from the old |
| ManifestSync.PatchMeans | src/session/manifest.rs:287-326 | what a patch can change: any id but to a subagent's, a placeholder agent to a real one, any title except a sticky one to a weak one, always the time |
| ManifestSync.CoalescingIsFaithfulExactly | src/session/manifest.rs:287-326 | applying two patches in turn equals applying their merge if and only if three stated conditions on entry and patches hold |
| ManifestSync.CoalescingCanLoseAnAgent | src/session/manifest.rs:299-308 | a concrete pair of patches whose merge gives a different agent |
| ManifestSync.AbsorbedPatchesCoalesce | src/session/manifest.rs:287-326 | a condition on the patches alone under which they coalesce on every entry |
| ManifestSync.ManifestFile.ApplyManifestSyncPatches | src/session/manifest.rs:329-352 | all patches reach their entries, or the file is unchanged and an error is returned; nothing is saved when nothing changed |
| ManifestSync.ManifestFile.UpdateManifestAgentSessionIds | src/session/manifest.rs:358-375 | the same for patches that only carry ids |
| ManifestSync.ManifestFile.PersistPatches | src/daemon/manifest_sync.rs:143-166 | the id-only fast path writes what the general path would |
| ManifestSync.ManifestSyncQueue.Enqueue | src/daemon/manifest_sync.rs:107-119 | an empty patch changes nothing; another is merged on the right, marks the queue dirty and bumps the wrapping counter |
| ManifestSync.ManifestSyncQueue.Flush | src/daemon/manifest_sync.rs:170-183 | undisturbed, a flush writes everything and clears, or fails and keeps everything |
| ManifestSync.ManifestSyncQueue.FlushAll | src/daemon/manifest_sync.rs:186-198 | undisturbed, the rounds write everything once and end clean, or fail and keep everything |
| ManifestInterleaving.NothingIsLostExactly | src/daemon/manifest_sync.rs:107-183 | in every run, what was written, overlaid with what is queued, was always all that was enqueued if and only if each clear found only what was written and each write left that overlay as it was |
| ManifestInterleaving.OnlyClearsCanLose | src/daemon/manifest_sync.rs:170-183 | with one flush at a time, if and only if each clear found only what was written |
| ManifestInterleaving.NoPatchIsLost | src/daemon/manifest_sync.rs:107-183 | in every disciplined run nothing is lost, and the queue is dirty exactly when it is not empty |
| ManifestInterleaving.ManifestIsCurrentInAnyRun | src/daemon/manifest_sync.rs:107-183 | in every run, the manifest overlaid with the queue was always the ordered application of every enqueued patch if and only if each step left that overlay as it should |
| ManifestInterleaving.ManifestIsCurrentExactly | src/daemon/manifest_sync.rs:107-183 | in every disciplined run, the manifest overlaid with the queue was always the ordered application of every enqueued patch if and only if every step coalesced; a clean queue then means a complete manifest |
| ManifestInterleaving.HarmonyKeepsManifestCurrent | src/daemon/manifest_sync.rs:107-183 | it suffices that the patches enqueued since the last clear absorb one another, whatever came before |
| ManifestInterleaving.HarmonyCoalesces | src/session/manifest.rs:287-326 | under that condition each single step coalesces |
| ManifestInterleaving.MergeKeepsBooks | src/daemon/manifest_sync.rs:107-119 | an enqueue keeps the invariant that ties queue, snapshot, generation and history |
| ManifestInterleaving.FlushKeepsBooks | src/daemon/manifest_sync.rs:170-183 | so does every step of a flush, failing writes included |
| ManifestInterleaving.StepKeepsManifestCurrent | src/daemon/manifest_sync.rs:143-183 | from a current state, an enqueue keeps the manifest current if and only if its patch coalesces with the queued one given the entry on file, a write if and only if its snapshot coalesces with the queue, every other step always |
| ManifestInterleaving.StepKeepsSettled | src/daemon/manifest_sync.rs:170-183 | what a flush has written stays in the manifest until the flush ends |
| ManifestInterleaving.EnqueueBeforeClearIsLost | src/daemon/manifest_sync.rs:179-181 | a run where one enqueue falls between re-check and clear loses its patch |
| ManifestInterleaving.SecondFlushLosesAPatch | src/daemon/manifest_sync.rs:170-183 | a run where two flushes overlap leaves the manifest with the older patch |
| ManifestDebounce.FlushesAreDebouncedAndPrompt | src/daemon/server.rs:296-324 | each flush of the loop follows 500 ms without enqueue, and while the queue is dirty the last enqueue or flush is at most 1000 ms old; the 64-bit generation wraps, but not within one sleep |
| Calendar.NextMonthStart | src/automation/schedule.rs:344-355 | consecutive month starts are a month length apart, leap years included |
| Calendar.MonthIsUnique | src/automation/schedule.rs:344-355 | a day lies in exactly one month |
| Schedule.DaysInMonth | src/automation/schedule.rs:344-355 | the day before the next month's first gives the month's length |
| Schedule.NextHourly | src/automation/schedule.rs:249-273 | the hourly branch, with its aligning loop, equals one conditional step |
| Schedule.NextDaily | src/automation/schedule.rs:274-285 | the daily search of 400 steps |
| Schedule.NextWeekly | src/automation/schedule.rs:286-312 | the weekly search of 400 days |
| Schedule.NextMonthly | src/automation/schedule.rs:313-340 | the monthly search of 120 steps, dead fallback included |
| Schedule.NextRruleOccurrence | src/automation/schedule.rs:241-342 | the evaluator dispatches to the four searches |
| Schedule.NextIsLeastAccepted | src/automation/schedule.rs:241-342 | the result is strictly after the given instant and the least the rule accepts; there is none exactly for the named rules |
| Schedule.NextHasTheFields | src/automation/schedule.rs:241-342 | the next occurrence has the fields the rule names, and for omitted ones the hour, weekday or month day of the asking instant, minute and second zero |
| Scheduler.NextIsOneIntervalLater | src/automation/schedule.rs:241-342 | asked at an instant it names, a rule goes on by exactly its interval of hours, days, weeks or months |
| Schedule.FiftyEightWeeksIsTooFar | src/automation/schedule.rs:286-312 | every weekly interval up to 57 succeeds where 58 fails |
| Scheduler.NextIsFirstOccurrence | src/automation/schedule.rs:241-342 | for rules that fix their own times, with interval one, it is the first occurrence after the instant |
| Scheduler.DueAfterFire | src/automation/schedule.rs:137-161 | once fired, due exactly from the next occurrence or period plus jitter; an error exactly when there is none |
| Scheduler.DueBeforeFirstFire | src/automation/schedule.rs:146-160 | never fired, due exactly when an occurrence lies in the last two minutes with its jitter past, or a heartbeat's period and jitter fit into them |
| Scheduler.LastMinutesExactly | src/automation/schedule.rs:146-160 | asked within the two minutes before an instant a rule names, at any interval, the evaluator accepts it exactly when no hour, day or month counted by the interval begins in between |
| Scheduler.FirstFireWindow | src/automation/schedule.rs:146-160 | for rules that name their times, with ticks at most a minute apart, some tick within two minutes of each such instant finds the automation due: at interval one always, at larger ones when the instant is far enough into its hour or day, weekly ones up to 57 always |
| Scheduler.DueWithoutHour | src/automation/schedule.rs:146-160 | a never-fired rule without an hour is due exactly when the day two minutes back is accepted and its minute and second, with jitter, lie within those two minutes of the hour they began in |
| Runner.ReconcileRun | src/automation/runner.rs:172-249 | the verdict on a run in progress: stale, failed or windowless runs fail, runs whose agent is done succeed, with the captured outcome |
| Runner.ReconcilingMeans | src/automation/runner.rs:172-249 | from what the world shows: exactly when a run in progress ends failed, done or archived, or stays, and with which outcome, finish time and unread flag |
| Runner.ListRuns | src/automation/store.rs:179-204 | the listing is the given number of newest runs, newest first |
| Runner.NewestIsListed | src/automation/store.rs:199-203 | the newest run is in every non-empty listing |
| Runner.Store.ReconcileRunningRuns | src/automation/runner.rs:161-270 | exactly the 30 newest runs are reconciled |
| Runner.Store.FireAutomation | src/automation/runner.rs:19-126 | the run record and last fire after each way a launch can end, crashes included |
| Runner.Store.TickScheduler | src/automation/runner.rs:322-360 | a tick reconciles, and fires only when active, not busy among the five newest, and due |
| Runner.TickKeepsStoreOk | src/automation/runner.rs:322-360 | a tick keeps at most one running run, the newest, with complete records; finished runs never change; none runs past two hours |
| Runner.TickStartsExactly | src/automation/runner.rs:322-360 | a tick adds a record if and only if it reaches an active, due automation with no run left running and the launch is not refused; the record is that of the launch, and a successful launch, and nothing else, sets the last fire |
| Runner.FiresAreLaunches | src/automation/runner.rs:111-120 | in every run of the scheduler the recorded fires are the times of the successful launches whose records are in the run files, and the last fire is the last of them |
| Runner.TickKeepsFiresSpaced | src/automation/runner.rs:111-120 | a recorded fire respects the gap the schedule demands from the last |
| Runner.RunsKeepStoreOkAndFiresSpaced | src/automation/runner.rs:322-360 | at every moment of every run of the scheduler: at most one running run, the newest, complete records, and spaced fires |
| Runner.FinishedRunsStay | src/automation/runner.rs:161-270 | from any moment of a run to any later one, no record disappears or changes its start, and a finished one is unchanged |
| Runner.NoRunOutlivesTwoHours | src/automation/runner.rs:161-270 | a run still running at any moment was at most two hours old at every earlier tick that found it |
| Runner.CatchUpFiresOnce | src/automation/runner.rs:322-360 | n successful launches, told from the run files, have n - 1 increasing occurrences between them, each after one launch and jittered before the next |
| Runner.SlowHeartbeatNeverStarts | src/automation/schedule.rs:146-160 | no run of the scheduler ever fires a heartbeat whose period and jitter exceed two minutes |
| Runner.HourlessRuleNeverStarts | src/automation/schedule.rs:146-160 | nor a daily, weekly or monthly rule on the hour that does not name its hour |
| McpSync.DiscoverLocalOnlyWith | src/mcp/local.rs:16-53 | each key gets the command of the first agent with a stdio entry for it |
| McpSync.FirstLocalIsFirst | src/mcp/local.rs:16-53 | that is the command of the first agent in order with such an entry |
| McpSync.ListInventoryWith | src/mcp/inventory.rs:17-45 | gateway servers, and local servers of other keys |
| McpSync.WriteMerge | src/mcp/adapters/mod.rs:109-195 | the desired keys are merged by the adapter's rule, all others keep their values |
| McpSync.SyncAgent | src/mcp/sync.rs:127-203 | one agent's new configuration, reported changes and failure |
| McpSync.Home.ApplySyncWith | src/mcp/sync.rs:114-207 | every agent is planned from its own configuration and written, or nothing is in a dry run |
| McpSync.NothingToWrite | src/mcp/sync.rs:187-202 | when every action is Skip, a sync leaves the configuration as it is |
| McpSync.ActionsDoWhatTheySay | src/mcp/sync.rs:209-242 | Remove takes away what is on file and not wanted, Upsert leaves what is wanted, a gateway with exactly its URL, a new local server with its command, Skip changes nothing |
| McpSync.UnmentionedStays | src/mcp/sync.rs:114-242 | where the matrix says nothing, a server is neither removed nor added |
| McpSync.DetectDriftWith | src/mcp/sync.rs:21-105 | the drift items, told from plan and entry: DisabledButPresent exactly for Remove; UrlMismatch for a wanted gateway with another URL; ShapeMismatch for one with a command and no URL; Missing for one with neither, or for no entry |
| McpSync.DriftIsActedOn | src/mcp/sync.rs:37-94 | sync acts on everything that drifts, and beyond that exactly on the named silent repairs |
| McpSync.UnlistedIsUntouched | src/mcp/adapters/mod.rs:19-23 | keys outside the inventory keep their values |
| McpSync.RebuiltInventory | src/mcp/inventory.rs:17-45 | rebuilding the inventory after a sync adds no server and changes none between gateway and local |
| McpSync.OneServerSettles | src/mcp/sync.rs:209-242 | after a write the plan is Skip if and only if the write was not needed or not stuck, and writing again changes nothing |
| McpSync.OneRoundSettles | src/mcp/sync.rs:114-242 | the same for all agents at once with the inventory rebuilt, unwritable and unreadable configurations included |
| McpSync.DriftAfterARoundExactly | src/mcp/sync.rs:21-105 | after a round a readable, writable configuration drifts on a server exactly when that is an enabled gateway without a URL that was not in order before; any other configuration drifts as before |
| McpSync.OpenCodeRemoteIsStuck | src/mcp/adapters/opencode.rs:181-191 | a concrete pair of agents whose second plan still says Upsert |
| Spool.SpoolDir.DrainSpool | src/daemon/spool.rs:37-61 | exactly the readable valid messages, in name order; valid files stay, invalid ones leave |
| Spool.SpoolDir.DrainIntoState | src/daemon/server.rs:179-189 | undisturbed, the handler is folded over the drained messages and only files whose reading or removal failed are left |
| Spool.DeliveredAtLeastOnce | src/daemon/spool.rs:12-75 | at every moment of every run each written message is on disk or applied, nothing else was applied, and since the last drain messages were applied in name order |
| Spool.StepDelivers | src/daemon/server.rs:340-354 | each step keeps that: write, set aside, read, apply, acknowledge, fail to, crash |
| Spool.EveryRunIsHarmlessExactly | src/daemon/spool.rs:20-30 | every run, once nothing waits, ends in the state of one delivery each if and only if the handler ignores repeats and order in all states messages lead to |
| Spool.ReplayIsHarmless | src/daemon/spool.rs:20-30 | with such a handler, at every moment when nothing waits |
| Spool.OrderlyRunsAreHarmlessExactly | src/daemon/server.rs:179-189 | runs with crashes where file operations succeed and names follow arrival are harmless if and only if the handler ignores a message repeated at once |
| Spool.ReplayIsHarmlessWhenOrderly | src/daemon/server.rs:179-189 | with such a handler, at every moment of such a run when nothing waits |
| SpoolRetries.FailedRemovalsAreHarmlessExactly | src/daemon/spool.rs:20-30 | where also removals may fail, runs are harmless if and only if the handler ignores a message handled before, at any time |
| SpoolRetries.TidyProgress | src/daemon/spool.rs:20-30 | with such a handler the state is always that of a prefix of the messages; on disk are old ones and all later ones |
| Spool.OrderlyProgress | src/daemon/server.rs:179-189 | in those runs the state is always that of a prefix of the messages, and the rest wait on disk in order |
| Spool.FailedAckReplaysAfterLaterMessages | src/daemon/spool.rs:20-30 | a run in which one removal fails ends in another state, although the handler is idempotent |
| Spool.EarlierNameIsHandledFirst | src/daemon/spool.rs:42-45 | so does one in which a later message's file sorts first |
| Spool.FailedReadIsHandledLate | src/daemon/spool.rs:49-51 | so does one in which reading a file fails once |
| Spool.NamesFollowArrival | src/notify/mod.rs:244-268 | file names grow with time, and within a millisecond with sequence numbers up to 9999 |
| Spool.NamesSortExactly | src/notify/mod.rs:244-268 | names sort exactly by time, sequence number and session, so two writers within one millisecond sort by number and session, not by arrival |
| Spool.TurnsMakeOrder | src/notify/mod.rs:244-268 | writers that take turns, by millisecond or by sequence number, make every run without failing file operations an orderly one |
| Spool.TenThousandthSortsFirst | src/notify/mod.rs:261-262 | the name with sequence number 10000 sorts before that with 9999 |
| ParseCache.ParseCache.Touch | src/agents/parse_cache.rs:65-70 | the version moves to the recent end, the map is unchanged |
| ParseCache.ParseCache.Get | src/agents/parse_cache.rs:72-79 | a hit exactly on the 256 most recent versions, with the value last stored, and it counts as a use |
| ParseCache.ParseCache.Insert | src/agents/parse_cache.rs:81-92 | the recency list gets the version as newest and the cache stays its newest 256; the eviction loop ends |
| ParseCache.CachedJsonlParse | src/agents/parse_cache.rs:121-153 | a replay or what parsing gives, except nothing without a version to store under or a value that does not encode, also when the file changes in between; the cache stays faithful exactly when what is stored is what parsing its version gives |
| ParseCache.ReplayedValuesAreLastStored | src/agents/parse_cache.rs:72-92 | after any sequence of lookups and stores, the history holds the value last stored for each version |
| ParseCache.UseAgesByOne | src/agents/parse_cache.rs:65-99 | a use of another version ages a version by at most one, and it hits exactly while its age is below 256 |
| ParseCache.TouchedIsNewest | src/agents/parse_cache.rs:65-70 | moving a cached version to the end commutes with taking the newest 256 |
| ParseCache.AppendedIsNewest | src/agents/parse_cache.rs:81-99 | so does storing a version that is not cached, evicting the oldest |
| ProcessTree.WithinIsReachable | src/process/mod.rs:170-192 | the level sets are reachability by paths of bounded length |
| ProcessTree.PaneProcessCandidates | src/process/mod.rs:170-192 | on any child graph, the result is the breadth-first listing of the first five levels, each level in the order of its parents |
| ProcessTree.ListingIsShortestFirst | src/process/mod.rs:170-192 | that listing holds every process at distance 0 to 4 exactly once, with its shortest distance, in non-decreasing depth |
| ProcessTree.LevelMembers | src/process/mod.rs:174-190 | a level holds exactly the processes at that distance, once each |
| ProcessTree.LevelsFollowParents | src/process/mod.rs:174-190 | within a level, processes stand in the order of their first parents, siblings in the order of their listing |
| ProcessTree.ResolveForegroundCommand | src/process/mod.rs:112-167 | nothing exactly when no process within reach scores; otherwise the command of the first optimum of the listing by score, depth and length |
| GroupOrder.CmpWithinGroupIsTotal | src/model.rs:182-188 | the row comparator is a total preorder and ranks by message time, then tab, unmessaged last |
| GroupOrder.UniqueLabelsAreTheLabels | src/session/group_order.rs:60-68 | sorting and removing adjacent repeats yields the labels in use, once each, in order |
| GroupOrder.NewestStampIsMaximum | src/session/group_order.rs:91-102 | a label's stamp is the latest among its sessions |
| GroupOrder.LabelsByRecentActivity | src/session/group_order.rs:91-106 | the labels in use, once each, by latest stamp, then name |
| GroupOrder.ByActivityIsUnique | src/session/group_order.rs:91-106 | there is one such order, however the hash map yields its keys |
| GroupOrder.ByActivityMeans | src/session/group_order.rs:91-106 | said of the sessions: exactly the labels in use, the later used first, and by name when used at one time |
| GroupOrder.OrderLabelsFollowsSaved | src/session/group_order.rs:190-202 | sorting by saved position is filtering the saved order and appending the rest by name |
| GroupOrder.SidebarGroupOrder.EnsureLabels | src/session/group_order.rs:72-80 | the old order is a prefix, what follows is sorted by name, and the members are the old labels and the given ones |
| GroupOrder.SidebarGroupOrder.PruneToLabels | src/session/group_order.rs:84-87 | exactly the old labels that are among the given ones stay, in their order |
| GroupOrder.SidebarGroupOrder.ReconcileAndSave | src/session/group_order.rs:114-141 | untouched without sessions, else pruned and completed, or seeded by activity; reports whether it changed |
| GroupOrder.ReconcilingConserves | src/session/group_order.rs:114-141 | the result holds exactly the live labels, begins with the surviving saved ones in order, and is duplicate-free if and only if those are |
| GroupOrder.ReconcilingIsIdempotent | src/session/group_order.rs:114-141 | a second reconciliation changes nothing |
| GroupOrder.SidebarGroupOrder.Reorder | src/session/group_order.rs:210-231 | one label moves to another's index, whether or not labels repeat; otherwise nothing changes |
| GroupOrder.ReorderMoves | src/session/group_order.rs:210-231 | reordering permutes, puts the label at the target's old index and keeps the others' order |
| GroupOrder.ReorderUndone | src/session/group_order.rs:210-231 | reordering onto the label now at the old index restores the order |
| GroupOrder.OrderedVisibleSessions | src/session/group_order.rs:153-188 | saved labels by first saved position, then the others by name; rows of a label adjacent and freshest first; none folded; of each open group all rows or six, none left out fresher than one shown |
| GroupOrder.EffectiveOrder | src/session/group_order.rs:171-173 | completing the saved order and sorting any enumeration of the labels by it gives that order of labels |
| GroupOrder.SidebarConserves | src/session/group_order.rs:153-188 | no session is shown twice, and all are when nothing is folded or cut |
| GroupOrder.ShownAreFreshest | src/session/group_order.rs:143-150 | a cut group shows six, freshest first, and none left out is fresher than one shown |
| Order.SortSorts | src/session/group_order.rs:182 | the sort yields a sorted sequence for every total preorder |
| Order.SortIsStable | src/session/group_order.rs:182 | tied elements keep their order |
| ShellQuote.ShellReadsBack | src/session/managed.rs:48-59 | splitting the space-joined quoted values by the shell's rules returns them, for every list of strings |
| ShellQuote.ShellTokens | src/agents/launcher.rs:376-409 | the tokenizer's loop computes the token specification |
| ShellText.LineIsTokenized | src/agents/launcher.rs:376-409 | a line of words, each of plain, single-quoted and double-quoted parts in any mixture, with any whitespace between, is read as what the words stand for |
| ShellText.PartsJoin | src/agents/launcher.rs:380-402 | parts written one after the other join into one token |
| ShellText.GapSeparates | src/agents/launcher.rs:394-399 | any whitespace characters outside quotes end a token |
| ShellText.OpenQuoteRunsOn | src/agents/launcher.rs:405-409 | a quote left open runs to the end of the line |
| ShellText.DoubleQuotesReadBackExactly | src/agents/launcher.rs:376-421 | values in double quotes, free of double quotes, are read back if and only if none is empty or wrapped in single quotes |
| ShellQuote.TokenizerReadsBack | src/agents/launcher.rs:376-421 | the tokenizer returns every list of readable values |
| ShellQuote.ListReadsBackExactly | src/agents/launcher.rs:376-421 | it returns a list of values if and only if each of them is readable: non-empty, without single quote or backslash, not wrapped in double quotes |
| ShellQuote.LineBound | src/agents/launcher.rs:376-409 | the tokens of a command line take no more room than its values, counting one for each, unless a double quote was spent as a delimiter |

## Left out

- FirstFireWindow: rules that name their times; DueWithoutHour covers those without an hour, DueBeforeFirstFire all.
- NextIsFirstOccurrence: interval one and rules that name their times, because others have no occurrences apart from the asking time; NextIsLeastAccepted covers all.
- RunsKeepStoreOkAndFiresSpaced: scheduler ticks with increasing start times only; manual fires can start a second run.
- FlushesAreDebouncedAndPrompt: steps other than sleeps take no time.
- WriteMerge: arguments, environment and type fields of entries, which neither plan nor drift reads.
- WrapIsShortest: layouts in which a piece of an over-long word shares a row with another word are not compared.
- ShellReadsBack: words that would be reserved words of the shell grammar, such as `if` in command position, are words here.
- Scoring of command lines by process-name heuristics (src/process/mod.rs:196-330): a parameter.
- Parsing of rule strings, time zones and daylight saving, nanoseconds, 32-bit overflow of large intervals.
- The hash behind the jitter: any number below 60.
- An error in one automation ends the tick for those after it (src/automation/runner.rs:341): the flag `reached` of a tick.
- Automation fields that do not steer the scheduler: failure counts, last run ids, error texts, names.
- The order of MCP reports, JSON and TOML text, file locking, atomic renames.
- Drift reports of unreadable configurations, which no sync can act on, are modelled; the messages are not.
- The judgements whether an id belongs to a subagent and whether a title is weak or sticky: parameters.
- Byte offsets, display width and Unicode normalisation: strings are sequences of code points.
- Task-list columns, toggling and URLs of the notepad: easy members beside the wrapping.
- Spool files written in part: a write is one step. What the daemon itself persists of its state is not part of this model.
- Saving of the group order can fail; here it succeeds.
- tmux, sockets, rendering, command-line dispatch, telemetry.
