# KioskMate: a model of its decisions

KioskMate supervises one browser on a kiosk: it starts and recovers the
process, decides which page is on screen, keeps the browser's tabs in order,
updates itself and reports over MQTT. This project models the parts of it that
decide something and proves what they promise.

The modules follow the program's components:

| module | what it models |
|---|---|
| `Text`, `Config`, `Clocks` | strings, the kiosk configuration, days and clock texts |
| `Inserts`, `Programme` | page inserts: which runs there are, which is on screen, when that changes, the timeline |
| `Scheduler` | rotation, time rules, presence, display power and inserts from tick to tick |
| `Recovery` | start, stop and recovery as interleaved lock sections behind the operation gate |
| `Budgets` | the restart budgets of recovery and watchdog |
| `Tabs` | the tab cache: order of use, eviction, the page under an insert |
| `Migration`, `PageIDs` | the migration of old rotations, page identifiers |
| `Packets` | the MQTT packet codec |
| `Versions` | version comparison and the newest release |
| `JobOutput` | splitting command output into lines |
| `ProcessTree` | the processes below the browser |
| `Conflicts` | warnings about overlapping time rules, against the scheduler's own reading |
| `PageOrder` | moving and removing pages in the Admin UI |
| `PrivilegedCommand` | quoting for su |

How to read it:

- What the program does step by step is a method, on a class where the
  program keeps the state in an object. Its `ensures` ties it to a function or
  predicate that says what is wanted, and the lemmas are about those.
- `Inserts.IsRun` and `Programme.OnScreen` describe the insert programme
  pointwise, over all days at once, in the fields of the configuration; every
  loop over runs is proved against them. `Scheduler.Programmed`,
  `Scheduler.OnTop`, `Versions.Orders` and `Packets.OnTheWire` do the same for
  the base programme, the inserts on top, the comparison and the bytes written.
- `Recovery` splits every operation at its lock sections and lets the
  environment choose who runs next, whether calls fail, when the process ends
  and when contexts expire. The sections on the `Browser` object and the steps
  of the machine share their effect functions.

Where the code falls short of what its comments promise, the model keeps the
code, proves the exact condition and shows an input:

- A stop can be overtaken. `Start` clears the manual-stop flag inside the gate
  and `Stop` sets it before it queues; a start that is ahead in the queue
  clears the flag of a stop that is still waiting
  (`Recovery.StopCanBeOvertaken`, `Recovery.WhenStopReturns`).
- A scheduled restart looks at its epoch once. Superseded after that, it may
  still ask the running process to exit, and past the last look at its context
  it still launches (`Recovery.SupersededActsExactly`,
  `Recovery.SupersededNeverLaunches`, `Recovery.SupersededMayLaunch`,
  `Recovery.SupersededMayAskForExit`); a stop that superseded it waits for the
  gate and ends the process.
- The guard is checked once in a start. An operation past that check launches
  the browser although the guard has tripped (`Recovery.GuardHoldsExactly`); a
  reset that finds no profile directory reports success and leaves the browser
  stopped (`Recovery.OperationsDeliver`).
- The end reported for a time rule across midnight is not reached when the day
  it lies on is not listed: the rule ends at midnight
  (`Scheduler.EndIsReachedExactly`).
- With no base page, a block of inserts does not return to the page before it
  when the insert list is emptied meanwhile or the display is off at its end;
  in the second case the display comes back on to the insert's page
  (`Scheduler.ReturnsExactlyWhen`, `Scheduler.ReturnLostWhileOff`).
- The configuration is replaced before the scheduler is told. A tick in between
  reads the old rotation position, which can lie beyond a shorter rotation
  (`Scheduler.ReplacedBeforeSignal`, `Scheduler.ShorterRotationOverruns`).
- The two lock sections of preloading can book a page twice
  (`Tabs.TabKeeper.SwitchDuringPreload`), and in tab mode the page under an
  insert is closed when the protected pages fill the limit
  (`Tabs.PageUnderneathExactly`, `Tabs.TabModeMayCloseThePageUnderneath`).
- A packet limit of 128^4 bytes lets a packet through that four size bytes
  cannot express (`Packets.PacketRoundTrip`); topics over 65535 bytes are cut
  by their 16-bit length (`Packets.PublishRoundTrip`).
- Version numbers of 2^63 and more wrap and break the order
  (`Versions.FaithfulExactlyWhenNothingWraps`, `Versions.BothBelowEachOther`).
- The overlap warning takes a window that starts where it ends for a whole
  day, which the scheduler never runs, and overlooks clocks with seconds,
  which the scheduler does run (`Conflicts.OverlapExactly`,
  `Conflicts.RealOverlapsReportedExactly`, `Conflicts.ClocksWithSecondsAreMissed`).
- An out-of-range time rule can name another page after the migration
  (`Migration.OutOfRangeRuleExactly`, `Migration.OutOfRangeRuleMayMove`).

Browser and server count pages by different tests; `PageOrder.CountsAgreeExactly`
says when they differ, and `PageOrder.SavePages` that no saved configuration is
such a case. The timeline of a reversed range, which no caller asks for, is one
base segment (`Programme.ProgramTimeline`).

`dafny verify dfyconfig.toml` verifies the whole project.

## Model

| member | source | states |
|---|---|---|
| `Inserts.SlotMinutes` | internal/config/inserts.go:210-237 | the minutes of a day at which an insert starts, increasing and without repeats: exactly those its rhythm names (`StartsAt`), for all three rhythms |
| `Inserts.AllowsIsCyclicWindow` | internal/config/inserts.go:241-257 | a run may start exactly on a day that the list names, or any day with none, and inside the window, which is membership in a cyclic interval of the 1440-minute day: windows across midnight need no special reading, equal bounds mean the whole day, an unresolved bound none |
| `Inserts.ChecksExactly` | internal/config/inserts.go:241-290 | on a start minute the loop's checks (enabled, page, duration, days, window) are exactly the conditions `MayStart` states in the insert's fields |
| `Inserts.InsertsWhere` | internal/config/inserts.go:78-99 | every insert stays but for being switched off: a conditional one is on afterwards if and only if it was and its topic has sent the value, or with a negated condition has sent another; without a lookup nothing changes |
| `Inserts.ConditionalRuns` | internal/config/inserts.go:59-99 | the runs of the filtered configuration are exactly the runs whose insert has no condition or one seen to hold |
| `Inserts.DaySlots` | internal/config/inserts.go:282-297 | one round of the nested loops adds exactly the allowed runs of that insert on that day that overlap the range |
| `Inserts.LookBackSuffices` | internal/config/inserts.go:267-279 | a run that overlaps the range starts at most one day before it, so the one-day look-back misses nothing |
| `Inserts.InsertSlots` | internal/config/inserts.go:270-306 | for a non-empty range, exactly the runs over all days that overlap it, ordered by start then index: every listed run starts where its insert may start (`MayStart`), and every such start whose run overlaps the range is listed; nothing for an empty or reversed range |
| `Inserts.QueriesAgree` | internal/config/inserts.go:267-306 | two queries list the same runs for every instant both cover |
| `Programme.RankIsTotal` | internal/config/inserts.go:309-330 | priority, then list order, then start rank any two runs one way, transitively |
| `Programme.OnScreenUnique` | internal/config/inserts.go:316-330 | at most one run is on screen at an instant |
| `Programme.BestRunning` | internal/config/inserts.go:320-329 | the scan returns the covering run with the highest priority, among equals the first listed, of one insert the earliest; none exactly when no listed run covers the instant |
| `Programme.ActiveInsert` | internal/config/inserts.go:316-330 | among the runs of all days that cover the instant, the one with the highest priority, then the first listed, then the earliest; none exactly when none covers it |
| `Programme.NextInsertChange` | internal/config/inserts.go:332-344 | the result is after now and an edge of some run; the screen shows the same from now up to it; with no result nothing runs for 48 hours |
| `Programme.SoonerThanHorizon` | internal/config/inserts.go:332-344 | the reported change lies inside the 48 hours looked at |
| `Programme.CutTimes` | internal/config/inserts.go:350-359 | the sorted, compacted cuts hold the range's ends and every run edge between them |
| `Programme.CutShows` | internal/config/inserts.go:360-379 | the winner at a cut is on screen up to the next cut, and its labels are the segment's |
| `Programme.MergeShows` | internal/config/inserts.go:380-384 | merging neighbours by insert ID alone keeps every label right when IDs are unique |
| `Programme.BuildStep` | internal/config/inserts.go:380-386 | append-or-extend keeps the list a gap-free partition with differing neighbours |
| `Programme.ProgramTimeline` | internal/config/inserts.go:346-388 | for from < to: a gap-free ordered partition of [from, to) into non-empty segments, neighbours with different IDs; at every instant a segment carries the labels of the covering run with the highest priority, then the first listed (`ShowsBest`); nothing for an empty range; one base segment for a reversed one |
| `Config.DaysByName` | internal/config/inserts.go:403-415 | a three-letter day name in any case denotes every seventh day, counted from a known Sunday |
| `Text.TrimSpaceExactly` | internal/config/inserts.go:59-65 | trimming leaves the text between the first and the last character that is no white space |
| `Config.ClampPage` | internal/supervisor/browser.go:1605-1616 | -1 for no pages, the first page for a negative index, the last for one too large, valid ones as they are |
| `Clocks.ParsersAgree` | internal/supervisor/browser.go:1566-1577 | on clocks the validator accepts, the scheduler's parser and the overlap warning's parser give the same minute |
| `Clocks.ClockExactly` | internal/supervisor/browser.go:1566-1577 | the scheduler's parser accepts two or three pieces with an hour below 24 and a minute below 60, and gives that minute of the day |
| `Scheduler.FirstActive` | internal/supervisor/browser.go:1526-1556 | the first active rule in configuration order, none exactly when no rule is active |
| `Scheduler.RuleEndsLater` | internal/supervisor/browser.go:1547-1551 | the end reported for an active rule is after now and within a day, also across midnight |
| `Scheduler.ActiveUntilEnd` | internal/supervisor/browser.go:1526-1556 | up to the reported end the rule stays active for the rest of the day, and with clock texts on every day it lists; at the end it is not active |
| `Scheduler.EndIsReachedExactly` | internal/supervisor/browser.go:1547-1551 | with clock texts a rule stays active until its reported end if and only if the day of that end is listed, too |
| `Scheduler.PageScheduler.RotationTarget` | internal/supervisor/browser.go:1496-1524 | the new rotation state and page are those of the rotation function `Rotated`; an empty rotation changes nothing |
| `Scheduler.RotatedTurned` | internal/supervisor/browser.go:1500-1518 | the rotation stays while its item is due to stay, else begins with the first item or turns to the next, for that item's duration from now on (an hour when not positive), counting a round at the first |
| `Scheduler.RotationCountsSwitches` | internal/supervisor/browser.go:1500-1514 | over any run of ticks, position plus length times rounds grows by exactly the number of switches: nothing is skipped or shown twice |
| `Scheduler.RotationDwells` | internal/supervisor/browser.go:1507-1514 | an item stays exactly its effective duration (an hour when not positive) |
| `Scheduler.ReadyExactly` | internal/supervisor/browser.go:1500-1518 | the rotation may be entered if and only if the position a tick reads exists; it is the one the rotation turns to |
| `Scheduler.ReplacedBeforeSignal` | internal/config/config.go:506-523 | a tick between the replacement of a configuration and its signal reads a position out of range if and only if the item of the tick before is still due to stay and lies beyond the new rotation |
| `Scheduler.ShorterRotationOverruns` | internal/supervisor/browser.go:719-751 | a rotation of two on its second item, replaced by one of one item, is such a case |
| `Scheduler.PageScheduler.ConfigChanged` | internal/supervisor/browser.go:735-742 | after a configuration change every configuration's rotation may be entered: the reset restores the index precondition |
| `Scheduler.PageScheduler.BaseTarget` | internal/supervisor/browser.go:1466-1494 | in every mode: the page, name and end of the first active rule in configuration order where rules count, else the rotation's item, unless a hybrid programme is dark or the mode has no rotation (`Programmed`, stated in the configuration's fields) |
| `Scheduler.DisplayFollowsBase` | internal/supervisor/browser.go:948-982 | in the time modes the display is wanted off exactly when the base programme names no page, although the two are decided separately |
| `Scheduler.DisplayOffExactly` | internal/supervisor/browser.go:948-982 | over all modes the display is wanted off if and only if the mode is not override, nobody is known to be there, and presence is required or an enabled scheduler with rules names no page in a mode that uses them |
| `Scheduler.PresenceExactly` | internal/supervisor/browser.go:1398-1414 | somebody is there if and only if detected less than the timeout ago; the scheduler wakes at the latest when that runs out, and up to its wake-up nothing changes without a new detection |
| `Scheduler.PageScheduler.ApplyInserts` | internal/supervisor/browser.go:1420-1454 | a run on screen while the display is wanted on puts the first enabled page with its identifier on top, with reason and label, and the return page of the block; otherwise the base page stands or the return page comes back (`OnTop`); the wake-up time is that of the base programme or of an insert edge, soon enough for every insert change of the next 48 hours |
| `Scheduler.InsertsNeverTouchTheDisplay` | internal/supervisor/browser.go:1416-1454 | an insert neither wakes a display that is wanted off nor blanks one that is on |
| `Scheduler.BlockKeepsReturn` | internal/supervisor/browser.go:1432-1436 | within a block of inserts the return page stays the one shown when the block began |
| `Scheduler.BlockEndsWhereItBegan` | internal/supervisor/browser.go:1416-1454 | over any run of ticks, manual overrides included, a block of inserts ends on the base page, or on the page shown before the block (clamped) when the base names none and the display is on |
| `Scheduler.NotShowingAfter` | internal/supervisor/browser.go:1445-1451 | no block is open at the start or after a tick without an insert, so a block that follows one begins afresh |
| `Scheduler.ReturnsExactlyWhen` | internal/supervisor/browser.go:1420-1454 | with no base page, the page before a block of inserts returns if and only if the tick that ends it has inserts and wants the display on; the return page is forgotten either way |
| `Scheduler.ForgottenForGood` | internal/supervisor/browser.go:1445-1454 | until the next block no tick of any run names a page where the base programme names none |
| `Scheduler.ReturnLostWhileOff` | internal/supervisor/browser.go:784-804 | presence is required and nobody detected when an insert ends: the return page is dropped, and the display comes back on to the insert's page |
| `Scheduler.PageScheduler.SchedulerTarget` | internal/supervisor/browser.go:1376-1394 | a running manual override wins with its own status, keeps the display on and changes nothing; otherwise conditions, base (`Programmed`), presence and inserts (`OnTop`) compose, and an expired override is dropped |
| `Scheduler.NextSchedulerWake` | internal/supervisor/browser.go:814-832 | the full tick with no switch due within it, no sleep for one already past, and 50 ms beyond the switch otherwise |
| `Scheduler.ChangesAreShownInTime` | internal/supervisor/browser.go:757-808 | whatever the tick up to a day, and with the sleep computed only after the page switch, what was decided is out of date for at most the last 50 ms of the sleep, apart from changes during the switch itself |
| `Scheduler.PageScheduler.SetOverride` | internal/supervisor/runtime.go:318-336 | an override that could be shown holds until its end and not after: the asked time, an hour when not positive, a day at most; otherwise nothing changes |
| `Scheduler.PageScheduler.DropOverride` | internal/supervisor/runtime.go:338-343 | no override holds at any time, and the rotation may be entered in every configuration |
| `Scheduler.PageScheduler.ClearOverride` | internal/supervisor/runtime.go:338-357 | the page to show at once is what base programme, presence and inserts decide with the rotation started over (`Programmed`, `OnTop`) |
| `Recovery.Browser.CancelRecoveryLocked` | internal/supervisor/operations.go:73-79 | of all restarts handed out so far none is wanted any more: each epoch is below the current one |
| `Recovery.Browser.AskStop` | internal/supervisor/operations.go:91-105 | from Stop's first section on every restart is stale, and those handed out before stay stale even when the flag is cleared again |
| `Recovery.Browser.ClearStop` | internal/supervisor/operations.go:81-89 | restarts may be scheduled again unless the guard is active, but none handed out before comes back to life |
| `Recovery.Browser.IsStale` | internal/supervisor/runtime.go:288-295 | comparing epochs and reading the flag tells exactly whether anything cancelled this restart since it was handed out, or a stop stands |
| `Recovery.Browser.AskExit` | internal/supervisor/browser.go:432-443 | reports whether there is a process to wait for; if so its exit counts as asked for from now on |
| `Recovery.Browser.CheckStart` | internal/supervisor/browser.go:282-294 | launches exactly when no process runs and the guard is clear, and never takes back an exit that was asked for: its reset of the mark changes nothing |
| `Recovery.Browser.Launch` | internal/supervisor/browser.go:361-371 | a new process of the next generation, whose exit nobody asked for |
| `Recovery.Browser.Wait` | internal/supervisor/browser.go:1009-1052 | the exit counts as expected exactly when it was asked for since this process was launched |
| `Recovery.Browser.Schedule` | internal/supervisor/runtime.go:262-275 | a restart gets an epoch never handed out before, is the one wanted, and leaves all earlier ones stale; none is scheduled when none is due, a stop was asked for or the guard is active |
| `Recovery.Browser.TripAuthGuard` | internal/supervisor/browser.go:1838-1852 | when the guard first trips every restart handed out becomes stale, and none can be scheduled while it is active |
| `Recovery.StepKeepsInv` | internal/supervisor/operations.go:20-61 | in every step of every interleaving one goroutine holds the gate, and scheduled restarts carry past, pairwise different epochs |
| `Recovery.RunKeepsInv` | internal/supervisor/operations.go:20-61 | the same over whole runs |
| `Recovery.AtMostOneCurrent` | internal/supervisor/runtime.go:262-275 | at most one scheduled restart carries the current epoch |
| `Recovery.SupersededDoesNothing` | internal/supervisor/runtime.go:262-305 | in every continuation a superseded restart changes nothing whenever it runs, unless it is on the way to ask a running process to exit or on the point of launching |
| `Recovery.SupersededActsExactly` | internal/supervisor/runtime.go:159-224 | the exact phases and flags with which a superseded restart changes the browser in some continuation: past its stale check, with a running process not yet asked to exit and neither flag nor guard to stop it at its phase, or on the point of launching |
| `Recovery.SupersededNeverLaunches` | internal/supervisor/browser.go:338-363 | unless it is past its last look at its context, a superseded restart launches the browser in no continuation |
| `Recovery.SupersededMayLaunch` | internal/supervisor/browser.go:338-363 | a run from the initial state in which a scheduled restart past that last look is superseded by a stop and launches all the same |
| `Recovery.SupersededMayAskForExit` | internal/supervisor/runtime.go:159-224 | a run from the initial state in which a page switch starts the browser, a scheduled restart passes its checks, a stop supersedes it and it asks the process to exit all the same |
| `Recovery.OperationsDeliver` | internal/supervisor/operations.go:81-118 | over any run from the moment an operation takes the gate until it ends without error: a stop leaves no process; all others leave the browser running, except a reset without a profile directory; restarts, automatic recoveries and whatever no lighter way could do leave a process of the next generation |
| `Recovery.SucceedsExactlyWhen` | internal/supervisor/browser.go:282-480 | an operation that took the gate can end without error, in some continuation, if and only if the guard is clear (a start may find the browser running instead), no stop stands against an automatic recovery, and a scheduled restart is the current one; stops and resets always can |
| `Recovery.GuardHoldsExactly` | internal/supervisor/browser.go:288-303 | while the guard is active and no process is left, some run without clearing the guard brings the browser up if and only if an operation was already past the guard check of start |
| `Recovery.TripBringsDown` | internal/supervisor/browser.go:1830-1867 | the first trip with a running browser queues a stop that can succeed; once it has, over any run, the browser does not come up until the guard is cleared |
| `Recovery.StopOpensRequest` | internal/supervisor/operations.go:91-97 | a call of Stop in any reachable state opens a stop request |
| `Recovery.StopStaysStopped` | internal/supervisor/operations.go:91-97 | in every interleaving in which no section clears the flag while Stop is under way and no starting operation runs afterwards, once Stop has returned without error no scheduled restart, watchdog, renderer hang, control loss or queued recovery brings the process back; page switches and starts past clearing the flag may hold the gate meanwhile |
| `Recovery.FlagSetExactly` | internal/supervisor/operations.go:81-97 | after the last call of Stop the flag is still set if and only if no section has cleared it since |
| `Recovery.WhenStopReturns` | internal/supervisor/operations.go:91-97 | over every run from the last call of Stop to its return without error: the gate is free, the process is gone, and it may come back by itself if and only if a section cleared the flag meanwhile, the guard is clear and a recovery was decided on or scheduled before |
| `Recovery.ComesBackExactlyWhen` | internal/supervisor/runtime.go:159-224 | with the gate free and no process, some run without user operations brings the browser back if and only if flag and guard are clear and a recovery was decided on or scheduled before |
| `Recovery.ExitComesBackExactly` | internal/supervisor/browser.go:1009-1075 | after the exit of the process with the gate free, the browser can come back by itself if and only if flag and guard are clear and nobody asked for the exit or a recovery was decided on or scheduled before |
| `Recovery.StopCanBeOvertaken` | internal/supervisor/operations.go:81-97 | a run from the initial state in which a Start queued ahead clears the flag, the watcher decides on a recovery, Stop still returns without error, and that recovery may bring the browser back |
| `Recovery.ReachedIsReachable` | internal/supervisor/operations.go:20-61 | every run from a state with the invariants ends in one |
| `Recovery.FromTheStart` | internal/supervisor/operations.go:20-61 | every state the program can get into from its initial state satisfies the invariants the theorems assume |
| `Budgets.RestartBudget.AdmitRecovery` | internal/supervisor/runtime.go:174-193 | refusal by backoff, refusal by budget with its deadline, or admission recorded; not held back, it admits if and only if fewer than six recorded recoveries lie in the last hour |
| `Budgets.RestartBudget.WatchdogRestartAllowed` | internal/supervisor/browser.go:1290-1314 | refusal by suppression, refusal by budget with a new suppression of 30 minutes, or admission recorded; not suppressed, it admits if and only if fewer than three recorded restarts lie in the last 30 minutes |
| `Budgets.AdmissionsAreSpaced` | internal/supervisor/runtime.go:178-193 | over any run of attempts at non-decreasing times, any limit + 1 consecutive admissions span at least the window |
| `Budgets.NextIsAdmittedExactly` | internal/supervisor/runtime.go:178-193 | after any run of attempts the next one not held back is admitted if and only if fewer than limit of all admissions so far lie in the window, although the list forgets the older ones |
| `Budgets.WindowHoldsFew` | internal/supervisor/runtime.go:178-193 | so no half-open window of that length holds more than limit of them |
| `Budgets.SixRecoveriesAnHour` | internal/supervisor/runtime.go:178-193 | every half-open hour contains at most six admitted recoveries, whatever backoff comes on top |
| `Budgets.ThreeWatchdogRestartsInHalfAnHour` | internal/supervisor/browser.go:1290-1314 | every half-open 30 minutes contain at most three admitted watchdog restarts |
| `Budgets.DeadlineIsExact` | internal/supervisor/runtime.go:185-189 | the deadline reported with a refusal is exact: the budget refuses before it and not at or after it |
| `Tabs.TabKeeper.ResetTabs` | internal/supervisor/tabs.go:50-59 | all books are empty and no tab is bound |
| `Tabs.TabKeeper.TouchTab` | internal/supervisor/tabs.go:153-161 | the page moves to the end of the order of use, the others keep their order |
| `Tabs.TabKeeper.KeepTabForInsert` | internal/supervisor/tabs.go:65-75 | the tab on screen becomes the only booked one, under the page below the insert; with no tab bound nothing changes |
| `Tabs.TabKeeper.CloseOtherTabs` | internal/supervisor/tabs.go:79-112 | back to one booked tab; closes tabs of other pages only, and all of them except the one on screen and the kept one |
| `Tabs.TabKeeper.BindControlTarget` | internal/supervisor/tabs.go:116-141 | the first target seen is bound to the active page if that has none; pages keep tabs of their own if and only if the target so bound is in no other page's books; a pending new tab is reported once |
| `Tabs.EvictionIsFair` | internal/supervisor/tabs.go:240-275 | eviction keeps every protected page, drops exactly the least recently used pages that may go and none that need not, and ends with at most the limit or only protected pages |
| `Tabs.StaysExactly` | internal/supervisor/tabs.go:240-275 | when n pages go, a page keeps its tab if and only if it is protected or at least n other pages that may go were used less recently |
| `Tabs.KeptStayOpen` | internal/supervisor/tabs.go:264-272 | where no two pages share a tab, closing those of forgotten pages closes none that is kept |
| `Tabs.TabKeeper.EvictTabs` | internal/supervisor/tabs.go:243-275 | the loop ends in the specified order of use, keeps the books consistent, and closes the targets of forgotten pages and of no kept page, never the one shown |
| `Tabs.TabKeeper.BookTab` | internal/supervisor/tabs.go:206-229 | the page is booked as most recently used, and navigated first exactly when its tab is new or its address changed |
| `Tabs.TabKeeper.ChooseTab` | internal/supervisor/tabs.go:166-199 | the page's own tab if it can be activated, else a new one, else none |
| `Tabs.TabKeeper.SwitchTab` | internal/supervisor/tabs.go:165-238 | the shown page has its tab, is the most recently used and has its own address booked; preloaded pages and the page under an insert keep theirs, and no kept page's tab is closed; at most the configured number of tabs is left, or only those pages, and a page loses its tab only if that many are left; with the exact condition for the page shown before |
| `Tabs.TabKeeper.PreloadTab` | internal/supervisor/tabs.go:311-323 | the second lock section keeps the books consistent if and only if the page still has no tab |
| `Tabs.TabKeeper.SwitchDuringPreload` | internal/supervisor/tabs.go:296-323 | a tab switch between the two lock sections leaves the books consistent if and only if the page had a tab at the check; else the page stands twice in the order of use |
| `Tabs.TabKeeper.ShowInTab` | internal/supervisor/browser.go:551-568 | the switch in either mode: the tab chosen, whether an insert phase begins or ends, one tab left when it ends, no booked tab closed |
| `Tabs.TabKeeper.ShowPage` | internal/supervisor/browser.go:536-568 | showing any page, as an insert or not, in either mode: which tab is on screen afterwards, whether an insert phase begins or ends, one tab left when it ends, nothing touched when no tab is involved; the books stay consistent, the page under an insert keeps its tab, and no booked tab nor the one on screen is closed |
| `Tabs.PageUnderneathExactly` | internal/supervisor/tabs.go:240-275 | the page last used before the one coming on screen loses its tab if and only if it is unprotected and the protected pages fill the limit |
| `Tabs.TabModeMayCloseThePageUnderneath` | internal/supervisor/tabs.go:250-262 | in tab mode with one tab allowed, showing an insert closes the page under it unless that is preloaded |
| `Migration.Kiosk.Applies` | internal/config/config.go:907-940 | migration is needed exactly for a rotation over an enabled list without identifiers, with every item in range and not one item a page in order |
| `Migration.Kiosk.MigrateLegacySequence` | internal/config/config.go:906-976 | the rebuilt lists are the specified ones; nothing changes when no migration applies |
| `Migration.Rebuild` | internal/config/config.go:942-966 | the three loops lay out shown, unshown and hidden pages in order, and note the first new index of every old enabled page |
| `Migration.NewEnabled` | internal/config/config.go:942-966 | in enabled-page index space the new list is the shown pages, then the unshown ones |
| `Migration.RotationPlaysTheSame` | internal/config/config.go:906-976 | rotation position i is item i of page i, shows the page it showed before, for the duration it had, an hour when not positive |
| `Migration.TimeRulesNameTheSame` | internal/config/config.go:962-966 | every time rule that named a page names the same page afterwards, at the first position that shows it, and is otherwise unchanged; out-of-range rules are untouched |
| `Migration.NoPageIsLost` | internal/config/config.go:942-966 | every page, enabled or not, is still there up to its duration |
| `Migration.NoPageIsAdded` | internal/config/config.go:942-966 | every page afterwards was one before up to its duration, and the enabled ones come first |
| `Migration.OutOfRangeRuleExactly` | internal/config/config.go:962-966 | a rule that is out of range keeps its number; clamped at run time it names the page it named before if and only if the rotation begins with the first page, or respectively the position it is clamped to shows the last page or is the last one |
| `Migration.OutOfRangeRuleMayMove` | internal/config/config.go:962-966 | two pages swapped by the rotation, where such a rule changes from the last page to the first |
| `PageIDs.UniquePageID` | internal/config/config.go:1042-1052 | for every finite set of used names: the base itself when free, else the first free numbered name; the search ends |
| `PageIDs.TrimBuilt` | internal/config/config.go:1022-1035 | the trimmed text is a slug with the title's letters and digits in order |
| `PageIDs.LegacyPageID` | internal/config/config.go:1021-1040 | an unused identifier: a slug of the title's letters and digits, or page_N when it has none, numbered if need be |
| `PageIDs.Pages.NormalizeIDs` | internal/config/config.go:978-1019 | all identifiers non-empty and pairwise distinct; a page keeps its own, or gets it numbered when an earlier page has it; one without gets a name from its title; nothing else changes |
| `PageIDs.SecondPassChangesNothing` | internal/config/config.go:978-1019 | any pass over pages that already have identifiers of their own changes nothing |
| `Packets.EncodeRemainingLength` | internal/mqttclient/packet.go:58-71 | byte i holds base-128 digit i, lowest first, with the top bit set on all but the last, in the fewest bytes |
| `Packets.DecodeRemainingLengthBytes` | internal/mqttclient/packet.go:274-288 | at most four bytes are read, and a fifth is malformed |
| `Packets.Stream.DecodeRemainingLength` | internal/mqttclient/packet.go:73-88 | the stream decoder accepts the same sizes as the one on bytes and consumes as many bytes |
| `Packets.LengthRoundTrip` | internal/mqttclient/packet.go:58-88 | a size is read back exactly when it is below 128^4; larger ones are rejected (section 2.2.3 of MQTT 3.1.1, section 1.5.5 of MQTT 5.0) |
| `Packets.EncodingIsMinimal` | internal/mqttclient/packet.go:58-88 | no byte sequence that decodes to a size is shorter than its encoding |
| `Packets.HeaderType` | internal/mqttclient/packet.go:22-30 | the type read from a header is the written type merged with the flags' high bits, so it survives when both fit four bits; then the header is the type above the flags |
| `Packets.Stream.WritePacket` | internal/mqttclient/packet.go:22-30 | exactly the packet's bytes are appended |
| `Packets.Stream.ReadPacketLimit` | internal/mqttclient/packet.go:36-56 | type and payload of the first packet, the stream advanced past it; an error for short, malformed or oversized input |
| `Packets.PacketRoundTrip` | internal/mqttclient/packet.go:22-56 | a packet comes back as written if and only if its type survives the header, its size is within the limit and below 128^4; a limit of 128^4 itself is accepted but cannot be met |
| `Packets.StreamRoundTrip` | internal/mqttclient/packet.go:22-56 | any sequence of packets written back to back is read back as the same types and payloads in order, whatever follows |
| `Packets.PublishRoundTrip` | internal/mqttclient/packet.go:147-190 | topic and body of a PUBLISH come back in both protocol versions if and only if the topic is at most 65535 bytes |
| `Packets.PublishOnTheWire` | internal/mqttclient/packet.go:90-160 | the bytes of a PUBLISH: the topic length in two bytes, high byte first, the topic, an empty property length in version 5, the body (sections 1.5.3 and 3.3 of MQTT 3.1.1, section 3.3 of MQTT 5.0) |
| `Packets.PropertiesAreSkipped` | internal/mqttclient/packet.go:170-190 | topic and body are read back whatever properties a PUBLISH of version 5 carries; in other versions nothing is skipped |
| `Versions.FieldPart` | internal/updater/updater.go:868-877 | the digit loop computes the leading number modulo 2^64 as a signed 64-bit value |
| `Versions.WrapExactly` | internal/updater/updater.go:868-877 | a 64-bit result is in range and differs from the exact one by whole turns |
| `Versions.VersionParts` | internal/updater/updater.go:861-879 | one number for each dotted field before the first '-' or '~' |
| `Versions.NumbersReadBack` | internal/updater/updater.go:861-879 | numbers below 2^63 written between dots, with or without v and with any suffix, are read back as they are |
| `Versions.PrereleaseIdentifiers` | internal/updater/updater.go:848-859 | the loop lists the identifiers, a word with a glued number giving two |
| `Versions.IdentifiersNeverWrap` | internal/updater/updater.go:833-835 | no difference of two numeric identifiers leaves 64 bits |
| `Versions.LexPreorder` | internal/updater/updater.go:825-846 | lexicographic comparison by a total preorder, shorter first, is a total preorder |
| `Versions.IdentifiersOrdered` | internal/updater/updater.go:825-846 | single identifiers (numbers below words) form a total preorder |
| `Versions.LabelsCompare` | internal/updater/updater.go:825-846 | of two labels the first identifiers that differ decide, numbers by value and before words, words by their characters; a label that only continues the other comes after it |
| `Versions.NumberedLabel` | internal/updater/updater.go:848-859 | a number behind a word is an identifier of its own, glued to it or not |
| `Versions.LabelsAsDocumented` | internal/updater/updater.go:820-824 | the documented order pre < pre.2 < pre10 < rc.1 for all words and numbers |
| `Versions.CompareVersion` | internal/updater/updater.go:781-807 | where the zero-padded numbers first differ, the smaller comes first if their difference fits 64 bits; where none differs, a pre-release comes before a final release and two pre-releases are ordered by their identifiers (`Orders`) |
| `Versions.PrecedenceIsTotalPreorder` | internal/updater/updater.go:781-846 | comparison with exact subtraction is a total preorder on all texts (compare section 11 of Semantic Versioning 2.0.0) |
| `Versions.FaithfulExactlyWhenNothingWraps` | internal/updater/updater.go:792-794 | the program's comparison has the sign of that precedence if and only if the first differing numbers can be subtracted in 64 bits |
| `Versions.InRangeIsFaithful` | internal/updater/updater.go:781-807 | which holds whenever every number of both versions is below 2^63; then the parts are the numbers themselves |
| `Versions.BothBelowEachOther` | internal/updater/updater.go:792-794 | of the versions 2^63 and 0 each compares below the other |
| `Versions.TrailingZeroesDoNotCount` | internal/updater/updater.go:784-791 | appending .0 to the numbers of either version, before any suffix, changes no comparison |
| `Versions.PrereleaseComesFirst` | internal/updater/updater.go:796-805 | a version with a suffix compares below the same version without it, both ways round |
| `Versions.InRangePairsFit` | internal/updater/updater.go:492-499 | numbers below 2^63 in all eligible tags are enough for that |
| `Versions.NewestRelease` | internal/updater/updater.go:488-505 | an eligible release of the list; when no comparison of eligible tags can wrap, the first that none exceeds: none has larger numbers where they first differ, nor is a final release of it (`NotNewer`); an error exactly when none is eligible |
| `JobOutput.JobWriter.Write` | internal/actions/actions.go:418-437 | the lines completed so far are appended, the unfinished rest is kept |
| `JobOutput.JobWriter.Flush` | internal/actions/actions.go:439-446 | the rest is appended when it is not blank, and cleared |
| `JobOutput.NormalisedBreaks` | internal/updater/updater.go:689-691 | rewriting CR LF and CR to LF changes neither the rest nor the kept lines |
| `JobOutput.WriteKeepsTheStream` | internal/updater/updater.go:686-704 | after a write, the lines still to come are those of the whole stream |
| `JobOutput.ChunksDoNotMatter` | internal/updater/updater.go:686-713 | however the stream is cut into writes, the lines after the flush are the trimmed non-blank pieces of the whole stream split at CR or LF, also when a CR LF straddles two chunks |
| `JobOutput.TwoCutsAgree` | internal/actions/actions.go:418-446 | two ways of cutting the same output give the same job lines |
| `ProcessTree.ReadProcesses` | internal/system/stats_linux.go:143-156 | the two maps index the entries: last entry for each pid, children in reading order |
| `ProcessTree.Visit` | internal/system/stats_linux.go:160-171 | visiting one pid keeps what was met below the root and closed under children |
| `ProcessTree.ProcessTree` | internal/system/stats_linux.go:142-174 | ends on every parent relation, cyclic ones too, with exactly the known pids reachable from the root, increasing |
| `Conflicts.WindowSegments` | internal/config/conflicts.go:101-111 | the segments of a window are its minutes, also across midnight, unless it starts where it ends |
| `Conflicts.SegmentsMeetAtAMinute` | internal/config/conflicts.go:91-97 | two lists of segments meet exactly when some minute is in both |
| `Conflicts.DaysMeetOnAWeekday` | internal/config/conflicts.go:113-131 | for recognised names the day lists overlap exactly when some weekday suits both |
| `Conflicts.OverlapExactly` | internal/config/conflicts.go:82-99 | for enabled rules with HH:MM clocks and recognised days: the scheduler can find both active if and only if the warning is given and neither window starts where it ends |
| `Conflicts.PlainClock` | internal/config/conflicts.go:133-141 | two digits for the hour and two for the minute are a valid clock and denote that minute of the day |
| `Conflicts.NightMeetsMorning` | internal/config/conflicts.go:82-111 | 22:00 to 06:00 meets 05:00 to 07:00: reported, and both active at some minute |
| `Conflicts.DegenerateWindowsOverReport` | internal/config/conflicts.go:103-106 | a window that starts where it ends never runs and is reported against every rule of its days |
| `Conflicts.RealOverlapsReportedExactly` | internal/config/conflicts.go:82-99 | of two rules the scheduler does find active at once, the warning is given if and only if all their clocks are plain HH:MM |
| `Conflicts.ClocksWithSecondsAreMissed` | internal/config/conflicts.go:86-90 | 08:00:00 to 09:00:00 runs but is never reported, even against itself on another page |
| `Conflicts.RowConflicts` | internal/config/conflicts.go:30-35 | the inner loop lists the clashes of one rule with the later ones, in order |
| `Conflicts.TimeRuleConflicts` | internal/config/conflicts.go:22-36 | the nested loops list the clashing pairs of enabled rules in order, labelled by name or position among the enabled |
| `Conflicts.WarningsAreTheRealOverlaps` | internal/config/conflicts.go:18-36 | with well-formed enabled rules a warning is listed if and only if it names an earlier and a later rule for different pages that can both be active |
| `PageOrder.Kiosk.MovePage` | internal/admin/web/assets/actions-kiosk.js:719-728 | the two pages swap, every reference is remapped and the address list follows; out of range nothing changes |
| `PageOrder.Kiosk.RemovePage` | internal/admin/web/assets/actions-kiosk.js:730-738 | the page goes and of the inserts exactly its own, every reference is remapped and the address list follows |
| `PageOrder.Kiosk.SyncKioskURLs` | internal/admin/web/assets/actions-kiosk.js:678-680 | the addresses of the listed pages in order |
| `PageOrder.AddressesFollowNumbers` | internal/admin/web/assets/actions-kiosk.js:678-680 | the address list runs in step with the numbers references count by |
| `PageOrder.Kiosk.RemapPageIndexes` | internal/admin/web/assets/actions-kiosk.js:746-772 | rotation items and time rules change only in their page, which is the remapped one |
| `PageOrder.FindAgain` | internal/admin/web/assets/actions-kiosk.js:757-770 | the second pass maps every reference to the new number of its page, 0 when it is gone |
| `PageOrder.SurvivorsKeepTheirReferences` | internal/admin/web/assets/actions-kiosk.js:740-772 | a reference whose page survives names that very page afterwards, for every reordering or removal |
| `PageOrder.MoveKeepsEveryReference` | internal/admin/web/assets/actions-kiosk.js:719-772 | after a move every reference names the page it named before |
| `PageOrder.RemoveKeepsTheOthers` | internal/admin/web/assets/actions-kiosk.js:730-772 | after a removal every other reference names its page, and references to the removed page or to none become 0 |
| `PageOrder.CountsAgreeExactly` | internal/admin/web/assets/actions-kiosk.js:750-756 | browser and server count the same pages if and only if no enabled page has an address of blanks only |
| `PageOrder.ServerShowsTheSame` | internal/config/config.go:327-335 | then the server shows the same page for every surviving reference after the edit |
| `PageOrder.NormalizeLocalPages` | internal/config/localpages.go:125-136 | every local page gets its derived address, the others stay |
| `PageOrder.ValidatePages` | internal/config/config.go:589-604 | accepts exactly when every page is local, disabled without an address, or has a valid one |
| `PageOrder.SavePages` | internal/config/config.go:390-397 | what is saved has no enabled page whose address is blank |
| `PageOrder.SavedPagesStayInPlace` | internal/config/config.go:390-397 | so for every saved configuration the server shows the same page after any move or removal, wherever the page survives |
| `PrivilegedCommand.BuildPrivilegedCommand` | internal/updater/updater.go:658-678 | sudo gets the arguments as they are, su one command line that the shell reads back as the command and its arguments; other modes are refused |
| `PrivilegedCommand.ReadsEscaped` | internal/updater/updater.go:668-672 | inside single quotes the escaped text reads as the text itself |
| `PrivilegedCommand.ShellReadsBack` | internal/updater/updater.go:668-674 | the quoted and joined list is read back word for word, for arbitrary strings (sections 2.2.2 and 2.2.3 of the POSIX Shell Command Language) |

## Left out

- Scheduler.PageScheduler.ApplyInserts: the wake-up time is sound while the insert conditions and the configuration stay as they are; a message or a configuration change wakes the scheduler by another channel, which is not part of this model.
- Scheduler.PageScheduler.SchedulerTarget: saving the runtime state when an override expires is left out, and a manual override carries its page and end only.
- Scheduler.PageScheduler.SetOverride: whether the page could be shown is a parameter; showing it is the page switch of `Tabs`.
- Scheduler.PageScheduler.ClearOverride: the page switch to the page it returns is that of `Tabs`; saving the state is left out.
- Scheduler.ChangesAreShownInTime: the page switch between decision and sleep is taken to end within a day (the program allows it 30 seconds).
- Versions.NewestRelease: the maximum is promised only when no comparison of eligible tags can wrap, because wrapped differences have no order to be a maximum of; otherwise the result is still eligible.
- Versions.PrereleaseIdentifiers: lower-casing covers the letters whose lower case is an ASCII letter, so labels with other capitals compare by their own code points.
- Inserts.ConditionalRuns: the comparison without regard to case is any function of two texts.
- Inserts.SlotMinutes: the minute a clock text or sun time means on a day is an arbitrary function into [0, 1440), as the program clamps it; the sun equations behind it are not part of this model.
- Tabs.TabKeeper.ShowPage: what Chromium does is a parameter (whether a kept tab can be activated, the target of a new one); Chromium never gives a new tab the identifier of one in the books. After a failure the tab on screen is navigated and its real content is not modelled.
- Tabs.TabKeeper.PreloadTab: the call to Chromium between the two lock sections is not part of this model; what may happen meanwhile is shown for a tab switch to the same page.
- Recovery.StopStaysStopped: after the return of Stop page switches count as starting operations, because showing a page starts a stopped browser; the scheduler's earlier look at the flag does not change that.
- Recovery.ComesBackExactlyWhen: an operation's context may end, a call may fail and a reload may succeed at any time; backoff delays and the restart budget only rule runs out and appear as failures.
- Recovery.AtMostOneCurrent: of the context that a supersession ends, the look before a launch is modelled; elsewhere its end is one of the ways a call may fail or a timer never fires.
- Budgets.RestartBudget.AdmitRecovery: the delay after a failed recovery and the attempt counter are not part of this model; backoff is an arbitrary time until which attempts are held.
- JobOutput.JobWriter.Write: trimming is any function that leaves nothing of an empty line, so the result does not depend on what counts as white space.
- ProcessTree.ReadProcesses: entries of /proc that are not numbers or cannot be read are left out beforehand; tick counts and memory sizes are not kept.
- PrivilegedCommand.ShellReadsBack: the shell of the root account is taken to follow POSIX quoting; unquoted operators, expansions, patterns and comments make the reader give up instead of being interpreted.
- Conflicts.TimeRuleConflicts: only the warnings about time rules; workflow rules that share a trigger or a topic are a flat comparison of fields.
- PageIDs.Pages.NormalizeIDs: the other page defaults filled in by the same loop (source type, display mode, duration, brightness) are not part of this model.
- PageOrder.ValidatePages: of the page checks only those of the address; the test for a web address is any predicate, the settings of a local page are not part of this model.
- Migration.Kiosk.MigrateLegacySequence: pages carry the fields the modelled code reads; theme, schedule, trigger and display settings move with the page unseen.
- Time zones and daylight saving: days are uniform and instants are integer nanoseconds; durations too long for 64 bits are not modelled.
- Operation history, event journal, telemetry, persisted runtime state and status texts: records without a decision.
- HTTP handlers, sessions, DevTools traffic, process launching, profile files, MQTT discovery and command dispatch, templates and forms: input, output or long flat tables.
- Defaults and range checks of the configuration: easy and numerous; what the theorems need of them (unique insert IDs, clock formats) is stated where it is used.
