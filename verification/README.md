# Verified models of InfiniShell Desktop

Dafny models of nine self-contained state machines and text algorithms of the application, each
with the properties its code is relied on for. Each file is one module.

- **Menus.** `MenuTree.dfy` has a nested menu as a value and what every action does to it;
  `MenuObjects.dfy` has the tree of mutable submenus and proves each method changes the tree exactly
  so. `MenuCycle.dfy` proves that Next and Previous walk one cycle, `MenuPaths.dfy` that there is one
  open path and that pointer events stay at their depth, `MenuKeys.dfy` that the arrow keys walk the
  cycle of whichever submenu is active, `MenuEffects.dfy` what each action does to it, and `MenuSafety.dfy`
  that sensible runs do not panic. `Menus.dfy` puts the safe triangle in front of the tree.
- **Throttle.** `Throttles.dfy`: the poll-driven throttle in place, and timed runs of it.
- **Crash recovery.** `CrashFrames.dfy`: the frame counters that end the standby process or the
  application. `RecoveryChain.dfy`: which recovery process follows which.
- **Safe triangle.** `SafeTriangles.dfy`, over the reals.
- **Localisation scanners.** `KeyScanner.dfy` and `ArgumentSplitter.dfy`, on the searches of `ByteScan.dfy`.
- **Text and files.** `Utf8.dfy` (section 3 of RFC 3629), `Prefixes.dfy`, `TextMatching.dfy` and
  `RemoteBundle.dfy`. `Options.dfy` holds `Option`.

Check everything with `dafny verify dfyconfig.toml`. A lemma that does not need a function's body
says so with `hide`.

## Where the code falls short

Each of these is stated with its exact condition in the table below, and most with an input.

- The throttle loses whatever is queued at the poll that sees its stream close
  (`Throttles.CloseDropsTheQueue`, `Throttles.CloseDeliversTheNewestIff`). After a drain a Pending can
  leave the stream's waker registered beside the timer's (`Throttles.TwoWakeSourcesIff`).
- A user moved from Wayland to X11 after a crash is not told if a GPU preference is stored
  (`RecoveryChain.WaylandCrashIsReportedIff`); with preferences that cannot be written the chain of
  recoveries may never end (`RecoveryChain.UnwritableChainIsEndlessIff`).
- With the pointer straight above or below the near edge, the safe triangle is a whole vertical line
  (`SafeTriangles.FlatWedgeIff`, `SafeTriangles.FarHoverIsSuppressed`).
- Two presses of Next on an empty menu panic (`MenuCycle.SecondPressPanicsIff`).
- `call_arguments` does not terminate for every callee if the callee is empty
  (`ArgumentSplitter.SkipAdvancesIff`).
- `create` and `copy` with the source as destination delete it (`RemoteBundle.FileSystem.Create`,
  `RemoteBundle.FileSystem.Copy`).
- A history entry that starts with white space is not found by its visible text
  (`TextMatching.SuggestedIff`, `TextMatching.SpacedEntryIsNotFound`).
- A single keystroke printed as `none` is read back as a removed keybinding
  (`TextMatching.KeybindingRoundTrip`, `TextMatching.KeystrokeNoneIsReadAsRemoved`).

## Modelling choices

- A `SubMenu` object keeps a ghost `View`, its abstract value, and `Repr`, the objects it owns. Rust's
  ownership of the items passed to `new`, `set_items` and `add_items` is the precondition `Owned`.
- Emitted events are returned as a sequence. A Rust panic is a precondition of the in-place method
  (`SelectPanics`) and an outcome of the runs.
- Time is a natural number. A poll reads the clock twice, when it polls the timer and when it arms a
  new one. A run of the throttle records arrivals, what is taken, what is emitted, and since when the
  task is due for a poll; after a ready poll the consumer polls again.
- A `str` is its UTF-8 bytes where the code indexes bytes, and its characters where it iterates them.
- Process exit is a flag after which no callback comes. `WGPU_BACKEND`, `WAYLAND_DISPLAY`, the channel and
  the outcome of spawning and writing are inputs.
- The digest of a file and the two conversions of a keystroke are parameters. A file that holds JSON holds its value.

## Model

| member | source | states |
|---|---|---|
| MenuCycle.NextIsOneCycle | app/src/menu.rs:1915-1989 | From any stop (a cell of a selectable row), pressing Next as often as there are stops returns to it, and every stop is selected after exactly one smaller number of presses: Next is one single cycle. |
| MenuCycle.NextAndPreviousAreInverse | app/src/menu.rs:1920-1978 | Previous undoes Next and Next undoes Previous at every stop, across multi-cell rows, skipped rows and the wrap-around, and neither panics there. |
| MenuCycle.NextAdvancesRank | app/src/menu.rs:1951-1978 | Next goes from the stop of rank k in reading order to rank k + 1, or from the last to the first. |
| MenuCycle.PreviousRetreatsRank | app/src/menu.rs:1920-1950 | Previous goes to the stop whose successor in reading order is the current one. |
| MenuCycle.NextJoinsTheCycle | app/src/menu.rs:1951-1980 | From any selection in range, selectable or not, Next lands on a stop after exactly the rest of the current row's cells plus one press, if anything is selectable. |
| MenuCycle.FirstNextIsStopIff | app/src/menu.rs:1979-1980 | Next without a selection takes row 0 unchecked: it is a stop exactly when row 0 is selectable. |
| MenuCycle.SelectableHasStop | app/src/menu.rs:1522-1557 | A row is selectable exactly when it contributes stops to the cycle, and then its last stop is `items_len - 1`. |
| MenuCycle.StopIff | app/src/menu.rs:1522-1557 | Which cells are stops, kind of row by kind of row: enabled items, all cells of a row with an enabled one, a submenu with items and one more cell per item, clickable headers. |
| MenuCycle.NearestRows | app/src/menu.rs:1920-1978 | From any row, selectable or not, the next row is the nearest selectable one down and around and the previous row the nearest the other way; if nothing is selectable both stay. |
| MenuCycle.InRangeSelectionIsSafe | app/src/menu.rs:1915-1989 | Selecting from an in-range selection never indexes past the rows, and the result is in range exactly when the action names an existing row or the menu has rows. |
| MenuCycle.EmptyMenuPanicsOnSecondNext | app/src/menu.rs:1951-1980 | On an empty menu the first Next selects the missing row 0 and the second Next or Previous panics. |
| MenuCycle.SecondPressPanicsIff | app/src/menu.rs:1915-1989 | Next without a selection, and then Next or Previous: the second press panics if and only if the menu is empty. |
| MenuCycle.PreviousPanicsIff | app/src/menu.rs:1920-1950 | Previous panics if and only if the selected row does not exist, its cell is the first or absent, and no row is selectable. |
| MenuKeys.KeySelectsInActiveMenu | app/src/menu.rs:2810-2816 | A selection by key takes place in the active menu at any depth, and that menu stays the active one. |
| MenuKeys.NextKeyIsOneCycle | app/src/menu.rs:1915-1989 | Repeated presses of the Next key on a whole menu walk the active submenu through all its stops in one single cycle. |
| MenuKeys.NextAndPreviousKeysAreInverse | app/src/menu.rs:1920-1978 | On a whole menu the Previous key undoes the Next key and the other way round, at every stop of the active submenu. |
| MenuEffects.OpensAtFirstSelectable | app/src/menu.rs:2066-2127 | OpenSubmenu and Enter on a submenu row select the first selectable row of the submenu and no other, with its event; the active menu moves one level down. |
| MenuEffects.NothingToOpen | app/src/menu.rs:2066-2096 | A submenu without a selectable row does not open: nothing changes and nothing is emitted. |
| MenuEffects.EnterIs | app/src/menu.rs:2098-2127 | Elsewhere Enter dispatches the action of the selected item, cell or clickable header, or announces it, and closes the menu; without an action it does nothing. |
| MenuEffects.SelectingIs | app/src/menu.rs:1915-1989 | Any selection: the new row and cell are selected and the row hovered; the submenus are untouched if the row stays and all closed if it changes; items, depth and source stay. |
| MenuEffects.PointerIs | app/src/menu.rs:2754-2839 | What each pointer event does to the submenu it is for, and what it emits. |
| MenuEffects.HandleKeepsItems | app/src/menu.rs:2754-2839 | No action adds, drops or alters an item at any level. |
| MenuEffects.RunsKeepItems | app/src/menu.rs:2498-2518 | After any run the menu has the items set last and those added since. |
| MenuEffects.AddingKeepsTheRest | app/src/menu.rs:2509-2518 | Adding items leaves the rows that are there, with their selections, and the selection exactly as they are. |
| MenuEffects.CloseAndSelectEvents | app/src/menu.rs:2810-2838 | Close emits its event and changes nothing; a selection by key is announced. |
| MenuPaths.RunsKeepOnePath | app/src/menu.rs:1821-1863 | After any run of actions, selections, resets and item changes: only selected rows lead to submenus with any selection state, and every submenu is one deeper than its parent. |
| MenuPaths.RunsHaveOneActiveMenu | app/src/menu.rs:2048-2064 | After any run: a node not on the selected path has no selection, hover or source; the active menu is the unique deepest node with a selection, or the root. |
| MenuPaths.HandleKeeps | app/src/menu.rs:2754-2839 | One action of any kind keeps the single open path and the nested depths. |
| MenuPaths.SetItemsKeeps | app/src/menu.rs:2498-2507 | `set_items` establishes both, whatever selection state the new items carry. |
| MenuPaths.AddItemsKeeps | app/src/menu.rs:2509-2518 | `add_items` keeps both when the added submenus have never been touched. |
| MenuPaths.ActiveMenuIsDeepestSelection | app/src/menu.rs:2048-2064 | `active_menu_mut` returns the node at the end of the selected submenus that hold a selection, and every node with a selection is at or above it. |
| MenuPaths.PointerActsAtItsDepth | app/src/menu.rs:2723-2839 | A pointer event of depth d replaces exactly the depth-d node of the selected path by the result of handling it there; when the path does not reach depth d nothing changes and nothing is emitted. |
| MenuPaths.PointerLeavesTheRestAlone | app/src/menu.rs:2723-2768 | After a pointer event of depth d every node outside the depth-d open submenu has the same depth, selection, hover and source as before. |
| MenuPaths.KeyActsAtActiveMenu | app/src/menu.rs:2810-2816 | A keyboard action replaces exactly the active menu by the result of handling it there. |
| MenuSafety.SensibleRunsNeverPanic | app/src/menu.rs:1915-1989 | No run panics in which selections name existing rows, Next and Previous are only sent to menus with rows, and added submenus are fresh. |
| MenuObjects.SubMenu.SelectInternal | app/src/menu.rs:1915-1989 | In place: the new value of the whole subtree is `MenuTree.SelectInternal` of the old one. |
| MenuObjects.SubMenu.FindNext | app/src/menu.rs:1965-1975 | The loop over one forward lap finds the row `MenuTree.NextRow` does. |
| MenuObjects.SubMenu.FindPrevious | app/src/menu.rs:1932-1943 | The loop over one backward lap finds the row `MenuTree.PreviousRow` does. |
| MenuObjects.SubMenu.ClearNestedSubmenuSelections | app/src/menu.rs:1853-1863 | In place: every submenu below, at any depth, loses its selection, hover and source, and nothing else changes. |
| MenuObjects.SubMenu.AssignNestedDepths | app/src/menu.rs:1821-1832 | In place: every submenu below gets its parent's depth plus one, and nothing else changes. |
| MenuObjects.SubMenu.HandleAction | app/src/menu.rs:2754-2839 | In place: tree and emitted events are `MenuTree.Handle` of the old tree, without touching objects outside it. |
| MenuObjects.SubMenu.DelegatePointerAction | app/src/menu.rs:2723-2752 | Delegates exactly when the event is for another depth and the selected submenu is not past it, and then has handled it. |
| MenuObjects.SubMenu.ActAtActiveMenu | app/src/menu.rs:2048-2127 | In place: Select, OpenSubmenu and Enter take effect at the active menu. |
| MenuObjects.SubMenu.SetItems | app/src/menu.rs:2498-2507 | In place: the items are replaced, depths assigned, and all selection state cleared. |
| MenuObjects.SubMenu.AddItems | app/src/menu.rs:2509-2518 | In place: the items are appended and all depths assigned again. |
| Menus.Menu.HandleAction | app/src/menu.rs:2853-2869 | A suppressed leaf hover changes nothing but the triangle's flag; any other action acts on the tree, and an admitted leaf hover becomes the new apex. |
| Menus.SuppressedRunsFreezeTheMenu | app/src/menu.rs:2853-2869 | Over any run of suppressed leaf hovers the tree, the target and the apex do not change, and every hover is in that apex's triangle or within two units of it. |
| Menus.AdmittedHoverMovesTheApex | app/src/menu.rs:2854-2861 | A leaf hover that is not suppressed becomes the last position and leaves the flag off. |
| Menus.SuppressedOrHandled | app/src/menu.rs:2853-2869 | In every state: a suppressed hover changes the flag alone; any other action does to the tree what it does without a triangle, and only leaf hovers touch the triangle. |
| Throttles.Throttle.PollNext | app/src/throttle.rs:26-54 | In place, with the drain loop: result, timer, queue and wakers are those of the pure `PollState`, which takes all queued items and returns the newest, or the head when no timer is armed. |
| Throttles.RateBound | app/src/throttle.rs:26-54 | In every run with a clock that never runs backwards and a positive period, a closed interval of length L holds at most floor(L / period) + 1 emissions. |
| Throttles.LeadingEdge | app/src/throttle.rs:48-52 | In every run, a poll without a timer takes the oldest item not yet taken and no other, emits it at once and arms the timer. |
| Throttles.TrailingEdge | app/src/throttle.rs:27-47 | In every run, a poll at the deadline of an open stream takes everything offered so far and emits the newest, or drops the timer if there is nothing. |
| Throttles.EarlyPollChangesNothing | app/src/throttle.rs:27-28 | Before the deadline nothing is taken, emitted or disarmed. |
| Throttles.CloseAndTheTimer | app/src/throttle.rs:32-52 | A poll that sees the close at a deadline leaves no timer; one that sees it without a timer arms one. |
| Throttles.RunsAreSpaced | app/src/throttle.rs:41-50 | In every run consecutive emissions are a period apart, an armed timer covers the period after the last one, and no timer means the period is over. |
| Throttles.RunsAreFresh | app/src/throttle.rs:30-52 | In every run the emitted items are a subsequence of the offered ones, and until the close is seen the last item taken is the last one emitted. |
| Throttles.EveryDropIsSuperseded | app/src/throttle.rs:30-52 | Until the close is seen, every item taken was emitted or superseded by a later emitted item. |
| Throttles.CloseDropsTheQueue | app/src/throttle.rs:32-38 | A poll sees the close exactly when the stream is closed and the timer is due, or no timer is armed and nothing is queued; then it emits nothing and all that is queued is lost. |
| Throttles.CloseDeliversTheNewestIff | app/src/throttle.rs:26-54 | From any moment after the close, over every continuation that sees it, the newest item is delivered if and only if nothing was queued at that moment, or it alone was and no timer was armed. |
| Throttles.CloseCanLoseAnItem | app/src/throttle.rs:32-38 | A run in which the last item offered is never delivered. |
| Throttles.PendingLeavesAWakeSource | app/src/throttle.rs:27-50 | Every Pending leaves an unfired timer that will wake the task and the queue untouched, or no timer and a waker on an empty open stream. |
| Throttles.TwoWakeSourcesIff | app/src/throttle.rs:30-50 | In every run, a stream waker is registered beside an armed timer if and only if a drain emptied the queue and there have only been polls since. |
| Throttles.PendingCanLeaveTwoWakeSources | app/src/throttle.rs:27-50 | A run that ends with a Pending and both wakers registered. |
| Throttles.RunsAlwaysWake | app/src/throttle.rs:27-50 | In every run, a task that is not due for a poll will be woken by its armed timer or, without one, by its empty open stream. |
| Throttles.ItemsAreDeliveredInTime | app/src/throttle.rs:26-54 | While the close is not seen and polls follow wakes within `lag`, every item, once taken or once its time is up, has been emitted or superseded by an emission at most period + 2 * lag after its arrival. |
| Throttles.TakenIsDelivered | app/src/throttle.rs:30-52 | Until the close is seen, every item is emitted or superseded at the moment it is taken. |
| Throttles.QueuedItemsAreNotLate | app/src/throttle.rs:26-54 | Under the same assumption no event can happen later than that while the item is still queued. |
| RecoveryChain.ChainTerminates | app/src/crash_recovery.rs:296-378 | With writable preferences the chain of recoveries never repeats a mechanism and has at most 2 on Linux, 3 on Windows and 1 elsewhere. |
| RecoveryChain.ChainIsExpected | app/src/crash_recovery.rs:296-340 | The chain followed process by process is the list read off the first process's environment and preferences. |
| RecoveryChain.RecoveryUsesUpMeasure | app/src/crash_recovery.rs:296-378 | Each recovery lowers the number of recoveries still possible by exactly one. |
| RecoveryChain.RecoveryCuresItsCrash | app/src/crash_recovery.rs:368-491 | Each recovery cures its own crash and changes nothing else: X11 forced, the dedicated GPU preferred, OpenGL gone, or Vulkan alone. |
| RecoveryChain.ChainCures | app/src/crash_recovery.rs:296-491 | Along the whole chain, every process has every crash before it cured, and there are as many processes as recoveries. |
| RecoveryChain.StartupIff | app/src/crash_recovery.rs:173-220 | Which child a process stands up, read off its environment, and which preference it has changed. |
| RecoveryChain.UnwritableChainIsEndlessIff | app/src/crash_recovery.rs:440-491 | When preferences cannot be written the chain goes on for ever if and only if X11 or the dedicated GPU would be chosen from the preferences. |
| RecoveryChain.ReadOnlyFirstStartIsEndless | app/src/crash_recovery.rs:440-491 | A first start on Linux with preferences that cannot be written: every process has a successor. |
| RecoveryChain.SuccessorIsStartup | app/src/crash_recovery.rs:173-220 | A step of the chain is what the child's own `CrashRecovery::new` makes of its parent's choice. |
| RecoveryChain.NotifiedIff | app/src/crash_recovery.rs:173-220 | The notification survives startup exactly when the process recovered by switching to X11 and goes on to choose another mechanism. |
| RecoveryChain.WaylandCrashIsReportedIff | app/src/crash_recovery.rs:205-219 | A Linux user moved from Wayland to X11 is notified if and only if no GPU preference was stored. |
| RecoveryChain.WaylandCrashGoesUnreported | app/src/crash_recovery.rs:205-219 | A Wayland user with a stored GPU preference who is moved to X11 and not told. |
| RecoveryChain.UserPreferences.HandleParentCrash | app/src/crash_recovery.rs:440-491 | In place: writes the preference that makes the mechanism unnecessary next time, if it can, and asks for a notification for X11 only. |
| CrashFrames.CrashRecovery.constructor | app/src/crash_recovery.rs:173-220 | Child, global flag, kept notification and preferences are those of `NewRecovery`, including a failed spawn. |
| CrashFrames.CrashRecovery.OnFrameDrawn | app/src/crash_recovery.rs:253-276 | In place: counters, stored child, global flag and events are those of `Step`; the child is put back only while alive. |
| CrashFrames.CrashRecovery.OnDrawFrameError | app/src/crash_recovery.rs:247-251 | In place: one more error for the window, and exit at the third in a row. |
| CrashFrames.CrashRecovery.Teardown | app/src/crash_recovery.rs:278-282 | In place: the child is gone and the flag cleared, without an event. |
| CrashFrames.CrashRecoveryProcess.HandleFrameDrawn | app/src/crash_recovery.rs:126-160 | In place: errors reset, one more success recorded, and killed with the flag cleared exactly at the tenth. |
| CrashFrames.RunMatchesFrames | app/src/crash_recovery.rs:85-160 | Over every run of callbacks: while the standby lasts all three maps equal what the recorded frames say; it ends at the first tenth frame, third error in a row or teardown; the teardown event is emitted once, for a tenth frame only. |
| CrashFrames.StandbyLastsIff | app/src/crash_recovery.rs:85-160 | The standby lasts through a run if and only if nobody tore it down and no window drew ten frames or failed three times in a row. |
| CrashFrames.StandbyOverStaysOver | app/src/crash_recovery.rs:72-83 | In every state of a process that has not exited the stored child is present exactly when the global flag is set; after the end no callback changes anything. |
| CrashFrames.LogStaysShort | app/src/crash_recovery.rs:85-160 | While the standby lasts a window's log equals its frames and has at most 29 entries. |
| CrashFrames.LogCanReachTheBound | app/src/crash_recovery.rs:85-160 | The bound of 29 is reached by a run that the standby survives. |
| SafeTriangles.SuppressedIff | app/src/safe_triangle.rs:51-92 | In every state a hover is suppressed if and only if there is a target and an apex outside it and the hover is in the wedge (its progress t towards the near edge in [0, 1], its height within 80 t, on either side; or on the vertical line if the apex is on the edge line), or it moved less than two units and the flag was set. |
| SafeTriangles.NearXIsNearest | app/src/safe_triangle.rs:71-92 | The near edge is the vertical edge nearer to the apex, the right one when both are as near. |
| SafeTriangles.WedgeIff | app/src/safe_triangle.rs:71-92 | The safe triangle as an inequality in the progress towards the near edge. |
| SafeTriangles.FlatWedgeIff | app/src/safe_triangle.rs:71-92 | With the apex on the near edge line the triangle accepts the whole vertical line. |
| SafeTriangles.PointInTriangleIffInHull | app/src/safe_triangle.rs:100-114 | For every triangle that is not flat, in either orientation, the sign test is membership in the convex hull. |
| SafeTriangles.FlatTriangleIff | app/src/safe_triangle.rs:100-114 | For a flat triangle the test asks exactly whether the three signs are all zero. |
| SafeTriangles.FlatTriangleIsNotItsHull | app/src/safe_triangle.rs:100-114 | A flat triangle that accepts a point far outside its hull. |
| SafeTriangles.FarHoverIsSuppressed | app/src/safe_triangle.rs:51-92 | A hover 950 units below a target of height 50 that is suppressed. |
| SafeTriangles.SafeTriangle.ShouldSuppressHover | app/src/safe_triangle.rs:51-92 | In place: returns the stored flag, which is set only with a target and a last position. |
| SafeTriangles.SafeTriangle.SetTargetRect | app/src/safe_triangle.rs:37-43 | In place: clearing the target clears position and flag; setting it changes nothing else. |
| KeyScanner.LiteralTranslationKeys | app/src/i18n_tests.rs:154-221 | Counting only the newlines since the last reported key gives every key its absolute line; all slices are in range, on character boundaries and text themselves; the loop terminates. |
| KeyScanner.IdentifierAfterResumePoint | app/src/i18n_tests.rs:163-168 | The backward identifier scan never crosses the resume point before it. |
| KeyScanner.KeysAreLiteralCalls | app/src/i18n_tests.rs:154-221 | Every reported key is the literal argument of a translation macro that is not commented out, and the keys are in order, none inside another's literal. |
| KeyScanner.KeyIsReportedIff | app/src/i18n_tests.rs:154-221 | A live literal call with a proper key is reported if and only if no earlier `!`, itself not swallowed, has it inside its literal or behind a literal that never ends. |
| KeyScanner.CallAtIff | app/src/i18n_tests.rs:154-221 | What a reported key is, without the scanner: a name `t` or `t_static` of its own, not commented out on its line, `!`, a parenthesis and a literal of lower-case letters, digits and hyphens up to the first quote, white space between. |
| KeyScanner.AttemptIff | app/src/i18n_tests.rs:162-205 | The scanner finds a literal call at a `!` if and only if there is one. |
| KeyScanner.UnterminatedIff | app/src/i18n_tests.rs:200-205 | The scan stops at a `!` if and only if a literal call there never ends. |
| KeyScanner.CommentEndsWithItsLine | app/src/i18n_tests.rs:175-181 | A key on the line after a comment is reported, on line 2. |
| ByteScan.InLineCommentIff | app/src/i18n_tests.rs:175-181 | A position is commented out if and only if two slashes stand before it with no newline between them and it. |
| ByteScan.NewlinesAreCounted | app/src/i18n_tests.rs:210-215 | The line counts count every newline and nothing else. |
| ArgumentSplitter.ScanArguments | app/src/i18n_tests.rs:254-334 | The flag-driven loop, with its two-byte jumps, cuts where the byte-by-byte lexer says; slices are on character boundaries and text themselves. |
| ArgumentSplitter.ArgumentsRejoin | app/src/i18n_tests.rs:262-331 | When a call closes, its arguments joined by commas are exactly the source between its parentheses, and the cuts are exactly the commas at nesting 0 outside strings and comments. |
| ArgumentSplitter.CloseIsFirst | app/src/i18n_tests.rs:315-321 | The call ends at the first closing parenthesis at nesting 0 outside strings and comments. |
| ArgumentSplitter.EndOfCallIff | app/src/i18n_tests.rs:254-334 | The scan of a call stops just after its first closing parenthesis at nesting 0, or at the end of the source. |
| ArgumentSplitter.UnclosedArgumentsRejoin | app/src/i18n_tests.rs:254-334 | The arguments of a call that does not close are the pieces up to its last cut. |
| ArgumentSplitter.LineCommentIsSkipped | app/src/i18n_tests.rs:262-310 | From two slashes in code to the first newline nothing is code, and the nesting stays. |
| ArgumentSplitter.BlockCommentIsSkipped | app/src/i18n_tests.rs:262-310 | From a slash and a star in code to the first star and slash after both nothing is code, and the nesting stays. |
| ArgumentSplitter.StringIsSkipped | app/src/i18n_tests.rs:262-310 | From a quote in code to the first quote with an even number of backslashes before it nothing is code, and the nesting stays. |
| ArgumentSplitter.CodeByte | app/src/i18n_tests.rs:310-331 | Any other byte of code: an opening bracket nests, a closing one ends the innermost bracket of whatever kind. |
| ArgumentSplitter.CallArguments | app/src/i18n_tests.rs:223-342 | For every non-empty callee the outer loop terminates and reports each call with its line and arguments. |
| ArgumentSplitter.CallsAreDisjoint | app/src/i18n_tests.rs:228-339 | The reported calls are occurrences of the callee, in order, each ending before the next begins. |
| ArgumentSplitter.CallIsReportedIff | app/src/i18n_tests.rs:228-339 | A call is reported if and only if the callee stands there as a whole name, not commented out, with a parenthesis before any comma or semicolon, and no earlier occurrence or call that the search reaches covers it. |
| ArgumentSplitter.SkipAdvancesIff | app/src/i18n_tests.rs:228-253 | A skipped occurrence advances the search if and only if the callee is not empty. |
| ArgumentSplitter.EmptyCalleeCanStandStill | app/src/i18n_tests.rs:228-237 | With an empty callee the outer loop can stand still. |
| Prefixes.LongestCommonPrefix | app/src/prefix.rs:5-23 | The result is common to all strings, ends on a character boundary, and no longer common prefix of the bytes does; None means no strings or an empty one. |
| Prefixes.LongestIsUnique | app/src/prefix.rs:5-23 | The result depends on which strings there are, not on their order or number. |
| Utf8.PrefixDecodes | app/src/prefix.rs:12-18 | A byte prefix that is itself UTF-8 text is a prefix of the characters, so byte and character prefixes agree. |
| Utf8.BoundarySplits | app/src/prefix.rs:21 | Every character boundary of the bytes is the end of a prefix of the characters. |
| RemoteBundle.FileSystem.Create | script/prepare_bundled_remote_server_resources.py:49-72 | A create that fails validation changes nothing; otherwise the destination becomes exactly the bundle, unless it is the source, which is destroyed. |
| RemoteBundle.FileSystem.VerifyDir | script/prepare_bundled_remote_server_resources.py:75-112 | The loops compute `Verify`, errors included. |
| RemoteBundle.FileSystem.Copy | script/prepare_bundled_remote_server_resources.py:115-124 | Only a verified directory is copied, the copy is identical and verifies; copying onto itself deletes it. |
| RemoteBundle.CreatedVerifies | script/prepare_bundled_remote_server_resources.py:49-112 | What create makes passes verify with the same version and partial flag. |
| RemoteBundle.BundleIs | script/prepare_bundled_remote_server_resources.py:49-72 | The bundle holds the bundled files unchanged, a manifest that attests them, and nothing else. |
| RemoteBundle.CreatableIff | script/prepare_bundled_remote_server_resources.py:49-62 | `create` goes through if and only if no artefact is empty and all are files, or for a partial bundle at least one. |
| RemoteBundle.PresentInOrder | script/prepare_bundled_remote_server_resources.py:55-61 | A partial bundle takes the artefacts that are there, in the order of the list. |
| RemoteBundle.PartialVerifyIff | script/prepare_bundled_remote_server_resources.py:86-112 | Partial verification succeeds if and only if the manifest describes a selection of known artefacts, at least one, none twice, all present with matching digests. |
| RemoteBundle.FullVerifyIff | script/prepare_bundled_remote_server_resources.py:75-112 | Full verification succeeds if and only if the manifest describes all six artefacts. |
| RemoteBundle.FullImpliesPartial | script/prepare_bundled_remote_server_resources.py:75-112 | Whatever passes full verification passes partial verification. |
| RemoteBundle.VerifiedIff | script/prepare_bundled_remote_server_resources.py:29-112 | Verification succeeds if and only if the manifest is an object with this version whose records attest, field by field and digest by digest, all six artefacts, or for a partial one some known ones, at least one and none twice, each a file that is not empty. |
| RemoteBundle.TamperingIsFound | script/prepare_bundled_remote_server_resources.py:29-112 | A verified directory with a listed artefact replaced or removed still verifies if and only if the replacement is a file that is not empty and has the same digest. |
| RemoteBundle.VerifyErrorIff | script/prepare_bundled_remote_server_resources.py:75-112 | Which error a failed verification raises. |
| RemoteBundle.SelectErrorIff | script/prepare_bundled_remote_server_resources.py:95-107 | A refused partial manifest fails at the first record that does not select: TypeError if its platform is no key, ValueError otherwise. |
| RemoteBundle.FileSystem.SelectRecords | script/prepare_bundled_remote_server_resources.py:95-107 | The loop over partial records is `Select`, with its errors in order. |
| TextMatching.HighlightSpellsTheQuery | app/src/input_suggestions.rs:478-504 | Every suggestion, although trimmed after the match, begins with the trimmed query, and its highlighted bytes spell it. |
| TextMatching.SuggestedIff | app/src/input_suggestions.rs:478-504 | Wherever an option stands in the history, it contributes its suggestion, in its place, if and only if the query is blank, or the option does not start with white space and, trimmed, starts with the query. |
| TextMatching.SpacedEntryIsNotFound | app/src/input_suggestions.rs:482-488 | The entry " ls" is not found by "ls". |
| TextMatching.TrimTakesWhiteEnds | app/src/input_suggestions.rs:478-504 | Trimming takes white space off both ends and nothing else. |
| TextMatching.KeybindingRoundTrip | app/src/keyboard.rs:176-213 | A keybinding is read back as written if and only if it is not a single keystroke that prints as `none`. |
| TextMatching.KeystrokeNoneIsReadAsRemoved | app/src/keyboard.rs:176-213 | A keystroke that prints as `none` and is read back as a removed keybinding. |
| TextMatching.ParseTrigger | app/src/keyboard.rs:191-212 | The loop computes `Parse`: the removed word, all words parsed in order, or failure. |
| TextMatching.ParseIff | app/src/keyboard.rs:191-212 | `none` is a removed keybinding; anything else is its words in order if there are any and every one parses, and is refused otherwise. |
| TextMatching.SplitKeepsTheWords | app/src/keyboard.rs:191-200 | On any text the words are the stretches without white space, in order. |
| TextMatching.JoinAppend | app/src/keyboard.rs:176-186 | Printed keystrokes are separated by single spaces. |
| TextMatching.SplitUndoesJoin | app/src/keyboard.rs:180-200 | Splitting on white space undoes joining words with spaces. |

## Left out

- Rendering, layout, accessibility, scrolling and key registration of menus: they use types of the UI
  framework, which is not part of this model.
- `active_menu_mut` returns a mutable reference; in the objects the action is carried down to the same
  node by recursion, so that every node on the way keeps its abstract value.
- `set_selected_by_name` and `set_selected_by_action` on menus: a lookup followed by a selection or a reset
  that the runs already contain.
- 32-bit rounding of coordinates; a rectangle contains its border.
- Wakers and pinning: a waker is a flag that the next arrival, close or deadline consumes. A stale waker
  can cause an extra poll, which the runs allow.
- Operating-system processes, handles and logs of crash recovery.
- ArgumentSplitter.ScanArguments: arguments are reported before `trim()`, because the rejoining law is about
  the untrimmed slices.
- `message_variables`, the resource loader and the consistency checks of the translation files: one short scan each.
- Menus of history suggestions, their selection index and their other fields: they would only add easy members.
- Error texts of keybindings and of the bundle script; numbers in JSON other than integers; a destination
  directory inside the source or around it.
