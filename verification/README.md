# Verified models of opensafari's algorithms and protocols

opensafari drives iOS simulators. Most of it is plumbing around macOS services; inside it are a
number of self-contained algorithms and protocols whose promises range over all inputs or all runs.
This project models those in Dafny and proves the promises.

`dafny verify dfyconfig.toml` checks everything.

How the models are built:

- Code that works step by step is a method or a class with the source's fields. A class's
  methods are tied to a transition function (`...Spec` modules), and what must hold over
  whole runs is proved about that function for every sequence of events.
- Asynchronous code is a step system: each point where control can come back (a message, a timer,
  a socket event, a wake-up, a new call) is an event, and events interleave freely.
- What the outside world decides (whether a send throws, a message can be constructed, an operation
  succeeds, what time it is, the random number of a jitter) is a parameter.

The modules, by subject:

| subject | modules |
|---|---|
| Diff regions by flood fill | `GridComponents` (what components are), `DiffRegions`, `DiffPixels` (the boxes in pixels) |
| URL globs and the network interceptor | `Regex`, `Glob`, `InterceptorSpec`, `InterceptorRuns`, `NetworkInterceptors` |
| Dart VM Service client | `VmClientSpec`, `VmClientRequests`, `VmClientReconnect`, `VmClientRuns`, `VmClient` |
| Step barrier | `StepBarrierSpec`, `StepBarrierProofs`, `StepBarrierRuns`, `StepBarriers` |
| Accessibility trees | `AxTree`, `ContentRoot`, `NotFoundDiagnostics`, `AxPathText`, `AxPaths` |
| Accessibility retry loops | `AxRecovery` |
| Typing through the HID bridge | `HidKeyboard` (the receiving keyboard), `HidTyping` |
| Telemetry and metrics | `RankStatistics`, `TelemetryRollup`, `MetricLabels`, `Histograms` |
| DOM diff and annotation | `DomDiffSpec`, `DomDiff`, `Annotator` |
| Shared | `Basics`, `Decimal`, `SeqFacts` |

Where the code does not keep its own words, or what its callers may expect, the model follows the code:

- The content-root search (src/native/ax-bridge-content-root.ts:176-181) is documented to fail only
  when no subtree carries app semantics. It also fails when all such content is out of sight (directly
  below the window, or below pruned nodes only), and when a node without semantics outscores those
  that have some. `ContentRoot.DocumentedFailureExactly` says exactly when.
- A barrier's `waitTime` (src/orchestration/step-barrier.ts:20) is documented as the time the device itself
  waited. The last arrival and the two clearing calls tell a released waiter 0, and a timeout tells it
  the age of the timer. `StepBarrierRuns.ReleasesExplained` says, for every release of every run, exactly
  when that is the waiter's own time.
- A second `wait` call of a device that has already arrived is answered with `allArrived` true even if
  devices are missing. See `StepBarrierProofs.ImmediateAnswerTruthfulExactly`.
- `disconnect` resets the reconnect flag while a loop may be asleep, so a second loop can start. See
  `VmClientReconnect.DisconnectSafeExactlyWhenIdle`.
- Histogram buckets are stored cumulatively and accumulated again on export. See `Histograms.ExportedExactly`.
- `navigateToPath` has no lower bound check and traps on a negative component, where
  `resolveLiveElement` returns nil; and it cannot reach elements below the depth limit of the dump.
  `AxPaths.NavigateAgreesWithLive` says exactly when the two agree.
- `enable`, `syncRules` and the other sending calls of the interceptor serialise the rules before they wait. A rule edited
  while the script is under way is not known to the page when the call resolves. See
  `InterceptorRuns.AddRuleOvertakesEnable` and `InterceptorRuns.HookedPageAgreesExactly`.
- `.` in the compiled expression does not match line terminators, so `**` stands for any string only on URLs
  without them. See `Glob.DocumentedGlobExactly`.

## Model

| member | source | states |
|---|---|---|
| DiffRegions.DetectDiffRegions | src/comparison/visual-diff.ts:83-163 | The boxes are the tight bounding boxes, in pixels, of the 4-connected components of the cells holding a non-black pixel, one per component, in scan order; every marked cell is put on a stack exactly once and nothing else is |
| GridComponents.RegionsAreComponents | src/comparison/visual-diff.ts:117-160 | One-to-one: each marked cell belongs to the component of some reported seed, and components of different seeds are disjoint |
| GridComponents.RegionsDetermined | src/comparison/visual-diff.ts:117-162 | Those requirements leave one possible list of boxes, so any other result of the scan would be wrong |
| GridComponents.ComponentsPartition | src/comparison/visual-diff.ts:111-150 | Components of two marked cells are equal or disjoint, and equal exactly if the cells are linked by a path of marked neighbours |
| DiffRegions.NonBlackPixelsCovered | src/comparison/visual-diff.ts:95-162 | Every non-black pixel lies inside a reported box |
| DiffPixels.RegionsHugPixels | src/comparison/visual-diff.ts:146-157 | In pixels: each reported box consists of whole cells, holds all non-black pixels of its component, and has one of them in the outermost cells along each of its four sides |
| DiffPixels.HugsUnique | src/comparison/visual-diff.ts:146-157 | That determines the box: two boxes hugging the same pixels are equal |
| DiffRegions.NonBlackBytes | src/comparison/visual-diff.ts:95-102 | A pixel is non-black exactly if one of the first three of its four bytes in the buffer is set; bytes past the end are not |
| DiffPixels.AdjacentInPixels | src/comparison/visual-diff.ts:136-141 | Cells are adjacent exactly if they meet in two pixels side by side or one above the other; meeting in a corner is not enough |
| DiffPixels.CeilDivExactly | src/comparison/visual-diff.ts:89-90 | The grid is as small as it can be |
| DiffRegions.MarkCells | src/comparison/visual-diff.ts:95-109 | After the pixel loops the grid shows exactly the cells that contain a non-black pixel; reads past the buffer count as black and all grid indices are in bounds |
| DiffRegions.PushNeighbours | src/comparison/visual-diff.ts:136-149 | Marks and pushes exactly the marked, unvisited 4-neighbours of the popped cell, each once |
| DiffRegions.FloodFill | src/comparison/visual-diff.ts:119-150 | From an unvisited marked cell, visits exactly its component, terminates, and returns the component's extreme coordinates |
| DiffRegions.FillProgress | src/comparison/visual-diff.ts:129-150 | Termination of the fill: each turn pushes a new cell or only shortens the stack |
| DiffRegions.ScanCell | src/comparison/visual-diff.ts:117-159 | One grid position of the scan keeps: all marked cells before it are visited and every component first met so far has its box |
| Glob.GlobToRegex | src/network-interceptor.ts:18-45 | The server's loop emits the anchored text that the step-by-step compilation of the pattern prescribes |
| Glob.PageGlobToRegex | src/network-interceptor.ts:150 | The injected copy of the compiler, with its different index arithmetic, emits the same text for every pattern |
| Glob.BodyParses | src/network-interceptor.ts:18-45 | The emitted text is always a valid pattern, and no emitted character is taken for a quantifier of what precedes it |
| Glob.CompiledMeansGlob | src/network-interceptor.ts:18-45 | For every pattern and URL, the regular expression matches exactly when the glob does: `**` (with an optional following `/`), `*`, `?` and literal characters |
| Glob.GlobConcat | src/network-interceptor.ts:18-45 | The meaning is compositional: a pattern of two parts that do not grow together matches exactly the URLs made of a match of each |
| Glob.LiteralGlob | src/network-interceptor.ts:18-45 | Any character but `*` and `?` stands for itself |
| Glob.QuestionGlob | src/network-interceptor.ts:18-45 | `?` stands for one character other than a slash |
| Glob.StarGlob | src/network-interceptor.ts:18-45 | `*` stands for any string without a slash |
| Glob.DoubleStarGlob | src/network-interceptor.ts:18-45 | `**`, also with a slash behind it, stands for any string (without line terminators) |
| Glob.PlainSelects | src/network-interceptor.ts:47-50 | Without wildcards a pattern selects exactly the URLs it is a part of |
| Glob.WildcardSelects | src/network-interceptor.ts:47-52 | With one it selects the URLs it matches as a whole |
| Glob.DocumentedGlobExactly | src/network-interceptor.ts:18-45 | `**` read as any string at all is met for every pattern exactly on URLs without line terminators |
| Glob.MatchUrl | src/network-interceptor.ts:47-52 | Substring search for patterns without wildcards, glob match otherwise |
| Glob.PageMatch | src/network-interceptor.ts:150 | The page's `m(u,p)` decides exactly as `matchUrl` |
| Regex.StarOfClass | src/network-interceptor.ts:18-45 | A starred character class matches the strings made of that class |
| InterceptorSpec.RunKeepsValid | src/network-interceptor.ts:54-153 | In every run offline implies enabled, rule ids are distinct and were issued, and what the page has saved is always the browser's own fetch, never the hook |
| InterceptorRuns.HookedPageAgreesExactly | src/network-interceptor.ts:73-151 | At every moment of every run, with scripts under way or lost and navigations, a hooked page has the rules and flag of some injecting call; and for each URL it selects the rule that `findMatchingRule` selects exactly if since then the rule selected then was not dropped, or, if none was, no surviving new rule selects the URL |
| InterceptorRuns.PageShowsLastLanding | src/network-interceptor.ts:85-152 | All of the page's state is decided by what landed last: an injection's rules and flag, or the browser's own state after a removal or navigation |
| InterceptorRuns.ScriptsKeepOrder | src/network-interceptor.ts:85-152 | Without losses, what arrived followed by what is in flight is what was sent, in order |
| InterceptorRuns.ArrivalsWereSent | src/network-interceptor.ts:85-152 | Even with losses, every script that arrives was sent by a call of the run |
| InterceptorRuns.InjectionAgrees | src/network-interceptor.ts:80-152 | Once the last sent script has run and nothing is in flight, the page is hooked exactly if that call injects and the page has not navigated since, with the interceptor's flags and the rules of the moment of the call |
| InterceptorRuns.InjectionDecides | src/network-interceptor.ts:73-152 | Then page and interceptor select the same rule for a URL exactly if the edits since do not matter to it, and in that case a request meets the interceptor's decision |
| InterceptorRuns.SelectionKeptExactly | src/network-interceptor.ts:62-78 | Over any run, the rule that a URL selects stays the same exactly if it is not dropped, or there was none and no surviving new rule selects the URL |
| InterceptorRuns.RulesAfterRun | src/network-interceptor.ts:62-78 | Any run leaves the undropped old rules in their order, followed by the undropped new ones in theirs |
| InterceptorRuns.NoStrayHook | src/network-interceptor.ts:80-152 | With nothing lost and nothing in flight, a page is hooked exactly if the interceptor is enabled and the page has not navigated since the last script, and then the offline flags agree |
| InterceptorRuns.FlagsExactly | src/network-interceptor.ts:80-106 | In every run the interceptor is offline exactly if the last `setOffline` or `disable` call was `setOffline(true)`, and enabled exactly if it was switched on and not off since (by `disable`, or by `setOffline(false)` without rules) |
| InterceptorRuns.OfflineFailsRequests | src/network-interceptor.ts:92-98 | Once the script of going offline has run, every request in the page fails |
| InterceptorRuns.UnselectedPasses | src/network-interceptor.ts:150 | A request fails exactly when offline, and otherwise passes if no rule selects it |
| InterceptorRuns.EarliestDecides | src/network-interceptor.ts:150 | Online, the earliest rule that selects the URL blocks it, answers it with its own response (status 200 if none is given), or lets it pass |
| InterceptorRuns.UnhookedPasses | src/network-interceptor.ts:150 | Without the hook nothing is intercepted |
| InterceptorRuns.AddRuleOvertakesEnable | src/network-interceptor.ts:80-83 | A concrete run: a rule added while the script of `enable` is under way is unknown to the page when `enable` resolves |
| InterceptorRuns.DisableRestores | src/network-interceptor.ts:85-90 | After any run, a disabling call whose script arrives leaves the page as a fresh navigation would |
| InterceptorSpec.FreshAppends | src/network-interceptor.ts:62-67 | A new rule goes to the end, so earlier rules keep precedence |
| InterceptorSpec.DeleteDrops | src/network-interceptor.ts:69 | Removing an id drops that rule and keeps the order of the others |
| InterceptorSpec.DeleteMissing | src/network-interceptor.ts:69 | Removing an unknown id changes nothing |
| InterceptorSpec.NewIdIsNew | src/network-interceptor.ts:62-67 | The next id differs from every id issued before, as text |
| InterceptorSpec.FirstMatchIsEarliest | src/network-interceptor.ts:73-78 | The selected rule is the earliest matching one, and there is none exactly when none matches |
| NetworkInterceptors.Page.FindRule | src/network-interceptor.ts:150 | The page's `f(u)` returns the first matching injected rule |
| NetworkInterceptors.Page.Fetch | src/network-interceptor.ts:150 | What a request gets: failure when offline, else blocked, mocked or passed by the first matching rule |
| NetworkInterceptors.Page.RunInjection | src/network-interceptor.ts:147-152 | The script saves the current fetch only once and installs the given rules and flag |
| NetworkInterceptors.InterceptorClient.Deliver | src/network-interceptor.ts:85-152 | The page runs the script that was sent first |
| NetworkInterceptors.Page.RunRemoval | src/network-interceptor.ts:85-90 | The removal script restores the saved fetch and deletes the globals |
| NetworkInterceptors.NetworkInterceptor.AddRule | src/network-interceptor.ts:62-67 | Whole new state of interceptor, page and id counter after adding a rule |
| NetworkInterceptors.NetworkInterceptor.RemoveRule | src/network-interceptor.ts:69 | Whole new state; reports whether the id was present |
| NetworkInterceptors.NetworkInterceptor.FindMatchingRule | src/network-interceptor.ts:73-78 | The first rule in insertion order whose pattern selects the URL |
| NetworkInterceptors.NetworkInterceptor.Inject | src/network-interceptor.ts:147-152 | Sends the rules and the flag of this moment |
| NetworkInterceptors.NetworkInterceptor.Enable | src/network-interceptor.ts:80-83 | Whole new state after enabling, with the script on its way |
| NetworkInterceptors.NetworkInterceptor.Disable | src/network-interceptor.ts:85-90 | Whole new state after disabling, with the script on its way |
| NetworkInterceptors.NetworkInterceptor.SetOffline | src/network-interceptor.ts:92-106 | Whole new state of each branch: the flag is set as asked, going offline enables and injects, going online may disable, stay silent or inject |
| NetworkInterceptors.NetworkInterceptor.SyncRules | src/network-interceptor.ts:108-111 | Injects when enabled, else nothing |
| NetworkInterceptors.NetworkInterceptor.Reinject | src/network-interceptor.ts:119-123 | Injects when enabled and says whether it did |
| VmClientRequests.RunKeepsValid | src/flutter/vm-service-client.ts:250-346 | Over every interleaving: pending requests are exactly those with an armed timer, each issued id is pending or settled, none is settled twice, none is pending without a socket; unless a send throws, none is both |
| VmClientRequests.NextIdFresh | src/flutter/vm-service-client.ts:313 | The id of a new request was never issued before |
| VmClientRequests.NothingPendingAfterClose | src/flutter/vm-service-client.ts:250-272 | In every reachable state nothing is pending and no request timer is armed after a close event or a disconnect, even when the disconnect finds no socket |
| VmClientRequests.UnsettledHasTimer | src/flutter/vm-service-client.ts:321-331 | No request can hang: while unsettled its own timer is armed, and firing it settles the request |
| VmClientRequests.SettledOnlyByCause | src/flutter/vm-service-client.ts:250-346 | Over a whole run, every settlement has its own cause after the request was issued: a result its reply, an error its error reply, a timeout its own timer, a disconnection a close event or disconnect while pending, a send error the throwing call itself |
| VmClientRequests.StepSettles | src/flutter/vm-service-client.ts:283-346 | No other single event settles a request in that way |
| VmClientRequests.CauseSettles | src/flutter/vm-service-client.ts:283-346 | The converse: while the request is unsettled each cause does settle it, and, unless it is a throwing send, leaves it neither pending nor timed |
| VmClientRequests.SettledByFirstCauseExactly | src/flutter/vm-service-client.ts:250-346 | Over every run, a request is settled, and how, exactly by the first of its causes |
| VmClientRequests.RejectsInOrder | src/flutter/vm-service-client.ts:784-788 | Pending requests are rejected in the order of issue |
| VmClientRuns.CallGoesOutExactly | src/flutter/vm-service-client.ts:283-331 | A call goes out exactly when the client is connected and the breaker closed; then a new request is pending and timed, otherwise nothing changes |
| VmClientRuns.ConnectedExactly | src/flutter/vm-service-client.ts:283-290 | In every run, the client is connected exactly if the socket created last, after any disconnect, has opened and has not closed |
| VmClientRuns.WantedExactly | src/flutter/vm-service-client.ts:250-252 | In every run, a connection is wanted exactly if `connect` was called and `disconnect` not since |
| VmClientRuns.DisconnectCloses | src/flutter/vm-service-client.ts:256-267 | A disconnect closes the current socket and forgets it |
| VmClientRequests.LogOnlyGrows | src/flutter/vm-service-client.ts:283-346 | A settlement is never changed or withdrawn later |
| VmClientRequests.ThrowingSendLeavesEntry | src/flutter/vm-service-client.ts:321-331 | A call leaves a settled request in the table exactly when it is really sent and the send throws |
| VmClientRequests.StepKeepsValid | src/flutter/vm-service-client.ts:250-346 | Each single event keeps the table invariant |
| VmClientReconnect.SingleLoop | src/flutter/vm-service-client.ts:844-897 | In any run without a disconnect while a loop is live, at most one reconnect loop is live, and the flag says whether there is one |
| VmClientReconnect.DisconnectSafeExactlyWhenIdle | src/flutter/vm-service-client.ts:250-272 | A disconnect preserves the single-loop property for all continuations exactly when no loop is live at that moment |
| VmClientReconnect.DisconnectAdmitsAnotherLoop | src/flutter/vm-service-client.ts:250-272 | Otherwise connecting again and losing the new socket makes one more loop than before |
| VmClientReconnect.RunKeepsLoops | src/flutter/vm-service-client.ts:857-891 | In every run a loop makes at most the configured number of connects, and its k-th wait is within 20% of min(base*2^(k-1), cap) before rounding |
| VmClientReconnect.LoopEndsExactly | src/flutter/vm-service-client.ts:867-896 | A loop ends exactly when it finds itself unwanted, has connected, or has failed in its last allowed connect; it never gives up earlier |
| VmClientReconnect.LoopStartsExactly | src/flutter/vm-service-client.ts:844-864 | A loop starts exactly on losing a socket or the heartbeat while a connection is wanted, options are known and none is running; it starts with the first wait |
| VmClientReconnect.LoopGoesOn | src/flutter/vm-service-client.ts:864-890 | A wanted loop connects after its wait, and after a failed connect waits again with the next backoff |
| VmClientReconnect.BackoffStarts | src/flutter/vm-service-client.ts:858 | The first backoff is the base, or the cap if that is lower |
| VmClientReconnect.JitterSpans | src/flutter/vm-service-client.ts:859 | The random number spreads the wait evenly from 80% to 120% of the backoff |
| VmClientReconnect.DelayIsNearest | src/flutter/vm-service-client.ts:860 | The wait is the nearest whole number of milliseconds |
| VmClientReconnect.BackoffGrows | src/flutter/vm-service-client.ts:858 | Backoffs double until they reach the cap and never exceed it |
| VmClientReconnect.DelayIsFair | src/flutter/vm-service-client.ts:858-860 | Jitter and rounding keep a wait within its window |
| VmClient.FlutterVMClient.CallMethod | src/flutter/vm-service-client.ts:283-331 | Whole new state: refused without a socket or with an open breaker, else a fresh pending request |
| VmClient.FlutterVMClient.HandleMessage | src/flutter/vm-service-client.ts:930-949 | Whole new state: only a reply or error with a pending id settles anything |
| VmClient.FlutterVMClient.OnTimeout | src/flutter/vm-service-client.ts:322-328 | Whole new state when a request's timer fires |
| VmClient.FlutterVMClient.RejectAllPending | src/flutter/vm-service-client.ts:784-788 | The loop empties the table, clears exactly those timers and rejects each request once, in order |
| VmClient.FlutterVMClient.AttemptReconnect | src/flutter/vm-service-client.ts:844-864 | Starts a loop only when wanted, idle and connected before |
| VmClient.FlutterVMClient.OnClose | src/flutter/vm-service-client.ts:777-799 | Whole new state after a close event of any socket, old or current |
| VmClient.FlutterVMClient.OnHeartbeatFailure | src/flutter/vm-service-client.ts:819-829 | A failed heartbeat starts a loop under the same guards |
| VmClient.FlutterVMClient.WakeLoop | src/flutter/vm-service-client.ts:864-875 | A woken loop ends when no longer wanted, else starts a connect |
| VmClient.FlutterVMClient.LoopConnectReturns | src/flutter/vm-service-client.ts:875-896 | Success or an exhausted budget ends the loop, failure schedules the next wait |
| VmClient.FlutterVMClient.DisconnectNow | src/flutter/vm-service-client.ts:250-272 | Whole new state after disconnect |
| StepBarrierProofs.RunKeepsValid | src/orchestration/step-barrier.ts:43-187 | Over every run: each stored waiter is stored once or resolved once, never both and never lost; an entry has waiters exactly while its single timer is armed and somebody is missing; a waiter released with allArrived true found nobody missing |
| StepBarrierProofs.StepKeepsValid | src/orchestration/step-barrier.ts:49-150 | Each arrival, timeout and clearing keeps that invariant |
| StepBarrierProofs.TimerReleasesWaiter | src/orchestration/step-barrier.ts:89-98 | In every reachable state an unresolved waiter sits in an entry whose armed timer resolves it |
| StepBarrierProofs.LastArrivalReleases | src/orchestration/step-barrier.ts:82-86 | The last expected arrival resolves every waiter of its step and stops the timer |
| StepBarrierProofs.ImmediateAnswerTruthfulExactly | src/orchestration/step-barrier.ts:70-86 | An immediate answer says allArrived true; it is right except exactly for a device that had arrived before while somebody is missing |
| StepBarrierProofs.RepeatedCallMisled | src/orchestration/step-barrier.ts:70-73 | A concrete run in which a repeated call is told that all arrived while one device is missing |
| StepBarrierRuns.ReleasesExplained | src/orchestration/step-barrier.ts:49-202 | Over every run, each resolver call is due to one operation of the run: the last arrival, the timer of the step, `clear` or `clearAll`; its result names the step, exactly the devices that have called since the last clearing as arrived and exactly the other expected ones as missing; `waitTime` is the waiter's own time exactly if it began to wait at that very moment or, on a timeout, together with the timer; and `allArrived` is true exactly if every device that the first call named has called |
| StepBarrierRuns.StepReleases | src/orchestration/step-barrier.ts:49-187 | No operation resolves any other waiter, or changes the log of earlier releases |
| StepBarrierRuns.EntryTells | src/orchestration/step-barrier.ts:55-76 | At any moment of any run, a step expects the devices that the first call since its last clearing named, and has as arrived exactly those that have called since |
| StepBarrierRuns.AnswersExplained | src/orchestration/step-barrier.ts:49-99 | Every answer in every run: at once exactly if the device had called before or this call completes the step, then naming the step, exactly the devices that have called and the expected ones that have not, with time 0; otherwise a waiter for the device is stored, waiting from now |
| StepBarrierRuns.EntryInOrder | src/orchestration/step-barrier.ts:55-76 | Devices are listed once each, in the order of their first calls, and expected in the order named |
| StepBarrierProofs.MissingInOrder | src/orchestration/step-barrier.ts:110-112 | Missing devices are listed in the order of the expected ones |
| StepBarrierRuns.ClearedTooShort | src/orchestration/step-barrier.ts:124-135 | A concrete run: a waiter that waited five units is told 0 when its step is cleared |
| StepBarrierProofs.AllArrivedMissing | src/orchestration/step-barrier.ts:154-159 | All have arrived exactly when the list of missing devices is empty |
| StepBarrierProofs.ReleaseKeepsTickets | src/orchestration/step-barrier.ts:161-171 | Resolving an entry moves each of its waiters from stored to resolved, touches no other, and keeps every waiter in exactly one place |
| StepBarriers.StepBarrier.Wait | src/orchestration/step-barrier.ts:49-99 | Whole new state and answer of an arrival, all four branches |
| StepBarriers.StepBarrier.HandleTimeout | src/orchestration/step-barrier.ts:173-187 | Whole new state after a timeout of an armed timer |
| StepBarriers.StepBarrier.Clear | src/orchestration/step-barrier.ts:124-135 | Whole new state after clearing one step |
| StepBarriers.StepBarrier.ClearAll | src/orchestration/step-barrier.ts:140-150 | Clearing everything equals clearing each step once, in some order, and leaves no entry |
| StepBarriers.StepBarrier.ResolveAll | src/orchestration/step-barrier.ts:166-170 | Each waiter's resolver is called once, in order |
| StepBarriers.StepBarrier.GetStatus | src/orchestration/step-barrier.ts:104-119 | Null exactly for unknown steps, else who has arrived and exactly which expected devices have not |
| ContentRoot.CountAppSemanticsDescendants | src/native/ax-bridge-content-root.ts:109-127 | The capped stack walk returns the minimum of the cap and the recursive count of qualifying descendants, for any cap |
| ContentRoot.ScoreContentCandidate | src/native/ax-bridge-content-root.ts:134-161 | The accumulated score is the rubric's sum |
| ContentRoot.BarCostsTen | src/native/ax-bridge-content-root.ts:152-154 | A toolbar or menu bar scores 10 less than the same node with a neutral role |
| ContentRoot.TraitEarnsTen | src/native/ax-bridge-content-root.ts:141-143 | The content-group trait earns a group or scroll area 10, other nodes nothing |
| ContentRoot.FittingFrameEarnsEight | src/native/ax-bridge-content-root.ts:145-147 | A frame whose four edges lie within 15 of the inset window earns 8, any other nothing |
| ContentRoot.ChildrenEarn | src/native/ax-bridge-content-root.ts:149-158 | Semantic descendants earn 5 each up to five; having no children costs 5 |
| ContentRoot.BareNodeScores | src/native/ax-bridge-content-root.ts:134-161 | A childless node without merits scores -5 |
| ContentRoot.ChromeLabelExactly | src/native/ax-bridge-content-root.ts:33-47 | Which labels are chrome: ten names, and window titles |
| ContentRoot.SemanticsExactly | src/native/ax-bridge-content-root.ts:113-121 | Which roles carry semantics, buttons only without a chrome label |
| ContentRoot.Visitor.Visit | src/native/ax-bridge-content-root.ts:191-218 | The recursive visit with captured best and earlyExit equals a left-to-right scan of the pruned pre-order |
| ContentRoot.FindDeviceContentRecursively | src/native/ax-bridge-content-root.ts:182-228 | The search returns the verdict of that scan |
| ContentRoot.WinnerExactly | src/native/ax-bridge-content-root.ts:182-228 | The winner is the first exiting node of the pruned pre-order, which strictly beats all before it, or without one the earliest maximum-score node |
| ContentRoot.FirstGoodEnoughWins | src/native/ax-bridge-content-root.ts:204-208 | The first node with at least 25 points and some semantics wins, even before better ones |
| ContentRoot.ToolbarLoses | src/native/ax-bridge-content-root.ts:134-161 | A window with a two-button toolbar and a three-text group: the group wins with 15 points |
| ContentRoot.PrunedHidesContent | src/native/ax-bridge-content-root.ts:196-199 | Menu bars, nested windows and chrome-labelled nodes are neither scored nor searched |
| ContentRoot.OthersAreScored | src/native/ax-bridge-content-root.ts:191-218 | Any other child of the window is scored |
| ContentRoot.FourDescendantsSucceed | src/native/ax-bridge-content-root.ts:176-181 | A scored non-toolbar node with at least four semantic descendants guarantees success |
| ContentRoot.SuccessHasSemantics | src/native/ax-bridge-content-root.ts:222-227 | A success names a scored node with semantic descendants |
| ContentRoot.DocumentedFailureExactly | src/native/ax-bridge-content-root.ts:176-181 | Failure means that no subtree of the window has app semantics, as documented, except exactly when there is such content and it is out of sight (below no searched child of the window) or eclipsed by a node without semantics; without such content the search always fails |
| ContentRoot.InSightExactly | src/native/ax-bridge-content-root.ts:191-218 | Some scored node has semantic descendants exactly when the depth limit is positive and an unpruned child of the window has some |
| ContentRoot.LeafButtonFails | src/native/ax-bridge-content-root.ts:176-181 | A window whose only content is a button directly below it fails at every depth limit |
| ContentRoot.ThreeDescendantsMayFail | src/native/ax-bridge-content-root.ts:176-181 | With the default depth limit of 8, a window with a three-button group fails: four is the least sufficient number |
| ContentRoot.NoSemanticsLowScore | src/native/ax-bridge-content-root.ts:134-161 | A node without app semantics scores at most 18, below the early-exit score |
| NotFoundDiagnostics.BuildNotFoundDiagnostics | src/native/not-found-diagnostics.ts:100-147 | Undefined exactly when the dump failed; else nodes are the first maxNodes of the recursive pre-order, candidates its first five matches, the count its length, and truncated says whether nodes were cut |
| NotFoundDiagnostics.DigestTells | src/native/not-found-diagnostics.ts:69-76 | The i-th entry tells role and path of the i-th pre-order node, and its label and identifier redacted, each in its own place |
| NotFoundDiagnostics.MatchingInOrder | src/native/not-found-diagnostics.ts:127-129 | Candidates are found in the order of the nodes |
| NotFoundDiagnostics.MatchingOne | src/native/not-found-diagnostics.ts:85-92 | A node is a candidate exactly if the term is not empty and found in it |
| NotFoundDiagnostics.NoCapNoDigest | src/native/not-found-diagnostics.ts:126 | Without a positive cap nothing is listed |
| NotFoundDiagnostics.FiveCandidates | src/native/not-found-diagnostics.ts:127-129 | At most five are kept, the first ones |
| NotFoundDiagnostics.EraseLeaves | src/native/not-found-diagnostics.ts:69-76 | Erasing values leaves the shape of the tree and all other attributes |
| AxTree.PreorderOfChild | src/native/not-found-diagnostics.ts:131-137 | Pre-order: a node first, then its children's subtrees as blocks in order |
| NotFoundDiagnostics.PushChildren | src/native/not-found-diagnostics.ts:133-137 | Pushing children last to first puts their pre-order in front of what was pending |
| NotFoundDiagnostics.VisitOne | src/native/not-found-diagnostics.ts:123-138 | One turn of the traversal visits the next pre-order node and makes progress |
| NotFoundDiagnostics.ValuesDoNotLeak | src/native/not-found-diagnostics.ts:69-76 | Trees that differ only in user-entered values give the same node digest and count |
| NotFoundDiagnostics.CandidatesAreValueFree | src/native/not-found-diagnostics.ts:69-76 | What is emitted of a candidate is what the tree without any values has at some node |
| NotFoundDiagnostics.ValuesChooseCandidates | src/native/not-found-diagnostics.ts:85-92 | Which nodes become candidates does depend on values |
| AxPaths.PrintedPathsResolve | src/native/ax-bridge.swift:238-287 | For every node of a dump, its printed path leads navigation back to that node, leads the live walk to the element it was built from, and belongs to no other position |
| AxPaths.NodeShowsElement | src/native/ax-bridge.swift:238-287 | A node shows each attribute of its element in its own place, its printed path, and all children unless the limit cuts them off |
| AxPaths.NavigateAgreesWithLive | src/native/ax-bridge.swift:899-943 | For every tree, path text and depth limit: navigation's answer is a function of the live tree, and it answers as the live walk does except exactly when it sees a negative component at an element with children (it traps) or the path has more components than the limit and names a live element (it finds nothing) |
| AxPaths.NegativeTraps | src/native/ax-bridge.swift:938-943 | `-1` below any root with children traps, while the live walk finds nothing |
| AxPaths.BelowLimitPart | src/native/ax-bridge.swift:270-279 | An element below the depth limit is found live under its printed path and never in the dump |
| AxPaths.ResolveLiveElement | src/native/ax-bridge.swift:899-910 | The loop follows the components one by one and stops at the first that does not resolve |
| AxPaths.NodesAreBuilt | src/native/ax-bridge.swift:270-280 | Every node of the dump was built from the element at some index path |
| AxPaths.CollectMatches | src/native/ax-bridge.swift:872-893 | Appends the first matches in pre-order, stripped of children, up to the limit |
| AxPaths.MatchesExactly | src/native/ax-bridge.swift:872-893 | Exactly the matching nodes are collected, with their own attributes and without children |
| AxPaths.CappedExactly | src/native/ax-bridge.swift:872-893 | At most the limit, and the first ones |
| AxPathText.SplitPath | src/native/ax-bridge.swift:275 | Splitting a printed path gives back its printed indices |
| AxPathText.PathInjective | src/native/ax-bridge.swift:275 | Different index paths print differently |
| AxPathText.PathExample | src/native/ax-bridge.swift:275 | An index path as printed: 0/12/1 |
| Decimal.PrintExample | src/native/ax-bridge.swift:275 | A number as printed: 1024 |
| Decimal.DigitsExactly | src/native/ax-bridge.swift:904 | The ten digits and their values |
| AxPathText.ParseExactly | src/native/ax-bridge.swift:904 | Digits, alone or behind one sign, are read as a number, unless it is below the smallest `Int` |
| AxPathText.NothingElseParses | src/native/ax-bridge.swift:904 | Nothing else is |
| HidTyping.TypeTextRoundTrip | src/input/sim-hid-backend.ts:217-259 | Through a healthy bridge an idle US keyboard prints exactly the longest printable-ASCII prefix and nothing stays held; an error is raised exactly when that prefix is not the whole text |
| HidTyping.TypingPrints | src/input/sim-hid-backend.ts:217-259 | For any bridge: success printed the whole text, an unsupported character printed the printable prefix, both with nothing held; a failing bridge printed a prefix of it |
| HidTyping.PausesBetween | src/input/sim-hid-backend.ts:217-259 | For every text and bridge: what goes out is the commands of the printable prefix in order, with the delay between any two consecutive ones and nowhere else, cut short only by a failing bridge |
| HidTyping.TableInvertsLegend | src/input/sim-hid-backend.ts:89-136 | The table is defined exactly on printable ASCII and each entry prints its character on a US keyboard |
| HidTyping.CommandExamples | src/input/sim-hid-backend.ts:89-136 | Some commands event by event |
| HidTyping.HidBackend.TypeText | src/input/sim-hid-backend.ts:217-259 | The loop sends, pauses and stops as the character-by-character description says |
| HidTyping.HidClient.ExecKey | src/native/sim-hid-bridge.swift:305-310 | Sends down and up in order, stopping at the first message that cannot be made |
| HidTyping.HidClient.ExecKeyMod | src/native/sim-hid-bridge.swift:315-324 | Sends modifier down, key down, key up, modifier up in order, stopping at the first message that cannot be made |
| HidTyping.CommandExactly | src/native/sim-hid-bridge.swift:305-324 | A command prints its character or nothing, and a key stays held afterwards exactly when a message fails after the first has gone out |
| TelemetryRollup.Bucket.Accumulate | src/metrics/input-telemetry-rollup.ts:97-134 | After any event sequence the ring read from its start is the last min(successes, 1024) samples in order, the running sum is their sum, count is errors plus successes, and the RSS ring likewise |
| TelemetryRollup.Bucket.PushSample | src/metrics/input-telemetry-rollup.ts:111-122 | One latency write keeps window and sum, filling or evicting |
| TelemetryRollup.WindowSize | src/metrics/input-telemetry-rollup.ts:111-122 | The window is the last 1024 samples, or all of them |
| TelemetryRollup.SumOfOne | src/metrics/input-telemetry-rollup.ts:111-122 | The sum the running sum is compared with: of nothing 0, of one sample that sample |
| TelemetryRollup.PushMovesWindow | src/metrics/input-telemetry-rollup.ts:111-122 | A circular write appends to the recent window and drops its oldest element when full |
| TelemetryRollup.Bucket.Snapshot | src/metrics/input-telemetry-rollup.ts:145-180 | Counts, error rate, mean within rounding, and nearest-rank percentiles of the recent windows, ordered and below the maximum |
| RankStatistics.PercentileIsNearestRank | src/metrics/input-telemetry-rollup.ts:137-143 | The percentile of a non-empty window is one of its samples with at least the asked number at or below it and fewer strictly below it, for any p |
| RankStatistics.NearestRankShare | src/metrics/input-telemetry-rollup.ts:137-143 | In terms of p alone: at least p*n samples, and at least one, are at or below the percentile, and fewer than p*n, or none, strictly below |
| RankStatistics.PercentileEnds | src/metrics/input-telemetry-rollup.ts:139 | p below 0 or above 1 gives the smallest or largest sample |
| RankStatistics.NearestRankUnique | src/metrics/input-telemetry-rollup.ts:137-143 | That condition leaves only one value |
| RankStatistics.PercentilesOrdered | src/metrics/input-telemetry-rollup.ts:172-174 | Percentiles grow with p and stay at or below the window maximum |
| AxRecovery.DumpTreeWithRecovery | src/native/ax-bridge-recovery.ts:163-291 | The dump loop returns what the loop-independent run prescribes, in dump style, with the same sleeps |
| AxRecovery.RunAxOperationWithRecovery | src/native/ax-bridge-recovery.ts:332-448 | The generic loop returns what the same run prescribes, in its own style, with the same sleeps |
| AxRecovery.LoopsAgree | src/native/ax-bridge-recovery.ts:163-448 | Given the same outcomes both loops make the same attempts, stages and results, differing only in action label, the code of a thrown reactivation and the final Flutter promotion, which happens exactly under its condition |
| AxRecovery.EveryRun | src/native/ax-bridge-recovery.ts:163-291 | Attempts are 1, 2, ... and at most max(1, maxAttempts); recovered holds exactly if the last stage is a successful operation; sleeps are the positive backoffs; only recoverable failures are retried |
| AxRecovery.TraceHas | src/native/ax-bridge-recovery.ts:163-291 | Exactly these events make up a run: each attempt's operation, and between two attempts the positive pause and the reactivation if asked for and the device is known |
| AxRecovery.TraceInOrder | src/native/ax-bridge-recovery.ts:163-291 | They come attempt by attempt, each pause before its reactivation |
| AxRecovery.StageReads | src/native/ax-bridge-recovery.ts:163-291 | How each event reads as a stage: attempt, label, success and error code |
| AxRecovery.ThrownExactly | src/native/ax-bridge-recovery.ts:276-290 | What is thrown: the code of the last error, except that the dump loop promotes an empty content root exactly if a bundle is named and some reactivation left semantics inactive |
| AxRecovery.BackoffExactly | src/native/ax-bridge-recovery.ts:122-128 | The schedule's entry for the gap, the last one reused; 200, 500, 1200 without a schedule |
| AxRecovery.AttemptsExactly | src/native/ax-bridge-recovery.ts:167 | The budget is 3 by default and at least 1 |
| AxRecovery.RecoverableExactly | src/native/ax-bridge-recovery.ts:36-49 | Retried are exactly four codes of bridge errors |
| AxRecovery.SleepsAre | src/native/ax-bridge-recovery.ts:122-128 | The sleeps of a run are the positive schedule entries of its gaps, the last entry reused |
| AxRecovery.DumpTreeWithRecoveryGap | src/native/ax-bridge-recovery.ts:228-273 | Sleep and reactivation between two dump attempts |
| AxRecovery.RunAxOperationWithRecoveryGap | src/native/ax-bridge-recovery.ts:394-433 | Sleep and reactivation between two generic attempts |
| DomDiff.Compare | src/comparison/dom-diff.ts:97-264 | Differences are those found selector by selector, sorted by severity; the number compared is that of the distinct indexed selectors and the severity counts add up |
| DomDiff.ResultExactly | src/comparison/dom-diff.ts:97-264 | The result reports exactly the findings of the selectors that occur unexcluded in either snapshot, each under its own selector and devices |
| DomDiff.MissingExactly | src/comparison/dom-diff.ts:132-156 | A selector in one snapshot only is missing, with high severity, and nothing else; one in both is never missing |
| DomDiff.HiddenExactly | src/comparison/dom-diff.ts:162-171 | Differing visibility is reported, with medium severity, exactly if there is one |
| DomDiff.ShiftExactly | src/comparison/dom-diff.ts:187-204 | A shift is reported exactly if longer than the threshold, high if more than three times as long, else medium |
| DomDiff.ShiftMeans | src/comparison/dom-diff.ts:173-185 | The shift is the distance of the positions relative to their own viewports, in pixels of the mean viewport |
| DomDiff.SizeExactly | src/comparison/dom-diff.ts:206-230 | A change of size is reported exactly if both widths are positive and a side differs by more than the threshold's share of the larger, high for twice the threshold, else low |
| DomDiff.TruncationExactly | src/comparison/dom-diff.ts:232-245 | A truncation is reported, with medium severity, exactly if one non-empty text is a proper beginning of the other |
| DomDiff.FindingsInOrder | src/comparison/dom-diff.ts:159-245 | Within a selector: visibility, position, size, text, each at most once |
| DomDiff.FoundInOrder | src/comparison/dom-diff.ts:123-245 | Selector by selector, in the order of the selectors |
| DomDiff.SelectorsInOrder | src/comparison/dom-diff.ts:123 | The selectors of the first snapshot in order, then the others of the second in order |
| DomDiff.SevereFirst | src/comparison/dom-diff.ts:248-249 | Severe differences come first |
| DomDiff.CompareSymmetric | src/comparison/dom-diff.ts:97-264 | Swapping the snapshots leaves the multiset of kind, selector and severity unchanged |
| DomDiff.SelfCompareExactly | src/comparison/dom-diff.ts:97-264 | A snapshot compared with itself yields nothing exactly when every indexed element is quiet: the position threshold is not negative, nor the size threshold unless the element has no width |
| DomDiffSpec.SortedPermutation | src/comparison/dom-diff.ts:248-249 | The result is a permutation of what was found, sorted by severity, stable within a severity |
| DomDiff.CompareElements | src/comparison/dom-diff.ts:159-245 | Visibility, position, size and text findings of one selector, in order |
| DomDiff.BuildIndex | src/comparison/dom-diff.ts:108-121 | A selector is a key exactly if a non-excluded element has it, stands for the last such element, and the keys are in order of first occurrence |
| DomDiffSpec.IndexOfIsIndex | src/comparison/dom-diff.ts:108-121 | The same of the index that the comparison is specified with |
| DomDiff.FindingsSymmetric | src/comparison/dom-diff.ts:126-245 | The findings for one selector do not depend on which snapshot comes first |
| Annotator.DrawRect | src/comparison/annotator.ts:59-64 | Exactly the in-image pixels of the box outset by lw-1 without its strict interior are painted, every byte index is in bounds, all other bytes are untouched, and an opaque colour replaces them |
| Annotator.SetPixel | src/comparison/annotator.ts:52-57 | Changes the four bytes of one in-image pixel and nothing else; outside the image nothing |
| Annotator.BytesOfPixel | src/comparison/annotator.ts:54 | Where the four bytes of a pixel are: row by row |
| Annotator.OpaqueReplaces | src/comparison/annotator.ts:55 | An opaque colour's red, green and blue go to the first three bytes, 255 to the fourth |
| Annotator.BlendIsMean | src/comparison/annotator.ts:56 | A translucent channel becomes the whole number nearest to the mean weighted by the alpha |
| Annotator.TranslucentBlends | src/comparison/annotator.ts:56 | Each channel blends with its own byte, and the alphas add up to at most full |
| Annotator.ClampBox | src/comparison/annotator.ts:109-112 | A clamped box is drawable, starts at the rounded position or 0, ends inside the image if it starts inside, in the last row or column if it was cut, and is the rounded box if that fits |
| MetricLabels.EscapeIsPerCharacter | src/metrics/collector.ts:171-173 | The three successive replacements are one escape per character |
| MetricLabels.EscapeExamples | src/metrics/collector.ts:171-173 | The three escapes; any other character stays |
| MetricLabels.FormatReadsBack | src/metrics/collector.ts:171-180 | A reader recovers the ordered keys and values from the label text, for keys without `=` |
| MetricLabels.FormatInjective | src/metrics/collector.ts:175-180 | The label text determines the ordered list of keys and values |
| MetricLabels.EqualsInKeyCollides | src/metrics/collector.ts:175-180 | With `=` in a key two different lists can print alike |
| MetricLabels.FormatExamples | src/metrics/collector.ts:175-180 | The text as printed: braces, quotes and commas |
| Histograms.Histogram.Observe | src/metrics/collector.ts:108-114 | After any observations each bucket holds the number of observations at or below its bound |
| Histograms.Histogram.ExportBuckets | src/metrics/collector.ts:155-161 | The exported lines are the running totals of those buckets over the sorted bounds |
| Histograms.ExportedExactly | src/metrics/collector.ts:155-161 | An exported line equals the number of observations at or below its bound exactly for the first bound, or when no observation is at or below the bound before |
| Histograms.ExportedExceedsCount | src/metrics/collector.ts:155-161 | Two observations can be exported as four |

## Left out

- Sockets, child processes, the PNG codec, `pixelmatch`, AXUIElement and SimulatorKit calls: they are inputs, events or parameters of the models.
- `resizeImage`, `compareAll`, pixel badges, dashed lines and safe-area overlays of the annotator: single loops whose only property would be index bounds.
- XMLHttpRequest in the injected script: it selects rules with the same `f(u)` as fetch, so only fetch is modelled; `String(url)` conversions are not.
- Strings are sequences of characters. JavaScript's are sequences of 16-bit units, so there `?` and `[^/]` take half of a character outside the basic plane; the models take each character as one unit.
- Regex.ParseTail: only the pattern syntax that the compilers can emit is read; anything else is rejected.
- VmClient.FlutterVMClient.CallMethod: the circuit breaker is a Boolean answer; its own state is not part of this model.
- The VM client's event listeners, stream replay, URL discovery and isolate tracking: lookups and I/O beside the request table and the reconnect loop.
- VmClientSpec.Step: `connect` is split into its synchronous start, the socket's creation and its outcome, which may happen in any order; this allows more interleavings than the code does, so what is proved of all runs holds of the real ones.
- StepBarriers.StepBarrier.Wait: entries are values in a map rather than shared objects, so an entry that outlives its removal from the map is not represented; its timer is cleared at removal.
- InterceptorRuns.ScriptsKeepOrder: scripts are taken to reach the page over one connection, in the order sent; the promises that the sending calls return are not represented.
- The heartbeat's `ws.terminate`: the close event that follows it is an event of its own.
- The length of timeouts: a timer may fire at any moment while armed.
- The Swift copy of the content-root search, which must match the TypeScript one line by line, and its debug output.
- Text predicates of label matching (case folding, Unicode normalisation, redaction) are parameters.
- AxPathText.ParseInt: a number too large for Swift's `Int` is read, where Swift gives nil; it is out of range for every child list, so the result is the same. One too small is not read, as in Swift.
- TelemetryRollup.Bucket.Accumulate: one bucket; the map from `backend:operation` to buckets and the environment switch are lookups around it.
- Floating point: milliseconds, pixels and ratios are integers or reals, so rounding error of the running sum and of square roots is not represented; the position shift is compared by its square.
- DomDiff.Compare: descriptions and value strings of differences are not built.
- Annotator.DrawRect: for a translucent colour only the untouched bytes are stated, because corner pixels are blended twice.
- MetricLabels.FormatLabels: labels are an ordered list; the order JavaScript gives integer-like keys is not modelled.
- Counters, gauges and label matching of the metrics collector: find-or-append lookups.
- The stage timestamps and durations of the retry loops.
- Auth, redaction, session maps, tool catalogues, reports, scripts and the MCP server: lookup, formatting and orchestration.
