# Verification of Wolfpaw's protocol and conversion code

Wolfpaw is an assistant that plans and runs tasks for its users over chat channels. This project models
the parts of it where correctness is not visible in one function body, and proves what they promise, for all
inputs and all interleavings. `dafny verify dfyconfig.toml` checks everything.

One module stands for one component:

- `TelegramMarkdown` is the converter from agent markdown to Telegram's MarkdownV2: seven patterns tried in
  priority order, leftmost match first, and the escaping rules of each. `MarkdownV2Reader` is an independent
  reader of the target language, written from the "MarkdownV2 style" section of the Telegram Bot API.
- `Sse` is the chat stream: the server's event printer and the browser's incremental parser (WHATWG HTML,
  section 9.2.6, as far as the client implements it).
- `Executor` is the plan interpreter: parallel batches, failure, one splice of a continuation, skipping. Steps
  and planner are arbitrary functions. `SubagentSlots` is the reference-counted registry of per-root
  semaphores that concurrent subagents share.
- `Schedules`, `PendingQuestions`, `TaskLifecycle` and `TaskTree` are tables that several processes write.
  One SQL statement is one atomic step on a map of rows, and a transaction holding row locks is one step;
  everything else may interleave. `AnswerWaiter` is the call that waits for a question to be resolved, as steps
  in real time, with notifications that may come at any moment or never.
- `Paging` is keyset pagination and the client that scrolls with it; `Tokens` is base64url and the two signed
  token formats; `RateLimiter`, `ProfileCache` and `Pricing` are the sliding-window limiter, the profile cache
  with suspended loads, and the rounding of costs.

Code that updates state is a class or a method with loops, proved equal to a specification function; the
properties are then lemmas about that function. A run is a sequence of actions, and `After` gives the state it
leads to, if each of its actions was possible. Time, randomness, the network, the database's choice among
equal rows, steps, planner, MAC and JSON are parameters.

## Where the code does less than it says

Each of these has a lemma with an input that fails, beside the exact condition under which the promise holds.

- A backslash in plain or styled markdown text reaches Telegram as an escape, and two touching italic spans
  print a `__` that reads as underline (`MarkdownV2Reader.RoundTrip`; `BackslashIsLost`, `TouchingItalicsAreLost`).
- `execute` can report success although a member of the last parallel batch failed, and with an empty
  continuation the flag depends on the failed batch alone (`Executor.FlagExactlyReliable`; `NoAnswerLongTail`,
  `EmptyAnswer`, `LongAnswer`).
- The step cap does not count a continuation (`Executor.CapHoldsExactly`; `FiftyOneStepsRun`).
- One malformed due schedule keeps the whole batch from being claimed, and every later batch, until it is
  cancelled (`Schedules.ClaimAllExact`, `Schedules.StuckUntilCancelled`; `MalformedRowStarvesGoodOne`). The schema
  and `create` accept such a row; the only caller of `create` refuses an interval without its length, so it takes
  another writer, or a valid cron expression that runs out of instants. With well-formed rows every batch commits
  (`Schedules.WellFormedAlwaysCommits`).
- An answer committed after the waiter's last read and before it looks at the clock is not returned, even before
  the deadline (`AnswerWaiter.RunsReportExactly`; `GapLosesAnswer`); and a notification that arrives between a read
  and the clear is wiped (`AnswerWaiter.HeardIsPrompt`, `AnswerWaiter.UnheardWaitsInFull`; `WipedNotification`).
- `attach_plan` writes `last_active_at` of a terminal task, and a `status.running` event may be logged after
  `status.cancelled` (`TaskLifecycle.TerminalFrozen`, `TaskLifecycle.LogFrozenExactly`; `PlanTouchesDeadTask`,
  `RunningLoggedAfterCancel`).
- For a child deeper than sixteen links `get_root` differs from its parent's (`TaskTree.RootAgreesToDepth`;
  `SeventeenLinksDisagree`). No run builds such a chain; only a corrupt table has one.
- `verify_token` with `now=0` uses the wall clock (`Tokens.GivenTimeCounts`; `TimeZeroIsIgnored`), and
  `verify_session_token` raises instead of returning None for a non-ASCII body and for some correctly signed
  payloads (`Tokens.RaisesExactly`; `NonAsciiSessionRaises`, `NumericSubjectRaises`, `InfiniteExpiryRaises`).
- A sleep that ends early lets a fourth request into a second, and the excess stays while calls keep coming
  (`RateLimiter.LimitKeptExactly`; `EarlyWakeBreaks`, `ExcessSticks`).
- A PATCH during a load can be followed by up to 30 seconds of the old profile in the same process
  (`ProfileCache.FreshAfterInvalidate`, `ProfileCache.StaleAfterInvalidate`; `OldProfileServed`).

## Model

| member | source | states |
|---|---|---|
| `TelegramMarkdown.MatchExact` | src/wolfpaw/channels/telegram_markdown.py:41-56 | each of the seven patterns matches at the head of a text exactly when the text starts with a well-formed span of its kind, and yields just that span |
| `TelegramMarkdown.FirstFenceExact` | src/wolfpaw/channels/telegram_markdown.py:43-45 | the non-greedy body up to a closing fence is the one body that contains no fence |
| `TelegramMarkdown.PreIsRedundant` | src/wolfpaw/channels/telegram_markdown.py:41-45 | wherever the fence pattern with a language matches, the inline fence pattern matches the same source and renders the same text |
| `TelegramMarkdown.BestIsFirst` | src/wolfpaw/channels/telegram_markdown.py:97-103 | keeping the strictly earliest hit over the ordered patterns finds the leftmost match, of the first pattern on a tie |
| `TelegramMarkdown.SpansCover` | src/wolfpaw/channels/telegram_markdown.py:93-112 | for every text the spans cut concatenate to it, are well formed and nonempty, and no two plain ones touch |
| `TelegramMarkdown.SearchAll` | src/wolfpaw/channels/telegram_markdown.py:97-103 | the inner loop returns the leftmost match of any pattern |
| `TelegramMarkdown.ToMarkdownV2` | src/wolfpaw/channels/telegram_markdown.py:84-112 | the loop's output is the concatenated rendering of the spans of the text |
| `MarkdownV2Reader.EscapedRead` | src/wolfpaw/channels/telegram_markdown.py:31-36 | escaped text reads back as its characters when none of its backslashes would escape what follows |
| `MarkdownV2Reader.LiveSlash` | src/wolfpaw/channels/telegram_markdown.py:31-36 | a backslash before an escapable character makes escaped text read as something else, whatever follows |
| `MarkdownV2Reader.GuardedRead` | src/wolfpaw/channels/telegram_markdown.py:60-76 | code, fence and link contents with backslash and terminator escaped read back raw, for all contents |
| `MarkdownV2Reader.SpanRead` | src/wolfpaw/channels/telegram_markdown.py:59-81 | every well-formed span reads back as itself when its text is inert and no italic marker touches another |
| `MarkdownV2Reader.SpanGarbled` | src/wolfpaw/channels/telegram_markdown.py:59-81 | otherwise no continuation makes it read back as itself |
| `MarkdownV2Reader.CutReadsBack` | src/wolfpaw/channels/telegram_markdown.py:84-112 | for every proper cut, its rendering reads back as the cut if and only if the cut is readable |
| `MarkdownV2Reader.RoundTrip` | src/wolfpaw/channels/telegram_markdown.py:35-112 | for every text: a reader of the converted message accepts it with exactly the spans cut if and only if no backslash of plain or styled text is live and no two italics touch |
| `MarkdownV2Reader.BackslashIsLost` | src/wolfpaw/channels/telegram_markdown.py:35-36 | `\a` is printed unchanged and read as `a` |
| `MarkdownV2Reader.TouchingItalicsAreLost` | src/wolfpaw/channels/telegram_markdown.py:77-80 | `_a__b_` does not read back as its two spans |
| `Sse.ParseFrame` | web/src/chat/sseClient.ts:65-79 | the line loop returns the frame's last event name, trimmed, and its data lines joined, or nothing without data lines |
| `Sse.DrainBuffer` | web/src/chat/sseClient.ts:49-56 | the inner loop emits every complete frame of the buffer and leaves what has no blank line |
| `Sse.DrainAppend` | web/src/chat/sseClient.ts:45-58 | draining a prefix first and the rest with the leftover gives the same events and the same leftover as draining the whole |
| `Sse.StreamChat` | web/src/chat/sseClient.ts:40-63 | for every way of cutting a stream into chunks, the events and the leftover are those of the whole stream |
| `Sse.PrintedDrains` | src/wolfpaw/channels/web.py:91-96 | printed events with clean names are all delivered, in order, and nothing is left in the buffer |
| `Sse.RoundTrip` | src/wolfpaw/channels/web.py:91-96 | for every list of events with arbitrary data, the client receives exactly that list if and only if every name is one line without outer white space |
| `Executor.BatchEnd` | src/wolfpaw/agents/executor.py:229-248 | a batch is one ungrouped step or the maximal contiguous run of one group |
| `Executor.RunBatch` | src/wolfpaw/agents/executor.py:230-260 | every member of a batch sees the results from before the batch |
| `Executor.FirstFailed` | src/wolfpaw/agents/executor.py:262-267 | the failed result is there exactly when some member failed, and is the first |
| `Executor.Execute` | src/wolfpaw/agents/executor.py:204-325 | the loop with budget, splice and skips computes the two-phase form, its summary and the number of planner calls, and refuses plans over the step cap |
| `Executor.PhaseShape` | src/wolfpaw/agents/executor.py:227-262 | a phase completes every batch before its last, stops at the end of the first that failed, and is complete when none did |
| `Executor.ResumeFirst` | src/wolfpaw/agents/executor.py:273-283 | the budgeted loop is a first phase and then at most one splice |
| `Executor.ResumeSpliced` | src/wolfpaw/agents/executor.py:284-292 | with the budget gone the loop is one phase, then skips |
| `Executor.FailedStepIsFound` | src/wolfpaw/agents/executor.py:569-577 | the failed step of a first failure is always one of the plan's, so the planner is asked |
| `Executor.ResultsFollowPlan` | src/wolfpaw/agents/executor.py:213-292 | for all plans, outcomes and planner answers: a plan over the cap yields nothing; otherwise the planner is asked at most once, results match the effective plan step by step, SKIPPED is exactly the suffix past the last batch run, and every batch member saw exactly the results from before its batch |
| `Executor.SuccessIsRecovery` | src/wolfpaw/agents/executor.py:294-308 | for plans within the cap, with a single-step last batch, success is exactly: nothing failed, or one batch failed and the continuation completed in full |
| `Executor.ErrorIsFirstFailure` | src/wolfpaw/agents/executor.py:213-314 | every error: the refusal over the cap, the empty plan's, none on success, and otherwise that of the failure that came first |
| `Executor.FlagExactlyReliable` | src/wolfpaw/agents/executor.py:213-308 | what `execute` reports agrees with recovery for all step outcomes if and only if the plan is nonempty and within the cap and the last batch of what runs last is a single step |
| `Executor.NoAnswerLongTail` | src/wolfpaw/agents/executor.py:300-308 | within the cap, a failing long last batch without continuation makes the flag wrong |
| `Executor.EmptyAnswer` | src/wolfpaw/agents/executor.py:300-308 | within the cap, an empty continuation makes it wrong |
| `Executor.LongAnswer` | src/wolfpaw/agents/executor.py:300-308 | within the cap, a continuation ending in a long batch makes it wrong |
| `Executor.NothingFails` | src/wolfpaw/agents/executor.py:213-223 | a plan over the cap is reported as failed although no step of it would fail |
| `Executor.CapHoldsExactly` | src/wolfpaw/agents/executor.py:213-283 | no run of a plan yields more results than the cap if and only if the plan is refused or empty, there is no continuation, or both together are within the cap |
| `Executor.FiftyOneStepsRun` | src/wolfpaw/agents/executor.py:213-283 | fifty steps and a continuation of one run fifty-one steps |
| `SubagentSlots.StepKeeps` | src/wolfpaw/agents/executor.py:104-126 | entering, acquiring, a cancelled wait, releasing and leaving keep every root's entry equal to its subagents in flight, with free slots and holders adding up to five |
| `SubagentSlots.CapHolds` | src/wolfpaw/agents/executor.py:99-126 | over every interleaving at most five hold a slot under one root, all in flight hold a reference to the one registered semaphore, and an entry exists exactly while its count, equal to those in flight, is positive |
| `SubagentSlots.WaitsExactlyAtCap` | src/wolfpaw/agents/executor.py:118-119 | a slot is free for a waiting subagent exactly when fewer than five hold one under its root; the order in which the semaphore serves the waiting is not modelled |
| `SubagentSlots.NothingLeaks` | src/wolfpaw/agents/executor.py:119-126 | when everyone has left, both dictionaries are empty |
| `SubagentSlots.Registry.Enter` | src/wolfpaw/agents/executor.py:109-116 | finds or makes the root's semaphore and counts one reference; nothing else changes |
| `SubagentSlots.Registry.Acquire` | src/wolfpaw/agents/executor.py:117-119 | takes one slot of the user's semaphore |
| `SubagentSlots.Registry.Cancel` | src/wolfpaw/agents/executor.py:117-121 | a cancelled wait takes no slot and still has to leave |
| `SubagentSlots.Registry.Release` | src/wolfpaw/agents/executor.py:117-121 | gives the slot back |
| `SubagentSlots.Registry.Leave` | src/wolfpaw/agents/executor.py:119-126 | drops one reference, and the entry with the last |
| `Schedules.StepKeeps` | src/wolfpaw/memory/schedules.py:245-320 | creates, cancels and claiming transactions keep every row consistent with its history of claims |
| `Schedules.RowsKeepTheirLimits` | src/wolfpaw/memory/schedules.py:149-168 | over any run: the run count is the number of claims, a row is active exactly while it has a slot, a one-shot is claimed at most once, the maximum caps the claims and ends the row, and later slots are within `until` |
| `Schedules.NoSlotTwice` | src/wolfpaw/memory/schedules.py:283-320 | a row's claimed slots strictly increase, each after the clock of the claim before it |
| `Schedules.FinishedForGood` | src/wolfpaw/memory/schedules.py:245-259 | a done or cancelled row is the same after any longer run |
| `Schedules.IntervalRate` | src/wolfpaw/memory/schedules.py:128-131 | whatever clocks are passed, an interval row's claims are an interval apart, so a window of any width holds at most width over interval, plus one |
| `Schedules.OneCatchUpRun` | src/wolfpaw/memory/schedules.py:299-319 | right after a claim the row is due at no clock up to the claim's |
| `Schedules.ClaimAll` | src/wolfpaw/memory/schedules.py:292-320 | a committed batch changes no row it did not pick |
| `Schedules.ClaimAllExact` | src/wolfpaw/memory/schedules.py:292-320 | the transaction commits if and only if no picked row raises |
| `Schedules.MalformedRowBlocksBatch` | src/wolfpaw/memory/schedules.py:292-320 | a malformed row among those picked leaves the whole table as it was |
| `Schedules.StuckUntilCancelled` | src/wolfpaw/memory/schedules.py:283-320 | while a row that cannot fire is the earliest and unlocked, no run of dispatchers, later creates and other cancels claims anything |
| `Schedules.MalformedRowStarvesGoodOne` | src/wolfpaw/memory/schedules.py:283-320 | an interval row without its interval and a good one, both due: neither is claimed |
| `Schedules.CancelFreesGoodOne` | src/wolfpaw/memory/schedules.py:245-259 | after the malformed row is cancelled, the good one is claimed |
| `Schedules.WellFormedAlwaysCommits` | src/wolfpaw/toolbox/tools/schedule_task.py:185-224 | over any run that creates well-formed rows only, every claiming transaction commits and claims all it picked |
| `Schedules.ScheduleStore.Create` | src/wolfpaw/memory/schedules.py:174-207 | the insert is the create step: it keeps the table's invariant with an empty history, the row is due from its first slot on, and every other row is as it was |
| `Schedules.ScheduleStore.Cancel` | src/wolfpaw/memory/schedules.py:245-259 | cancels an open row of the owner and clears its slot, else does nothing and says so |
| `Schedules.ScheduleStore.ClaimAndAdvanceDue` | src/wolfpaw/memory/schedules.py:283-320 | the loop over the locked rows is the claiming step, returns the snapshots from before it, and rolls back where a row raises |
| `PendingQuestions.StepKeeps` | src/wolfpaw/memory/pending_questions.py:159-211 | every statement of every racing call keeps row and calls consistent |
| `PendingQuestions.ResolvedForGood` | src/wolfpaw/memory/pending_questions.py:159-211 | a row that has left pending is the same, answer included, after any longer run |
| `PendingQuestions.OneAnswerWins` | src/wolfpaw/memory/pending_questions.py:159-181 | a call that returns ANSWERED is its owner's and the only one, and the stored answer is its text; every other finished call of the owner returned ALREADY and every other user's UNKNOWN |
| `PendingQuestions.QuestionStore.MarkAnswered` | src/wolfpaw/memory/pending_questions.py:159-181 | the two statements undisturbed are the update step and the check step of a racing call |
| `PendingQuestions.QuestionStore.MarkTimeout` | src/wolfpaw/memory/pending_questions.py:184-195 | closes a pending row as timed out and leaves any other alone |
| `PendingQuestions.QuestionStore.MarkCancelled` | src/wolfpaw/memory/pending_questions.py:198-211 | closes a pending row as cancelled and leaves any other alone |
| `AnswerWaiter.Waiter.OnNotify` | src/wolfpaw/memory/pending_questions.py:240-244 | the event is set exactly by a notification of this question |
| `AnswerWaiter.Waiter.Round` | src/wolfpaw/memory/pending_questions.py:252-262 | one round ends on a row not pending or a deadline passed, and otherwise leaves the event cleared and the timeout to wait: what remains, at most the backstop |
| `AnswerWaiter.Waiter.WaitForAnswer` | src/wolfpaw/memory/pending_questions.py:240-264 | the loop returns what its rounds come to, having waited after each round but the last for just its timeout, and leaves the event set exactly if its last wait heard of this question |
| `AnswerWaiter.LastRound` | src/wolfpaw/memory/pending_questions.py:249-257 | every round before the last read a pending row and saw time left, and the last one decides the result |
| `AnswerWaiter.NeverReturnsPending` | src/wolfpaw/memory/pending_questions.py:252-257 | a pending row is never returned, and a timeout means a row read pending and then a clock at or past the deadline |
| `AnswerWaiter.ReportedByLastRead` | src/wolfpaw/memory/pending_questions.py:252-257 | a wait that ended reports a resolution if and only if it was committed by its last read |
| `AnswerWaiter.ReportedExactly` | src/wolfpaw/memory/pending_questions.py:225-269 | over rounds that fall in any way, a late first read included: a resolution is reported by every wait that ends if and only if it is committed by the start, or earlier than the deadline by the time that may pass between a read and the clock |
| `AnswerWaiter.StepKeeps` | src/wolfpaw/memory/pending_questions.py:249-264 | reads, looks, clears, waits with the computed timeout, commits and notifications at any instant keep rounds and times in order |
| `AnswerWaiter.RunIsRounds` | src/wolfpaw/memory/pending_questions.py:249-264 | every run of these steps is rounds of the loop, read again within timeout, lags and slack of the last look, ending as they decide |
| `AnswerWaiter.RunReports` | src/wolfpaw/memory/pending_questions.py:252-257 | over every run, a wait that ended reports a resolution committed by the deadline less the lag, and times out only on an open question at or after the deadline |
| `AnswerWaiter.ReadsAt` | src/wolfpaw/memory/pending_questions.py:249-264 | for any lag and slack the loop can come to read at any instant before the deadline |
| `AnswerWaiter.LateIsLost` | src/wolfpaw/memory/pending_questions.py:252-257 | for any lag and slack, and every time after the start and after the deadline less the lag, a run that closes the question then and times out |
| `AnswerWaiter.RunsReportExactly` | src/wolfpaw/memory/pending_questions.py:225-269 | over runs, a resolution after the start is reported by every run that ends if and only if it is committed by the deadline less the lag |
| `AnswerWaiter.GapLosesAnswer` | src/wolfpaw/memory/pending_questions.py:252-257 | a run in which a resolution between the last read and the deadline is lost |
| `AnswerWaiter.ReadWithinBackstop` | src/wolfpaw/memory/pending_questions.py:258-264 | with every notification lost, the closed row is read within the backstop, four lags and the slack, and the wait is over one lag later |
| `AnswerWaiter.HeardIsPrompt` | src/wolfpaw/memory/pending_questions.py:240-264 | a notification delivered after the closing, and not between a read and the clear, ends the wait within three lags and the slack |
| `AnswerWaiter.UnheardWaitsInFull` | src/wolfpaw/memory/pending_questions.py:258-264 | with none after the clear, the row is not read again before the whole timeout has passed |
| `AnswerWaiter.WipedNotification` | src/wolfpaw/memory/pending_questions.py:252-264 | a run in which the clear wipes a notification and the loop settles down for fifteen seconds |
| `TaskLifecycle.StepKeeps` | src/wolfpaw/memory/tasks.py:150-265 | every statement of every writer keeps row, log and events in flight consistent |
| `TaskLifecycle.TerminalFrozen` | src/wolfpaw/memory/tasks.py:150-265 | over any run a terminal task keeps status, start, completion and reason, its last activity is the time of the last plan attached since, or what it was without one, and a start time is written once |
| `TaskLifecycle.OneTerminalEvent` | src/wolfpaw/tasks/service.py:498-534 | completion is set exactly when terminal, the log has at most one terminal status event, it names the status, and a terminal task has exactly one, logged, in flight or lost |
| `TaskLifecycle.LogFrozenExactly` | src/wolfpaw/tasks/service.py:506-515 | a terminal task's log is the same after every continuation if and only if none of its events is in flight |
| `TaskLifecycle.PlanTouchesDeadTask` | src/wolfpaw/memory/tasks.py:258-265 | attaching a plan moves the last activity of a cancelled task |
| `TaskLifecycle.RunningLoggedAfterCancel` | src/wolfpaw/tasks/commands.py:96-104 | a run and a cancel can leave the log ending in `running` on a cancelled task |
| `TaskLifecycle.TaskService.Update` | src/wolfpaw/memory/tasks.py:150-255 | each guarded update writes its columns on a row that is not terminal (a cancel: of that user), returns whether it did, and otherwise writes nothing |
| `TaskLifecycle.TaskService.Transition` | src/wolfpaw/tasks/service.py:498-519 | appends the new status to the log exactly when the update took effect |
| `TaskLifecycle.TaskService.RunInner` | src/wolfpaw/tasks/service.py:304-445 | an undisturbed run logs `running` and its verdict, and leaves that verdict with its reason, time and plan; on a terminal task it logs nothing |
| `TaskTree.DepthIsUnique` | src/wolfpaw/memory/tasks.py:271-289 | a parent chain ends at one depth only, or never |
| `TaskTree.GetDepth` | src/wolfpaw/memory/tasks.py:271-289 | the walk returns the true depth or the cap, whichever is less, and the cap on an endless chain |
| `TaskTree.GetRoot` | src/wolfpaw/memory/tasks.py:325-345 | the walk returns the true root of every chain within the cap, and stops on an endless one |
| `TaskTree.RootAgrees` | src/wolfpaw/memory/tasks.py:325-345 | on any chain, child and parent get the same root if and only if fifteen links above the parent there is no parent or a task that is its own |
| `TaskTree.RootAgreesToDepth` | src/wolfpaw/memory/tasks.py:325-345 | on a chain that ends, if and only if the child's depth is at most sixteen |
| `TaskTree.SeventeenLinksDisagree` | src/wolfpaw/memory/tasks.py:325-345 | on a chain of seventeen links the two walks end at different tasks |
| `TaskTree.StepKeeps` | src/wolfpaw/agents/executor.py:771-778 | creating roots, checking, spawning any time after the check, retrying and deleting keep every task within depth three |
| `TaskTree.TreeStaysShallow` | src/wolfpaw/agents/executor.py:838-855 | over every run no task is deeper than three, no chain returns to its start, and a child has its parent's root, a task without a parent |
| `TaskTree.SpawnsExactlyBelowThree` | src/wolfpaw/agents/executor.py:774-778 | a spawn is allowed if and only if the parent's true depth is below three |
| `TaskTree.SlotRootIsChildsRoot` | src/wolfpaw/agents/executor.py:771-787 | the root a child takes its slot under is its parent's, and its own, however old the check, if and only if no task on the parent's chain at the check has been deleted since |
| `TaskTree.DeletionSplitsRoots` | migrations/001_init.sql:251 | what the schema's ON DELETE SET NULL makes of the two when a root is deleted between check and spawn |
| `Paging.ChronicleExact` | src/wolfpaw/memory/conversational.py:257-273 | WHERE and ORDER BY yield exactly the matching rows, strictly ascending in time and identifier |
| `Paging.AscendingUnique` | src/wolfpaw/memory/conversational.py:269-273 | there is only one such sequence |
| `Paging.FetchPage` | src/wolfpaw/memory/conversational.py:237-276 | newest first up to the limit and turned round is the end of the chronicle before the cursor |
| `Paging.Messages` | src/wolfpaw/channels/web.py:216-270 | a page is the last rows before the cursor, as many as the clamped limit allows, `has_more` says exactly whether any are left, and a thread of another user is not found |
| `Paging.CursorCuts` | src/wolfpaw/memory/conversational.py:263-266 | a cursor on a message cuts the chronicle right before it |
| `Paging.LaterPagesStable` | src/wolfpaw/memory/conversational.py:251-256 | insertions leave what lies before a cursor as it was if and only if none of them matches there |
| `Paging.Scroll` | web/src/chat/ChatPage.tsx:151-202 | the client following the oldest message's cursor until there is no more ends up with every user and assistant message of the first request's thread once, oldest first, however newer messages arrive meanwhile |
| `Tokens.RoundTrip` | src/wolfpaw/storage/signing.py:38-44 | every byte string decodes from its stripped encoding after re-padding, and the encoding has no `.` and no `=` |
| `Tokens.B64Is` | src/wolfpaw/auth/tokens.py:47-48 | stripping leaves the encoding of every byte and removes only padding |
| `Tokens.DecodesExactly` | src/wolfpaw/auth/tokens.py:51-53 | a text over the alphabet decodes if and only if its length is not one more than a multiple of four |
| `Tokens.VerifyMinted` | src/wolfpaw/storage/signing.py:47-90 | for every payload, secrets and time, what verifying a minted token answers: the payload, or the first of bad signature, unknown operation and expiry |
| `Tokens.GivenTimeCounts` | src/wolfpaw/storage/signing.py:88-89 | the time given decides expiry if and only if it is not zero or the wall clock would decide the same |
| `Tokens.TimeZeroIsIgnored` | src/wolfpaw/storage/signing.py:88-89 | a token that expires at five is refused as of zero and accepted as of one, at a wall clock of nine |
| `Tokens.SessionRoundTrip` | src/wolfpaw/auth/tokens.py:56-87 | a minted session verifies to its user and times exactly until its time to live is over |
| `Tokens.EscapesExactly` | src/wolfpaw/auth/tokens.py:78-84 | the payloads whose reading raises an exception that is not caught: nested too deeply, a subject neither text nor null, or an infinite time that is reached |
| `Tokens.RaisesExactly` | src/wolfpaw/auth/tokens.py:64-87 | verifying raises if and only if a non-ASCII character stands before the first dot, or the token is correctly signed and its payload is one of those |
| `Tokens.NonAsciiSessionRaises` | src/wolfpaw/auth/tokens.py:64-72 | a token with a body that is not ASCII |
| `Tokens.NumericSubjectRaises` | src/wolfpaw/auth/tokens.py:78-84 | a signed payload whose subject is a number |
| `Tokens.InfiniteExpiryRaises` | src/wolfpaw/auth/tokens.py:78-84 | a signed payload whose expiry is infinite |
| `RateLimiter.ExpiredExact` | src/wolfpaw/integrations/notion/client.py:141-142 | the popleft loop removes exactly the longest front of grants a second old |
| `RateLimiter.Limiter.Expire` | src/wolfpaw/integrations/notion/client.py:141-142 | the loop on the deque in place |
| `RateLimiter.Limiter.RateLimit` | src/wolfpaw/integrations/notion/client.py:134-154 | one call: expires, sleeps exactly when three are left and never for nothing, expires again, appends |
| `RateLimiter.Limiter.RateLimitCancelled` | src/wolfpaw/integrations/notion/client.py:138-147 | a call cancelled in its sleep drops what had expired on entry, leaves at least three, and adds nothing |
| `RateLimiter.CancelledKeeps` | src/wolfpaw/integrations/notion/client.py:138-147 | such a call keeps the deque a sorted suffix of the grants, with the others a second old |
| `RateLimiter.GrantedExact` | src/wolfpaw/integrations/notion/client.py:138-154 | a call drops only a front of the deque, all of it a second old by the grant, and appends the grant |
| `RateLimiter.LimitKeptExactly` | src/wolfpaw/integrations/notion/client.py:143-154 | a deque within the limit stays there if and only if the call does not wake early |
| `RateLimiter.StepKeeps` | src/wolfpaw/integrations/notion/client.py:134-154 | each call, granted or cancelled, keeps the deque a sorted suffix of the grants and the grants spaced |
| `RateLimiter.ThreePerSecond` | src/wolfpaw/integrations/notion/client.py:134-154 | over any calls, granted or cancelled, with one more for each early wake: the deque holds at most three, a grant and the third after it are a second apart, and no half-open second has more than three grants |
| `RateLimiter.EarlyWakeBreaks` | src/wolfpaw/integrations/notion/client.py:146-151 | one early wake puts four grants into a second |
| `RateLimiter.ExcessSticks` | src/wolfpaw/integrations/notion/client.py:146-154 | a deque over the limit keeps its size through a punctual sleep unless the next grant has expired too |
| `ProfileCache.StepKeeps` | src/wolfpaw/persona/builder.py:81-103 | every step keeps each cached or returned profile traceable to the read it came from |
| `ProfileCache.ReturnsRecent` | src/wolfpaw/persona/builder.py:92-103 | over any interleaving, a returned profile was the stored one at a step before the call's return, and less than 30 seconds before the call began or later |
| `ProfileCache.FreshAfterInvalidate` | src/wolfpaw/persona/routes.py:88-103 | if at an invalidation no load holds a profile it could still cache, every later call returns a profile read after it |
| `ProfileCache.StaleAfterInvalidate` | src/wolfpaw/persona/builder.py:97-103 | if one does, there is a continuation in which a later call returns what that load had read before |
| `ProfileCache.OldProfileServed` | src/wolfpaw/persona/routes.py:88-103 | a PATCH during a load after which the old profile is served |
| `ProfileCache.Cache.Look` | src/wolfpaw/persona/builder.py:93-96 | answers from an entry exactly until it expires |
| `ProfileCache.Cache.Fill` | src/wolfpaw/persona/builder.py:97-103 | caches what was loaded, or the default, for 30 seconds from the call's beginning |
| `ProfileCache.Cache.Invalidate` | src/wolfpaw/persona/builder.py:81-84 | no look for that user hits, at any time, until the next fill, and every other user's looks and entries are as before |
| `ProfileCache.Cache.Load` | src/wolfpaw/persona/builder.py:92-103 | an undisturbed load returns the unexpired entry or the stored profile, the next look hits it, and no other user's entry changes |
| `Pricing.ComputeCostCents` | src/wolfpaw/metering/pricing.py:22-29 | the result is the least whole number of cents not below the exact cost |
| `Pricing.ActivePriceExact` | src/wolfpaw/metering/pricing.py:32-52 | a price is found exactly when a row is active, and it is an active row that none outdates |
| `Pricing.ActivePriceOrderFree` | src/wolfpaw/metering/pricing.py:38-49 | with one row per model and starting time, the order of the rows does not matter |
| `Pricing.ReportedAgainstRecorded` | src/wolfpaw/metering/usage_report.py:143-187 | for one or more calls charged by the table, a model's line is at most their recorded costs, and below them by at most the number of calls less one |
| `Pricing.RoundingBoundIsTight` | src/wolfpaw/metering/usage_report.py:143-187 | that bound is reached for every number of calls up to a million |
| `Pricing.SplitOvershoots` | src/wolfpaw/metering/usage_report.py:176-181 | the input, output and cache columns add up to the total or to at most two cents more |
| `Pricing.GroupsExact` | src/wolfpaw/metering/usage_report.py:182-187 | GROUP BY puts each call into exactly one line, of its model |
| `Pricing.ReportAgainstBooks` | src/wolfpaw/metering/usage_report.py:207-230 | over a whole period the model lines add up to at most what the agents' recorded costs add up to, and to less by no more than the calls in excess of the models |

## Left out

- Model calls, prompts, embeddings, vector search, tool implementations and the quick loop: oracles, or text with no property of this kind.
- `_call_tool_with_recovery`, workspace collisions, the subagent failure policies and answer synthesis: one step's outcome is an arbitrary function of what the step is shown.
- Executor.Execute: the planner's exceptions are the answer None; the final answer text and the sandbox's release are not part of the result.
- The semaphore's queue: `SubagentSlots` lets any waiting subagent take a free slot, so it says nothing about the order of waiters; a parent keeps its slot while its child waits, so freedom from deadlock is not claimed.
- SubagentSlots.WaitsExactlyAtCap: says that a slot is free, not who gets it; asyncio serves the waiting in order.
- SubagentSlots.Registry.Leave: the wait for the lock on the way out is taken not to be cancelled; a task cancelled there would keep its reference.
- MarkdownV2Reader.RoundTrip: the reader takes fence contents as raw, without Telegram's language tag, and does not limit message length.
- UTF-8 and the text decoder: `Sse` is over characters; the response status checks before the loop are not modelled.
- Croniter and time zones: `Schedules` takes the next cron instant from a function that may fail and is only assumed to go forward, and only where a lemma says so; the naive-datetime error and the schedule's `state` blob are left out.
- Schedules.ScheduleStore.Create: the caller has set the first slot; the columns that no statement here reads are left out.
- AnswerWaiter.Waiter.WaitForAnswer: runs over the rounds and notifications the environment grants, whose times are in the step system; losing the connection ends the original with an error that is not modelled.
- PendingQuestions.QuestionStore.MarkAnswered: the race between its two statements is in the step system, not in the method; sending a NOTIFY is best effort and part of the waiter's environment.
- TaskLifecycle.TaskService.RunInner: nobody else writes during it; interleavings are in the step system. Scores, skills and delivery are left out.
- TaskTree.DeletionSplitsRoots: the schema allows the deletion, but no statement of the repository deletes a task.
- TaskTree.GetDepth: the walk reads one fixed table, although each of its reads is a statement of its own.
- Paging.Scroll: a failed request, which the client answers by keeping what it shows, is left out; the user's most recent thread is a parameter.
- `fetch_recent`, summaries and search in the conversation store: single queries without state, cursors or promises across calls.
- Tokens.VerifyMinted: says nothing about tokens that were not minted here; the MAC is any function, so unforgeability is not claimed, and JSON, UUID and number texts are read by any functions that undo what was written. Magic-link tokens are random and left out.
- Floating point: `RateLimiter`, `ProfileCache` and `Pricing` compute exactly; integer columns are unbounded.
- Pricing.ReportedAgainstRecorded: a call is taken as charged by the price the table shows for the time it was recorded; a price that starts between the lookup and the insert is not covered.
- The usage report's own cache, the compute costs and the period windows: a lookup, a sum and date arithmetic that promise nothing beyond their own lines.
- HTTP, OAuth, storage back ends, sandboxes, React components, and the jobs that only call the modelled operations.
