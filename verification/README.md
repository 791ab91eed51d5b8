# Argo: a verified model

Argo runs bash workflows under a daemon: it tokenizes JSON, keeps an environment with `${NAME}` references, starts
and supervises child processes, manages companion instances ("CIs") with ports and life cycles, passes console input
to workflows and runs periodic functions in a background thread. This project models that logic in Dafny 4.11 and
proves what it keeps over whole inputs and whole runs.

Code that changes state in C is a class or a method with loops over arrays, linked nodes and fields, proved against
a function on values; the theorems are about those functions and about runs made of them. `dafny verify dfyconfig.toml`
verifies everything.

| files | what they hold |
|---|---|
| `Jsmn`, `JsonGrammar`, `JsmnLexemes`, `JsmnRoundTrip`, `JsmnStructure`, `JsmnPrefix` | the JSON tokenizer (non-strict, without parent links), which strings and primitives it takes, the round trip over RFC 8259, sections 2 to 7, its structure on arbitrary text, resuming, and texts cut short |
| `EnvStore`, `EnvNames`, `EnvLimits`, `EnvExpansion`, `EnvOrder` | the environment array, when its names stay unique, the limits of `${NAME}` expansion, its meaning, and what depends on the order of the array |
| `ExitQueue`, `ExitQueueRace` | the exit-code ring buffer, in one piece and as interleaved loads and stores |
| `Chains`, `WorkflowRegistry`, `WorkflowIds`, `Supervisor`, `SupervisorRuns` | linked lists, the workflow registry, fresh ids, and the supervisor: starts, pauses, abandons, timeouts, retries |
| `CiRegistry`, `CiPorts`, `Lifecycle`, `LifecycleSteps`, `LifecycleRuns`, `CiRuns`, `CiNames`, `CiLongNames`, `CStrings`, `Decimals`, `Wrappers`, `CiPersistence`, `CiRoundTrip` | the CI registry with its port allocator, the lifecycle manager, its runs with any names and with names that fit, and saving and loading |
| `JsonStrings`, `JsonPaths`, `ConsoleInput` | the escapers, the field extractor with its paths, the in-place unescaper, and their composition |
| `SharedServices`, `SchedulerRuns`, `SchedulerCalls` | the periodic scheduler, as a table and as an interleaved thread, and the calls of others |

How the sources enter the model: a C text is a Dafny `string` of the bytes before its NUL, and a byte is a character
of that code. Clocks, pids, exit codes and the outcomes of `fork`, `pipe` and `kill` are arbitrary inputs. Where code
and comments disagree, the model follows the code:

- `include/argo_daemon_exit_queue.h:29` says a full queue drops the oldest entries; the code turns the new one away.
- `lifecycle_restart_ci` leaves the instance in SHUTDOWN, because a start acts on OFFLINE only.
- An exit of a PAUSED workflow matches no entry, so nothing is said about such a workflow ever ending.

Where a property that one would expect fails, there is a run or an input on which it fails, and the exact condition
is proved: `JsmnStructure.Resume`, `EnvNames.NamesStayUniqueExactly`, `EnvOrder.OrderFreeExactly`,
`CiPorts.AllocatedPortIsFree`, `CiLongNames.StoresAgreeExactly`, `CiLongNames.PortsDifferExactly`,
`CiLongNames.NeverRefusedExactly`, `CiRoundTrip.LoadUndoesSaveExactly`, `ConsoleInput.ConsoleRoundTrip`,
`JsonStrings.EscapeForConsole`,
`WorkflowIds.GeneratedIsFresh` with `WorkflowIds.NumbersRunOut`, and `SchedulerRuns.RemovalSafeExactly` with
`SchedulerRuns.EarlierRemovalBreaksSpacing`.

## Model

| member | source | states |
|---|---|---|
| `Jsmn.Parser.Parse` | include/jsmn.h:268-453 | the loop over the text, on the parser fields and the token array in place, leaves the code, fields and tokens of `Run`; slots behind the tokens are untouched |
| `Jsmn.Parser.Count` | include/jsmn.h:268-286 | a call with a null token array returns the number of lexemes and keeps `toknext`; it stops at the end of the text or at the lexeme it cannot read, and a colon on the way leaves `toksuper` at the last token |
| `Jsmn.CountStopsAtEnd` | include/jsmn.h:268-286 | a counting call succeeds if and only if it stops at the end of the text; otherwise the code is -3 at a string that does not end, and -2 at any other lexeme it cannot read |
| `Jsmn.Parser.ParseString` | include/jsmn.h:193-263 | moves to the first quote that ends the string and fills one token with its inside; on an error, a bad escape, an open end or no slot, everything is rolled back |
| `Jsmn.Parser.ParsePrimitive` | include/jsmn.h:135-188 | fills one token up to the delimiter or the end of the text; on a forbidden character or without a slot everything is rolled back |
| `Jsmn.Parser.SkipEscape` | include/jsmn.h:223-259 | accepts the eight simple escapes and `\u` with four hex digits, fewer only at the end of the text, and stops exactly on the last character of the escape |
| `Jsmn.Parser.CloseBracket` | include/jsmn.h:308-348 | the backward search closes the last open token if its kind fits and makes the next open one the parent; otherwise INVAL and nothing changed |
| `Jsmn.Parser.Comma` | include/jsmn.h:379-396 | brings `toksuper` from a key back to the innermost open container |
| `Jsmn.Parser.OpenBracket` | include/jsmn.h:282-307 | takes a slot, counts the new token under its parent and makes it the parent; NOMEM changes nothing |
| `Jsmn.Parser.AllocToken` | include/jsmn.h:106-119 | hands out the next slot, or none when all are taken |
| `Jsmn.Parser.FillNext` | include/jsmn.h:124-130 | exactly one token more, with size 0 |
| `JsmnLexemes.StringExactly` | include/jsmn.h:193-263 | a string closes at a quote if and only if the text up to it is made of characters other than NUL, quote and backslash, of the eight escapes, and of `\u` with four hex digits; it is rejected if and only if behind such text a backslash begins none of these; all in literal characters |
| `JsmnLexemes.PrimitiveExactly` | include/jsmn.h:135-170 | a primitive ends at the first blank, `:`, `,`, `]`, `}` or end of the text, if and only if only codes 33 to 126 stand before it; it is rejected if and only if another character comes first |
| `JsmnLexemes.BadStringRejected` | include/jsmn.h:223-259 | whatever was read before, a string with a bad escape ends the call with -2 and leaves the state as it was |
| `JsonGrammar.SpansExact` | include/jsmn.h:268-453 | the tokens of a printed value span exactly the texts of its parts, strings without their quotes |
| `JsmnRoundTrip.RoundTrip` | include/jsmn.h:268-453 | every JSON text that sections 2 to 7 of RFC 8259 allow, with any of the four blanks, any escapes and number forms, parses with any large enough array into exactly the preorder tokens of its value, with exact spans and sizes |
| `JsmnRoundTrip.ReadValue` | include/jsmn.h:268-441 | a printed value is read the same way wherever it stands in a text and whatever was read before, adding exactly its tokens |
| `JsmnRoundTrip.ReadMembers` | include/jsmn.h:376-396 | reading the members of an object: each key gets size 1, each value is counted under its key, the object gets the number of members |
| `JsmnRoundTrip.ReadItems` | include/jsmn.h:379-434 | reading the items of an array: the array gets their number |
| `JsmnStructure.RunKeepsForest` | include/jsmn.h:268-453 | however a call ends, on any text: starts increase, spans are nested or disjoint, each container stands on its own brackets, open tokens are containers still waiting for theirs, and `toksuper` is -1 or a token |
| `JsmnStructure.SuccessYieldsForest` | include/jsmn.h:268-453 | after success all tokens are closed, lie in the text, are nested or disjoint, and every container opens and closes with its own kind of bracket |
| `JsmnStructure.SuccessIsAcceptance` | include/jsmn.h:308-359 | a parse with room succeeds if and only if a bracket stack and a lexeme scanner, without tokens or backward searches, accept the text; then the code is the lexeme count |
| `JsmnStructure.CountThenParse` | include/jsmn.h:273-286 | a parse with as many tokens as counting mode reports never ends with NOMEM, and succeeds with that count exactly when the brackets match; with fewer tokens it never succeeds |
| `JsmnStructure.ClosedSpansPersist` | include/jsmn.h:268-453 | no later step moves or retypes a token that is closed |
| `JsmnStructure.Resume` | include/jsmn.h:178-181 | calling again from where any call stopped, with further text and at least as many tokens, gives the code, state and tokens of one call on the whole, if and only if the cut did not run through a primitive |
| `JsmnStructure.ResumeWithMoreTokens` | include/jsmn.h:287-290 | after NOMEM, a second call with a larger array ends exactly as one call with the larger array |
| `JsmnPrefix.PrefixVerdict` | include/jsmn.h:443-452 | a text that parses, cut anywhere: the call on the front part returns -3 if and only if the cut runs through a container or a string, and succeeds otherwise; no cut makes it invalid |
| `JsmnPrefix.PartialUntilComplete` | include/jsmn.h:443-452 | every legal array, object or string is partial (-3) until its last character is there |
| `EnvStore.Store.Grow` | src/foundation/argo_env_load.c:45-57 | a full array gets 64 slots more; contents unchanged |
| `EnvStore.Store.FindEnvIndex` | src/foundation/argo_env_load.c:60-69 | the first entry that starts with the name and `=`, or -1 |
| `EnvStore.Store.SetEnv` | src/foundation/argo_env_load.c:72-95 | replaces the first entry of that name or appends one |
| `EnvStore.Store.GetEnv` | src/foundation/argo_env_utils.c:19-38 | the text behind the first `=` of the first entry of that name |
| `EnvStore.Store.UnsetEnv` | src/foundation/argo_env_utils.c:57-80 | removes the first entry of that name, the later ones moving down in order |
| `EnvStore.Store.ExpandValue` | src/foundation/argo_env_load.c:299-349 | the bounded buffer, filled by loop and recursion, ends up holding `Expand`: an expansion that does not fit is left out whole, beyond depth 10 nothing is expanded |
| `EnvStore.Store.ExpandAllVariables` | src/foundation/argo_env_load.c:352-393 | the in-place loop leaves the array `ExpandAll` defines: every entry is expanded over the array as changed so far |
| `EnvLimits.ReferenceExactly` | src/foundation/argo_env_load.c:312-321 | a reference is `${`, up to 255 characters without `}`, and `}`; anything else is ordinary text |
| `EnvLimits.MarkExactly` | src/foundation/argo_env_load.c:352-393 | a value is expanded if and only if `${` occurs in it |
| `EnvLimits.ValueFitsExactly` | src/foundation/argo_env_load.c:324-336 | behind a text, a value of any length goes in whole if both are shorter than 4095 characters together, and is left out otherwise |
| `EnvLimits.CycleIsCut` | src/foundation/argo_env_load.c:299-303 | a variable that refers to itself is put into itself exactly ten times, and then its own text stays |
| `EnvExpansion.LookupIsBinding` | src/foundation/argo_env_utils.c:19-38 | looking a name up in the array is looking it up in a map of names to values |
| `EnvLimits.LookupExactly` | src/foundation/argo_env_utils.c:19-38 | what is found under any name, one with `=` in it included: of the first entry that begins with the name and `=`, the text behind its first `=` |
| `EnvExpansion.SetThenLookup` | src/foundation/argo_env_utils.c:41-54 | setting then getting: the new value for this name, the former one for every other; unique names stay unique |
| `EnvExpansion.UnsetThenLookup` | src/foundation/argo_env_utils.c:57-80 | unsetting then getting: nothing for this name, the former value for every other, names stay unique |
| `EnvNames.NamesStayUniqueExactly` | src/foundation/argo_env_load.c:60-95 | over all runs of set and unset with names of a given set, from the empty store, the entries' names stay unique if and only if no two of these names agree in front of their first `=`; so they do for names without `=` |
| `EnvNames.BothStay` | src/foundation/argo_env_load.c:72-95 | for any two names that agree in front of their first `=`: set one after the other, the shorter first, both entries stay and the store holds one name twice |
| `EnvExpansion.ExpansionIsSimultaneous` | src/foundation/argo_env_load.c:299-393 | with unique names, reference names without `=`, nesting of at most 10 and, for values that hold `${`, full expansions that fit the line buffer, and no variable that is referred to left with a well-formed reference in its full expansion, the in-place left-to-right pass gives every variable the simultaneous full substitution over the original environment; undefined names vanish, a `$` that begins no reference stays, and other values may have any length |
| `EnvExpansion.EntryGetsMeaning` | src/foundation/argo_env_load.c:352-393 | part-way through the pass an entry still gets its full meaning, whichever entries were rewritten already, as long as no rewritten one that is referred to has a reference left |
| `EnvExpansion.OrderDoesNotMatter` | src/foundation/argo_env_load.c:352-393 | under the same conditions the result for each variable is the same for every order of the array |
| `EnvOrder.OrderMattersOutside` | src/foundation/argo_env_load.c:299-393 | one environment in two orders: a reference pieced together by an expansion is left in X, and Y, which refers to X, ends with different values |
| `EnvOrder.OrderFreeExactly` | src/foundation/argo_env_load.c:299-393 | where every full expansion of a variable that is referred to either has no reference left or, within the limits, changes when it is expanded again, the result is the same for all orders of the array if and only if none has a reference left |
| `EnvOrder.OrderFreeStandsStill` | src/foundation/argo_env_load.c:299-393 | where the result is the same for all orders, the full expansion of every variable that is referred to expands to itself again, if that stays within the limits |
| `EnvOrder.OrderFreeWithDangling` | src/foundation/argo_env_load.c:299-393 | where the references left in full expansions name no variable, the result is the same for all orders if and only if no variable that is referred to is left with a reference |
| `EnvOrder.TwoOrdersAgreeExactly` | src/foundation/argo_env_load.c:299-393 | two variables of which one uses the other, as the two first entries in either order, in an environment within the limits that stays within them once the other is rewritten: the one gets the same value in both orders if and only if the expanded value of the other expands to itself again |
| `EnvOrder.ChangeMatters` | src/foundation/argo_env_load.c:299-393 | a variable that is referred to and whose full expansion changes, within the limits, when it is expanded again makes the result depend on the order, whether the references left name variables or not |
| `EnvOrder.LeftReferenceCanBeHarmless` | src/foundation/argo_env_load.c:299-393 | an environment where X, which Y refers to, is left with a reference that expands to itself: the two orders give Y equal results, so that a reference left does not always make the order matter |
| `EnvExpansion.ExpansionIsIdempotent` | src/foundation/argo_env_load.c:352-393 | a second pass changes nothing where no full expansion has a reference left |
| `EnvExpansion.PassKeepsNames` | src/foundation/argo_env_load.c:352-393 | on every environment, cyclic ones included, the pass keeps number, order and names of the entries and bounds every value it rewrites by the line buffer |
| `ExitQueue.Queue.Push` | src/daemon/argo_daemon_exit_queue.c:27-51 | appends the entry and its time; a full queue keeps its contents, counts one more dropped entry and reports failure |
| `ExitQueue.Queue.Pop` | src/daemon/argo_daemon_exit_queue.c:54-77 | removes and returns the oldest entry, or nothing from an empty queue |
| `ExitQueue.Queue.GetDropped` | src/daemon/argo_daemon_exit_queue.c:80-86 | returns the count and resets it |
| `ExitQueue.Queue.IsEmpty` | src/daemon/argo_daemon_exit_queue.c:89-92 | true exactly when nothing is queued |
| `ExitQueue.Queue.constructor` | src/daemon/argo_daemon_exit_queue.c:12-24 | an empty queue with nothing dropped |
| `ExitQueueRace.EveryInterleavingIsFifo` | src/daemon/argo_daemon_exit_queue.c:27-77 | in every interleaving of the single loads and stores of one pusher and one popper, popped entries are the accepted ones in order, at most 127 are pending, and the `valid` test never fails |
| `ExitQueueRace.RefinesAbstractQueue` | src/daemon/argo_daemon_exit_queue.c:27-77 | every single step is a step of an abstract queue: publishing appends, releasing hands out the oldest, a push is refused and counted exactly at 127 pending entries, and a pop finds nothing exactly at none |
| `ExitQueueRace.IndicesTell` | src/daemon/argo_daemon_exit_queue.c:30-39 | in every state the two sides can reach, comparing the indices tells exactly whether 127 entries are pending and whether none is |
| `ExitQueueRace.UndisturbedPush` | src/daemon/argo_daemon_exit_queue.c:27-51 | without interference the seven steps of a push do to the memory what the sequential push does |
| `ExitQueueRace.UndisturbedPop` | src/daemon/argo_daemon_exit_queue.c:54-77 | without interference the nine steps of a pop hand out the slot, unmark it and move on; an unmarked slot and an empty queue leave the memory as it was |
| `WorkflowRegistry.Registry.FindNode` | src/daemon/argo_workflow_registry.c:46-57 | walks the linked list to the entry with this id |
| `WorkflowRegistry.Registry.Add` | src/daemon/argo_workflow_registry.c:60-90 | puts a new id in front and raises the count; a known id changes nothing |
| `WorkflowRegistry.Registry.UpdateState` | src/daemon/argo_workflow_registry.c:93-118 | sets the state of this entry only; a terminal state sets the end time unless it is set |
| `WorkflowRegistry.Registry.RemoveEntry` | src/daemon/argo_workflow_registry.c:141-170 | unlinks the entry with this id; all others keep their order |
| `WorkflowRegistry.Registry.List` | src/daemon/argo_workflow_registry.c:182-215 | a copy of all entries, front to back |
| `WorkflowRegistry.Registry.CountState` | src/daemon/argo_workflow_registry.c:218-235 | the number of entries in a state, or of all entries where none is asked for |
| `WorkflowRegistry.Registry.Prune` | src/daemon/argo_workflow_registry.c:356-396 | unlinks every prunable entry while walking the list and returns how many |
| `WorkflowRegistry.PruneKeepsOrder` | src/daemon/argo_workflow_registry.c:356-396 | what is left is a subsequence in order, of exactly the entries that are not terminal with 0 < end time < cutoff |
| `WorkflowRegistry.PrunedIds` | src/daemon/argo_workflow_registry.c:356-396 | pruning keeps ids distinct and drops exactly the entries that are completed, failed or abandoned with an end time behind 0 and before the cutoff |
| `WorkflowRegistry.FirstEndCounts` | src/daemon/argo_workflow_registry.c:93-118 | however often the state of an entry is updated, the last state stays and the end time is that of the first final state reached at a time other than 0 |
| `WorkflowRegistry.CountIsNumber` | src/daemon/argo_workflow_registry.c:218-235 | what is counted for a state is how often it occurs |
| `WorkflowIds.GenerateId` | src/daemon/argo_daemon_workflow_helpers.c:196-250 | the given suffix, or one more than the highest two-digit suffix of the prefix |
| `WorkflowIds.GeneratedIsNext` | src/daemon/argo_daemon_workflow_helpers.c:221-249 | the number handed out is one more than the highest two-digit number that stands behind the template and an underscore at the start of an id in the registry, in two digits up to 99, then 100 |
| `WorkflowIds.GeneratedIsFresh` | src/daemon/argo_daemon_workflow_helpers.c:221-249 | for every template, with ids of at most 63 characters as entries have room for, a generated id is not in the registry if and only if the highest suffix is below 99 or number 100 is not taken |
| `WorkflowIds.NumbersRunOut` | src/daemon/argo_daemon_workflow_helpers.c:221-249 | for every template with room for the numbers: a run that starts its numbers 99 and 100, after which the generated id is taken |
| `WorkflowIds.GeneratedStarts` | src/daemon/argo_daemon_workflow_helpers.c:196-250 | after every run a generated id can be started if and only if it is fresh in this sense and the template leaves room for the number within 63 characters |
| `Supervisor.Daemon.Execute` | src/daemon/argo_daemon_workflow.c:98-256 | adds the entry, then by the outcome of pipe and fork removes it, leaves it failed, or leaves it running with pid and pipe; the reply tells the five outcomes apart and the fork attempted is reported |
| `Supervisor.Daemon.Pause` | src/daemon/argo_daemon_workflow_control.c:54-107 | running becomes paused if the signal can be sent and nothing else changes; the reply tells a missing entry, a wrong state and a failed signal apart |
| `Supervisor.Daemon.Resume` | src/daemon/argo_daemon_workflow_control.c:110-163 | paused becomes running if the signal can be sent and nothing else changes; the reply tells a missing entry, a wrong state and a failed signal apart |
| `Supervisor.Daemon.AbandonWorkflow` | src/daemon/argo_daemon_workflow_api.c:235-278 | sets the abandon flag of this entry only, also when the signal fails, which the reply then says |
| `Supervisor.Daemon.TimeoutTask` | src/daemon/argo_daemon_tasks.c:27-72 | flags exactly the running entries whose start is longer ago than their timeout |
| `Supervisor.Daemon.ReapOne` | src/daemon/argo_daemon_tasks.c:266-316 | one exit record: the first running entry with that pid is removed on abandon, success or exhausted retries, otherwise retried; no other entry changes |
| `Supervisor.Daemon.HandleFailure` | src/daemon/argo_daemon_tasks.c:215-247 | retries with the next delay while retries are left, otherwise removes the entry |
| `Supervisor.Daemon.Retry` | src/daemon/argo_daemon_tasks.c:182-247 | counts the retry, delays 5 * 2^(k-1) seconds, and adopts the new pid unless the fork failed |
| `Supervisor.Daemon.CompletionTask` | src/daemon/argo_daemon_tasks.c:250-317 | empties the queue, terminates, and has the effect of folding the records in queue order |
| `SupervisorRuns.RetriesAreBounded` | src/daemon/argo_daemon_tasks.c:182-247 | in every run each entry has retried at most its maximum, was forked exactly once more than it retried, with delays 0, 5, 10, 20 and so on that total at most 5 * (2^max - 1) seconds |
| `SupervisorRuns.StartTakesEffect` | src/daemon/argo_daemon_workflow.c:98-256 | in every run: a start needs a safe path, an id of 1 to 63 characters that is not taken, and a pipe, and is refused for the first it lacks; it puts one entry in front, with all its fields, running with the child's pid or failed where the fork failed |
| `SupervisorRuns.ExitFindsChild` | src/daemon/argo_daemon_tasks.c:266-284 | in every run: an exit record belongs to an entry if and only if it is running, the record has the pid of its last fork that succeeded, and no running entry in front of it has that pid |
| `SupervisorRuns.ExitTakesEffect` | src/daemon/argo_daemon_tasks.c:182-316 | in every run: an exit record without an entry changes nothing; the entry is removed exactly if it is abandoned, the code is 0 or three retries are used up, and otherwise retried after 5, 10 or 20 seconds with the new pid, or the old one where the fork failed; nothing else changes |
| `SupervisorRuns.RetriedChildIsFound` | src/daemon/argo_daemon_tasks.c:215-247 | after a retry the exit record of the new child belongs to the same entry, unless an entry in front runs with the same pid; where the fork failed, one with the old pid does |
| `SupervisorRuns.PauseThenResume` | src/daemon/argo_daemon_workflow_control.c:54-163 | in every run exactly a running entry is paused, and resuming it gives back the very same registry; each refusal has its reply and changes nothing |
| `SupervisorRuns.ResumeTakesEffect` | src/daemon/argo_daemon_workflow_control.c:110-163 | in every run exactly a paused entry is resumed, and while it is paused no exit record belongs to it |
| `SupervisorRuns.AbandonTakesEffect` | src/daemon/argo_daemon_workflow_api.c:235-278 | in every run: an abandon flags a known entry and changes nothing else, also when the signal fails; from then on, through any further run of the registration, nothing is forked for it, and the next exit record that belongs to it removes it |
| `SupervisorRuns.PruneTakesEffect` | src/daemon/argo_workflow_registry.c:356-396 | in every run only starts whose fork failed are pruned, and of them exactly those started after 0 and before the cutoff |
| `SupervisorRuns.AbandonIsFinal` | src/daemon/argo_daemon_tasks.c:285-306 | once set, the abandon flag stays set through every further run of the registration, nothing is forked for it again, and its start time never changes |
| `SupervisorRuns.AbandonedIsRemoved` | src/daemon/argo_daemon_tasks.c:285-299 | the next matched exit of an abandoned entry removes it whatever the exit code, forks nothing and leaves all others |
| `SupervisorRuns.TimeoutIsExact` | src/daemon/argo_daemon_tasks.c:27-72 | in every run a scan flags exactly the running entries whose registration was started more than 3600 seconds before, however often they were retried since, and changes nothing else |
| `SupervisorRuns.RunContinues` | src/daemon/argo_daemon_tasks.c:182-306 | over any run a registration either ended for good or kept start time and limits, with retries only increasing |
| `SupervisorRuns.DrainIsRun` | src/daemon/argo_daemon_tasks.c:250-317 | one call of the completion step is a run of its exit records in queue order, with the same entries and the same forks logged |
| `SupervisorRuns.ReapTouchesOne` | src/daemon/argo_daemon_tasks.c:266-316 | an exit record leaves every entry but the first running one with its pid unchanged |
| `SupervisorRuns.DrainLeavesOthers` | src/daemon/argo_daemon_tasks.c:250-317 | a drain leaves alone every entry that is not running or whose pid no record carries |
| `CiRegistry.Registry.AddCi` | src/daemon/argo_registry.c:73-119 | puts the entry in front, names cut to their buffers; refused when full or when the name is found |
| `CiRegistry.Registry.RemoveCi` | src/daemon/argo_registry.c:122-141 | unlinks the first entry of that name |
| `CiRegistry.Registry.FindCi` | src/daemon/argo_registry.c:146-187 | the first entry of that name |
| `CiRegistry.Registry.IsPortAvailable` | src/daemon/argo_registry.c:268-279 | true exactly when no entry holds the port |
| `CiRegistry.Registry.Reclaim` | src/daemon/argo_registry.c:204-227 | the port of the first offline entry in the block of the role; the entry of that name is removed |
| `CiRegistry.Registry.AllocatePort` | src/daemon/argo_registry.c:230-253 | the first free port of the block, else a reclaimed one, else -1 |
| `CiRegistry.Registry.UpdateStatus` | src/daemon/argo_registry.c:330-343 | the status of the first entry of that name changes and nothing else |
| `CiRegistry.Registry.Heartbeat` | src/daemon/argo_registry.c:346-357 | the heartbeat time of the first entry of that name changes and nothing else |
| `CiPorts.AllocationFailsExactly` | src/daemon/argo_registry.c:204-253 | on any registry allocation fails exactly when all ten ports of the block are held and none of the holders is offline; otherwise the port lies in the block |
| `CiPorts.BlocksAreDisjoint` | src/daemon/argo_registry.c:190-201 | the five blocks: 9000 to 9009 for builders, then ten each for coordinators, requirements, analysis and all other roles; two roles share a port only if both are others |
| `CiPorts.AllocationRemovesAtMostOne` | src/daemon/argo_registry.c:204-253 | while a port of the block is free an allocation removes nothing; otherwise it hands out the port of the first offline entry of the block and removes the first entry of that name, which is that offline entry if and only if it is the first of its name |
| `CiPorts.ReclaimsOffline` | src/daemon/argo_registry.c:204-253 | where names are distinct, nothing but the offline entry whose port is handed out is ever removed |
| `CiPorts.AllocatedPortIsFree` | src/daemon/argo_registry.c:204-253 | the port is free afterwards if and only if it was free before, or the reclaimed entry is the first of its name and the only holder |
| `CiPorts.RoomForOneMore` | src/daemon/argo_registry.c:83-86 | five disjoint blocks of ten ports: while a port is free there is room in a registry of 50 |
| `Lifecycle.Manager.CreateCi` | src/daemon/argo_lifecycle.c:118-187 | allocates, adds to the registry and then to the manager; each failure leaves the stores as far as the code got |
| `LifecycleRuns.CreateTakesEffect` | src/daemon/argo_lifecycle.c:118-187 | in every state of the stores: the exact condition of each failure, and what a create puts into both stores, names cut to 31, roles to 31 and models to 63 characters |
| `Lifecycle.Manager.Start` | src/daemon/argo_lifecycle.c:190-216 | only an offline instance starts; both stores and the history follow |
| `Lifecycle.Manager.Stop` | src/daemon/argo_lifecycle.c:219-250 | graceful to SHUTDOWN, forced to OFFLINE, in both stores and the history |
| `Lifecycle.Manager.Restart` | src/daemon/argo_lifecycle.c:253-264 | a graceful stop and a start that finds the instance not offline |
| `Lifecycle.Manager.Transit` | src/daemon/argo_lifecycle.c:267-317 | the status the event leads to, recorded only where it differs |
| `Lifecycle.Manager.Assign` | src/daemon/argo_lifecycle_monitoring.c:20-59 | only a ready instance takes work and becomes busy |
| `Lifecycle.Manager.Complete` | src/daemon/argo_lifecycle_monitoring.c:62-81 | clears the work and makes the instance ready |
| `Lifecycle.Manager.Heartbeat` | src/daemon/argo_lifecycle_monitoring.c:84-98 | resets the missed count and the time in both stores |
| `Lifecycle.Manager.CheckHeartbeats` | src/daemon/argo_lifecycle_monitoring.c:101-130 | counts missed heartbeats of instances that are not offline and reports an error from the third on, left to right; returns how many were late |
| `Lifecycle.Manager.Report` | src/daemon/argo_lifecycle_monitoring.c:133-169 | counts the error, keeps its message and moves to ERROR |
| `Lifecycle.Manager.Clear` | src/daemon/argo_lifecycle_monitoring.c:276-289 | drops the history and its count |
| `LifecycleSteps.WorkCycle` | src/daemon/argo_lifecycle_monitoring.c:20-81 | work given to a ready instance and completed takes it to busy and back to ready with one record each, in front of the history, and touches no other instance or entry; an instance that is not ready takes none |
| `LifecycleSteps.RestartOnlyStops` | src/daemon/argo_lifecycle.c:253-264 | a restart equals a graceful stop: it ends in SHUTDOWN with one record |
| `LifecycleSteps.ForcedStopThenStart` | src/daemon/argo_lifecycle.c:190-250 | a forced stop and a start bring every known instance to STARTING, with both records |
| `LifecycleRuns.EventTakesEffect` | src/daemon/argo_lifecycle.c:267-317 | each event takes every known instance to its status, in both stores, with one record of where it came from; an instance that is there already stays as it is, and no other is touched |
| `LifecycleRuns.WholeLife` | src/daemon/argo_lifecycle.c:190-317 | start, ready, work given and done, shutdown and end take an offline instance round to OFFLINE with exactly these six records in order, touching no other |
| `LifecycleSteps.CheckTreatsEach` | src/daemon/argo_lifecycle_monitoring.c:101-130 | over every history, whatever names are created, the loop does to each instance what it would do to it alone, although reporting an error searches and rewrites the same array |
| `LifecycleSteps.FirstLiveInRuns` | src/daemon/argo_lifecycle.c:64-187 | over every history, whatever names are created, only the first instance of a name can be other than OFFLINE |
| `LifecycleSteps.CheckMarksRegistry` | src/daemon/argo_lifecycle_monitoring.c:101-130 | with names that fit, the registry keeps its entries and each gets the status its instance has after the check |
| `LifecycleSteps.ThirdMissIsError` | src/daemon/argo_lifecycle_monitoring.c:101-169 | over every history, whatever names are created, after a heartbeat two late checks of the whole array only count and the third puts a live instance into ERROR with one record |
| `LifecycleRuns.HeartbeatStartsOver` | src/daemon/argo_lifecycle_monitoring.c:84-130 | over every history: a heartbeat sets count and time in both stores and nothing else; checks within 60 seconds of it, or of an offline instance, then change nothing, and of any number of later ones each is counted, the third moves to ERROR, and from the third on each counts an error |
| `LifecycleRuns.LateIsNumber` | src/daemon/argo_lifecycle_monitoring.c:101-130 | the count a check returns is the number of instances that are not offline and had no heartbeat for more than 60 seconds |
| `LifecycleRuns.ErrorsAreCounted` | src/daemon/argo_lifecycle_monitoring.c:133-169 | a reported error is counted with its message and takes the instance to ERROR, with a record unless it is there already |
| `LifecycleRuns.ClearForgets` | src/daemon/argo_lifecycle_monitoring.c:276-289 | clearing forgets the history of the named instance, its length included, and nothing else |
| `CiNames.CreateWorks` | src/daemon/argo_lifecycle.c:118-187 | a create with a name that fits fails for a known name or an exhausted block and for nothing else |
| `CiNames.PortsAreSound` | src/daemon/argo_lifecycle.c:118-187 | over every history that creates only names below 32 characters, live ports are distinct, and a create fails for a known name and an exhausted block only: the full branch is unreachable |
| `CiRuns.PortsStayInBlocks` | src/daemon/argo_lifecycle.c:118-187 | over every history, whatever names are created, each live port lies in the ten ports of its role between 9000 and 9049, and at most 50 entries exist |
| `CiLongNames.PortsDifferExactly` | src/daemon/argo_lifecycle.c:118-187 | live ports are distinct over all histories that create names of a given set if and only if all these names are below 32 characters |
| `CiLongNames.NeverRefusedExactly` | src/daemon/argo_registry.c:73-119 | the registry never refuses a create over all such histories, as full or as holding the name, if and only if all these names are below 32 characters |
| `CiLongNames.PortsCanCollide` | src/daemon/argo_registry.c:204-227 | for every longer name: ten creates, a stop of the stored name and one more create leave two entries with one port, because the reclaim removed the stopped entry by name |
| `CiLongNames.RegistryCanFill` | src/daemon/argo_registry.c:83-86 | for every longer name: going on like this, one role alone fills all 50 entries and a create finds the registry full |
| `CiNames.StoresAgree` | src/daemon/argo_lifecycle.c:118-317 | over every history that creates only names below 32 characters, every registry name is a lifecycle name and the two statuses are equal, also after reclaims |
| `CiLongNames.StoresAgreeExactly` | src/daemon/argo_lifecycle.c:118-317 | the stores agree over all histories that create names of a given set if and only if all these names are below 32 characters |
| `CiLongNames.StatusesCanDisagree` | src/daemon/argo_lifecycle.c:219-250 | for every longer name: two creates and a stop of the stored name leave an entry offline whose instance is shutting down |
| `CiRuns.HistoriesAreChains` | src/daemon/argo_lifecycle.c:75-115 | over every history, whatever names are created, the transition count is the length of the list, each record starts where the next older one ended, and the newest ends in the current status |
| `CiLongNames.LongNamesCollide` | src/daemon/argo_lifecycle.c:64-72 | every name of 32 characters or more can be created twice and then stands twice in both stores |
| `CiPersistence.SaveState` | src/daemon/argo_registry_persistence.c:20-59 | the text written while walking the list is `SaveText` of the entries |
| `CiPersistence.LoadState` | src/daemon/argo_registry_persistence.c:108-182 | the loop over the text adds, entry by entry, what `LoadText` defines |
| `CiPersistence.LoadOne` | src/daemon/argo_registry_persistence.c:143-170 | an entry is added if its name, role and model are found, its port is positive and the registry takes it; its status is restored |
| `CiRoundTrip.LoadUndoesSave` | src/daemon/argo_registry_persistence.c:20-182 | loading what was saved into an empty registry restores name, role, model, port and status of every entry in reversed order, and the result can be saved again |
| `CiRoundTrip.LoadUndoesSaveExactly` | src/daemon/argo_registry_persistence.c:20-182 | for entries with the host the registry gives them, loading restores what was saved if and only if names are distinct, at most 50 entries exist, names, roles and models are nonempty, fit and hold neither quote nor closing brace, and ports are positive |
| `CiRoundTrip.LoadedIsSaveable` | src/daemon/argo_registry_persistence.c:108-182 | whatever text is loaded, damaged ones included, the resulting registry is one that saving and loading restores |
| `CiRoundTrip.TwoRoundsRestoreOrder` | src/daemon/argo_registry_persistence.c:20-182 | two rounds of saving and loading restore the order, too |
| `CiRoundTrip.EntryLoads` | src/daemon/argo_registry_persistence.c:62-170 | whatever follows an entry, its own fields are read back, not those of a later one |
| `CiRoundTrip.AnyLayoutLoads` | src/daemon/argo_registry_persistence.c:124-180 | between the entries any blanks, line ends, tabs and commas do, and anything else that is no opening brace ends the list |
| `CiRoundTrip.LackingEntryIsLeftOut` | src/daemon/argo_registry_persistence.c:62-170 | in any text, an entry without a name, role, model or port of its own is left out, whatever later entries hold |
| `CiRoundTrip.HostIsThere` | src/daemon/argo_registry_persistence.c:36-48 | the host is saved, too, though loading does not ask for it |
| `CiRoundTrip.HeaderFieldsAreThere` | src/daemon/argo_registry_persistence.c:28-33 | so are the version 1 and the number of entries |
| `Decimals.ScanPrinted` | src/daemon/argo_registry_persistence.c:95-106 | reading a printed number back gives the number |
| `Decimals.ScanOther` | src/daemon/argo_registry_persistence.c:95-106 | a plus sign is taken, and a text that begins with no blank, sign or digit reads as 0 |
| `JsonStrings.EscapeForConsole` | arc/src/workflow_attach.c:20-54 | the escape loop yields the escaped text; it is at most twice as long, as the C code allocates, if and only if four for each `\u` sequence less one for each character that stays itself is at most 0 |
| `JsonStrings.UnicodeIsCode` | arc/src/workflow_attach.c:40-44 | the `\u` sequence of a byte is its code in four lower-case hex digits |
| `JsonStrings.ControlLineOutgrows` | arc/src/workflow_attach.c:24-47 | a control character and a line end escape to 8 characters where 4 are allocated |
| `JsonStrings.EscapeInto` | src/foundation/argo_json.c:110-135 | appends the escaped text behind the offset and moves the offset; without room it fails, keeps the offset, and what it wrote is an escaped prefix |
| `JsonStrings.TakesAll` | src/foundation/argo_json.c:118-129 | the text is taken whole exactly when its last character still starts in front of the last three bytes |
| `JsonStrings.ExtractStringField` | src/foundation/argo_json.c:15-71 | the text from the first quote behind the key to the first quote not paired with a backslash, or nothing |
| `JsonStrings.ExtractNestedString` | src/foundation/argo_json.c:74-107 | goes from key to key along the path; depth 1 to 5 |
| `JsonPaths.NestedExactly` | src/foundation/argo_json.c:15-107 | for paths of one to five fields, on any text: a value is returned if and only if the text is laid out as the quoted fields in order, each at its first occurrence behind the one before, then the first quote, the value, in which every quote stands behind a backslash, and a quote; otherwise nothing |
| `JsonPaths.DepthIsOneToFive` | src/foundation/argo_json.c:81-83 | any other number of fields is refused |
| `JsonPaths.NestedTextArrives` | src/foundation/argo_json.c:74-107 | an escaped text that does not end in a backslash, as the value of the last field of such a path, comes back as it is |
| `JsonStrings.UnescapeInPlace` | src/daemon/argo_daemon_workflow_control.c:25-51 | the two-pointer loop leaves the unescaped text and its NUL in the same array and touches nothing behind it |
| `ConsoleInput.UnescapeUndoesEscape` | src/daemon/argo_daemon_workflow_control.c:25-51 | unescaping gives the escaped text back if and only if no character was written as a `\u` sequence, for both escapers |
| `ConsoleInput.ExtractionOutcome` | src/foundation/argo_json.c:33-56 | extraction from the wrapped text yields the whole escaped text if it fits and the text does not end in a backslash, and fails otherwise |
| `ConsoleInput.ConsoleRoundTrip` | arc/src/workflow_attach.c:139-145 | for every typed text the daemon gets exactly that text if and only if its escaped form fits the body buffer, it does not end in a backslash and no character needs a `\u` sequence, and then the escaper has allocated enough; nothing is extracted exactly when one of the first two fails. For a text that outgrows the allocation this speaks of the text only |
| `ConsoleInput.LibraryRoundTrip` | src/foundation/argo_json.c:110-135 | with the escaper of the library every text that fits and does not end in a backslash arrives |
| `ConsoleInput.SendInput` | src/daemon/argo_daemon_workflow_control.c:209-222 | escaping, wrapping, extracting and unescaping one after the other compose to that, on texts; a text that arrives unchanged fits the allocation of the escaper |
| `SharedServices.Services.RegisterTask` | src/daemon/argo_shared_services.c:180-220 | appends an enabled entry whose last run is now; refused for bad parameters, at 32 entries and for a known function, in that order |
| `SharedServices.Services.UnregisterTask` | src/daemon/argo_shared_services.c:223-258 | the entries behind it move down by one; the last slot keeps a stale copy |
| `SharedServices.Services.EnableTask` | src/daemon/argo_shared_services.c:261-292 | switches this entry only |
| `SharedServices.Services.RunPass` | src/daemon/argo_shared_services.c:26-51 | one pass over the table runs exactly the entries that are due at the time read before it |
| `SharedServices.PassKeeps` | src/daemon/argo_shared_services.c:26-51 | a pass changes the time of the last run of the entries that are enabled and have waited for their interval, and nothing else |
| `SharedServices.NothingDueAfterPass` | src/daemon/argo_shared_services.c:26-51 | after a pass nothing is due at the time the pass began |
| `SchedulerCalls.AddTakesEffect` | src/daemon/argo_shared_services.c:180-220 | in every run: what a registration needs, for which lack it is refused first, and the slot it takes |
| `SchedulerCalls.SwitchTakesEffect` | src/daemon/argo_shared_services.c:261-292 | in every run: exactly a registered function is switched, and nothing else changes |
| `SchedulerCalls.RemoveTakesEffect` | src/daemon/argo_shared_services.c:223-258 | in every run: exactly a registered function is removed, the later ones keep their order, and no run is forgotten |
| `SchedulerCalls.DisabledNeverRuns` | src/daemon/argo_shared_services.c:26-51 | in every run: a disabled task does not run until it is enabled again, whatever callers and the clock do; only a run under way still ends |
| `SchedulerRuns.PassIsRun` | src/daemon/argo_shared_services.c:14-57 | an undisturbed pass as one call equals the single steps of the thread |
| `SchedulerRuns.RateIsBounded` | src/daemon/argo_shared_services.c:14-57 | in every run, consecutive runs of a registration are at least its interval apart, measured from the previous finish, and by t it has run at most (t - t0) / interval times, as long as nothing is unregistered from a slot below the one whose function is running |
| `SchedulerRuns.DueAgainExactly` | src/daemon/argo_shared_services.c:44-50 | of the removals that can happen while a function runs, exactly those from a lower slot leave it due again when it ends |
| `SchedulerRuns.RemovalSafeExactly` | src/daemon/argo_shared_services.c:44-50 | while a function runs that is in its slot and was due, a removal is followed only by runs that keep every interval, as long as the proviso holds from then on, if and only if it was not from a lower slot |
| `SchedulerRuns.LowerRemovalBreaksSpacing` | src/daemon/argo_shared_services.c:223-258 | from every such state, a removal from a lower slot can be continued without further removals so that the function runs again too early |
| `SchedulerRuns.EarlierRemovalBreaksSpacing` | src/daemon/argo_shared_services.c:223-258 | a run in which such a removal makes a function with interval 5 run twice in one second |
| `SchedulerRuns.TotalCountsAllRuns` | src/daemon/argo_shared_services.c:49-50 | `total_task_runs` is the sum of the runs of all registrations, whatever callers do |

## Left out

- Integer widths: positions, times, counters and pids are unbounded; `total_task_runs`, `dropped` and the like do not wrap.
- Failing allocations and failing mutexes: both always succeed here.
- Memory ordering below sequential consistency, several concurrent pushers, and `exit_queue_get_dropped` interleaved with a push.
- Jsmn.Parser.Parse: positions beyond the range of `int` are not modelled, because the C code stores them unbounded in `size_t` and cuts them in tokens.
- `JSMN_STRICT` and `JSMN_PARENT_LINKS` are not compiled into this repository.
- Null checks on arguments: null pointers do not occur.
- Reading `.env` files, the system environment, quotes and blanks around values: easier line parsing.
- EnvExpansion.ExpansionIsSimultaneous: for environments outside its conditions only `EnvExpansion.PassKeepsNames` speaks of the values. Whether the order matters is not decided where a reference left expands to itself again, as in `EnvOrder.LeftReferenceCanBeHarmless`, or where expanding again breaks the limits, because rewritten values can then refer to each other in circles that the depth limit cuts.
- Supervisor.Daemon.Execute: script and environment checks are one Boolean input, and the child side after the fork is not part of this model.
- Supervisor.Daemon.Retry: the delay is recorded with the fork; the sleeping child itself is not modelled.
- The progress fields of workflows, the retry log and the JSON answers of the handlers.
- `workflow_registry_save` and `workflow_registry_load`: the load is a placeholder that loads nothing.
- The capacity of the manager's instance array: it is a growing sequence here.
- Instances are values in a sequence and their histories sequences of records, newest first; the nodes of a history list are not separate objects.
- CiRegistry.Registry.AllocatePort: the port configuration is the built-in one; `registry_load_config` does not change it either.
- CiPersistence.SaveState: the file is its text; opening, reading and writing files is left out.
- CiRoundTrip.LoadUndoesSaveExactly: hosts with a quote or a closing brace are outside its condition, because the registry gives every entry the host `localhost`.
- JsonStrings.EscapeForConsole: the text grows in place of the allocated buffer of twice the length; where it has an excess over that, what the C code then does to the memory behind the buffer is not modelled, and neither `ConsoleInput.ConsoleRoundTrip` nor `ConsoleInput.SendInput` says anything about it.
- ConsoleInput.ConsoleRoundTrip: the line limit of the console reader and the HTTP transport in between are not modelled; `char` is taken to be signed.
- SharedServices.Services.RunPass: nobody takes the lock during the pass; the interleavings are in `SchedulerRuns`.
- Starting and stopping the scheduler thread, and its sleep between passes.
- Sockets, HTTP, AI providers, Claude processes, prompt templates, metrics, logs, YAML and URL parsing, route matching, and the `arc`, `ci` and `argo-term` commands besides the escaper.
