# A verified model of the assistant harness

This project models the stateful core of a personal-assistant harness (Python, `src/assistant/`) in
Dafny and proves what its modules promise: how references in API descriptions are expanded, how a
circuit breaker and a retry loop protect a backend, how delegations, approvals and sessions are
counted, expired and handed out, how downloads and pages are fetched, how paths are filled, how
shared bundles are imported, revoked and purged, how interactions are consolidated, how calendar
jobs fire, and how a task is folded from a stream.

Code that changes state is a class or a loop method whose contract equates the new state with a
function of the old one; concurrent code is a machine whose steps are the stretches between two
awaits (or two SQL statements); the theorems speak about those functions and about every run of
those machines. `dafny verify dfyconfig.toml` checks all of it.

| file | models |
|---|---|
| `Prelude.dfy` | options, results and a few facts about sequences and sets |
| `OpenApi.dfy`, `OpenApiTheorems.dfy` | `$ref` expansion and the parameter merge |
| `Resilience.dfy`, `BreakerRuns.dfy` | circuit breaker, retry loop, and the breaker under concurrent callers |
| `Spawner.dfy`, `SpawnerRuns.dfy` | delegation chains, the record registry, concurrent delegations |
| `Approvals.dfy`, `ApprovalHistory.dfy`, `ApprovalStatements.dfy` | the approval store by transactions, told from its history, and by SQL statements |
| `Sessions.dfy`, `SessionRuns.dfy`, `RebindHistory.dfy` | the session registry and its durable rows, call by call, under concurrent callers, and told from its history |
| `GraphClient.dfy`, `GraphDownload.dfy` | sends, pagination and streamed downloads |
| `Builder.dfy` | percent-encoding, path templates, the response cap |
| `CleanRoom.dfy`, `CleanRoomRuns.dfy` | bundle import and purge, alone and interleaved |
| `Learning.dfy` | the reflection watermark |
| `Scheduler.dfy` | calendar-triggered jobs |
| `Artifacts.dfy` | artifacts of a task as a fold of its events |

## Where the code departs from its own words

The model follows the code. These are the places where a comment, a docstring or a natural
expectation says something else; each has a lemma with the exact condition or a concrete run.

- Breaker: the exit of a probe clears the probe flag so that the breaker "is not permanently held"
  (`resilience.py:287-289`), but the half-open branch never looks at that flag. A probe that ends
  without a verdict on availability leaves the breaker half-open for good
  (`Resilience.ProbeWedgesExactly`, `BreakerRuns.ProbeExitWedges`, `BreakerRuns.WedgeIsAbsorbing`);
  recovery is possible exactly as long as some admitted caller can still report
  (`BreakerRuns.RecoverableUnlessWedged`), and always if every probe reports before it leaves
  (`BreakerRuns.RecoversIfProbesReport`).
- Breaker: two probes can run at once (`BreakerRuns.TwoProbesReached`): a second one can join a
  running probe exactly as long as another admitted caller has still to report, for its failure
  reopens the breaker (`BreakerRuns.SecondProbeExactly`). What always holds is one admission per
  half-open epoch (`BreakerRuns.EveryRun`). The load bound of floor(T / cooldown) counts from the
  opening; in a window placed anywhere it is one more (`BreakerRuns.LoadBound`,
  `BreakerRuns.AnyWindowNeedsOneMore`).
- Spawner: the ceiling check and the increment are separated by an await, so direct calls exceed
  the ceiling exactly when there are more of them than the ceiling
  (`SpawnerRuns.DirectExceedsExactly`). A body's status is set before its last await, so a body that
  is still counted can lose its record, exactly when there are more calls than the registry's cap
  and two can run at a time (`SpawnerRuns.CountedBodyLosesRecordExactly`). A role ceiling below
  one makes `delegate_parallel`, which raises its semaphore to one, run into the ceiling error
  (`SpawnerRuns.ParallelTripsExactly`).
- Approvals: the decision UPDATE has no status guard (`durable.py:551-560`), so between processes a
  late decision can bring a consumed row back and it is consumed twice. As written, consumption is
  exactly-once at statement level if and only if at most one decision reads the row
  (`ApprovalStatements.ConsumedOnceIffOneDecider`); with a guard it would be for any number
  (`ApprovalStatements.ConsumedOnceIffGuarded`). `consume_or_suspend` ignores what `consume` answers
  (`approvals.py:362-365`), so two callers can proceed on one approval even after one decision
  (`ApprovalStatements.OneProceedIffAlone`, `ApprovalStatements.OneProceedIffChecked`).
- Sessions: two resolves of one thread that overlap at the rebind await hand out two sessions
  (`Sessions.OverlappingResolvesSplit`); when a session is replaced is
  `SessionRuns.ReplacesIffOverlapped`. A resolve that decided in time revives a record that lapsed
  and was marked expired meanwhile (`SessionRuns.LapsedRecordRevived`,
  `SessionRuns.StaysDeadExactly`). `create` does not sweep again after its await, so it can refuse
  an id whose session has gone idle (`SessionRuns.SweepingIsTimerExactly`). `expire` answers True
  for a session whose idle time is over but which no operation has swept
  (`SessionRuns.ExpireAnswerExactly`). A row revived in that way stays marked expired, so once
  released its thread cannot be re-bound before its next create, however recent its last use
  (`RebindHistory.RebindOverHistory`).
- Graph client: after a token refresh only status 401 is treated as an error, so any other error
  answer is handed back as a result and counts as a success (`GraphSend.ErrorReturnedExactly`). The
  non-retrying POST charges the breaker for transport errors that the classifier it says it mirrors
  does not list (`GraphSend.AccountingDiffersExactly`).
- Builder: filling a template one name at a time is order-dependent exactly for templates with
  placeholders inside brackets (`PathTemplate.OrderIrrelevantIffNotNested`).
- OpenAPI: parameters are merged by name before references are followed, so a parameter given only
  as a `$ref` disappears (`OpenApiParameters.VanishesExactly`).
- Clean room: an import that passed the revocation check stores its items even when the bundle is
  revoked and purged meanwhile (`CleanRoomRuns.NeverReturnsExactly`). A bundle exported to an
  audience named "revocations" is born revoked and cannot be found
  (`CleanRoomRuns.ExportReachesAudienceExactly`).
- Learning: rows beyond the limit of one pass are passed over for good
  (`Learning.EveryRowOnceWithinLimits`), and so is a row whose date is not later than the watermark
  when it becomes visible, a tie or a late commit (`Learning.RowTakenExactly`). A pass that cannot
  see the watermark among the 200 facts it reads consolidates again
  (`Learning.HiddenWatermarkRepeats`).

## Model

| member | source | states |
|---|---|---|
| OpenApi.FollowPointer | src/assistant/http_tools/openapi.py:147-153 | The pointer loop finds the object an internal reference names, or the error the code raises: missing segment, or target not an object. |
| OpenApi.SplitExactly | src/assistant/http_tools/openapi.py:148 | Splitting a pointer gives the one list of slash-free segments that joined by slashes is the pointer. |
| OpenApi.TargetExactly | src/assistant/http_tools/openapi.py:141-153 | A reference resolves to a value exactly if that is an object at the end of a list of nodes from the document, each held by the one before under the next segment; it is reported missing exactly if there is no such list, and as no object exactly if the list ends at something else. |
| OpenApi.RefExactly | src/assistant/http_tools/openapi.py:165-166 | An object is a reference exactly if it holds a string under `$ref`. |
| OpenApi.JumpShrinks | src/assistant/http_tools/openapi.py:143-155 | Following an unvisited reference leaves strictly fewer references to follow, although the walk jumps back into the whole document: the termination argument. |
| OpenApiTheorems.ExpandSucceedsExactly | src/assistant/http_tools/openapi.py:131-173 | Expansion returns a value if and only if every reference reached along every path is internal, targets an object and does not reach itself along that path. |
| OpenApiTheorems.SuccessMakesChainsSound | src/assistant/http_tools/openapi.py:131-173 | After a success every path of references from the node, of any length, is sound. |
| OpenApiTheorems.ErrorIsExplained | src/assistant/http_tools/openapi.py:141-153 | Every reported error comes with a path of references from the node that shows it. |
| OpenApiTheorems.CycleErrorMeansCycle | src/assistant/http_tools/openapi.py:143-145 | A reported cycle is a reference that resolves and really reaches itself, so sharing one target twice is never reported. |
| OpenApiTheorems.LoopNeverUnfolds | src/assistant/http_tools/openapi.py:143-155 | A reference that reaches itself has no finite substitution at any depth. |
| OpenApiTheorems.ExpandIsUnfolding | src/assistant/http_tools/openapi.py:131-173 | From an empty visited set, expansion gives a tree exactly when plain repeated substitution ends with that tree: the visited set changes neither the answer nor when there is one. |
| OpenApiTheorems.ExpandKeepsKind | src/assistant/http_tools/openapi.py:164-173 | Expanding an object gives an object, and gives a string only for a string. |
| OpenApiTheorems.ResultIsRefFree | src/assistant/http_tools/openapi.py:164-173 | A successful result contains no object with a string-valued `$ref`, at any depth. |
| OpenApiTheorems.ExpandIsIdempotent | src/assistant/http_tools/openapi.py:158-173 | Resolving a result again, against any document and visited set, changes nothing. |
| OpenApiTheorems.VisitedOnlyRestricts | src/assistant/http_tools/openapi.py:143-145 | Success with a larger visited set is the same success with any smaller one. |
| OpenApiParameters.MergeIsLastPerKey | src/assistant/http_tools/openapi.py:86-92 | The merged dict has one entry per (name, in), in order of first appearance, holding the last parameter with that key. |
| OpenApiParameters.KeyExactly | src/assistant/http_tools/openapi.py:89-91 | The key of a parameter is the pair of the strings it holds as name and location; lacking one of them it has none. |
| OpenApiParameters.KeysAreCarried | src/assistant/http_tools/openapi.py:88-92 | A key is in the dict exactly when some parameter with string name and location carries it. |
| OpenApiParameters.OperationOverridesPath | src/assistant/http_tools/openapi.py:86-92 | A key declared by the operation never keeps a path-level value; any other keeps it. |
| OpenApiParameters.VanishesExactly | src/assistant/http_tools/openapi.py:88-96 | A parameter leaves no trace in the merged dict, wherever it is listed, if and only if it lacks a string name or location itself; one given only as a reference does. |
| OpenApiParameters.ParseParameters | src/assistant/http_tools/openapi.py:83-96 | Merges into a dict in place and expands each value, stopping at the first error. |
| OpenApiParameters.ExpandAllExactly | src/assistant/http_tools/openapi.py:93-96 | The values are expanded in the order of the dict, all of them or else the error of the first that fails. |
| Resilience.CircuitBreaker.OpenLocked | src/assistant/core/resilience.py:292-307 | Moves to open with a fresh cooldown from now and touches nothing else. |
| Resilience.CircuitBreaker.RecordFailure | src/assistant/core/resilience.py:205-221 | The whole new state after a reported failure, from each of the three states. |
| Resilience.CircuitBreaker.RecordSuccess | src/assistant/core/resilience.py:223-230 | The whole new state after a reported success: closed and clean from any state. |
| Resilience.CircuitBreaker.Acquire | src/assistant/core/resilience.py:248-281 | The verdict (admit, admit as probe, reject) and the new state at entry. |
| Resilience.CircuitBreaker.Release | src/assistant/core/resilience.py:282-290 | At exit only a probe changes the breaker, and only its flag. |
| Resilience.AttemptsShape | src/assistant/core/resilience.py:586-591 | Every attempt before the last wanted a retry, and a last attempt that still wants one is at the limit. |
| Resilience.RetryStopsExactly | src/assistant/core/resilience.py:567-591 | The loop makes k attempts if and only if the first k-1 may be retried and the k-th may not or is the limit. |
| Resilience.NestedRejectionCountsOnce | src/assistant/core/resilience.py:463-496 | Hitting another open breaker is never retried, yet counts as a failure here, under every policy. |
| Resilience.RunWithRetry | src/assistant/core/resilience.py:557-647 | Returns the outcome of exactly the attempt the loop stops at and makes the one breaker update it calls for. |
| Resilience.GuardedCall | src/assistant/core/resilience.py:526-552 | A whole guarded call: rejected calls run nothing and change nothing; others end as the retry loop does. |
| Resilience.GuardedExactly | src/assistant/core/resilience.py:526-647 | The breaker after a whole call from any state: unchanged if rejected, fresh after a result, one failure more and open if it was a probe or reached the threshold, and otherwise only the probe flag cleared. |
| Resilience.ProbeWedgesExactly | src/assistant/core/resilience.py:273-290 | A lone probe leaves the breaker half-open, rejecting every later caller, exactly when it ends in a fault that says nothing about availability. |
| BreakerRuns.StepKeepsInv | src/assistant/core/resilience.py:205-307 | Every step of the shared breaker keeps the state and log invariants. |
| BreakerRuns.StepsMakeTheCall | src/assistant/core/resilience.py:526-552 | Arrival, time, report and exit of one caller with nothing in between are one guarded call. |
| BreakerRuns.EveryRun | src/assistant/core/resilience.py:205-307 | Over every interleaving: closed iff the counter is below the threshold iff both timestamps are unset; the counter is the failure streak since the last success; one admission per half-open epoch, none while open; admissions after the opening are a cooldown apart. |
| BreakerRuns.LoadBound | src/assistant/core/resilience.py:248-281 | From the opening until the next success at most floor(T / cooldown) admissions in the first T seconds, and at most one more in any window of T seconds. |
| BreakerRuns.AnyWindowNeedsOneMore | src/assistant/core/resilience.py:248-281 | A concrete run in which the extra one is needed. |
| BreakerRuns.WorkAgainstDeadBackend | src/assistant/core/resilience.py:557-647 | Sequential callers of an always-failing backend, starting closed, execute it at most max_attempts * (threshold + floor(T / cooldown)) times in T seconds. |
| BreakerRuns.WedgeIsAbsorbing | src/assistant/core/resilience.py:273-290 | Half-open with nobody left to report stays so over every continuation and rejects every call at every time. |
| BreakerRuns.RecoverableUnlessWedged | src/assistant/core/resilience.py:248-290 | From a state, some continuation closes the breaker if and only if it is not wedged. |
| BreakerRuns.RecoversIfProbesReport | src/assistant/core/resilience.py:248-290 | If every admitted probe records a success or a failure before it leaves, then from every state any run of a fresh breaker reaches some continuation closes it. |
| BreakerRuns.ProbeExitWedges | src/assistant/core/resilience.py:282-290 | A concrete run into the wedge, with the probe flag cleared. |
| BreakerRuns.SecondProbeExactly | src/assistant/core/resilience.py:210-280 | For every threshold and cooldown: some run in which a running probe stays ends with a later-admitted probe beside it if and only if another admitted caller has still to report. |
| BreakerRuns.TwoProbesReached | src/assistant/core/resilience.py:210-221 | A concrete run of a fresh breaker that ends with two probes running. |
| DelegationChain.NestedDelegationIsBounded | src/assistant/delegation/spawner.py:343-398 | Chain depth never exceeds a nonzero ceiling; without recursion opt-ins all roles on the chain differ and depth is at most the number of available roles other than the root. |
| DelegationChain.DescendsExactly | src/assistant/delegation/spawner.py:336-405 | Nested delegation goes through if and only if every hop goes to a role that the role above lists, that is available and permitted, within the depth ceiling, and repeats no role above it unless the delegating role opts in; the identity then carries the roles of the path. |
| DelegationChain.DenialExactly | src/assistant/delegation/spawner.py:336-405 | A descent ends in a refusal if and only if that is the first check failed by the first hop that does not pass. |
| DelegationChain.DescentShape | src/assistant/delegation/spawner.py:350-364 | The chain lists the delegating roles in order, every role below the root is available, and without opt-ins all are distinct. |
| SpawnerRuns.DelegationSpawner.EnterBody | src/assistant/delegation/spawner.py:343-414 | From the semaphore to the first await: a rejected call fails with its own error, one at the ceiling with the ceiling error, any other goes on; nothing is counted yet. |
| SpawnerRuns.DelegationSpawner.BeginBody | src/assistant/delegation/spawner.py:426-437 | Registers one live record and counts one. |
| SpawnerRuns.DelegationSpawner.BodyReturned | src/assistant/delegation/spawner.py:451-453 | Sets the status before the outcome summary is awaited; the body stays counted. |
| SpawnerRuns.DelegationSpawner.BodyRaised | src/assistant/delegation/spawner.py:447-459 | Marks the record failed, stamps it, counts one down and trims. |
| SpawnerRuns.DelegationSpawner.BodyRecorded | src/assistant/delegation/spawner.py:453-459 | Stamps the record, counts one down and trims. |
| SpawnerRuns.DelegationSpawner.BodyCancelled | src/assistant/delegation/spawner.py:444-459 | The same three ways out for a cancellation, by where it strikes. |
| SpawnerRuns.DelegationSpawner.TrimRecords | src/assistant/delegation/spawner.py:631-641 | Evicts finished records, oldest first, until at most the cap is left. |
| SpawnerState.TrimIsExact | src/assistant/delegation/spawner.py:633-641 | Trimming keeps every live record in order and leaves exactly min(finished, cap) finished ones. |
| SpawnerState.TrimEvictsOldest | src/assistant/delegation/spawner.py:639-641 | Whatever is evicted was finished and started no later than any finished record that stays. |
| SpawnerRuns.ParallelStaysWithinCeiling | src/assistant/delegation/spawner.py:482-533 | In every interleaving of a fan-out on an idle spawner, whatever its sub-agents raise, the counter equals the bodies between increment and decrement, stays within min(role limit, max(1, argument)) and returns to zero, and the ceiling check never fails when the role limit is at least one. |
| SpawnerRuns.ParallelTripsExactly | src/assistant/delegation/spawner.py:407-414 | Some interleaving of a fan-out fails the ceiling check exactly when the role limit is below one. |
| SpawnerRuns.FanOutEnds | src/assistant/delegation/spawner.py:488-503 | Of n calls, in every interleaving, at most 4n steps change anything. |
| SpawnerRuns.StepsUseWork | src/assistant/delegation/spawner.py:488-503 | Every step of a fan-out uses up work. |
| SpawnerRuns.NoDeadlock | src/assistant/delegation/spawner.py:491-499 | While a call is unfinished some step other than a cancellation is possible: queued calls wait but do not hang. |
| SpawnerRuns.DirectExceedsExactly | src/assistant/delegation/spawner.py:407-437 | n direct calls can push the counter above the role limit exactly when the limit lets anyone in and n is above it. |
| SpawnerRuns.RegistryIsBounded | src/assistant/delegation/spawner.py:426-459 | In every interleaving the registry holds at most 256 records more than bodies are counted, and a running body never loses its record. |
| SpawnerRuns.RecordsMove | src/assistant/delegation/spawner.py:426-459 | What each step adds to, marks in and evicts from the registry. |
| SpawnerRuns.RefusedStaysRefused | src/assistant/delegation/spawner.py:336-415 | A call refused at its checks ends with that refusal over every continuation and touches no record and no counter. |
| SpawnerRuns.OnlyPermittedRuns | src/assistant/delegation/spawner.py:336-460 | Over every interleaving only a call that entered without a refusal runs its sub-agent or ends as a success. |
| SpawnerRuns.CountedBodyLosesRecordExactly | src/assistant/delegation/spawner.py:451-459 | Some interleaving of n calls on a fresh spawner leaves a body that is still counted without its record if and only if n exceeds the cap of 256 and at least two can run at a time. |
| SpawnerRuns.Collect | src/assistant/delegation/spawner.py:504-533 | One marker per input, in input order, each with its own role, task and outcome. Its status says whether it succeeded, failed or was cancelled, with the result or the error that goes with it. |
| SpawnerRuns.SuccessIsOwnResult | src/assistant/delegation/spawner.py:493-503 | A success marker carries the text the call's own sub-agent returned. |
| Approvals.LazyRefinesEager | src/assistant/core/durable.py:398-407 | Over every sequence of create, get, list, find, decide, consume and clock ticks the store answers exactly like one whose rows expire on their own at `expires_at`, although consume never sweeps. |
| Approvals.StepRefines | src/assistant/core/durable.py:469-579 | One operation gives equal answers and keeps the two stores coupled. |
| Approvals.RunMoves | src/assistant/core/durable.py:527-579 | Along every run a status only moves from pending to approved, denied or expired, and from approved or denied to consumed; the first decision and its author stand. |
| Approvals.AtMostOnce | src/assistant/core/durable.py:535-579 | With atomic transactions each id is decided at most once and consumed at most once over every run. |
| ApprovalHistory.AnswersOverHistory | src/assistant/core/durable.py:435-579 | Over every run of an empty store, what get, decide and consume answer is told by the operations alone: the row first created, the first decision while it was pending and in time with its author, justification and time, the first consumption after it, and expiry from `expires_at` on. |
| ApprovalHistory.DecidedAsAsked | src/assistant/core/durable.py:551-560 | A row reads as approved only if it was created so or a decision accepted earlier approved it, as denied only if one denied it, and bears that decision's author, justification and time. |
| ApprovalHistory.ListOverHistory | src/assistant/core/durable.py:479-492 | Over every run a listing holds each matching request once, as the operations tell it, in order of creation. |
| Approvals.ListExactly | src/assistant/core/durable.py:484-492 | A listing holds exactly the persona's rows of the asked status, each as often as stored, in order of creation. |
| Approvals.FindIsEarliest | src/assistant/core/durable.py:503-513 | Whenever a row matches, a find answers, with a row created no later. |
| Approvals.FindMatches | src/assistant/core/durable.py:503-513 | What a find answers with is a stored row that matches. |
| Approvals.ApprovalStore.ExpireLapsed | src/assistant/core/durable.py:398-407 | The sweep expires exactly the pending rows whose time has come. |
| Approvals.ApprovalStore.Insert | src/assistant/core/durable.py:435-467 | Adds the request; a known id is an error that changes nothing. |
| Approvals.ApprovalStore.Lookup | src/assistant/core/durable.py:469-477 | Sweeps, then returns the row. |
| Approvals.ApprovalStore.List | src/assistant/core/durable.py:479-492 | Sweeps, then lists a persona's rows by creation time, of one status if asked. |
| Approvals.ApprovalStore.FindFirst | src/assistant/core/durable.py:494-525 | Sweeps, then returns the earliest matching row with one of the statuses. |
| Approvals.ApprovalStore.Resolve | src/assistant/core/durable.py:527-567 | Decides a pending row; an unknown or settled one is an error that rolls the sweep back. |
| Approvals.ApprovalStore.TakeOnce | src/assistant/core/durable.py:569-579 | Consumes an approved or denied row and says whether it did. |
| ApprovalStatements.ConsumptionsBounded | src/assistant/core/durable.py:535-579 | With each SQL statement its own step, every consumption after the first is paid for by a decision written over a row no longer pending. |
| ApprovalStatements.ConsumedOnceIffOneDecider | src/assistant/core/durable.py:535-579 | As written, a row is consumed at most once in every interleaving of statements if and only if at most one decision reads it. |
| ApprovalStatements.ConsumptionsWithinDeciders | src/assistant/core/durable.py:535-579 | As written, no interleaving consumes a row more often than there are decisions that read it. |
| ApprovalStatements.OneProceedIffAlone | src/assistant/core/capabilities/approvals.py:360-366 | As written, at most one operation proceeds on an approval in every interleaving if and only if deciders times consulting callers is at most one. |
| ApprovalStatements.ConsumedOnceIffGuarded | src/assistant/core/durable.py:551-560 | With any number of deciders, at most one consumption over every interleaving if and only if the decision UPDATE tests the status, which it does not. |
| ApprovalStatements.TwiceNeedsStaleDecision | src/assistant/core/durable.py:546-560 | Two consumptions need an unguarded decision that read the row too early. |
| ApprovalStatements.OneProceedIffChecked | src/assistant/core/capabilities/approvals.py:360-366 | With any number of deciders and callers, at most one operation proceeds if and only if the decision UPDATE tests the status and the caller heeds what consume answers. |
| ApprovalStatements.UndisturbedIsExactlyOnce | src/assistant/core/durable.py:569-579 | Statements of one decision that no other decider overlaps consume at most once even as written. |
| ApprovalStatements.LapsedIsDeadExactly | src/assistant/core/durable.py:398-407 | A pending row that lapses is never consumed afterwards, over every interleaving, if and only if the decision UPDATE tests the status or no decision read the row before. |
| SessionRuns.SweepingIsTimerExactly | src/assistant/harnesses/sessions.py:159-282 | With create and resolve split at their awaits, over every run: all answers but those of expire are those of an idle timer, if and only if no create ends with the id of a session that went idle, unswept, while its factory was awaited. |
| SessionRuns.LookupOverHistory | src/assistant/harnesses/sessions.py:182-194 | Over every run of a fresh registry lookup answers if and only if the thread's last create or re-bind was not released since and no two requests for it, nor the last one and this, are further apart than the TTL. |
| SessionRuns.StaysDeadExactly | src/assistant/harnesses/sessions.py:224-258 | A record that is marked expired or past its window is never revived without a create of its id, over every run, if and only if no resolve of it is waiting at the rebind await. |
| SessionRuns.DeadResolvesToNothing | src/assistant/harnesses/sessions.py:209-237 | While it stays dead it resolves to nothing, after every run. |
| SessionRuns.LapsedRecordRevived | src/assistant/harnesses/sessions.py:226-258 | The run in which a resolve that decided in time revives a record another resolve has marked expired. |
| SessionRuns.ReplacesIffOverlapped | src/assistant/harnesses/sessions.py:242-258 | Between its two halves anything may run: the end of a resolve replaces a registered session with another one if and only if some create or resolve of the thread handed one out meanwhile and nothing released it since. |
| SessionRuns.ForeignRoleNeverContinued | src/assistant/harnesses/sessions.py:238-241 | Over every run, whatever rows other roles left, every registered thread and every one waiting to be re-bound has a row of the registry's own role. |
| SessionRuns.HalvesMakeTheCall | src/assistant/harnesses/sessions.py:159-260 | With nothing between its halves a call is one step. |
| SessionRuns.ExpireAnswerExactly | src/assistant/harnesses/sessions.py:262-269 | The answer of expire differs from the timer's exactly for a session that is idle and unswept. |
| SessionRuns.ExpireOverHistory | src/assistant/harnesses/sessions.py:262-269 | Over every run expire answers True if and only if the thread was handed out and nothing released it since; a second one answers False. |
| SessionRuns.EndsOnce | src/assistant/harnesses/sessions.py:159-260 | A call that has ended cannot end again. |
| RebindHistory.RebindOverHistory | src/assistant/harnesses/sessions.py:109-149 | Over every run with a session TTL: a resolve goes on to re-bind a thread if and only if it is not alive, it was used in the run or its row was fit from the start, less than a session TTL has passed since its last create, successful lookup or resolve, or re-bind, and no resolve came too late since its last create. |
| RebindHistory.CreatedWithoutTtl | src/assistant/harnesses/sessions.py:115-125 | Without a session TTL a thread created in the run can be re-bound whenever it is not alive. |
| RebindHistory.InMemoryNeverRebinds | src/assistant/harnesses/sessions.py:212-213 | Without a store or a rebind factory no resolve ever re-binds, and without a store no row is written. |
| Sessions.LookupExactly | src/assistant/harnesses/sessions.py:182-194 | Lookup returns, and renews, exactly a registered session used within the TTL. |
| Sessions.CreateNeverOverwrites | src/assistant/harnesses/sessions.py:162-180 | However long the factory took, create leaves every registered entry as it is and refuses a taken id. |
| Sessions.CreateAnswersExactly | src/assistant/harnesses/sessions.py:163-180 | An empty id and a registered one are refused, each as such; any other is registered as a new session born now. |
| Sessions.ResolveAnswersExactly | src/assistant/harnesses/sessions.py:243-260 | After a re-bind another id is refused without a change, and the asked one handed out as a new session born now. |
| Sessions.RebindWindowExactly | src/assistant/harnesses/sessions.py:145-149 | A session used at t and then released can be re-bound exactly until t plus the session TTL. |
| Sessions.OverlappingResolvesSplit | src/assistant/harnesses/sessions.py:242-260 | Two resolves overlapping at the await return two different sessions for one thread. |
| Sessions.SessionRegistry.ExpireIdle | src/assistant/harnesses/sessions.py:271-282 | Removes exactly the sessions idle longer than the TTL and names them. |
| Sessions.SessionRegistry.CompleteCreate | src/assistant/harnesses/sessions.py:163-180 | Create after the factory's await: registers a new session and its durable row, or refuses an empty or taken id. |
| Sessions.SessionRegistry.LookupSession | src/assistant/harnesses/sessions.py:182-194 | Sweeps, finds, renews, and slides the durable window. |
| Sessions.SessionRegistry.DecideResolve | src/assistant/harnesses/sessions.py:209-241 | Resolve up to the rebind await: the live session, or whether the durable row can be re-bound; a lapsed row is marked expired. |
| Sessions.SessionRegistry.CompleteResolve | src/assistant/harnesses/sessions.py:243-260 | Resolve after the await: refuses another id, otherwise installs a session without a second look at the map. |
| Sessions.SessionRegistry.ExpireSession | src/assistant/harnesses/sessions.py:262-269 | Releases the session and leaves the durable row. |
| GraphSend.SendWithAuthRetry | src/assistant/core/graph_client.py:552-713 | At most two sends; a second one only after a stale token, with the fresh token; and the outcome for every combination of replies. |
| GraphSend.OutcomeIsLastReply | src/assistant/core/graph_client.py:552-713 | For every exchange: two requests exactly after a stale token that was refreshed; a body is that of the reply to the last request; a fault is the token's, the transport's, the last status, or the authentication error exactly for a 401 that stays. |
| GraphSend.SendsAreCounted | src/assistant/core/graph_client.py:552-713 | The sends of n attempts are the attempts that got a token plus those that refreshed it. |
| GraphSend.RetryingCall | src/assistant/core/graph_client.py:782-850 | At most two sends per attempt; the outcome, the sends and the one breaker update are those of the attempt the retry loop stops at; none when rejected. |
| GraphSend.PostNoRetry | src/assistant/core/graph_client.py:852-907 | At most two sends, a second only after a stale token, one breaker update, and the probe released. |
| GraphSend.AccountingDiffersExactly | src/assistant/core/graph_client.py:872-883 | The two breaker accountings differ exactly for the transport errors the retry policy does not list. |
| GraphSend.ErrorReturnedExactly | src/assistant/core/graph_client.py:664-669 | An error answer is handed back as a result exactly after a refresh whose second answer is an error other than 401, and it counts as a success. |
| GraphSend.NoRetryProbeWedgesExactly | src/assistant/core/graph_client.py:868-893 | A probe sent without retries leaves the breaker half-open, rejecting every later caller, exactly for the exchanges listed: an error status outside the seven, a 401 no fresh token mends, or a fault that is no transport error. |
| GraphPages.Paginate | src/assistant/core/graph_client.py:928-973 | Ends on every link chain, cyclic ones included; yields its first pages in order up to the ceiling; raises the ceiling error exactly when the chain is longer and all links up to there are trusted; every URL after the first is https on a trusted host. |
| GraphPages.AtStop | src/assistant/core/graph_client.py:963-971 | When a fetch leads nowhere the chain fits the ceiling exactly if that page was its last. |
| GraphPages.AtUntrusted | src/assistant/core/graph_client.py:484-503 | An untrusted link within the ceiling means neither the ceiling error nor completion. |
| GraphPages.TrustedExactly | src/assistant/core/graph_client.py:484-503 | A link is followed exactly if it is https and its host is a trusted one up to the case of its letters. |
| GraphPages.ChainIsLinked | src/assistant/core/graph_client.py:958-973 | What is fetched is the first URL and then each page's own link. |
| GraphDownload.BearerStopsAtRedirect | src/assistant/core/graph_client.py:1174-1232 | A request carries the bearer token exactly if no redirect came before it, and then goes to the original URL. |
| GraphDownload.Downloader.StreamBody | src/assistant/core/graph_client.py:1262-1319 | Writes the body to the file up to its end, or stops at the first chunk beyond the limit and removes the file. |
| GraphDownload.Downloader.Fetch | src/assistant/core/graph_client.py:1096-1254 | At most three requests, a second only after a stale token or an https redirect, a third only after both, in that order; ends with the answer to read or the fault to raise. |
| GraphDownload.HopsExactly | src/assistant/core/graph_client.py:1117-1233 | One request, one more for a stale token that is refreshed, and one more for the first 302 or 307 to an https URL. |
| GraphDownload.AttemptAtLastStream | src/assistant/core/graph_client.py:1044-1319 | What an attempt comes to: the token's fault, the fault or the status of the last request, a size error for a body that outgrew the limit, the fault that broke it off, or all its bytes. |
| GraphDownload.Downloader.GetBytesInner | src/assistant/core/graph_client.py:1035-1365 | On success one new file holds the whole last body and its length is the reported size, within the limit; on a caught fault no file remains; after a cancellation one does exactly if the token had been obtained. |
| GraphDownload.Downloader.CleanUp | src/assistant/core/graph_client.py:1321-1365 | Which faults remove the temporary file. |
| GraphDownload.Downloader.Attempted | src/assistant/core/graph_client.py:1000-1033 | Across all retries exactly one file survives a success and none a caught fault. |
| GraphDownload.Downloader.GetBytes | src/assistant/core/graph_client.py:1000-1033 | Behind the breaker: the result is that of the attempt the retry policy stops at, with the one breaker update, at most three requests an attempt, and files as above. |
| PercentEncoding.QuoteRoundTrip | src/assistant/http_tools/builder.py:227 | Decoding an encoded value gives back its bytes (sections 2.1 and 2.3 of RFC 3986). |
| PercentEncoding.QuoteIsEncoded | src/assistant/http_tools/builder.py:227 | An encoded value has only unreserved characters and percent signs, so neither brace nor slash. |
| PercentEncoding.UnreservedCodes | src/assistant/http_tools/builder.py:227 | The characters left as they are are the unreserved ones (section 2.3 of RFC 3986), by their codes. |
| PathTemplate.FillPath | src/assistant/http_tools/builder.py:222-230 | The substitution loop replaces name after name, or names a missing argument. |
| PathTemplate.ReplaceIsFill | src/assistant/http_tools/builder.py:228-230 | Replacing the text `{name}` everywhere is filling that one placeholder. |
| PathTemplate.FillInOrderIsFill | src/assistant/http_tools/builder.py:222-230 | In any order, filling one by one equals filling all at once unless a piece of the template composes one of the names from the others. |
| PathTemplate.FillingIsSimultaneous | src/assistant/http_tools/builder.py:222-230 | For a template without nested placeholders the path is the simultaneous substitution. |
| PathTemplate.OrderIrrelevantIffNotNested | src/assistant/http_tools/builder.py:222-230 | The iteration order of the parameter set is invisible for all arguments if and only if no bracketed piece of the template holds further placeholders. |
| PathTemplate.NestedExample | src/assistant/http_tools/builder.py:222-230 | A template and arguments for which two orders give two paths. |
| PathTemplate.SegmentsKeptExactly | src/assistant/http_tools/builder.py:227-230 | The filled path has the template's number of slashes exactly when no filled name contains one. |
| PathTemplate.SegmentsKeptInOrder | src/assistant/http_tools/builder.py:222-230 | With slash-free names the number of segments is kept in every order and for every template. |
| ResponseBody.ReadBodyWithSizeCap | src/assistant/http_tools/builder.py:178-194 | Returns the whole body exactly when it is within 10 MiB, and otherwise stops at the first chunk that exceeds it. |
| CleanRoom.PrefixHitsExactly | src/assistant/core/cleanroom.py:866-867 | Which imported keys a purge prefix hits, for all ids. |
| CleanRoom.OwnKeysOnly | src/assistant/core/cleanroom.py:866-867 | For ids without slashes: its own keys and no other's. |
| CleanRoom.ImportIsExact | src/assistant/core/cleanroom.py:995-1016 | An import leaves under each own key the last item with that id and every other key as it was. |
| CleanRoom.AcceptedExactly | src/assistant/core/cleanroom.py:991-998 | The accepted items are exactly those of the rule's kinds, each as often as listed. |
| CleanRoom.PurgeUndoesImport | src/assistant/core/cleanroom.py:1129-1133 | A purge takes back all an import brought in and nothing more. |
| CleanRoom.FactTable.DeleteFactsByPrefix | src/assistant/core/memory.py:325-348 | Removes exactly the keys with the prefix, counts them, and refuses an empty prefix. |
| CleanRoom.FactTable.AcceptRuleFor | src/assistant/core/cleanroom.py:878-885 | The first rule that matches the source, none exactly if none does. |
| CleanRoom.FactTable.ImportShared | src/assistant/core/cleanroom.py:941-1035 | The checks in order, each refusal leaving the facts alone; otherwise exactly the accepted items are stored and the rest counted as skipped. |
| CleanRoom.AdmissionExactly | src/assistant/core/cleanroom.py:911-990 | A bundle is admitted, under the first rule that names its source, exactly if it is not revoked, addressed to the persona, of an accepted profile and allowed; otherwise the refusal is that of the first check that fails, a persona without share and accept rules failing the first. |
| CleanRoom.FactTable.PurgeRevoked | src/assistant/core/cleanroom.py:1120-1145 | Removes exactly the keys of all recorded bundles and returns how many went. |
| CleanRoomRuns.RevocationIsPermanent | src/assistant/core/cleanroom.py:1087-1145 | Once a purge that began after the revocation and after the last earlier-checked import finished works off its list, no key of the bundle exists and none ever reappears, whatever runs meanwhile and later. |
| CleanRoomRuns.NeverReturnsExactly | src/assistant/core/cleanroom.py:942-1016 | A bundle that is gone can never come back if and only if it is revoked and no import of it has items left to store. |
| CleanRoomRuns.PurgeLeavesOthers | src/assistant/core/cleanroom.py:1129-1133 | Purging one bundle changes no key of another and nothing outside the import prefix. |
| CleanRoomRuns.OnlyTheSourceRevokes | src/assistant/core/cleanroom.py:1068-1091 | Over every run a revocation record names the persona that exported the bundle. |
| CleanRoomRuns.RevokedOverHistory | src/assistant/core/cleanroom.py:1045-1091 | Over every run from an empty space: a bundle is revoked exactly if its exporter revoked it after exporting it, or exported it to "revocations"; it can be found exactly if exported to any other audience. |
| CleanRoomRuns.ExportReachesAudienceExactly | src/assistant/core/cleanroom.py:525-545 | A fresh export is revoked at birth and unfindable exactly for the audience "revocations". |
| CleanRoomRuns.StoresAreTheImport | src/assistant/core/cleanroom.py:995-1016 | The store steps of an undisturbed import are the import. |
| CleanRoomRuns.DeletionsAreThePurge | src/assistant/core/cleanroom.py:1129-1133 | The delete steps of an undisturbed purge, in any order, are the purge. |
| CleanRoomRuns.WholePurge | src/assistant/core/cleanroom.py:1120-1145 | A purge begins with exactly the bundles revoked then; worked off undisturbed in any order it empties its list and leaves no key of any of them. |
| Learning.FindUntil | src/assistant/core/learning.py:787-793 | The watermark the first watermark fact in the list holds. |
| Learning.DropConsolidated | src/assistant/core/learning.py:795-801 | Keeps the rows the watermark does not cover. |
| Learning.FindNewest | src/assistant/core/learning.py:844-846 | The newest date among the rows, none if none is dated. |
| Learning.FreshExactly | src/assistant/core/learning.py:797-801 | A row is kept exactly if there is no watermark, it is undated, or it is newer. |
| Learning.MemoryStore.RunReflection | src/assistant/core/learning.py:787-852 | One pass over facts, rows and consolidated rows. |
| Learning.PassTakesUnseen | src/assistant/core/learning.py:795-852 | A pass takes exactly the unseen rows within its limit, newest first, and moves the watermark to the newest row. |
| Learning.EveryRowOnceWithinLimits | src/assistant/core/learning.py:787-852 | Over every run with rows dated in increasing order and the watermark in sight, no row is consolidated twice, and all rows up to the watermark are consolidated if and only if no pass found more waiting rows than it reads. |
| Learning.WatermarkNeverDecreases | src/assistant/core/learning.py:844-852 | The watermark only moves forward. |
| Learning.PassMovesWatermark | src/assistant/core/learning.py:844-852 | For every memory, one pass leaves the watermark at the newest date among the rows it took, and where it was if none is dated. |
| Learning.UpsertExactly | src/assistant/core/memory.py:145-160 | Storing a fact puts it first and replaces what its key held; no other fact goes. |
| Learning.RunKeepsOnePerKey | src/assistant/core/memory.py:145-160 | Over every run there is one fact per key, so one watermark. |
| Learning.InSightExactly | src/assistant/core/learning.py:787-793 | A watermark that was written stays in sight of a pass until 200 facts of different names have been written since; from then on a pass reads as if there had never been one. |
| Learning.HiddenWatermarkRepeats | src/assistant/core/learning.py:788-801 | A pass that cannot see the watermark consolidates the last consolidated row again exactly when it reads past the waiting ones. |
| Learning.RowTakenExactly | src/assistant/core/learning.py:787-852 | With rows in any order of dates: a row is ever consolidated if and only if it is newer than the watermark when it becomes visible and the first later pass that reads anything lists it. |
| Learning.ReadingPassSettles | src/assistant/core/learning.py:795-852 | A pass takes a stored row exactly if it lists it and it is new, and leaves it behind the watermark either way. |
| CalendarTriggers.AssistantScheduler.CalendarCycle | src/assistant/core/scheduler.py:612-637 | One poll fires exactly the listed, due and not yet fired events, in order; a failed poll fires none. |
| CalendarTriggers.FiresExactly | src/assistant/core/scheduler.py:624-629 | Over every interleaving of polls a job runs at most once per event, and runs if and only if some poll saw the event in its window. |
| CalendarTriggers.CoveredFiresOnce | src/assistant/core/scheduler.py:624-637 | Polls that return the event at most a window apart fire its job exactly once. |
| TaskArtifacts.Task.ApplyEvent | src/assistant/a2a/task_handler.py:76-95 | The new status and artifact list after one event. |
| TaskArtifacts.Task.ApplyStream | src/assistant/a2a/task_handler.py:174-178 | The task after a whole stream is the fold of its events. |
| TaskArtifacts.StatusIsLastTold | src/assistant/a2a/task_handler.py:76-78 | The task is in the last state the stream told, or as before if it told none. |
| TaskArtifacts.StartIsLastStart | src/assistant/a2a/task_handler.py:89-92 | Which event started an artifact over last, characterised without the fold. |
| TaskArtifacts.TaskTellsTheStream | src/assistant/a2a/task_handler.py:76-95 | For every stream: one artifact per id ever named, each holding exactly the parts sent since it was last started over, in the order of those starts. |

## Left out

- Command line, web, MCP and A2A servers, agent cards, simulation, migrations, persona and role parsers: plumbing around what is modelled.
- Telemetry, audit records and logging never change an outcome; error texts and their sanitizing, `last_error` included, are not kept.
- Backoff delays, jitter and Retry-After waits: how long a retry waits is not modelled, only whether it happens.
- Exception classes are names: a policy lists the classes it covers, so inheritance among them is written out as a set. `CircuitBreakerRegistry` (one breaker per key) is left out.
- Clock readings are parameters and do not go back within a run; monotonic and wall clock are one clock. Concurrency is interleaving at awaits, locks and SQL statements.
- Model calls, token acquisition, network, files, SQL engines and the guardrail provider appear as what they answer.
- `~0` and `~1` escapes and array indices in reference pointers: the code does not implement them, so neither does the model. `parse_operations` (sorting, skipping an operation that fails) and the request-body schema use the same expansion and add nothing hard.
- The semaphore's first-come order: the fan-out lets any queued call enter when a permit is free. `cancel` is the cancellation step of the fan-out; `delegate_auto` and `analytics` are left out.
- SpawnerRuns.DelegationSpawner.TrimRecords: evicts by repeatedly taking the oldest finished record, which is the front of the stable sort the code slices.
- Store failures that the session registry swallows, the in-memory twins of the stores, and aliasing of Session objects (an in-process session is a value with a serial number; its lock goes with it).
- Sessions.SessionRegistry.CreateSession: the call when nothing runs during the factory's await; its two halves are `ExpireIdle` and `CompleteCreate`.
- Sessions.SessionRegistry.ResolveSession: the call when nothing runs during the rebind await; its two halves are `DecideResolve` and `CompleteResolve`.
- SessionRuns.ForeignRoleNeverContinued: other roles' registries write their rows before the run; one that recorded the same thread id during it is not modelled.
- Rows with equal creation times: the database lists them in some order; the model picks insertion order for approvals and the last arrival first for interactions.
- GraphPages.TrustedExactly: letters of hosts are lower-cased in ASCII only.
- Request headers other than the bearer token, query parameters, bodies and JSON decoding of responses.
- GraphDownload.Downloader.Fetch: the request loop as a method of its own; removing a temporary file is taken to succeed.
- UTF-8 encoding and argument validation come before the builder's loop: arguments are bytes. Parameter names with braces are outside the template theorems.
- Export collection, redaction profiles, content and bundle hashes, and glob matching of the clean room: a bundle arrives verified and an accept rule is the set of names it matches.
- CleanRoomRuns.RevocationIsPermanent: bundle ids have no slash, as generated ids have none; other writers do not use the import prefix.
- Feedback collection, proposals and their gates: single-branch rules.
- Learning.EveryRowOnceWithinLimits: passes complete and do not overlap, and dates are compared as instants of one offset.
- Cron and interval triggers; a calendar event is fired at most once per scheduler instance, since what was fired is kept in memory only.
- The mapper from harness events to stream events, and the synthesized failure event that closes a broken stream.
