# Alarm lists of `alarm_cond.c`, modelled in Dafny

`alarm_cond.c` is a threaded alarm program. Its threads share three singly linked lists:

- the **alarm list** (`alarm_list`), kept in ascending message-number order;
- the **thread list** (`thread_list`), holding one record per message type for which a periodic display worker was requested;
- the **removal list** (`removal_list`), holding the message numbers whose cancellation is pending.

A coordinator thread (`alarm_thread`) runs the same iteration over and over. It sweeps out alarms marked done, prunes thread records whose type has no live alarm, starts a display worker for each new record, and applies the queued cancellations. Each display worker marks the expired alarms of its type as done. `main` registers types and queues cancellations only after checking guards.

This model treats each semaphore-bracketed operation as atomic, so everything left is sequential:

- `Seqs` holds generic helpers: order-preserving `Filter`, `RemoveFirst` and their lemmas.
- `AlarmList`, `ThreadList` and `RemovalList` hold one record type per list, the functions that say what each list operation produces, and lemmas stating what those operations promise.
- `Coordinator` holds the iteration of `alarm_thread` and the guards of `main`, as pure steps over a `State` of the three lists.
- `Store` holds the class `AlarmStore`. Its three fields are the three lists. Its methods walk and update the lists with loops, just as the C functions walk the linked lists, and each method is proved against the matching function.

## Model

| member | source | states |
|---|---|---|
| AlarmList.InsertKeepsSorted | assign3/alarm_cond.c:175-206 | inserting into a strictly ascending list keeps it strictly ascending |
| AlarmList.InsertUnique | assign3/alarm_cond.c:178-206 | after insertion into an ascending list, exactly one entry has the new number, and it is the new alarm |
| AlarmList.InsertLength | assign3/alarm_cond.c:178-206 | if the number was already present, the length is unchanged (replace); otherwise it grows by one |
| AlarmList.InsertKeepsOthers | assign3/alarm_cond.c:178-206 | entries with other numbers are neither added, lost nor reordered, for any list |
| AlarmList.InsertReplaces | assign3/alarm_cond.c:183-193 | a second submission with the same number leaves the list as if only the second had been made; submitting the same alarm twice equals submitting it once |
| AlarmList.RemoveNumberProperties | assign3/alarm_cond.c:221-248 | after removal no entry has the number; an entry survives iff its number differs; ascending order is kept; a second removal and removal of an absent number change nothing |
| AlarmList.CountLiveMeaning | assign3/alarm_cond.c:254-288 | the mode-0 count is positive iff a live alarm of the type exists; the mode-1 count is positive iff a live alarm with the number exists; on an ascending list the mode-1 count is at most 1 |
| AlarmList.FirstDone | assign3/alarm_cond.c:425-430 | the search finds nothing iff no alarm is done; what it finds is the number of a done alarm |
| AlarmList.SweepIsFilter | assign3/alarm_cond.c:418-436 | the repeated find-and-remove sweep equals one order-preserving filter: it drops exactly the alarms whose number belongs to a done alarm |
| AlarmList.SweepProperties | assign3/alarm_cond.c:418-436 | after the sweep no alarm is done; an alarm survives iff no done alarm shares its number; on an ascending list every alarm that was not done survives and the list stays ascending |
| AlarmList.SentinelStopsSweep | assign3/alarm_cond.c:422-434 | as written, the sweep leaves a list of two done alarms, numbered -1 and 2, unchanged; the intended sweep empties it |
| AlarmList.MarkExpiredProperties | assign3/alarm_cond.c:355-368 | the worker's pass sets the done flag of exactly the live alarms of its type whose time has passed, and of no other alarm; numbers, order and other types are kept; afterwards no live alarm of the type is past its time; the live alarms of the type, in list order, are exactly the ones displayed |
| ThreadList.RemoveTypeProperties | assign3/alarm_cond.c:144-166 | removing a present type drops exactly one record of that type and shortens the list by one; the records of all other types stay, in their relative order; removing an absent type changes nothing |
| ThreadList.PruneRound | assign3/alarm_cond.c:442-455 | each round unlinks a record whose type has no live alarm; this shortens the list (so the loop terminates) and does not change the final pruned list |
| ThreadList.PrunedProperties | assign3/alarm_cond.c:438-456 | after pruning, each record's type has a live alarm; a record is kept iff its type has a live alarm |
| ThreadList.PrunedKeepsUnique | assign3/alarm_cond.c:438-456 | pruning keeps the list at one record per type |
| ThreadList.LaunchProperties | assign3/alarm_cond.c:477-488 | a worker is started for a type iff some record of it was not yet created, once per such record; afterwards all records are created, with types and length unchanged, and a second pass starts nothing |
| RemovalList.RemoveRequestProperties | assign3/alarm_cond.c:557-578 | exactly one copy of a queued number is removed and other entries keep their order; on a duplicate-free queue the number is then gone; an absent number changes nothing |
| RemovalList.AppendKeepsNoDuplicates | assign3/alarm_cond.c:535-554 | appending a number that is not yet queued keeps the queue free of duplicates |
| RemovalList.CancelledIsFilter | assign3/alarm_cond.c:458-469 | applying the queue entry by entry equals one order-preserving filter that drops every alarm whose number is queued |
| RemovalList.CancelledProperties | assign3/alarm_cond.c:458-469 | after the queue is applied no alarm has a queued number; an alarm survives iff its number was not queued; the list stays ascending |
| Coordinator.IterateProperties | assign3/alarm_cond.c:495-503 | after one iteration no alarm is done and none has a queued number, the queue is empty and every record is created; order and type uniqueness are kept; a type with no live alarm at the start has no record at the end; a worker is started only for a type that still has a live alarm |
| Coordinator.SecondIterationLaunchesNothing | assign3/alarm_cond.c:496-500 | if no command arrives in between, a second iteration starts no worker (each worker is started once) |
| Coordinator.ExpiredTypeIsRetired | assign3/alarm_cond.c:355-368 | once a worker finds all alarms of its type past their time, the next iteration removes that type's thread record |
| Coordinator.RegisterGuard | assign3/alarm_cond.c:687-706 | registration happens iff a live alarm of the type exists and no record of the type exists; the append then keeps one record per type |
| Coordinator.CancelGuard | assign3/alarm_cond.c:708-722 | a cancellation is queued iff a live alarm with the number exists and the number is not already queued; the queue then stays duplicate-free |
| Store.AlarmStore.constructor | assign3/alarm_cond.c:54-56 | all three lists start out empty |
| Store.AlarmStore.AddToAlarmList | assign3/alarm_cond.c:168-217 | the walk-and-link loop gives `Insert` of the old list, keeps the list ascending, and reports a replacement iff the number was present |
| Store.AlarmStore.RemoveFromAlarmList | assign3/alarm_cond.c:221-252 | the rescan-and-unlink loop terminates and leaves the old list without the number, still ascending |
| Store.AlarmStore.AlarmExists | assign3/alarm_cond.c:254-288 | the counting loop returns the number of live alarms matching by type (mode 0) or by number (mode 1), 0 for any other mode, and is positive iff a match exists |
| Store.AlarmStore.RemoveAlarmsThatAreDone | assign3/alarm_cond.c:418-436 | the find-then-remove loop terminates and leaves the swept list, still ascending |
| Store.AlarmStore.AddToThreadList | assign3/alarm_cond.c:506-532 | appends a record for the type, with its worker not yet started |
| Store.AlarmStore.RemoveFromThreadList | assign3/alarm_cond.c:144-166 | the walk unlinks the first record of the type, if there is one |
| Store.AlarmStore.ThreadExists | assign3/alarm_cond.c:381-394 | returns the number of records of the type; positive iff such a record exists |
| Store.AlarmStore.ThreadHasActiveAlarm | assign3/alarm_cond.c:412-416 | returns the number of live alarms of the type; positive iff one exists |
| Store.AlarmStore.RemoveThreadsIfNoActiveAlarm | assign3/alarm_cond.c:438-456 | the rescan loop terminates and leaves exactly the records whose type has a live alarm, in order |
| Store.AlarmStore.CheckThreadListAndCreateThread | assign3/alarm_cond.c:471-489 | every record is flagged created, and the returned types are exactly those of the records that were not created, in list order |
| Store.AlarmStore.AddToRemovalList | assign3/alarm_cond.c:535-554 | appends the number to the queue |
| Store.AlarmStore.RemoveFromRemovalList | assign3/alarm_cond.c:557-578 | the walk unlinks the first queued entry equal to the number, if there is one |
| Store.AlarmStore.RemoveRequestExists | assign3/alarm_cond.c:397-410 | returns 1 iff the number is queued, 0 otherwise |
| Store.AlarmStore.RemoveAlarmsInRemovalList | assign3/alarm_cond.c:458-469 | removes, in queue order, every alarm whose number is queued, then empties the queue |
| Store.AlarmStore.CoordinatorIteration | assign3/alarm_cond.c:495-503 | the four calls, in the source's order, turn the state into `Iterate` of the old state and return the types of the workers started |
| Store.AlarmStore.DisplayCycle | assign3/alarm_cond.c:353-377 | one worker cycle marks the expired alarms of the type done, returns the alarms displayed, and asks to terminate iff no record of the type is left |
| Store.AlarmStore.Submit | assign3/alarm_cond.c:664-684 | a Type A command inserts a live alarm expiring `seconds` after `now` and reports whether it replaced one |
| Store.AlarmStore.Register | assign3/alarm_cond.c:687-706 | a Create_Thread command appends a record only when `RegisterDecision` says so; otherwise nothing changes |
| Store.AlarmStore.Cancel | assign3/alarm_cond.c:708-722 | a Cancel command queues the number only when `CancelDecision` says so; otherwise nothing changes |

## Findings

| source | as written | input that shows it | evidently intended | confidence | as-written member | corrected member |
|---|---|---|---|---|---|---|
| assign3/alarm_cond.c:422-434 | the sweep's search result starts at -1, and any negative result ends the sweep, so a done alarm with a negative number counts as "nothing found" | the Type A command `5 Message(1, -1) a` passes validation, because the positivity check at line 644 tests `err_t1 == 3` instead of 4; once its worker marks it done, the sweep stops at it forever, and every done alarm behind it also stays in the list | every done alarm is removed | not executed; medium | AlarmList.SweepAsWritten (AlarmList.SentinelStopsSweep) | AlarmList.Sweep (AlarmList.SweepProperties) |

## Left out

- Semaphores and the reader-count protocol (lines 290-346 and every `sem_wait`/`sem_post`) are not modelled, because blocking and reader preference are concurrency concerns. Each bracketed operation is one atomic method call.
- The window between the read-locked search and the write-locked removal in the two sweeps is not modelled, and neither is the write to `is_done` under a read lock. Both are races; only their sequential effect is modelled.
- Thread creation and joins are not modelled. "Start a worker" is modelled as returning the worker's message type from `CheckThreadListAndCreateThread`. Aborting when `pthread_create` fails is not modelled either.
- Time, `sleep(1)` and the endless loops of `alarm_thread` and `periodic_display_threads` are not modelled. The current time is the parameter `now`, and one iteration or cycle is modelled.
- Debug printers (lines 111-142) and all `printf` output are not modelled. The information they print is returned instead: the replace flag, the alarms displayed, the types started, and the guard outcomes.
- Command parsing and validation (`sscanf`, `strncpy`, lines 629-661) are not modelled. The message text is opaque, and `Submit`, `Register` and `Cancel` take already-parsed fields.
- Manual memory is not modelled: `malloc`/`free`, the double allocation at lines 611 and 665, and the removal-list nodes leaked at line 467. The lists are Dafny sequences, not linked nodes, so pointer relinking and aliasing are not modelled. A walk to the tail before an append (lines 519-528 and 543-550) is just an append here.
- Store.AlarmStore.DisplayCycle: does not model the truncation of `next->time - time(NULL)` into the `int` `remaining_time`. The difference is compared as an unbounded integer.
- Store.AlarmStore.RemoveAlarmsThatAreDone: follows the corrected sweep of the Findings row (`AlarmList.Sweep`), with a found flag instead of the -1 result of lines 423 and 432. It therefore differs from the source when a done alarm has a negative number: the source stops its sweep there, the method removes every done alarm. `Store.AlarmStore.CoordinatorIteration` inherits this through its call.
- Store.AlarmStore.RemoveThreadsIfNoActiveAlarm: reports "nothing found" with a flag instead of the source's -1 for the searched type. The two agree because a record is only ever added for a type that passed the positivity check (line 651).
- Behaviour of the code that the model follows as written:
  - `add_to_thread_list` appends with no check; uniqueness per type comes only from the guard in `main` (see `Coordinator.RegisterGuard`).
  - The sweep removes alarms flagged done by a display worker, not alarms whose time has passed.
  - The sweep removes every alarm with the found number, not only the done one.
