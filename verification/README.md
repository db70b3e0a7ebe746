# Naemon core: verified model

This project models the algorithms of Naemon's scheduling core and of its IPC library
in Dafny and proves what they are for. Methods follow the C functions step by step;
functions and predicates say what the result means; lemmas relate several operations or
speak of whole histories. Where the code and its comments differ, the code is modelled
and the difference is stated as a lemma with the exact condition.

| area | files |
|---|---|
| timed event queue and event loop | `event_heap.dfy`, `event_queue.dfy`, `event_loop.dfy` |
| circularity check and dependency walk | `graphs.dfy`, `circular_check.dfy`, `dependency_check.dfy` |
| scheduled downtime | `triggers.dfy`, `downtime_order.dfy`, `downtime_ids.dfy`, `downtime_book.dfy`, `downtime.dfy`, `downtime_restart.dfy`, `downtime_list.dfy` |
| byte queue, key/value vectors, message framing | `bytes.dfy`, `bufferqueue.dfy`, `kvvec.dfy`, `kv_search.dfy`, `worker.dfy` |
| escaped key/value strings | `ekvstr.dfy` |
| soft and hard states | `service_state.dfy`, `host_state.dfy` |
| one pending check per object | `check_schedule.dfy` |
| command tokenizer | `runcmd.dfy`, `command_line.dfy` |
| shared types | `basics.dfy` |

`dafny verify dfyconfig.toml` checks everything.

## Main results

- Starting an idle downtime puts exactly its tree of triggered downtimes in effect;
  stopping one ends with exactly its tree deleted, although an idle part of the tree is
  first started and then stopped; cancelling removes exactly the tree. The mutual recursion
  ends by (entries left, idle entries, rank). Over any run every step does exactly what it
  says, every object's depth is its number of downtimes in effect and a sorted list stays
  sorted; what the start and stop handlers do to any other entry is stated exactly. The linked
  list and its index stay well formed and sorted over any run, and also after a load with
  sorting put off, the sort, and any run behind it.
- A restart brings every downtime and every depth back exactly when each trigger stands in
  the list before what it triggers; when the order of the list sees to that, and when not.
- The start-up check says OK exactly when the host, dependency and time period relations
  have no cycle, and then the recursive dependency walk ends and fails exactly when a
  failing chain exists.
- Whatever the chunking and the attempts to receive in between, the key/value vectors that
  come out of the receiving end are exactly those that had arrived, unchanged and in order:
  all of them once the wire is delivered and asked often enough.
- Every byte that goes into a byte queue is still there, or was handed over or taken by the
  descriptor, once and in order, over any run of uses and any answers of write(2).
- The event heap keeps order, positions, contents, capacity and an amortised copying cost;
  over any run, with callbacks that schedule and cancel, every event is pending, run once or
  aborted once, and no event runs a millisecond early or before an earlier one.
- Escaped strings round-trip for every vector of byte strings; sizing passes equal writing
  passes on every input.
- Soft and hard states over whole runs of results, for services and hosts.
- At most one pending check per object, and no recurring host or service without one pending
  or under way; exactly which step can break the latter, and at which time each step has the
  object checked next.
- Quoted and plain command lines come apart into exactly their arguments, and the variables set
  in front of them into exactly their names and values.

## What the proofs found

- `src/naemon/events.c:172`: with `<=`, removing the event in the last slot while its parent
  has the very same time removes the parent instead (`EventQueue.TiedLastExample`); the right
  event leaves exactly when that is not so (`EventQueue.Queue.Remove`). A flag of the queue
  selects the guard as coded or as commented. The queue is proved for both on all inputs; the
  event loop, with the guard as coded, only for runs that cancel no such event.
- `src/naemon/downtime.c:138` and `:968`: an entry loaded under the id the counter stands at
  gets a namesake; the exact conditions are `DowntimeIds.NextIdTakenIff` and
  `DowntimeIds.LoadKeepsBehindIff`.
- `src/naemon/downtime.c:87`: the difference of two start times is cut to an int, so entries
  2^31 seconds apart are put in out of order (`DowntimeOrder.FarApartIsUnsorted`); insertion is
  right exactly when every entry that starts earlier does so by a number of seconds that is
  below 2^31 modulo 2^32 (`DowntimeOrder.InsertionSortedIff`).
- `src/naemon/downtime.c:237` and `:265`: the event handlers do not look at the in-effect flag.
  The depths survive a start event exactly when the entry was idle, and a stop event exactly
  when it was in effect or its object had nothing in effect; otherwise just one depth is one
  too high, or one too low (`Downtime.Table.HandleDowntimeStartEvent`,
  `Downtime.Table.HandleDowntimeStopEvent`). A second start event of an entry in effect also
  stops and deletes the first triggered entry it finds in effect, with its tree
  (`src/naemon/downtime.c:749`, `Downtime.SecondStartExample`).
- `src/naemon/xrddefault.c:844-853`: the depth of an object is raised even when the entry was
  refused; the depth equation survives a load exactly when the entry was added or not in effect
  (`Downtime.Table.Load`).
- `src/naemon/downtime.c:69-78`: the order of the list keeps a triggered entry over a restart
  only behind an untriggered trigger that starts no later; otherwise it may be lost
  (`DowntimeRestart.SortedComesBack`, `DowntimeRestart.OrderIsNotEnough`), and is exactly when
  it stands before its trigger (`DowntimeRestart.Restart`).
- `src/naemon/checks_host.c:415-418` and `:606`: a host freshness result that is discarded is
  still processed, and can turn a first soft problem hard (`HostState.DiscardedCheckHardens`).
  In the very race the discard is there for, a passive problem that arrives while the
  freshness check is out is asked to be announced twice (`HostState.PassiveRaceAnnouncesTwice`),
  and so is the end of a hard problem (`HostState.PassiveRaceRecoversTwice`).
  The exact harmless cases are `HostState.DiscardedCheckIsHarmlessIff`.
- `src/naemon/checks_host.c:542` and `:945`: the result that finds a host up counts as an
  attempt, so the recovery from a problem nobody was to hear of is asked to be announced, one
  attempt early (`HostState.RecoveryComesEarly`, `HostState.RecoveryComesEarlyExample`).
- `src/naemon/checks_service.c:541-544`: a discarded service freshness result skips the
  rescheduling, and a recurring service can be left with no check at all
  (`CheckSchedule.LoseService`); no other step does that (`CheckSchedule.Scheduler.Step`).
- `lib/runcmd.c:269-276` and `:309`: between double quotes a backslash is to escape the double
  quote too, but the quotes end there all the same, and what follows is read without them,
  sometimes with a zero return code (`RunCmd.DoubleQuoteExample`). An argument escaped that way
  is read back exactly when it has no double quote before its last byte and no tilde
  (`RunCmd.DoubleReadsBackIff`).
- `lib/kvvec_ekvstr.c:59` and `:262-270`: what is not a hex digit is not handled as an error,
  but read as set bits (`Ekvstr.BadHexDigits`).

## Model

| member | source | states |
|---|---|---|
| HeapOrder.StepUp | src/naemon/events.c:128-138 | Exchanging a node with a parent that is not earlier keeps heap order everywhere but above the parent's slot. |
| HeapOrder.StepDown | src/naemon/events.c:140-152 | Exchanging a node with its smaller child keeps heap order everywhere but below the child's slot. |
| HeapOrder.SinkOn | src/naemon/events.c:144-150 | A node on its way down stays on its way down when it changes places with the child the code picks. |
| HeapOrder.SinkDone | src/naemon/events.c:144-149 | Where the way down stops, only the edge above the start can still be out of order. |
| HeapOrder.HeadIsMinimum | src/naemon/events.c:154-159 | In a heap the first element is no later than any other. |
| EventQueue.ResizeIsPaid | src/naemon/events.c:80-99 | One addition or removal moves the size by at most one factor of two, leaves count <= size < 3*max(1,count), and its copying is covered by the potential plus a constant. |
| EventQueue.Queue.constructor | src/naemon/events.c:190-201 | A new queue is empty, of size one, and valid. |
| EventQueue.Queue.CondSwap | src/naemon/events.c:101-126 | Exchanges two slots and their positions unless the upper is strictly earlier; ties are exchanged; nothing else changes. |
| EventQueue.Queue.BubbleUp | src/naemon/events.c:128-138 | From a heap that may be wrong above one slot only, restores the heap; says which event ends in the starting slot. |
| EventQueue.Queue.BubbleDown | src/naemon/events.c:140-152 | From a heap that may be wrong around one slot, leaves at most the edge above that slot wrong; does nothing past the last slot. |
| EventQueue.Queue.SetSize | src/naemon/events.c:80-99 | Grows and shrinks by powers of two to the size the two loops define, keeping every slot in use, and counts the slots copied. |
| EventQueue.Queue.Head | src/naemon/events.c:154-159 | Null exactly for an empty queue, otherwise a pending event that is a minimum of all pending events. |
| EventQueue.Queue.Add | src/naemon/events.c:178-188 | Keeps heap order, positions and capacity, and adds exactly the one event. |
| EventQueue.Queue.Remove | src/naemon/events.c:161-176 | For any position keeps heap order, positions and capacity, and takes out exactly one event: the one asked for, exactly when it is not last and tied with its parent under the coded guard, else that parent. |
| EventQueue.Queue.RightEventLeaves | src/naemon/events.c:161-176 | The removal drops the event it is asked for exactly unless the guard is the coded one and the event is last, below a parent of the very same time; then it drops that parent. |
| EventQueue.Queue.Vacate | src/naemon/events.c:165-168 | The last event takes the freed slot and its position; order can be wrong around that slot only. |
| EventQueue.Queue.Settle | src/naemon/events.c:171-175 | The bubbling behind its guard restores the heap; tells which event is dropped when the removed one was last. |
| EventQueue.TiedLastExample | src/naemon/events.c:172 | Two events of the same time for which the coded guard removes the other one. |
| EventLoop.MsDiffKeepsOrder | src/naemon/events.c:42-61 | The millisecond difference never has the wrong sign, and is not positive only if less than one millisecond remains. |
| EventLoop.MsDiffIsClose | src/naemon/events.c:42-61 | In range the difference errs by less than one millisecond; out of range it saturates on the right side. |
| EventLoop.MsDiffMonotone | src/naemon/events.c:42-61 | Seen from one moment, later times never look earlier. |
| EventLoop.CompareIsOrderInTime | src/naemon/events.c:67-78 | The order of the queue is the order of the times in nanoseconds. |
| EventLoop.SleepEndsAtEvent | src/naemon/events.c:313-322 | A sleep before an event is zero when it is due, ends less than a millisecond past it, and falls a millisecond short of it only when it lasts the whole timeout. |
| EventLoop.Loop.ScheduleEvent | src/naemon/events.c:218-237 | Adds one fresh event at the current time plus the delay; the log is unchanged. |
| EventLoop.Loop.ExecuteAndDestroyEvent | src/naemon/events.c:247-252 | The event leaves the queue and enters the log before its callback can schedule or cancel anything; the accounting holds throughout. |
| EventLoop.Loop.DestroyEvent | src/naemon/events.c:255-264 | A cancelled event is logged as aborted, once, with its callback executed. |
| EventLoop.Loop.ClearEventQueue | src/naemon/events.c:271-281 | Ends with an empty queue, whatever the callbacks of the cancelled events do; nothing is run, only aborted. |
| EventLoop.Loop.EventPollFull | src/naemon/events.c:301-379 | Runs the head exactly when it is due and the descriptors were quiet, and no other event. The sleep is zero for a head that is due, ends less than a millisecond past the head, is the whole timeout or not a millisecond short of the head, and is nothing with a backlog. Error answers change nothing. |
| EventLoop.AnyRun | src/naemon/events.c:218-379 | Over any run, from an empty loop on: each scheduling adds exactly its event, each cancelling aborts its event, each poll runs the head exactly when due and the descriptors were quiet, clearing leaves nothing pending; each scheduled event is pending or has exactly one entry in the log, and every polled event was a minimum and not a millisecond early. With the coded guard a cancellation of a last event tied with its parent is passed over. |
| Graphs.BackEdgeClosesCycle | src/naemon/configuration.c:1676-1681 | Meeting a node that is still open closes a cycle through it. |
| Graphs.RankedIsAcyclic | src/naemon/configuration.c:1701-1708 | When all nodes reached are closed and numbered downwards there is no cycle. |
| Graphs.SuccessorReachesLess | src/naemon/checks_host.c:1261-1264 | In an acyclic relation a master reaches strictly less than its dependent: the measure of the recursive walk. |
| CircularCheck.NextAcyclicIffMastersAcyclic | src/naemon/configuration.c:1669-1750 | The relation between dependencies that is searched has a cycle exactly when the relation between objects, of one kind, has one. |
| CircularCheck.CycleOfMasters | src/naemon/configuration.c:1669-1708 | A cycle of dependencies gives a cycle of masters of one kind. |
| CircularCheck.CycleOfDependencies | src/naemon/configuration.c:1669-1708 | A cycle of masters gives a cycle of dependencies. |
| CircularCheck.MastersAre | src/naemon/configuration.c:1863-1894 | The masters of an object are those named by its notification dependencies, or by its execution dependencies, and no others. |
| CircularCheck.Search.DfsHostPath | src/naemon/configuration.c:1757-1788 | The open path stays exactly the half-marked nodes, every host reported lies on a cycle, and without a report the host ends closed. |
| CircularCheck.Search.DfsHostChildren | src/naemon/configuration.c:1752-1755 | The traversal over children keeps the same, and closes them all when nothing is reported. |
| CircularCheck.Search.DfsPath | src/naemon/configuration.c:1669-1708 | From a clean start, zero means the node is closed and one means the named node lies on a cycle; from any start the search ends. |
| CircularCheck.Search.DfsSuccessors | src/naemon/configuration.c:1687-1699 | The loop over successors stops at the first error and otherwise closes them all. |
| CircularCheck.Search.DfsPaths | src/naemon/configuration.c:1869-1876 | Leftover half-marked nodes cannot change the verdict: the first report is a true cycle, no report means all roots are closed. |
| CircularCheck.Search.CheckHosts | src/naemon/configuration.c:1851-1857 | No error exactly when the host child graph is acyclic. |
| CircularCheck.Search.CheckDependencies | src/naemon/configuration.c:1863-1894 | No report exactly when the dependency graph of one object type is acyclic. |
| CircularCheck.Search.CheckTimeperiods | src/naemon/configuration.c:1897-1903 | No report exactly when the exclusion graph is acyclic. |
| CircularCheck.PreFlightCircularCheck | src/naemon/configuration.c:1821-1912 | OK exactly when the child hosts, the notification and the execution dependencies of hosts and of services, and the time period exclusions all are without a cycle. |
| DependencyCheck.FailingViaOne | src/naemon/checks_host.c:1232-1265 | A failing chain through one dependency exists exactly when that dependency is in force and fails itself or inherits a failing chain. |
| DependencyCheck.CheckDependencies | src/naemon/checks_host.c:1215-1268 | Failed exactly when a chain of dependencies in force, each but the last inheriting, ends in a failing or pending master; which state of a master counts is in DependencyCheck.OneDependency. Ends for acyclic kinds. |
| DependencyCheck.OneDependency | src/naemon/checks_host.c:1232-1265 | An object with one dependency fails exactly when it is in force and the master was never checked and that fails it, or is in a failing state, or fails itself and the dependency inherits; the state is the last hard one of a soft master unless soft states count. |
| DependencyCheck.NoDependency | src/naemon/checks_host.c:1222-1230 | An object without dependencies of a kind never fails for that kind. |
| DependencyCheck.OtherStatesDoNotCount | src/naemon/checks_host.c:1245-1248 | The current states of soft masters change no verdict when soft states do not count, and last hard states change none otherwise, however far up the masters are. |
| DependencyCheck.MasterIsCloser | src/naemon/checks_service.c:1291-1343 | Each step of the walk goes to an object that reaches strictly less. |
| DependencyCheck.WalkAfterPreFlight | src/naemon/configuration.c:1821-1912 | After a start-up check that says OK the walk is total and exact from every object, for both types and kinds. |
| Triggers.LeftoverHasChild | src/naemon/downtime.c:635-647 | While anything of a tree but its root is left, some entry left is triggered by the root directly. |
| Triggers.KeptWithout | src/naemon/downtime.c:635-647 | Taking out the tree of a triggered entry removes only parts of the root's tree, and leaves no entry whose trigger inside the tree is gone. |
| Triggers.InTreeOfChild | src/naemon/downtime.c:745-751 | Everything in a tree but its root is in the tree of an entry the root triggers. |
| Triggers.ChildTreesApart | src/naemon/downtime.c:745-751 | The trees of two entries with the same trigger are disjoint. |
| Triggers.TreeIsLeast | src/naemon/downtime.c:745-751 | The tree of an entry is the least set that holds it and, with any entry, everything triggered by that. |
| DowntimeOrder.ComparExact | src/naemon/downtime.c:50-88 | The comparison has the sign of (start time, untriggered first), except that a later start looks later exactly when the difference survives the cut to an int. |
| DowntimeOrder.PlaceOf | src/naemon/downtime.c:144-172 | The place is the first position the new entry compares less at, or the end. |
| DowntimeOrder.InsertionIsSortedAndStable | src/naemon/downtime.c:144-172 | Insertion keeps a sorted list sorted and goes behind exactly the entries that are not later. |
| DowntimeOrder.InsertionSortedIff | src/naemon/downtime.c:87 | Any insertion into a sorted list comes out sorted exactly when every entry with an earlier start time is earlier by a difference that stays non-negative when cut to an int. |
| DowntimeOrder.FarApartIsUnsorted | src/naemon/downtime.c:87 | Start times 2^31 seconds apart come out unsorted. |
| DowntimeIds.NextIdTakenIff | src/naemon/downtime.c:963-973 | The id found is already in use exactly when the counter or its successor is. |
| DowntimeIds.LoadKeepsBehindIff | src/naemon/downtime.c:135-140 | A load keeps the counter ahead of all ids exactly when the loaded id is not the counter. |
| DowntimeIds.BehindIsFresh | src/naemon/downtime.c:963-973 | While the counter is ahead, new ids are unused and stay behind it. |
| DowntimeIds.LoadedAtCounterIsReused | src/naemon/downtime.c:138 | An id loaded at the counter is handed out again. |
| DowntimeBook.IdleTree | src/naemon/downtime.c:744-751 | With triggers in effect before what they trigger, an idle entry has an idle tree, as long as nothing in it is being stopped. |
| DowntimeBook.StartedFields | src/naemon/downtime.c:716-751 | Started entries are in effect with the flexible start handed down to them; no other field and no other entry changes. |
| DowntimeBook.PutOneInEffect | src/naemon/downtime.c:716-723 | Raising the depth and setting the flag keep every depth equal to the entries in effect. |
| DowntimeBook.BeginOneStop | src/naemon/downtime.c:592-603 | When an entry in effect begins to stop its object's depth is positive, and lowering it discounts just that entry. |
| DowntimeBook.BeginOneIdleStop | src/naemon/downtime.c:592-603 | When an idle entry begins to stop and no depth is lowered, everything stays coherent. |
| DowntimeBook.RemoveOne | src/naemon/downtime.c:649-655 | Deleting an idle or discounted entry keeps list, index, triggers and depths coherent. |
| DowntimeBook.ChildReady | src/naemon/downtime.c:638-643 | While a trigger is being stopped its triggered entries can be started or stopped. |
| DowntimeBook.Without | src/naemon/downtime.c:177-189 | A list without some elements holds exactly the others, still each once. |
| DowntimeBook.WithoutKeepsOrder | src/naemon/downtime.c:177-189 | What is left of a list stands in the same order as before. |
| DowntimeBook.InsertedInListOrder | src/naemon/downtime.c:142-172 | Adding an entry at its place keeps the list of indexed entries sorted. |
| DowntimeBook.WithoutInListOrder | src/naemon/downtime.c:177-189 | Removing any entries keeps the list sorted. |
| DowntimeBook.UntriggeredFirst | src/naemon/downtime.c:50-88 | Of two listed entries the later does not start earlier, and at the same start time no triggered entry stands before an untriggered one. |
| Downtime.Fault | src/naemon/downtime.c:97-133 | No fault exactly when the request names an existing object of its type, an existing trigger or a proper time span, and a duration when flexible. |
| Downtime.FirstFault | src/naemon/downtime.c:97-133 | Which error a request with several faults is refused with. |
| Downtime.EntryFits | src/naemon/downtime.c:1160-1205 | Nothing in a request is lost, changed or mixed up in its entry. |
| Downtime.StartingNext | src/naemon/downtime.c:744-751 | The next triggered entry is idle and may start; starting its tree extends what has been started by just that tree. |
| Downtime.DwindlingGoesOn | src/naemon/downtime.c:635-647 | Handling a triggered entry, either way, leaves fewer entries or fewer idle ones and touches nothing outside the tree. |
| Downtime.DwindlingEnds | src/naemon/downtime.c:645-655 | When nothing is triggered by the root any more, only the root is left of its tree. |
| Downtime.Table.HandleScheduledDowntimeStart | src/naemon/downtime.c:660-754 | Puts exactly the tree of an idle entry in effect, copies the flexible start down, changes no other entry, and keeps the depths. |
| Downtime.Table.HandleScheduledDowntimeStop | src/naemon/downtime.c:566-658 | Deletes exactly the tree of an entry, in effect or idle, changes no other entry, and keeps the depths if lowering the first one kept them. |
| Downtime.Table.HandleScheduledDowntime | src/naemon/downtime.c:757-765 | Stops what is in effect and starts what is idle, with the exact outcome of either. |
| Downtime.Table.HandleDowntimeStartEvent | src/naemon/downtime.c:217-754 | A start event of any entry. Idle: exactly its tree is started and the depths are right. In effect: its depth is one too high, idle triggered entries start, and the first triggered entry in effect is deleted with exactly its tree. Everything is as it should be exactly when the entry was idle with its trigger in effect or gone. |
| Downtime.Table.HandleDowntimeStopEvent | src/naemon/downtime.c:245-658 | A stop event of any entry deletes exactly its tree; the depths are right exactly when it was in effect or its object had nothing in effect, and else just its depth is one too low. |
| Downtime.Table.StartAgain | src/naemon/downtime.c:715-751 | The start handler for an entry in effect, up to where its loop goes on from a deleted entry. |
| Downtime.SecondStartExample | src/naemon/downtime.c:744-751 | Two starts of one downtime that triggers another: the triggered one is gone while its trigger is in effect, and the depths are two and zero. |
| Downtime.Table.FindTriggered | src/naemon/downtime.c:637-646 | Finds a listed entry with the given trigger, or none exists. |
| Downtime.Table.DeleteDowntime | src/naemon/downtime.c:1045-1070 | Takes one entry out of the index and its one place out of the list. |
| Downtime.Table.UnscheduleDowntime | src/naemon/downtime.c:303-407 | Cancels exactly when the id is in the table and any kind is asked for, or the kind of its object: then exactly the tree goes; otherwise nothing changes. The depths stay right. |
| Downtime.Table.CheckForExpiredDowntime | src/naemon/downtime.c:884-942 | Exactly the idle entries whose end time is not after now go; entries in effect stay. |
| Downtime.Table.Add | src/naemon/downtime.c:91-174 | Reports the first fault and changes nothing, or enters the entry under its id, at its place in the list, and advances the counter. |
| Downtime.Table.GetNextDowntimeId | src/naemon/downtime.c:963-973 | Returns the id the specification defines and leaves the counter behind it. |
| Downtime.Table.AddNewDowntime | src/naemon/downtime.c:950-1037 | Refuses exactly the requests without the names they need or with a fault; otherwise, while the counter is ahead, an idle entry with the times, duration, fixed flag and trigger asked for, for the host or the service by kind and without a flexible start, gets an unused id and its place, and the counter stays ahead. |
| Downtime.AddThenCancel | src/naemon/downtime.c:303-407 | Cancelling what has just been added leaves list and entries as before, when asked for under its own kind or any; under the other kind it is refused. |
| Downtime.Table.Load | src/naemon/xrddefault.c:841-855 | After loading one entry the depth equation holds exactly when the entry was added or was not in effect. |
| Downtime.MiscountExample | src/naemon/xrddefault.c:844-853 | A refused entry in effect leaves its host with a depth of one and no downtime. |
| Downtime.Table.constructor | src/naemon/downtime.c:197-202 | A fresh table has no entries, all depths zero and ids from one. |
| Downtime.Table.Run | src/naemon/downtime.c:217-407 | Over any run of additions, loads, starts, stops, cancellations and expiries, each step does to list and entries exactly what it says, depths equal entries in effect, triggers are in effect before what they trigger, ids stay behind the counter and the list stays sorted. |
| DowntimeRestart.Restart | src/naemon/xrddefault.c:411-857 | Writing all entries and reading them after a restart brings back exactly those whose triggers came back before them, so all of them exactly when every trigger stands before what it triggers; each depth is the number of entries in effect plus those in effect that were lost. |
| DowntimeRestart.LoadSaved | src/naemon/xrddefault.c:841-855 | An entry from the file comes back as it was written, or is refused because its trigger is not there, and its object is counted either way. |
| DowntimeRestart.AllBackIff | src/naemon/downtime.c:55-61 | All entries come back exactly when every trigger stands before what it triggers. |
| DowntimeRestart.SortedComesBack | src/naemon/downtime.c:55-68 | In a sorted list, triggers that are not triggered themselves and start no later stand before what they trigger. |
| DowntimeRestart.OrderIsNotEnough | src/naemon/downtime.c:69-78 | A sorted list may have an entry before a trigger of the same or a later start that is triggered itself, and then loses it. |
| DowntimeList.List.Walk | src/naemon/downtime.c:156-171 | The walk stops at the specified place, before a node or behind the last. |
| DowntimeList.List.Add | src/naemon/downtime.c:142-172 | Links the node in at its place, or in front while sorting is put off; links and index stay well formed, and a sorted list of near start times stays sorted. |
| DowntimeList.List.Remove | src/naemon/downtime.c:177-189 | Unlinks a node from any place; links and index stay well formed, the others keep their order, and a sorted list stays sorted. |
| DowntimeList.List.Collect | src/naemon/downtime.c:1252-1256 | Walking the links yields exactly the list. |
| DowntimeList.List.Relink | src/naemon/downtime.c:1259-1266 | The links come to follow the order of the array. |
| DowntimeList.List.SortDowntime | src/naemon/downtime.c:1234-1269 | Relinks the sorted array into a well-formed list of the same entries, sorted when start times are near each other; does nothing unless sorting was put off. |
| DowntimeList.InsertedInOrder | src/naemon/downtime.c:156-171 | A sorted list of nodes with a new one at its place is sorted. |
| DowntimeList.OrderIsSorted | src/naemon/downtime.c:1259-1266 | Between near start times an array in the order of the comparison is sorted as meant. |
| DowntimeList.List.Enter | src/naemon/downtime.c:135-172 | Enters a new node under an unused id: exactly that entry is indexed in addition, and a sorted list within one window of 2^31 seconds stays sorted. |
| DowntimeList.List.Leave | src/naemon/downtime.c:177-189 | Exactly that entry is indexed no longer, and a sorted list stays sorted. |
| DowntimeList.List.Run | src/naemon/downtime.c:135-189 | Over any run of additions and removals, links and index agree, hold exactly the entries that came and did not go, with their start times and trigger flags, and a sorted list stays sorted. |
| DowntimeList.List.LoadSortAndRun | src/naemon/downtime.c:142-1269 | The same for entries loaded in any order with sorting put off, then sorted, then any run: the list ends well formed and sorted with exactly the entries loaded and added but not removed. |
| Bytes.Memchr | lib/kvvec.c:354-358 | The first place of a byte, or that there is none. |
| BufferQueue.Queue.PushBlock | lib/bufferqueue.c:257-286 | Appends the bytes to the flat stream; an empty block changes nothing. |
| BufferQueue.Queue.Peek | lib/bufferqueue.c:67-104 | Copies the first bytes of the stream, or fails exactly when there are fewer; the error return inside the loop is unreachable. |
| BufferQueue.Queue.Drop | lib/bufferqueue.c:106-133 | Removes the first bytes of the stream, or fails exactly when there are fewer. |
| BufferQueue.Queue.Unshift | lib/bufferqueue.c:135-143 | Hands over and removes the first bytes of the stream. |
| BufferQueue.Queue.IsDelimMatch | lib/bufferqueue.c:145-160 | Recognises a delimiter across any number of block borders. |
| BufferQueue.Queue.FindDelim | lib/bufferqueue.c:162-201 | Finds the first delimiter of the flat stream whatever the blocks are. |
| BufferQueue.Queue.UnshiftToDelim | lib/bufferqueue.c:162-217 | Removes and returns exactly the shortest prefix that ends in the delimiter, or leaves the queue alone when there is none. |
| BufferQueue.Queue.Write | lib/bufferqueue.c:288-323 | Every byte the descriptor takes leaves the queue, in order, and no other; how many bytes are taken, which answers are used up and what is returned are exactly those of the specification by the sizes of the blocks. |
| BufferQueue.DrainedEnds | lib/bufferqueue.c:288-323 | Never more is taken than there was; less only when the last answer used up said so or the answers ran out, and before it come only interruptions and bytes sent; an error is that of the last answer. |
| BufferQueue.InterruptionsDoNotMatter | lib/bufferqueue.c:307-309 | Interruptions make no difference to what is taken and how it ends. |
| BufferQueue.AllTaken | lib/bufferqueue.c:288-323 | One answer for each block that takes all of it empties the queue without an error. |
| BufferQueue.OneBlockTaken | lib/bufferqueue.c:288-323 | Of one block all that the answers take is taken, up to all there is. |
| BufferQueue.Conserved | lib/bufferqueue.c:67-323 | In any run of uses that each do what they say, nothing is lost, repeated or reordered. |
| BufferQueue.Run | lib/bufferqueue.c:67-323 | Any run of pushing, writing, peeking, taking by size or up to a delimiter, and dropping: each use does to the stream and answers exactly what it says, the descriptor has taken exactly what the writes removed, and all bytes removed followed by all bytes queued are all bytes put in. |
| KvVec.Vector.AddKv | lib/kvvec.c:88-109 | Appends one pair and keeps the others, growing when needed. |
| KvVec.Vector.Grow | lib/kvvec.c:59-69 | Grows by the hint, or by a third and fifteen, and keeps the pairs. |
| KvVec.Vector.ToBuf | lib/kvvec.c:252-292 | The buffer holds exactly the encoding of the pairs, zeros behind it, and the sizing pass was exact. |
| KvVec.EncodeTwo | lib/kvvec.c:267-290 | Two pairs in flat form are key, separator, value, terminator, twice. |
| KvVec.PairAt | lib/kvvec.c:326-396 | In an encoding the separators a parser looks for are the first ones it meets, pair by pair. |
| KvVec.FindPair | lib/kvvec.c:354-364 | The two searches find the ends of the key and of the value. |
| KvVec.CountPairs | lib/kvvec.c:317-331 | The counting pass counts exactly the encoded pairs. |
| KvVec.FromBuf | lib/kvvec.c:308-400 | Parsing an encoding gives back its pairs, and in place leaves every key and value a C string. |
| KvVec.StringsInPlace | lib/kvvec.c:366-389 | After parsing in place every key is a C string where its pair stands, and every value behind it that is not empty. |
| KvSearch.ValCompareIsOrder | lib/kvvec.c:111-132 | The comparison has the sign of the byte-wise order, shorter first, and is zero only for equal strings. |
| KvSearch.KvCompareIsTotal | lib/kvvec.c:134-146 | The pair comparison goes by keys first, then by values, is a total order, and zero only for equal pairs. |
| KvSearch.Fetch | lib/kvvec.c:163-200 | A key is found exactly when it is there, by binary search in a sorted vector and as the first match in an unsorted one. |
| Worker.FirstDelimOfFrame | lib/worker.h:24-27 | In a frame the delimiter comes first where the frame ends: it neither occurs early nor overlaps itself. |
| Worker.FirstDelimOfPart | lib/worker.c:38-45 | Of any part of the stream the first delimiter is the first frame's, or there is none yet. |
| Worker.BuildKvvecBuf | lib/worker.c:6-21 | The buffer is the encoding of the vector followed by the delimiter. |
| Worker.WorkerIoc2msg | lib/worker.c:38-45 | Takes one message off the stream without its delimiter, or leaves the stream alone. |
| Worker.ReceiveOne | lib/worker.c:38-45 | An attempt yields the next message, whole and unchanged, or nothing because it has not all arrived. |
| Worker.AllArrive | lib/worker.c:38-45 | All the wire arrives if it is delivered, and all messages are received if there are as many attempts behind it. |
| Worker.NoneEarly | lib/worker.c:38-45 | No message counts as received before all of it has arrived, and at most one for each attempt. |
| Worker.Carry | lib/worker.c:38-45 | For any chunking and any attempts in between, what is received is exactly the messages whose last byte had arrived when they were asked for, one an attempt; all of them once the wire is delivered and as many attempts as messages follow. |
| Worker.Transfer | lib/worker.c:6-45 | End to end: the vectors that come out are exactly the first ones put in, as many as had arrived when asked for, unchanged and in order, and all of them after a full delivery and as many attempts. |
| Ekvstr.EscapedByte | lib/kvvec_ekvstr.c:158-170 | An escaped byte is one or more printable ASCII characters. |
| Ekvstr.EscapedForms | lib/kvvec_ekvstr.c:10-24 | Which form every byte has: letters for tab, newline and return, a backslash for the three special characters, itself when printable, else two small hex digits. |
| Ekvstr.UnescapedForms | lib/kvvec_ekvstr.c:34-52 | What follows a backslash reads as: n, r and t as the control characters, 0 as the byte zero, anything else but x as itself. |
| Ekvstr.UnescapedHex | lib/kvvec_ekvstr.c:257-270 | An x takes the two bytes behind it; a text that ends before them ends the string. |
| Ekvstr.HexDigits | lib/kvvec_ekvstr.c:61-80 | Two hex digits of either case are their byte. |
| Ekvstr.BadHexDigits | lib/kvvec_ekvstr.c:262-270 | What is not a hex digit is no error: it sets all the bits of its half, and in the last place of the whole byte. |
| Ekvstr.SizeEscaped | lib/kvvec_ekvstr.c:111-124 | The sizing pass counts exactly the escaped bytes. |
| Ekvstr.WriteEscaped | lib/kvvec_ekvstr.c:158-172 | The writing pass appends exactly the escaped bytes. |
| Ekvstr.KvvecToEkvstr | lib/kvvec_ekvstr.c:91-204 | The buffer holds the text and a NUL; the writing pass fills exactly the bytes the sizing pass counted. |
| Ekvstr.Text | lib/kvvec_ekvstr.h:20-39 | The text is printable ASCII only, and empty exactly for the empty vector. |
| Ekvstr.PlainText | lib/kvvec_ekvstr.h:20-39 | Plain pairs are written key, equals sign, value, with a semicolon between two of them. |
| Ekvstr.CountString | lib/kvvec_ekvstr.c:215-241 | The counting pass counts the bytes decoded, or finds a reserved character, on every input. |
| Ekvstr.DecodeString | lib/kvvec_ekvstr.c:247-281 | The decoding pass writes exactly those bytes and stops where the specification says. |
| Ekvstr.ExpectString | lib/kvvec_ekvstr.c:206-284 | The buffer of the counted size holds exactly the decoded bytes and a NUL; null exactly when a reserved character is hit. |
| Ekvstr.EkvstrToKvvec | lib/kvvec_ekvstr.c:287-317 | Null exactly for texts that stand for no vector, otherwise the vector the text stands for. |
| Ekvstr.StringRoundTrip | lib/kvvec_ekvstr.c:206-284 | An escaped string reads back as itself up to what ends it, meeting nothing reserved. |
| Ekvstr.RoundTrip | lib/kvvec_ekvstr.c:91-317 | Every vector of arbitrary byte strings comes back from its text. |
| Ekvstr.TerminatedRoundTrip | lib/kvvec_ekvstr.c:287-317 | With a semicolon behind the last pair too the text reads back as the same pairs. |
| Ekvstr.NeedsEquals | lib/kvvec_ekvstr.c:287-317 | A text without an equals sign stands for no vector unless it is empty. |
| Ekvstr.PrintAndParse | lib/kvvec_ekvstr.c:91-317 | Printing and parsing give a vector with the same pairs. |
| ServiceState.Service.HandleAsyncServiceCheckResult | src/naemon/checks_service.c:483-1160 | A result that is not discarded changes state, type, attempt and last hard state as the specification says and asks for a notification exactly when it says so; a refused one, and a freshness result for a service that is fresh, change none of them. |
| ServiceState.Service.HandleOk | src/naemon/checks_service.c:783-876 | An OK result ends in a hard OK state at attempt 1, and asks for a recovery exactly on a hard change. |
| ServiceState.Service.HandleProblem | src/naemon/checks_service.c:884-1102 | A problem is hard at the last attempt or when it comes with the host's, else soft; asks for a notification only at the last attempt. |
| ServiceState.NextIsSound | src/naemon/checks_service.c:672-1102 | After any result, from any state: attempt between 1 and the maximum, hard means last hard state equals the state, OK means hard at attempt 1. |
| ServiceState.ReportedStates | src/naemon/checks_service.c:579-624 | The state a result stands for, and when that is OK. |
| ServiceState.ProblemStarts | src/naemon/checks_service.c:884-1102 | The first result that is not OK: attempt 1, soft exactly with the host up and more than one attempt, silent with more than one. |
| ServiceState.ProblemGoesOn | src/naemon/checks_service.c:884-1102 | Every further one: which attempt it is, whether it is hard, the last hard state, and whether it is announced. |
| ServiceState.UpAgain | src/naemon/checks_service.c:783-876 | An OK result resets everything, and is announced exactly after a host problem or when a hard problem is over that got to its last attempt. |
| ServiceState.EveryRunIsSound | src/naemon/checks_service.c:672-1102 | The same after every run, for any host history. |
| ServiceState.SoftUntilLastAttempt | src/naemon/checks_service.c:672-1102 | With the host up throughout, the k-th result in a row that is not OK has attempt min(k, max) and is soft exactly while k < max. |
| ServiceState.NotifiedAtLastAttempt | src/naemon/checks_service.c:783-1102 | After such a run a problem is asked to be announced exactly from the last attempt on, and a recovery exactly when the streak got that far. |
| ServiceState.StreakAsks | src/naemon/checks_service.c:884-1102 | Over a streak of n results that are not OK, with the host up and no flexible downtime starting, max(0, n - max + 1) notifications are asked for. |
| ServiceState.HostProblemIsHard | src/naemon/checks_service.c:939-1000 | A problem found while the host is down is hard at once and silent, and its end is announced. |
| ServiceState.HostProblemStaysSilent | src/naemon/checks_service.c:939-1000 | While the host stays down the problem stays hard at attempt 1, and nobody hears of it however long it lasts. |
| ServiceState.HardProblemMayTurnSoft | src/naemon/checks_service.c:962-1026 | Such a hard problem turns soft when the host is back first, and then ends unannounced exactly when there are more than two attempts. |
| ServiceState.HandleAll | src/naemon/checks_service.c:483-1160 | Handling results one after the other comes to what their run says, the state and the whole sequence of notifications asked for. |
| HostState.Host.AdjustHostCheckAttempt | src/naemon/checks_host.c:932-951 | The attempt starts over in a hard state or, for active checks, after UP, and otherwise counts on up to the maximum. |
| HostState.Host.UpdateHostStatePostCheck | src/naemon/checks_host.c:387-562 | A result that is not discarded is translated, counted and recorded as the specification says, and a check is under way no longer; a discarded one changes no state; freshening ends either way. |
| HostState.Host.DetermineHostReachability | src/naemon/checks_host.c:1373-1394 | Not up means DOWN without parents or with one up, else UNREACHABLE. |
| HostState.Host.CheckPendingFlexDowntime | src/naemon/downtime.c:771-823 | No flexible downtime starts for a host that is up. |
| HostState.Host.Classify | src/naemon/checks_host.c:719-889 | Type, attempt and reachability are settled as the specification says, by the state before. |
| HostState.Host.HandleHostState | src/naemon/checks_host.c:954-1092 | Asks for a notification in a hard state on a change, unless it is a problem and a flexible downtime starts, or again while not up; a host found up starts at attempt 1. |
| HostState.Host.HandleAsyncHostCheckResult | src/naemon/checks_host.c:565-638 | One result from start to end, refused, discarded or accepted. |
| HostState.EveryRunIsSound | src/naemon/checks_host.c:387-1092 | Over any results, active or passive, the attempt stays in range and a host not up is hard at its last attempt. |
| HostState.ReportedStates | src/naemon/checks_host.c:462-531 | An active result is UP or DOWN and when it is UP; a passive one is taken at its word. |
| HostState.ProblemSeen | src/naemon/checks_host.c:387-1092 | One result that is not up, from start to end: states, type, attempt and whether it is announced, for active checks and both kinds of passive ones. |
| HostState.UpSeen | src/naemon/checks_host.c:387-1092 | The same for one result that is up. |
| HostState.NotTaken | src/naemon/checks_host.c:415-606 | A refused result changes nothing; a discarded one has the host classified and announced once more, by the kind of its last check. |
| HostState.SoftPassiveUntilLastAttempt | src/naemon/checks_host.c:534-536 | Where passive checks may be soft, the k-th passive result in a row that is not up has attempt k up to the maximum, then 1, and is soft exactly while k < max; after a soft recovery all of this comes one attempt sooner. |
| HostState.SoftPassiveStreakAsks | src/naemon/checks_host.c:954-1092 | Over such a streak one announcement is asked for at the last attempt and one for every result after it. |
| HostState.SoftPassiveRecovery | src/naemon/checks_host.c:932-951 | The end of such a streak is soft and silent when it is more than one short of the last attempt, and then the next problem starts at attempt 2; else it is hard and announced. |
| HostState.SoftUntilLastAttempt | src/naemon/checks_host.c:533-951 | With active checks the k-th result in a row that is not up has attempt k up to the maximum, then 1, and is soft exactly while k < max. |
| HostState.NotifiedAtLastAttempt | src/naemon/checks_host.c:954-1092 | After such a run a problem is asked to be announced exactly from the last attempt on, if no flexible downtime starts, and a recovery exactly when the streak is at most one short of it. |
| HostState.StreakAsks | src/naemon/checks_host.c:954-1092 | Over a streak of n active results that are not up, with no flexible downtime starting, max(0, n - max + 1) notifications are asked for. |
| HostState.RecoveryComesEarly | src/naemon/checks_host.c:932-1092 | After a streak one short of the last attempt, still soft, the result that finds the host up asks for a recovery. |
| HostState.RecoveryComesEarlyExample | src/naemon/checks_host.c:932-1092 | With a maximum of two: one result DOWN asks for nothing and is soft, the next result UP asks for a recovery. |
| HostState.DiscardedCheckHardens | src/naemon/checks_host.c:415-418 | A discarded freshness check turns a first soft problem hard and asks for a notification. |
| HostState.PassiveRaceAnnouncesTwice | src/naemon/checks_host.c:408-418 | A passive problem that arrives while the freshness check is out asks for a notification, and the freshness check that is discarded for it asks for the same one again. |
| HostState.PassiveRaceRecoversTwice | src/naemon/checks_host.c:408-418 | A passive recovery from a hard problem that arrives while the freshness check is out is asked to be announced twice. |
| HostState.DiscardedCheckIsHarmlessIff | src/naemon/checks_host.c:602-606 | For every state before, exactly when a discarded freshness check changes nothing and asks for nothing. |
| HostState.HandleAll | src/naemon/checks_host.c:565-638 | Handling results one after the other comes to what their run says, the state and the whole sequence of notifications asked for. |
| CheckSchedule.Scheduler.ScheduleNextCheck | src/naemon/checks_host.c:107-132 | A strictly sooner pending check stays unless the new one is forced or may postpone; otherwise the new one replaces it; exactly one is pending afterwards. |
| CheckSchedule.Scheduler.HandleHostCheckEvent | src/naemon/checks_host.c:140-194 | Exactly when the check starts and when the attempt fails, and what is pending afterwards at which time: the check interval ahead, or the shorter of check and retry interval after a failure, or the next slot of the check period unless a retry comes first; nothing while a check is under way. |
| CheckSchedule.Scheduler.HandleServiceCheckEvent | src/naemon/checks_service.c:142-314 | Exactly when the check starts, and what is pending afterwards at which time: the check interval ahead, the shorter of check and retry interval when too many checks run, or the next slot of the check period. |
| CheckSchedule.Scheduler.FinishResult | src/naemon/checks_host.c:910-923 | After a result the others are checked now or at the sooner time that was pending; a soft problem is retried one retry interval ahead whatever was pending; else what is pending stays, and where nothing is, the next check comes one check interval ahead. No other object is touched. |
| CheckSchedule.Scheduler.AskOthers | src/naemon/checks_host.c:685-711 | Each object asked for has a check pending now, or at the sooner time that was pending; no other is touched. |
| CheckSchedule.Scheduler.HandleServiceResult | src/naemon/checks_service.c:533-544 | A handled result leaves the service and the others it asks for checked at the times of FinishResult, and no other object without a check it had; after a discarded active one a recurring service has a check exactly if one was pending before. |
| CheckSchedule.Scheduler.HandleHostResult | src/naemon/checks_host.c:640-682 | A host result, discarded or not, leaves the host and the others it asks for checked at the times of FinishResult, and no other object without a check it had. |
| CheckSchedule.Scheduler.RescheduleOrphan | src/naemon/checks_host.c:1171-1206 | A check that never came back is no longer under way, and one is pending now or at the sooner time that was pending; otherwise nothing changes. |
| CheckSchedule.Scheduler.InitChecks | src/naemon/checks_host.c:58-88 | At start every host, whatever its interval, and every service with an interval gets its check event, after the delay drawn for it; then nothing recurring is without one. |
| CheckSchedule.Scheduler.Step | src/naemon/checks_service.c:142-544 | One step, of any kind: an object with a check pending or under way, or none recurring, is so afterwards exactly unless the step discards an active result of that object, a recurring service with nothing pending; a due event leaves the queue, a request leaves a check pending, a result ends its check. |
| CheckSchedule.Scheduler.Run | src/naemon/checks_host.c:107-194 | Over any run each object has at most one check event, the one it points to; every recurring host, and every recurring service but those a discarded active result was handled for, keeps a check pending or under way, and all do if there is no such result. |
| CheckSchedule.OnePendingCheck | src/naemon/checks_service.c:121-130 | The queue holds a check event for an object exactly when the object points to one, and never two. |
| CheckSchedule.LoseService | src/naemon/checks_service.c:541-544 | A run of steps after which a recurring service has nothing pending and nothing under way. |
| RunCmd.Decide | lib/runcmd.c:244-377 | The switch of the second pass decides as the specification says. |
| RunCmd.AdvancedFits | lib/runcmd.c:379-388 | One step takes no more room for arguments and their starts than the characters read allow. |
| RunCmd.RestFits | lib/runcmd.c:457-458 | For every command line twice the number of arguments is at most its length plus one. |
| RunCmd.SplitArguments | lib/runcmd.c:239-401 | The second pass stays within buffers of the sizes given and yields the specified arguments and signs. |
| RunCmd.OneArgument | lib/runcmd.c:260-304 | An argument in single or double quotes, behind backslashes or plain is read as one argument. |
| RunCmd.AllArguments | lib/runcmd.c:241-389 | A quoted command line is cut into just its arguments, with nothing amiss. |
| RunCmd.ArgumentsRead | lib/runcmd.c:249-253 | Each start leads to its argument as a C string. |
| RunCmd.CutExactly | lib/runcmd.c:239-401 | For every quoted command line the second pass gives exactly its arguments and a zero return code. |
| RunCmd.DoubleReadsBackIff | lib/runcmd.c:260-318 | An argument escaped between double quotes reads back as itself, with nothing for a shell to do, exactly when it holds no tilde and no double quote before its last byte. |
| RunCmd.DoubleQuoteExample | lib/runcmd.c:269-318 | The argument a"" is read as a and a backslash, with a zero return code. |
| RunCmd.SignsAreNoticed | lib/runcmd.c:322-377 | Whatever comes before and after, the signs that a shell is needed are noticed outside of quotes, and between double quotes those that keep their meaning there. |
| RunCmd.SignsAreFew | lib/runcmd.c:322-377 | Nothing between single quotes is a sign, no ordinary and no escaped character is, and no character is two. |
| RunCmd.NoMoreArguments | lib/runcmd.c:332-337 | Behind an unquoted ampersand or semicolon no argument begins or ends any more. |
| RunCmd.UnclosedSingle | lib/runcmd.c:394-395 | A single quote that is not closed is noticed at the end, and nothing else is amiss there. |
| RunCmd.UnclosedDouble | lib/runcmd.c:396-397 | The same for a double quote. |
| CommandLine.Judge | lib/runcmd.c:151-230 | The switch of the first pass decides as the specification says. |
| CommandLine.SearchEnds | lib/runcmd.c:152-229 | Which characters end the search for variables, which end a name or a value, and which are kept. |
| CommandLine.SplitEnvironment | lib/runcmd.c:137-237 | The first pass yields the specified names, values and start of the command and stays within a copy of the line; without an equals sign it finds nothing. |
| CommandLine.NameFound | lib/runcmd.c:173-180 | A name and its equals sign are kept as one string, whose start and whose value's start are noted. |
| CommandLine.ValueFound | lib/runcmd.c:155-172 | A value, plain or in single quotes, and the space behind it are kept as one string, and the command may start there. |
| CommandLine.AllDefinitions | lib/runcmd.c:137-234 | All variables set in front of a command are found, with where they begin, and the command starts behind them. |
| CommandLine.DefinitionsRead | lib/runcmd.c:174-179 | Each name and each value can be read off as a C string. |
| CommandLine.CommandNamesNothing | lib/runcmd.c:143-234 | A quoted command line sets no variables. |
| CommandLine.NothingMore | lib/runcmd.c:143-234 | From a quoted command line on the first pass notes no more variables. |
| CommandLine.CommandBehind | lib/runcmd.c:137-237 | For every quoted command line with variables in front, the first pass notes exactly those. |
| CommandLine.Cmd2Strv | lib/runcmd.c:127-402 | For every command line of quoted and plain arguments, with or without variables in front, returns zero, exactly the arguments, and exactly the names and values; for every input the argument vector is big enough. |

## Left out

- Downtime.Table.HandleScheduledDowntimeStart: only for an idle entry whose trigger is in effect, gone or being stopped; every other entry is in HandleDowntimeStartEvent. The flexible start checks can queue a second start event before the first.
- Downtime.Table.HandleScheduledDowntimeStop: what has been counted must be right once the depth is lowered; every entry is in HandleDowntimeStopEvent.
- Downtime.Table.HandleScheduledDowntime: an idle entry only with its trigger in effect, gone or being stopped.
- Downtime.Table.Add: the id is one that no entry has or names as its trigger, and an entry added in effect has its trigger in effect; the exact conditions for unused ids are in DowntimeIds.
- Downtime.Table.AddNewDowntime: only for requests not in effect, as add_new_downtime is called, and while the counter is ahead of all ids.
- Downtime.Table.Load: the same conditions on the id and the trigger as for Downtime.Table.Add.
- Downtime.Table.StartAgain: ends where the loop goes on from a deleted entry.
- Downtime.Table.HandleDowntimeStartEvent: the same, for an entry in effect that triggers one in effect.
- Downtime.Table.Run: new entries that are in effect already, loads that do not meet these conditions, and the starts and stops that go wrong are passed over; loading with sorting put off and the sort behind it are runs of the linked list, DowntimeList.List.LoadSortAndRun.
- Downtime.Table: the list is a sequence of ids; the links are proved apart, in DowntimeList, with the same placement function.
- DowntimeRestart.Restart: every host and service of the file still exists; the sort behind the load is DowntimeList.List.SortDowntime; start and stop events, and registering again, are not modelled.
- DowntimeList.List.SortDowntime: what qsort leaves in the array is an input, in the order of the comparison when start times are near each other.
- DowntimeList.List.LoadSortAndRun: qsort is stood in for by an insertion sort with the same comparison (DowntimeList.Sort); qsort itself is not modelled.
- DowntimeList.List.Enter: an id in use is passed over; when an id is in use at all is in DowntimeIds.
- Scheduling the start and stop events of downtimes, comments, notifications and broker calls of the downtime code; flexible downtime started by a state change.
- EventLoop.Loop.ExecuteAndDestroyEvent: not for a last event that is tied with its parent under the coded guard, as the code then frees an event that is still queued; with the strict guard for every event.
- EventLoop.Loop.DestroyEvent: the same.
- EventLoop.AnyRun: with the coded guard such a cancellation is passed over, so the statement is about the runs without one; with the strict guard about all runs.
- EventLoop.Loop.ScheduleEvent: seconds are unbounded integers; the sum of now and delay does not overflow.
- EventLoop.Loop.EventPollFull: the descriptor poll and its handlers are inputs; a callback is a finite plan of scheduling and cancelling.
- BufferQueue.Queue.Peek: returns the bytes instead of filling the caller's memory; sizes do not wrap.
- BufferQueue.Queue.Write: the answers of write(2) are a finite list, then it would block.
- Reading a descriptor into the byte queue: a push of what was read.
- KvVec.FindPair: only for a pair of an encoding, as KvVec.FromBuf.
- KvVec.CountPairs: only for an encoding, as KvVec.FromBuf.
- KvVec.FromBuf: input is what kvvec2buf makes of pairs whose keys hold neither separator and whose values hold no pair separator; append mode and a missing last separator are not modelled.
- KvSearch.Fetch: null keys and values are not modelled; what qsort leaves is an input.
- Worker.Transfer: sockets and processes; vectors are not empty, as a message of no pairs has no frame of its own.
- Ekvstr.EkvstrToKvvec: the four tables are functions, equal to the tables entry by entry.
- ServiceState.Service.HandleAsyncServiceCheckResult: output, times, acknowledgements, flapping, logs, event handlers, stalking and problem ids; the host's state is the one at the time of the result.
- HostState.Host.HandleAsyncHostCheckResult: the same; checks propagated to other hosts are in CheckSchedule.
- CheckSchedule.Scheduler.HandleServiceCheckEvent: the reasons not to check are one input; the states that a skipped check may be given are not modelled.
- CheckSchedule.Scheduler.Run: check intervals are whole seconds and do not change; the event queue is a map from events to objects.
- CommandLine.SplitEnvironment: the size of the environment vector is not modelled.
- CommandLine.Cmd2Strv: each argument is written in one way throughout, plain ones without an equals sign, double-quoted ones as RunCmd.DoubleReadsBackIff allows but for a double quote at the end; values are plain or in single quotes.
- Allocation failure everywhere, timeperiod lookups, the command and comment modules, bitmap, path and formatting helpers.
