# CPU scheduling engine

A model of the scheduling engine of the `CPUSchedulerApp` simulator. The
user fills in a process table of four parallel lists: names, burst times,
arrival times and priorities. The user then picks one of five algorithms
and presses "Run Scheduling". The engine refuses an empty table. Otherwise
it runs the chosen scheduler, which yields:

- each process's waiting time and turnaround time;
- the averages of both;
- a Gantt list of `(name, start, duration)` entries.

The five schedulers:

- **FCFS** (`Fcfs`): the table is stably sorted by arrival. Each process runs
  to completion in that order, starting when the CPU is free and the process
  has arrived. As in the source, the Gantt entry records the process's
  arrival, not its start.
- **SJF non-preemptive** and **Priority** (`NonPreemptive`): one loop with two
  selection rules. The table is stably sorted by arrival (for Priority, by
  arrival then priority). At each round a scan picks, among the arrived
  unfinished rows, the first with the least burst (or the least priority
  number). The pick runs to completion. When nothing has arrived, the clock
  advances by one.
- **SJF preemptive** (`Srtf`), shortest remaining time first: a loop of unit
  time steps over the arrival-sorted table.
  - At each step a scan may hand the CPU to an arrived row whose remaining
    time is strictly below that of the current holder.
  - The holder runs for one unit.
  - Consecutive units of one process are merged into one Gantt entry.
  - Waiting time is the finish time less burst and arrival, clamped at 0.
- **Round robin** (`RoundRobin`): the table stays in input order.
  - A FIFO ready queue is fed by arrival scans.
  - The head of the queue runs for at most one quantum.
  - After a slice, first the rows that arrived during it are queued, then the
    preempted row goes to the back of the queue.
- **Dispatch** (`Engine`): the empty-table warning, the menu labels, the
  averages and the per-algorithm calls.

Python's in-place list updates are modelled as sequence values that the
methods reassign. The main loops of the SJF, priority, SRTF and round robin
schedulers are `while` loops, each with its invariant bundled in a
`Progress` predicate. FCFS's dispatch loop (`Fcfs.RunInOrder`) is a `for`
loop with `Dispatched` invariants. The inner selection and admission scans
are their own methods (`SelectNext`, `Scan`, `Admit`), each a `for` loop with
an argmin or filter contract.

The two preemptive schedulers also carry a ghost record of the whole run,
which fixes the schedule uniquely:

- SRTF: a trace with one entry per time unit, naming the row that ran or
  marking the unit idle. Every unit obeys the shortest-remaining-time rule
  (`Srtf.Picked`, `Srtf.Idle`), and the Gantt list is the chart drawn from the
  trace (`Srtf.Chart`).
- Round robin: the list of loop states. Each state is the reference turn
  `RoundRobin.Tick` of the one before; a busy turn is `RoundRobin.Serve`. The
  run stops at the first state with no work left. Python's stable `list.sort` is modelled on
positions (`Sorting.StableOrder`). The `float('inf')` sentinel is `None`.

## Model

| member | source | states |
|---|---|---|
| Processes.IndexOf | cpu_scheduler.py:150 | `list.index`: the result is a position holding the name, and no earlier position holds it. |
| Processes.IndexOfUnique | cpu_scheduler.py:205 | With unique names, looking up row i's name gives back i. |
| Processes.SumPermuted | cpu_scheduler.py:139-140 | Reordering the rows keeps the total burst. |
| Processes.Mean | cpu_scheduler.py:159-160 | The average times the number of processes is the sum, computed exactly. |
| Processes.TotalsAddUp | cpu_scheduler.py:245-246 | When every turnaround is waiting plus burst, total turnaround is total waiting plus total burst. |
| Processes.AddBursts | cpu_scheduler.py:211-212 | Turnaround of input row i is its own burst plus its waiting time, for every i. |
| Processes.RowsFromRuns | cpu_scheduler.py:230-236 | When every row runs once, each row's turnaround is its last Gantt finish less its arrival, its waiting is that less its burst, and waiting is never negative. |
| Sorting.StableOrder | cpu_scheduler.py:140 | A stable sort: a permutation of the positions, keys non-decreasing, equal keys in input order. |
| Sorting.SortedIsUnchanged | cpu_scheduler.py:170 | Sorting a table that is already in key order leaves it unchanged. |
| Sorting.ArrivalOrder | cpu_scheduler.py:139-140 | The order of a stable sort by arrival (also line 170): a permutation of the rows, by non-decreasing arrival, with ties in input order. FCFS, SJF and SRTF all use it. |
| Sorting.ArrangeFacts | cpu_scheduler.py:233 | After reordering, names stay unique, looking a row's name up in the input lists gives back its input position, and the total burst is unchanged. |
| Fcfs.RunInOrder | cpu_scheduler.py:142-157 | Each dispatched row starts at the later of the previous completion and its arrival and finishes one burst later. Waiting and turnaround follow from that; the Gantt entry is (name, arrival, burst). |
| Fcfs.EveryRowDispatched | cpu_scheduler.py:149-156 | Once every row is dispatched: waiting >= 0, turnaround = waiting + burst = completion - arrival. |
| Fcfs.Fcfs | cpu_scheduler.py:137-162 | The FCFS schedule, with the per-row facts above, in input order. The Gantt list holds exactly the total burst. |
| Fcfs.BusyInOrder | cpu_scheduler.py:157 | Entries that each last the burst of the row dispatched there add up to the sum of those bursts. |
| NonPreemptive.SortOrder | cpu_scheduler.py:311 | The sort order for each rule is a permutation of the rows: the arrival order for SJF (line 170), and the stable order on (arrival, priority) for priority scheduling. |
| NonPreemptive.SelectNext | cpu_scheduler.py:220-226 | Returns -1 exactly when no unfinished row has arrived. Otherwise it returns an arrived unfinished row of least rank (burst or priority), and the first such row on ties. |
| NonPreemptive.Dispatch | cpu_scheduler.py:227-237 | Running the pick to completion, updating its metrics and appending its Gantt entry preserves the loop invariant. |
| NonPreemptive.Idle | cpu_scheduler.py:238-239 | When no row is ready, advancing the clock by one preserves the invariant, and the clock is still below the last arrival (termination). |
| NonPreemptive.Step | cpu_scheduler.py:219-239 | One round preserves the invariant and only extends the picks and the Gantt list. Either exactly one more row is picked and completed, or nothing changes except that the clock rises by exactly 1 while still below the last arrival. |
| NonPreemptive.RunPick | cpu_scheduler.py:227-237 | Running the pick to completion preserves the invariant. The pick is marked completed and appended to the picks, its entry starts at the current time and lasts its burst, and the clock moves on by that burst. |
| NonPreemptive.RunSorted | cpu_scheduler.py:319-340 | The selection loop, for either rule (also lines 217-239). The picks are a permutation. Each Gantt entry is the rule's choice at its start time and starts no earlier than the previous end, and later only when nothing was ready. Metrics come from each row's own entry, and the busy time is the total burst picked. |
| NonPreemptive.Finish | cpu_scheduler.py:219 | When no row is left uncompleted, every row has been picked exactly once and has its entry and metrics. |
| NonPreemptive.RunShape | cpu_scheduler.py:236 | Gantt entry k names input row runs[k], lasts its burst, starts after its arrival, and the entries do not overlap. |
| NonPreemptive.Run | cpu_scheduler.py:215-243 | SJF non-preemptive, and priority scheduling (lines 306-343) with the other rule. Each input row runs exactly once, as the rule's choice, with chronological non-overlapping entries. Turnaround = last finish - arrival; waiting = turnaround - burst >= 0; the busy time equals the total burst. |
| Srtf.Scan | cpu_scheduler.py:185-189 | The selection scan. With no eligible row, the holder and the bound are unchanged. Otherwise the first eligible row of least remaining time takes the CPU, and the bound becomes its remaining time. |
| Srtf.Extend | cpu_scheduler.py:193-196 | The last Gantt entry grows by one unit when the same process ran last; otherwise a new unit entry starting at t is appended. |
| Srtf.ExtendWork | cpu_scheduler.py:193-196 | One step adds one unit of busy time, and one unit of work to exactly the running process. The running process's last finish becomes t + 1. |
| Srtf.ExtendShape | cpu_scheduler.py:193-196 | Extending keeps the timeline merged (no two neighbouring entries of one process) and chronological, ending at t + 1. |
| Srtf.FinishedAll | cpu_scheduler.py:184 | The completion counter reaches n exactly when every remaining time is 0. |
| Srtf.Execute | cpu_scheduler.py:193-208 | The state after one busy unit: the remaining time drops by one, the bound resets to infinity at completion, and the waiting time of the finished process is recorded under its input position. |
| Srtf.BusyStep | cpu_scheduler.py:193-209 | A busy unit preserves the invariant (accounting, timeline shape, work done, results), and the total remaining time drops. |
| Srtf.IdleStep | cpu_scheduler.py:190-192 | An idle tick preserves the invariant, and the clock is still below the last arrival. |
| Srtf.ScanRule | cpu_scheduler.py:185-189 | What the scan leaves is the rule's choice for the unit. A found row is arrived, unfinished and of least remaining time. On a tie the holder keeps the CPU, and otherwise the first such row gets it. Finding no row means no row is ready. |
| Srtf.TimelineIdle | cpu_scheduler.py:190-192 | An idle unit extends the trace by an idle entry and changes nothing else. |
| Srtf.TimelineBusy | cpu_scheduler.py:193-197 | A busy unit of the picked row extends the trace by that row. Its remaining time drops by one, and the chart grows by one unit of it. |
| Srtf.FinishTrace | cpu_scheduler.py:184 | When every row has finished, the trace obeys the rule throughout, and it has given each row exactly its initial remaining time. |
| Srtf.TraceUnique | cpu_scheduler.py:184-209 | Two traces of the same length that obey the rule from the same start are equal: the rule leaves no choice. |
| Srtf.ChartUnique | cpu_scheduler.py:184-209 | Two traces that obey the rule and give every row all its work draw the same chart. Units after the work runs out are idle. |
| Srtf.Step | cpu_scheduler.py:184-209 | One iteration preserves the invariant and extends the trace by exactly one unit, idle or the rule's pick, leaving the earlier units as they were; the clock rises by exactly 1. Either the total remaining time drops, or the clock rises while below the last arrival. |
| Srtf.Loop | cpu_scheduler.py:183-209 | Every unit of the trace obeys the rule, and the Gantt list is its chart. Every entry belongs to an arrived row. The timeline is merged and chronological, and its busy time is the total initial remaining time. Each row gets exactly its initial remaining time of CPU, and its waiting time is its last finish less burst and arrival, clamped at 0. |
| Srtf.Run | cpu_scheduler.py:183-214 | The loop, trace included, plus the turnaround pass: turnaround = burst + waiting in input order. |
| Srtf.SjfPreemptive | cpu_scheduler.py:164-214 | With remaining times taken in the sorted order, the Gantt list is the chart of a trace that obeys the rule. Each process gets exactly its burst of CPU time, the busy time equals the total burst, and waiting = last finish - burst - arrival >= 0. |
| Srtf.SjfPreemptiveAsWritten | cpu_scheduler.py:172 | As written: the remaining time of sorted row j starts at the burst of input row j. The Gantt list is the chart of a trace that obeys the rule from those remaining times, and sorted row j has its last finish, clamped waiting time and turnaround from it. |
| Srtf.AsWrittenAgreesWhenSorted | cpu_scheduler.py:170-172 | When the input is already in arrival order, the sort is the identity, and the as-written remaining times equal the sorted bursts. |
| Srtf.AsWrittenSwapsBursts | cpu_scheduler.py:186-197 | On the two-process table below, the as-written loop gives P2 five units of CPU and P1 one, instead of their own bursts. |
| RoundRobin.AdmissionsFacts | cpu_scheduler.py:268-271 | An arrival scan admits exactly the rows in its time window whose name has not yet arrived, each once, in increasing position. |
| RoundRobin.Admit | cpu_scheduler.py:282-285 | The scan method appends exactly those rows to the ready queue and their names to `arrived`. |
| RoundRobin.ScanTracks | cpu_scheduler.py:269-271 | After a scan, `arrived` still lists exactly the names of the admitted rows. |
| RoundRobin.HeadScan | cpu_scheduler.py:268-271 | After the top-of-loop scan, every row that has arrived by t is admitted, and the queue keeps its invariant. |
| RoundRobin.IdleBound | cpu_scheduler.py:272-274 | An empty queue with work left means some row has not arrived yet (termination of the idle ticks). |
| RoundRobin.Slice | cpu_scheduler.py:275-297 | The state after one slice. The head runs min(quantum, remaining) units, and the entry is appended. A finished row's waiting time is recorded. The rows newly arrived during the slice are queued, and then the preempted row if it has work left. |
| RoundRobin.SliceOrder | cpu_scheduler.py:282-297 | After a slice, the queue again holds each admitted unfinished row exactly once, and only such rows. |
| RoundRobin.SliceKeeps | cpu_scheduler.py:275-297 | The popped head has arrived and has work. After the slice, `arrived` and the queue keep their invariants. |
| RoundRobin.SliceResults | cpu_scheduler.py:288-292 | A row's final slice records waiting = finish - burst - arrival. |
| RoundRobin.SliceRecord | cpu_scheduler.py:276-292 | A slice preserves the timeline, work and result invariants, and strictly lowers the total remaining time. |
| RoundRobin.Turn | cpu_scheduler.py:275-297 | The new state is exactly `Serve` of the old one. The head `idx` of the queue runs for min(quantum, remaining) and its entry is appended. A finished head gets waiting = finish - burst - arrival. The queue becomes the rest of the queue, then the rows that arrived during the slice, then `idx` if it has work left. The invariant holds and the total remaining time drops. |
| RoundRobin.Step | cpu_scheduler.py:266-297 | The new state is exactly `Tick` of the old one: the arrival scan, then an idle unit when the queue is still empty, otherwise `Serve`. It is busy exactly when the queue is non-empty after the scan. The invariant holds, and either a slice lowers the total remaining time or the idle tick stays below the last arrival. |
| RoundRobin.HistoryStep | cpu_scheduler.py:298-299 | A turn that leaves work extends the run by one state, each the turn of the one before. |
| RoundRobin.HistoryEnd | cpu_scheduler.py:298-299 | A turn that leaves no work completes the run, and its state is the last. |
| RoundRobin.Agree | cpu_scheduler.py:266-299 | Two complete runs of the same table and quantum agree state by state. |
| RoundRobin.CompletedUnique | cpu_scheduler.py:266-299 | There is only one complete run of a table and a quantum, so the final waiting times and Gantt list are unique. |
| RoundRobin.Loop | cpu_scheduler.py:256-299 | The loop's states form the complete run from the initial state. Its last state holds the returned waiting times and Gantt list, no work is left, and the invariant holds. |
| RoundRobin.Start | cpu_scheduler.py:256-265 | The initial state satisfies the invariant, and work is left. |
| RoundRobin.Finish | cpu_scheduler.py:298-299 | When every remaining time is 0, these results hold. Every entry belongs to an arrived row and lasts between 1 and the quantum, and the entries are chronological. A short entry is its row's last. Each process has run exactly its burst, and its waiting time is its last finish less burst and arrival. |
| RoundRobin.RoundRobin | cpu_scheduler.py:249-304 | The round robin schedule is the last state of the unique complete run of turns: the facts above, with waiting >= 0 and turnaround = burst + waiting for every process. |
| Engine.Parse | cpu_scheduler.py:126-135 | A menu label selects exactly its own algorithm, and any other label selects none. |
| Engine.Report | cpu_scheduler.py:159-162 | The reported averages are the exact means, and average turnaround = average waiting + average burst. |
| Engine.RunAlgorithm | cpu_scheduler.py:126-135 | Each algorithm's results meet that scheduler's own characterization (`Engine.Produces`). FCFS: the dispatch recurrence over the arrival order. SJF and priority: the rule's pick at each entry's start, with times read off the chart. SJF preemptive as written: the chart of a rule-obeying unit trace from the input-order bursts. Round robin: the last state of the complete run of turns. In every case waiting >= 0 and turnaround = waiting + burst. |
| Engine.RunScheduling | cpu_scheduler.py:120-135 | An empty table gives the warning, and an unknown label nothing. Otherwise the outcome is the labelled algorithm's schedule as `Engine.Produces` characterizes it, with SJF Preemptive run as written, waiting >= 0, turnaround = waiting + burst and the exact averages. |

## Left out

- The Tk window, the entry and validation of processes (`add_process`), `reset_all`, the result table and the matplotlib chart (`display_results`): user interface only.
- Floating-point averages: `Mean` is exact rational division.
- Engine.RunScheduling: requires unique process names. FCFS, SJF, SRTF and priority scheduling find a row's place with `list.index` by name, so duplicate names make them overwrite the wrong row. Round robin never admits a row whose name is already in `arrived` (line 269). Such a row never finishes, so the loop idles forever (lines 272-274; the pass at line 301 is never reached).
- Srtf.SjfPreemptive: requires every burst to be positive. With a zero or negative burst the source's `complete != n` loop never ends.
- RoundRobin.RoundRobin: requires positive bursts, a quantum of at least 1 and a non-empty table. A quantum of 0 makes the source loop forever, and so does an empty table (the engine rejects an empty table first). A zero burst does not simply add a zero-length entry. A zero-burst row that is admitted while work is left gets a zero-length entry and waiting = pop time - arrival (lines 287-292). But the all-done test at lines 298-299 already counts a zero-burst row that has not arrived yet. For example, with Q (burst 3, arrival 0) and Z (burst 0, arrival 10), the run ends at t = 3: Z never runs, gets no entry, and keeps waiting 0. A negative burst still ends the loop, because the final slice sets the remaining time to 0, but the clock moves back by the burst (line 289) and the entry has a negative length. The model leaves both cases out.
- Engine.RunScheduling: ties each label's outcome to the scheduler's determining facts (`Engine.Produces`). The derived facts, such as each process running its burst and the Gantt list being chronological, are stated in each scheduler's own contract and not repeated there.
- Fcfs.Fcfs: the Gantt entry starts at the arrival time, as the source records it, even when the process started later. The model keeps it.
- The `completion_time` list of priority scheduling is indexed by sorted position and never reported; the model does not carry it.
- The lists mutated in place are modelled as sequence values inside the methods, with no heap, since nothing else aliases them.

## Findings

| source | as written | input that shows it | evidently intended | confidence | as-written member | corrected member |
|---|---|---|---|---|---|---|
| cpu_scheduler.py:172 | `remaining_time` is copied from `burst_times` in input order, but the loop indexes it by position in the arrival-sorted table (`processes[j]`) | P1 (burst 5, arrival 3) entered before P2 (burst 1, arrival 0): after sorting, P2 gets 5 units of CPU and P1 gets 1 | each process runs for its own burst, so the remaining times should be built from the sorted table | not executed | Srtf.SjfPreemptiveAsWritten, Srtf.AsWrittenSwapsBursts | Srtf.SjfPreemptive |

`Engine.RunScheduling` dispatches "SJF Preemptive" to the as-written
version, as the source does. The corrected version shares the same loop
(`Srtf.Run`) and is proved alongside it. `Srtf.AsWrittenAgreesWhenSorted`
shows that the two coincide when the table is entered in arrival order.
