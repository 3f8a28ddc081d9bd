# Task master over MPI: a Dafny model

TaskmasterMPI spreads the calls of one Python function over the ranks of an
MPI communicator. It has three roles:

- **Coordinator.** Rank 0 runs `master_process`. It checks the world size and
  the `tasks` list. It then puts one `None` stop marker per worker in front of
  a copy of the tasks. After that it answers each "ready" signal from any
  rank by popping the tail of that queue and sending the popped item to the
  signalling rank.
- **Worker.** Every other rank runs `worker_process`. It signals "ready" to
  rank 0, receives one value, and stops on `None`. Otherwise it calls the task
  function on the value and repeats.
- **Dispatcher.** `work_delegation` picks the role by rank. In a world of one
  process it calls the task function on every task itself.

The repository has two copies of the roles. `taskmaster/src.py` is the
current one. `TaskmasterMPI/taskmaster.py` is an older one that splits the
validation into two checks with two messages.

The model replaces the message passing with explicit data:

- The order in which ready signals reach the coordinator (`MPI.ANY_SOURCE`) is
  an input sequence of ranks.
- The values a worker's receives return are an input sequence.
- What each role does is an output trace. The coordinator's trace is a list
  of sends `(dest, item)` plus, when verbose, the "sending task …, n tasks
  remaining" lines as `Report` records. The worker's trace is a list of
  `Ready` / `Receive` / `Call` events.
- Python's `None` is `Item.Shutdown`. It is the stop marker in the queue, and
  it is also the element value the coordinator rejects in a caller's list.
- `tasks` is `PyList` when `isinstance(tasks, list)` holds and `OtherIterable`
  otherwise.
- When the input sequence runs out before the loop ends, the real process
  would block forever in `recv`. The model returns `complete == false` (or
  `stopped == false` for a worker) instead.

Modules:

- `Protocol` (`protocol.dfy`): the data types and the specification functions.
  - `Schedule` gives the sends of the coordinator's loop.
  - `Reports` gives its verbose output.
  - `Run` gives a validated coordinator call.
  - `FirstStop` gives where a worker stops.
  - `Rounds` and `WorkerTrace` give a worker's events.
- `Taskmaster` (`taskmaster.dfy`): the roles of `taskmaster/src.py` as methods
  with loops, each proved equal to its specification function.
- `LegacyTaskmaster` (`legacy_taskmaster.dfy`): the roles of
  `TaskmasterMPI/taskmaster.py`. It has its own validation. Its loops are the
  same code, so it reuses `Taskmaster.Serve` and `Taskmaster.WorkerProcess`.
- `CoordinatorFacts` (`coordinator_facts.dfy`): the order, count and content
  of the coordinator's sends, and its reported remaining count.
- `WorkerFacts` (`worker_facts.dfy`): the shape of a worker's trace and the
  calls it makes.
- `SystemFacts` (`system_facts.dfy`): the coordinator and the workers
  together. Every worker stops, and every task is executed exactly once.

## Model

| member | source | states |
|---|---|---|
| Taskmaster.Validate | taskmaster/src.py:36-42 | A call is accepted exactly when size > 1, `tasks` is a list and no element is `None`. With size <= 1 it is a ValueError("MPI size must be > 1."), checked first. Any other rejection is the TypeError with the combined list/`None` message. |
| Taskmaster.MasterProcess | taskmaster/src.py:21-60 | The coordinator's result equals `Coordinate`. A rejected input raises before any message, with no sends. An accepted one serves the initial queue against the arrival order. |
| Taskmaster.Serve | taskmaster/src.py:48-60 | The pop/send loop. Its sends are `Schedule(queue, requests)`. Its verbose reports are `Reports(...)`, and there are none when not verbose. It completes (the queue empties) exactly when there are at least as many arrivals as queued items. |
| Taskmaster.WorkerProcess | taskmaster/src.py:76-89 | The worker loop's events are `WorkerTrace(received)`. It stops exactly when a `None` is among the received values. |
| Taskmaster.RunSequentially | taskmaster/src.py:121-126 | The one-process fallback calls the task function once per element of `tasks`, in input order. |
| Taskmaster.WorkDelegation | taskmaster/src.py:116-126 | With size > 1, rank 0 gets the coordinator's outcome and every other rank gets the worker's trace and stop flag. With size <= 1 the result is the sequential calls on every task in order, with no messages. |
| Protocol.InitialQueue | taskmaster/src.py:44-47 | The queue is `nworkers` stop markers followed by the tasks unchanged, so its length is `nworkers + len(tasks)`. |
| Protocol.FirstStop | taskmaster/src.py:80-83 | The position where a worker breaks. Every value before it is a task, and the value at it is `None` unless the input ran out. |
| Protocol.Stops | taskmaster/src.py:47 | `[None] * n` has length n and holds only stop markers. |
| CoordinatorFacts.ScheduleAt | taskmaster/src.py:48-54 | The loop sends one message per arrival until the queue or the arrivals run out. The i-th message goes to the i-th arriving rank and carries the tail of the queue after i pops. |
| CoordinatorFacts.ScheduleItems | taskmaster/src.py:48-54 | The items sent are the queue in `pop()` order (reversed), cut off where the arrivals stop. |
| CoordinatorFacts.SentItem | taskmaster/src.py:47-54 | From a fresh queue, verbose or not, the i-th send goes to the i-th arrival. It carries `tasks[m-1-i]` for i < m = len(tasks), and a stop marker after that. |
| CoordinatorFacts.SendCount | taskmaster/src.py:44-54 | A run completes exactly when arrivals cover `nworkers + len(tasks)`. It sends min(arrivals, queue length) messages, so a complete run sends exactly `nworkers + len(tasks)`. Each message goes to the rank whose arrival it answers. |
| CoordinatorFacts.SendOrder | taskmaster/src.py:47-53 | A complete run sends `reversed(tasks)` followed by `nworkers` stop markers. |
| CoordinatorFacts.StopsComeLast | taskmaster/src.py:47-53 | With validated tasks, a complete run sends exactly `nworkers` stop markers. A send is a stop marker exactly when it comes after the last task, so every task precedes every stop marker. |
| CoordinatorFacts.SentTasksAreInputReversed | taskmaster/src.py:47-53 | The task values sent are the input's task values reversed, and as multisets equal to the input's, so each task is sent exactly once. |
| CoordinatorFacts.EmptyTaskList | taskmaster/src.py:44-54 | With an empty task list and enough arrivals, the coordinator completes, sends exactly one stop marker per worker, and prints nothing. |
| CoordinatorFacts.ReportsOfInitialQueue | taskmaster/src.py:53-58 | The j-th verbose report names the j-th task popped, `tasks[m-1-j]`, and its arriving rank, with remaining count m-1-j. |
| CoordinatorFacts.ReportedRemaining | taskmaster/src.py:55-58 | After each real task is sent, the printed `len(tasks) - nworkers` equals the number of real tasks still queued and is never negative. The j-th report matches the j-th send, and there is one report per task sent. |
| CoordinatorFacts.EveryWorkerStopped | taskmaster/src.py:44-54 | Suppose every arrival comes from a worker rank and a stopped worker signals no more. Then a complete run, verbose or not, sends a stop marker to every rank 1..nworkers; this "at least one" is what is proved. That no rank gets two stop markers is the silence assumption restated, not a derived fact. |
| WorkerFacts.RoundsAt | taskmaster/src.py:80-89 | A run of completed rounds is ready / receive / call for each task, in order. |
| WorkerFacts.WorkerTraceShape | taskmaster/src.py:76-89 | Take k as the first stop. A worker's events are k rounds of ready, receive of value j, and call on value j. Then comes one more ready, followed by the receive of the `None` when there is one. A receive is always preceded by a ready to rank 0, and the function is never called on `None`. |
| WorkerFacts.CallsOfRounds | taskmaster/src.py:82-89 | The calls of completed rounds are the received task values, in order. |
| WorkerFacts.WorkerCalls | taskmaster/src.py:82-89 | The task function is called exactly on the values received before the first `None`, in receive order. |
| WorkerFacts.WorkerStopsAtFirstStop | taskmaster/src.py:82-83 | Once a worker receives `None`, nothing sent later changes where it stops or what it does. |
| SystemFacts.StopReachesWorker | taskmaster/src.py:54-83 | A rank that is sent a stop marker receives one, so its worker leaves its loop. |
| SystemFacts.ExecutedIsDelivered | taskmaster/src.py:54-89 | If a stopped worker signals no more, the calls made by workers 1..n together are the task values delivered to them. |
| SystemFacts.DeliveredAll | taskmaster/src.py:51-54 | When every send goes to a worker rank, the workers together receive every task value sent. |
| SystemFacts.EveryTaskExecutedOnce | taskmaster/src.py:44-89 | A complete run, verbose or not, with validated tasks, where arrivals come from worker ranks and stopped workers stay silent, stops every worker. The task function is called on every task exactly once across all workers. |
| LegacyTaskmaster.Validate | TaskmasterMPI/taskmaster.py:38-46 | Accepted exactly when size > 1, `tasks` is a list and no element is `None`. Size is checked first (ValueError). A non-list raises TypeError("`tasks` must be a list."), checked before the `None` check. A list with `None` raises TypeError("`tasks` cannot contain `None`."). |
| LegacyTaskmaster.MasterProcess | TaskmasterMPI/taskmaster.py:20-62 | The older coordinator's result equals its `Coordinate`: it raises before any message, or serves `nworkers` stop markers plus the tasks with the same pop/send loop. |
| LegacyTaskmaster.WorkerProcess | TaskmasterMPI/taskmaster.py:82-95 | The older worker's events are `WorkerTrace(received)`, and it stops exactly when a `None` is received. |
| LegacyTaskmaster.AgreesWithCurrent | TaskmasterMPI/taskmaster.py:38-62 | The older and the current coordinator reject the same inputs with the same exception class. On every accepted input they produce identical sends, reports and completion. |

## Left out

- MPI transport is not modelled: `comm.send`/`recv`, `MPI.Status`, `Get_rank`/`Get_size`. The world size and the rank are parameters. Arrival order and received values are input sequences, and sends are output traces.
- Real concurrency is not modelled, including the nondeterminism of `ANY_SOURCE`, which becomes one fixed arrival order per run. A rank that dies, or a receive that never returns, shows up only as `complete == false` / `stopped == false`.
- CoordinatorFacts.EveryWorkerStopped and SystemFacts.EveryTaskExecutedOnce rest on assumptions rather than on a concurrent semantics, because `master_process` places no constraint on `status.Get_source()`:
  - the first `nworkers + len(tasks)` arrivals come from the worker ranks 1..nworkers;
  - a rank that has received `None` sends no more ready signals (`StoppedRanksStaySilent`);
  - for SystemFacts also, messages from the coordinator reach a rank in send order (`ReceivedBy`).
- `deepcopy` is not modelled separately: Dafny sequences are values, so the caller's list cannot be changed by the coordinator. Aliasing is outside the model.
- Printing and timestamps are not modelled. The coordinator's verbose line is kept as a `Report` of task, destination and remaining count. The worker's verbose line and the `worker_verbose` flag are left out, since they change only output.
- The `if master_process:` test in the one-process path (taskmaster/src.py:123) is not modelled. It is always true and only prints.
- The body of the task function and any exception it raises are not modelled. A call is only recorded.
- A `tasks` value that is not iterable is not modelled: `OtherIterable` stands for any non-list iterable.
- The one-process path does no validation. It calls the task function on every element, `None` included, so `RunSequentially` returns `Item` values. The docstring of `work_delegation` (taskmaster/src.py:95-97) speaks only of tasks being evaluated; the model follows the code at taskmaster/src.py:122-126.
- `setup.py` and `example.py` are not part of this model.
