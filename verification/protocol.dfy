/**
 * Shared vocabulary of the task master: what travels between the coordinator
 * (rank 0) and the workers, what the coordinator's queue holds, and the
 * specification functions that say what one coordinator run and one worker run
 * produce. The message-passing substrate is replaced by explicit inputs (the
 * order in which ready signals arrive, the values a worker receives) and
 * explicit outputs (traces of sends and of calls to the task function).
 */
module Protocol {

  /** A participant's rank in the communicator; the coordinator is rank 0. */
  type Rank = nat

  const MasterRank: Rank := 0

  /**
   * A value in the coordinator's queue or in a caller's task list.
   * `Shutdown` is the model of Python's `None`: inside the queue it is the stop
   * marker, inside a caller's list it is the value the coordinator rejects.
   */
  datatype Item<T> = Task(value: T) | Shutdown

  /**
   * The `tasks` argument as the caller passes it: `PyList` when
   * `isinstance(tasks, list)` holds, `OtherIterable` for any other iterable
   * (a tuple, a generator), which the coordinator rejects but the one-process
   * fallback still iterates over.
   */
  datatype TaskList<T> = PyList(items: seq<Item<T>>) | OtherIterable(items: seq<Item<T>>)

  /** One `comm.send(task, dest=dest)` of the coordinator. */
  datatype Send<T> = Send(dest: Rank, item: Item<T>)

  /**
   * What the coordinator prints, when verbose, after sending a real task:
   * the task, its destination and `len(tasks) - nworkers`, the number it
   * reports as remaining.
   */
  datatype Report<T> = Report(task: T, dest: Rank, remaining: int)

  /** The two exceptions the coordinator raises, with their messages. */
  datatype Error = ValueError(message: string) | TypeError(message: string)

  /** The outcome of input validation, which runs before any message. */
  datatype Verdict = Accepted | Rejected(error: Error)

  /**
   * The outcome of one coordinator call. `Raised` carries no trace: an error
   * is raised before anything is received or sent. `Served` carries every send
   * and report in order; `complete` is false when the coordinator is left
   * blocked in a receive because no further ready signal arrives.
   */
  datatype Outcome<T> =
    | Raised(error: Error)
    | Served(sends: seq<Send<T>>, reports: seq<Report<T>>, complete: bool)

  /**
   * One step of a worker: the ready signal it sends to the coordinator, a
   * value it receives, a call `func(v)` of the task function.
   */
  datatype WorkerEvent<T> = Ready(dest: Rank) | Receive(item: Item<T>) | Call(arg: T)

  // ---------------------------------------------------------------------------
  // Sequences of items

  /** True when no element of `items` is a stop marker (Python: no `None`). */
  predicate AllTasks<T>(items: seq<Item<T>>)
  {
    forall i :: 0 <= i < |items| ==> items[i].Task?
  }

  /** `[None] * n`: n stop markers. */
  function Stops<T>(n: nat): (r: seq<Item<T>>)
    ensures |r| == n
    ensures forall i :: 0 <= i < n ==> r[i] == Shutdown
  {
    seq(n, _ => Shutdown)
  }

  /**
   * The coordinator's queue at the start of its loop: one stop marker per
   * worker in front of a copy of the caller's tasks.
   */
  function InitialQueue<T>(nworkers: nat, tasks: seq<Item<T>>): (q: seq<Item<T>>)
    ensures |q| == nworkers + |tasks|
    ensures forall i :: 0 <= i < nworkers ==> q[i] == Shutdown
    ensures q[nworkers..] == tasks
  {
    Stops(nworkers) + tasks
  }

  /** The values of the real tasks in `items`, in order, skipping stop markers. */
  function TaskValues<T>(items: seq<Item<T>>): seq<T>
  {
    if |items| == 0 then []
    else (if items[0].Task? then [items[0].value] else []) + TaskValues(items[1..])
  }

  /** The number of stop markers in `items`. */
  function StopCount<T>(items: seq<Item<T>>): nat
  {
    if |items| == 0 then 0
    else (if items[0].Shutdown? then 1 else 0) + StopCount(items[1..])
  }

  /**
   * The elements of `s` in the order repeated `pop()` takes them from a
   * Python list: the last one first.
   */
  function Reversed<X>(s: seq<X>): (r: seq<X>)
    ensures |r| == |s|
  {
    if |s| == 0 then [] else [s[|s| - 1]] + Reversed(s[..|s| - 1])
  }

  // ---------------------------------------------------------------------------
  // The coordinator

  /** The item each send carries, in send order. */
  function Items<T>(sends: seq<Send<T>>): (r: seq<Item<T>>)
    ensures |r| == |sends|
    ensures forall i :: 0 <= i < |sends| ==> r[i] == sends[i].item
  {
    seq(|sends|, i requires 0 <= i < |sends| => sends[i].item)
  }

  /**
   * The sends of the coordinator's loop from `queue`, when the ready signals
   * arrive from `requests` in this order: each arrival is answered by popping
   * the tail of the queue and sending it to the requester. The loop stops when
   * the queue is empty; when the requests run out first, the coordinator waits
   * and sends nothing more.
   */
  function Schedule<T>(queue: seq<Item<T>>, requests: seq<Rank>): seq<Send<T>>
    decreases |queue|
  {
    if |queue| == 0 || |requests| == 0 then []
    else [Send(requests[0], queue[|queue| - 1])] + Schedule(queue[..|queue| - 1], requests[1..])
  }

  /**
   * The reports the verbose coordinator prints along the same run: one per
   * real task sent, with `len(queue) - nworkers` taken after the pop.
   */
  function Reports<T>(queue: seq<Item<T>>, requests: seq<Rank>, nworkers: nat): seq<Report<T>>
    decreases |queue|
  {
    if |queue| == 0 || |requests| == 0 then []
    else
      var item := queue[|queue| - 1];
      var rest := queue[..|queue| - 1];
      (if item.Task? then [Report(item.value, requests[0], |rest| - nworkers)] else [])
      + Reports(rest, requests[1..], nworkers)
  }

  /**
   * The outcome of a coordinator that has passed validation: it serves its
   * initial queue against the arrivals in `requests`.
   */
  function Run<T>(nworkers: nat, tasks: seq<Item<T>>, requests: seq<Rank>, verbose: bool): Outcome<T>
  {
    var queue := InitialQueue(nworkers, tasks);
    Served(Schedule(queue, requests),
           if verbose then Reports(queue, requests, nworkers) else [],
           |requests| >= |queue|)
  }

  // ---------------------------------------------------------------------------
  // The worker

  /**
   * The position of the first stop marker in what a worker receives, or the
   * number of values received when none of them is a stop marker.
   */
  function FirstStop<T>(received: seq<Item<T>>): (k: nat)
    ensures k <= |received|
    ensures forall j :: 0 <= j < k ==> received[j].Task?
    ensures k < |received| ==> received[k].Shutdown?
  {
    if |received| == 0 || received[0].Shutdown? then 0
    else 1 + FirstStop(received[1..])
  }

  /**
   * The events of a worker's completed rounds, one per task received: a ready
   * signal to the coordinator, the receive of the task, the call of the task
   * function on it.
   */
  function Rounds<T>(tasks: seq<Item<T>>): seq<WorkerEvent<T>>
    requires AllTasks(tasks)
  {
    if |tasks| == 0 then []
    else
      var last := tasks[|tasks| - 1];
      Rounds(tasks[..|tasks| - 1]) + [Ready(MasterRank), Receive(last), Call(last.value)]
  }

  /**
   * The events of a worker whose receives return `received` in order: a full
   * round for every task before the first stop marker, then one more ready
   * signal, followed by the receive of the stop marker, after which the worker
   * leaves its loop. When `received` holds no stop marker, the worker is left
   * blocked in the receive that follows its last ready signal.
   */
  function WorkerTrace<T>(received: seq<Item<T>>): seq<WorkerEvent<T>>
  {
    var k := FirstStop(received);
    Rounds(received[..k]) + [Ready(MasterRank)] + (if k < |received| then [Receive(Shutdown)] else [])
  }

  /** The arguments of the task-function calls in a worker's events, in order. */
  function Calls<T>(events: seq<WorkerEvent<T>>): seq<T>
  {
    if |events| == 0 then []
    else (if events[0].Call? then [events[0].arg] else []) + Calls(events[1..])
  }
}
