/**
 * The roles of `taskmaster/src.py`: the coordinator (`master_process`), the
 * worker (`worker_process`) and the dispatcher that picks one of them by rank
 * (`work_delegation`). Every receive and send is an explicit input or output.
 */
module Taskmaster {
  import opened Protocol

  const SizeMessage := "MPI size must be > 1."
  const TasksMessage := "`tasks` must be a list and cannot contain `None`"

  /**
   * The checks `master_process` makes before touching the communicator: the
   * world must hold at least one worker, and `tasks` must be a list without
   * `None`.
   */
  function Validate<T>(tasks: TaskList<T>, size: nat): (v: Verdict)
    ensures v == Accepted <==> size > 1 && tasks.PyList? && AllTasks(tasks.items)
    ensures size <= 1 ==> v == Rejected(ValueError(SizeMessage))
    ensures size > 1 && v.Rejected? ==> v.error == TypeError(TasksMessage)
  {
    if !(size > 1) then Rejected(ValueError(SizeMessage))
    else if !(tasks.PyList? && AllTasks(tasks.items)) then Rejected(TypeError(TasksMessage))
    else Accepted
  }

  /** What one call of `master_process` does, given the order of arrivals. */
  function Coordinate<T>(tasks: TaskList<T>, size: nat, requests: seq<Rank>, verbose: bool): Outcome<T>
  {
    match Validate(tasks, size)
    case Rejected(e) => Raised(e)
    case Accepted => Run(size - 1, tasks.items, requests, verbose)
  }

  /**
   * The coordinator's loop: while the queue is not empty, take the next ready
   * signal, pop the tail of the queue and send it to the rank that signalled.
   * `complete` is false when the arrivals run out first, leaving the
   * coordinator blocked in its receive.
   */
  method Serve<T>(queue: seq<Item<T>>, nworkers: nat, requests: seq<Rank>, verbose: bool)
    returns (sends: seq<Send<T>>, reports: seq<Report<T>>, complete: bool)
    ensures sends == Schedule(queue, requests)
    ensures reports == if verbose then Reports(queue, requests, nworkers) else []
    ensures complete <==> |requests| >= |queue|
  {
    var pending := queue;
    var arrived := 0;
    ghost var waiting := requests;
    sends, reports := [], [];
    while |pending| > 0
      invariant arrived <= |requests| && waiting == requests[arrived..]
      invariant arrived + |pending| == |queue|
      invariant sends + Schedule(pending, waiting) == Schedule(queue, requests)
      invariant verbose ==> reports + Reports(pending, waiting, nworkers) == Reports(queue, requests, nworkers)
      invariant !verbose ==> reports == []
      decreases |pending|
    {
      if arrived == |requests| {
        // No worker signals again: the receive never returns.
        return sends, reports, false;
      }
      var dest := requests[arrived];
      var task := pending[|pending| - 1];
      ServeStep(pending, waiting, nworkers);
      arrived := arrived + 1;
      pending := pending[..|pending| - 1];
      waiting := waiting[1..];
      sends := sends + [Send(dest, task)];
      if verbose && task.Task? {
        reports := reports + [Report(task.value, dest, |pending| - nworkers)];
      }
    }
    complete := true;
  }

  /** One round of the loop: the first arrival is answered with the tail of the queue. */
  lemma ServeStep<T>(pending: seq<Item<T>>, waiting: seq<Rank>, nworkers: nat)
    requires |pending| > 0 && |waiting| > 0
    ensures var task, rest := pending[|pending| - 1], pending[..|pending| - 1];
            Schedule(pending, waiting) == [Send(waiting[0], task)] + Schedule(rest, waiting[1..]) &&
            Reports(pending, waiting, nworkers) ==
              (if task.Task? then [Report(task.value, waiting[0], |rest| - nworkers)] else [])
              + Reports(rest, waiting[1..], nworkers)
  {
  }

  /** `master_process`: validate, build the queue, serve it. */
  method MasterProcess<T>(tasks: TaskList<T>, size: nat, requests: seq<Rank>, verbose: bool)
    returns (r: Outcome<T>)
    ensures r == Coordinate(tasks, size, requests, verbose)
  {
    var verdict := Validate(tasks, size);
    if verdict.Rejected? {
      return Raised(verdict.error);
    }
    var nworkers := size - 1;
    var queue := InitialQueue(nworkers, tasks.items);
    var sends, reports, complete := Serve(queue, nworkers, requests, verbose);
    r := Served(sends, reports, complete);
  }

  /**
   * `worker_process`: signal ready, receive, stop on a stop marker, otherwise
   * call the task function and repeat. `received` holds what the receives
   * return; `stopped` is false when it runs out before a stop marker, leaving
   * the worker blocked in its receive.
   */
  method WorkerProcess<T>(received: seq<Item<T>>) returns (events: seq<WorkerEvent<T>>, stopped: bool)
    ensures events == WorkerTrace(received)
    ensures stopped <==> Shutdown in received
  {
    events, stopped := [], false;
    var next := 0;
    while true
      invariant next <= |received|
      invariant AllTasks(received[..next])
      invariant events == Rounds(received[..next])
      decreases |received| - next
    {
      events := events + [Ready(MasterRank)];
      if next == |received| {
        // Nothing more arrives: the receive never returns.
        assert received[..next] == received;
        FirstStopOfTasks(received);
        break;
      }
      var task := received[next];
      next := next + 1;
      events := events + [Receive(task)];
      if task.Shutdown? {
        FirstStopAt(received, next - 1);
        stopped := true;
        break;
      }
      events := events + [Call(task.value)];
      assert received[..next][..next - 1] == received[..next - 1];
    }
  }

  /** With no stop marker among `received`, the first one is past its end. */
  lemma {:induction false} FirstStopOfTasks<T>(received: seq<Item<T>>)
    requires AllTasks(received)
    ensures FirstStop(received) == |received|
  {
    if |received| > 0 {
      FirstStopOfTasks(received[1..]);
    }
  }

  /** A stop marker at `k` preceded by tasks only is the first stop marker. */
  lemma {:induction false} FirstStopAt<T>(received: seq<Item<T>>, k: nat)
    requires k < |received| && received[k].Shutdown?
    requires forall j :: 0 <= j < k ==> received[j].Task?
    ensures FirstStop(received) == k
  {
    if k > 0 {
      FirstStopAt(received[1..], k - 1);
    }
  }

  /** The one-process fallback: call the task function on every task, in order. */
  method RunSequentially<T>(tasks: TaskList<T>) returns (calls: seq<Item<T>>)
    ensures calls == tasks.items
  {
    calls := [];
    for i := 0 to |tasks.items|
      invariant calls == tasks.items[..i]
    {
      calls := calls + [tasks.items[i]];
    }
  }

  /** The role a participant ends up playing, with what it did. */
  datatype Delegation<T> =
    | CoordinatorRole(outcome: Outcome<T>)
    | WorkerRole(events: seq<WorkerEvent<T>>, stopped: bool)
    | Sequential(calls: seq<Item<T>>)

  /**
   * `work_delegation` as run by the participant of rank `rank` in a world of
   * `size`: rank 0 coordinates and every other rank works when there is more
   * than one participant; a lone participant calls the task function on every
   * task itself and sends nothing.
   */
  method WorkDelegation<T>(rank: Rank, size: nat, tasks: TaskList<T>, requests: seq<Rank>,
                           received: seq<Item<T>>, masterVerbose: bool)
    returns (r: Delegation<T>)
    ensures size > 1 && rank == MasterRank ==> r == CoordinatorRole(Coordinate(tasks, size, requests, masterVerbose))
    ensures size > 1 && rank != MasterRank ==>
              r == WorkerRole(WorkerTrace(received), Shutdown in received)
    ensures size <= 1 ==> r == Sequential(tasks.items)
  {
    if size > 1 {
      if rank == MasterRank {
        var outcome := MasterProcess(tasks, size, requests, masterVerbose);
        r := CoordinatorRole(outcome);
      } else {
        var events, stopped := WorkerProcess(received);
        r := WorkerRole(events, stopped);
      }
    } else {
      var calls := RunSequentially(tasks);
      r := Sequential(calls);
    }
  }
}
