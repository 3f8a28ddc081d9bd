/**
 * The older copy of the roles, `TaskmasterMPI/taskmaster.py`. Its queue loop and
 * worker loop are the same as in `taskmaster/src.py` and are modelled by the same
 * methods; what differs is the validation, which checks the type of `tasks`
 * first and reports a missing list and a `None` element with two different
 * messages.
 */
module LegacyTaskmaster {
  import opened Protocol
  import Taskmaster

  const SizeMessage := "MPI size must be > 1."
  const NotListMessage := "`tasks` must be a list."
  const NoneMessage := "`tasks` cannot contain `None`."

  /**
   * The three checks of the older `master_process`, in their order: size, then
   * list type, then `None` elements.
   */
  function Validate<T>(tasks: TaskList<T>, size: nat): (v: Verdict)
    ensures v == Accepted <==> size > 1 && tasks.PyList? && AllTasks(tasks.items)
    ensures size <= 1 ==> v == Rejected(ValueError(SizeMessage))
    ensures size > 1 && !tasks.PyList? ==> v == Rejected(TypeError(NotListMessage))
    ensures size > 1 && tasks.PyList? && v.Rejected? ==> v == Rejected(TypeError(NoneMessage))
  {
    if !(size > 1) then Rejected(ValueError(SizeMessage))
    else if !tasks.PyList? then Rejected(TypeError(NotListMessage))
    else if exists i :: 0 <= i < |tasks.items| && tasks.items[i].Shutdown? then Rejected(TypeError(NoneMessage))
    else Accepted
  }

  /** What one call of the older `master_process` does, given the order of arrivals. */
  function Coordinate<T>(tasks: TaskList<T>, size: nat, requests: seq<Rank>, verbose: bool): Outcome<T>
  {
    match Validate(tasks, size)
    case Rejected(e) => Raised(e)
    case Accepted => Run(size - 1, tasks.items, requests, verbose)
  }

  /** The older `master_process`: validate, build the queue, serve it. */
  method MasterProcess<T>(tasks: TaskList<T>, size: nat, requests: seq<Rank>, verbose: bool)
    returns (r: Outcome<T>)
    ensures r == Coordinate(tasks, size, requests, verbose)
  {
    var verdict := Validate(tasks, size);
    if verdict.Rejected? {
      return Raised(verdict.error);
    }
    var nworkers := size - 1;
    var queue := InitialQueue(nworkers, tasks.items);
    var sends, reports, complete := Taskmaster.Serve(queue, nworkers, requests, verbose);
    r := Served(sends, reports, complete);
  }

  /** The older `worker_process`, the same loop as the newer one. */
  method WorkerProcess<T>(received: seq<Item<T>>) returns (events: seq<WorkerEvent<T>>, stopped: bool)
    ensures events == WorkerTrace(received)
    ensures stopped <==> Shutdown in received
  {
    events, stopped := Taskmaster.WorkerProcess(received);
  }

  /**
   * The two versions of `master_process` reject exactly the same inputs, with
   * the same kind of exception, and behave identically on the inputs they
   * accept; only the wording of the TypeError differs.
   */
  lemma AgreesWithCurrent<T>(tasks: TaskList<T>, size: nat, requests: seq<Rank>, verbose: bool)
    ensures var legacy, current := Coordinate(tasks, size, requests, verbose),
                              Taskmaster.Coordinate(tasks, size, requests, verbose);
            (legacy.Raised? <==> current.Raised?) &&
            (legacy.Served? ==> legacy == current) &&
            (legacy.Raised? ==> (legacy.error.ValueError? <==> current.error.ValueError?))
  {
  }
}
