/**
 * The coordinator and the workers together. Worker `r` receives, in order, the
 * items the coordinator sends to rank `r` (a point-to-point channel keeps its
 * order), and runs its loop on them. When every ready signal comes from a
 * worker rank and a stopped worker signals no more, every worker stops and
 * every task is executed by exactly one worker.
 */
module SystemFacts {
  import opened Protocol
  import opened CoordinatorFacts
  import opened WorkerFacts

  /** The items the coordinator sends to `rank`, in send order. */
  function ReceivedBy<T>(sends: seq<Send<T>>, rank: Rank): seq<Item<T>>
  {
    if |sends| == 0 then []
    else (if sends[0].dest == rank then [sends[0].item] else []) + ReceivedBy(sends[1..], rank)
  }

  /** The sum of `share(r)` over the ranks r = 1..n. */
  function Total<T>(share: Rank -> multiset<T>, n: nat): multiset<T>
  {
    if n == 0 then multiset{} else Total(share, n - 1) + share(n)
  }

  /** The task values rank `rank` receives, as a multiset. */
  function Share<T>(sends: seq<Send<T>>, rank: Rank): multiset<T>
  {
    multiset(TaskValues(ReceivedBy(sends, rank)))
  }

  /** The arguments of the task-function calls of the worker of rank `rank`, as a multiset. */
  function Work<T>(sends: seq<Send<T>>, rank: Rank): multiset<T>
  {
    multiset(Calls(WorkerTrace(ReceivedBy(sends, rank))))
  }

  function Shares<T>(sends: seq<Send<T>>): Rank -> multiset<T>
  {
    (rank: Rank) => Share(sends, rank)
  }

  function Works<T>(sends: seq<Send<T>>): Rank -> multiset<T>
  {
    (rank: Rank) => Work(sends, rank)
  }

  /** The task values delivered to ranks 1..n, together. */
  function Delivered<T>(sends: seq<Send<T>>, n: nat): multiset<T>
  {
    Total(Shares(sends), n)
  }

  /** The arguments of the task-function calls made by workers 1..n, together. */
  function Executed<T>(sends: seq<Send<T>>, n: nat): multiset<T>
  {
    Total(Works(sends), n)
  }

  /** Adding `extra` to the share of rank `dest` adds it to the total when `dest` is among 1..n. */
  lemma {:induction false} TotalShift<T>(f: Rank -> multiset<T>, g: Rank -> multiset<T>, n: nat, dest: Rank, extra: multiset<T>)
    requires forall r :: f(r) == g(r) + (if r == dest then extra else multiset{})
    ensures Total(f, n) == Total(g, n) + (if 1 <= dest <= n then extra else multiset{})
  {
    if n > 0 {
      TotalShift(f, g, n - 1, dest, extra);
    }
  }

  /** Totals of shares that agree on 1..n agree. */
  lemma {:induction false} TotalSame<T>(f: Rank -> multiset<T>, g: Rank -> multiset<T>, n: nat)
    requires forall r :: 1 <= r <= n ==> f(r) == g(r)
    ensures Total(f, n) == Total(g, n)
  {
    if n > 0 {
      TotalSame(f, g, n - 1);
    }
  }

  /** The first send adds its value, if it is a task, to the share of its destination only. */
  lemma ShareFirst<T>(sends: seq<Send<T>>, rank: Rank)
    requires |sends| > 0
    ensures Share(sends, rank) ==
              Share(sends[1..], rank) + (if rank == sends[0].dest then multiset(TaskValues([sends[0].item])) else multiset{})
  {
    var rest := ReceivedBy(sends[1..], rank);
    if sends[0].dest == rank {
      assert ReceivedBy(sends, rank) == [sends[0].item] + rest;
      TaskValuesAppend([sends[0].item], rest);
    } else {
      assert ReceivedBy(sends, rank) == rest;
    }
  }

  /** Sending one more item adds its value, if it is a task, to exactly one worker's share. */
  lemma DeliveredFirst<T>(sends: seq<Send<T>>, n: nat)
    requires |sends| > 0 && 1 <= sends[0].dest <= n
    ensures Delivered(sends, n) == Delivered(sends[1..], n) + multiset(TaskValues([sends[0].item]))
  {
    var f, g := Shares(sends), Shares(sends[1..]);
    forall r
      ensures f(r) == g(r) + (if r == sends[0].dest then multiset(TaskValues([sends[0].item])) else multiset{})
    {
      ShareFirst(sends, r);
    }
    TotalShift(f, g, n, sends[0].dest, multiset(TaskValues([sends[0].item])));
  }

  /** When every send goes to a rank in 1..n, ranks 1..n together receive every task value sent. */
  lemma {:induction false} DeliveredAll<T>(sends: seq<Send<T>>, n: nat)
    requires forall i :: 0 <= i < |sends| ==> 1 <= sends[i].dest <= n
    ensures Delivered(sends, n) == multiset(TaskValues(Items(sends)))
  {
    if |sends| == 0 {
      DeliveredOfNothing(sends, n);
      assert Items(sends) == [];
    } else {
      var rest := sends[1..];
      DeliveredAll(rest, n);
      DeliveredFirst(sends, n);
      ItemsFirst(sends);
      TaskValuesAppend([sends[0].item], Items(rest));
    }
  }

  lemma ItemsFirst<T>(sends: seq<Send<T>>)
    requires |sends| > 0
    ensures Items(sends) == [sends[0].item] + Items(sends[1..])
  {
    var r := [sends[0].item] + Items(sends[1..]);
    assert |r| == |sends|;
    forall i | 0 <= i < |sends|
      ensures Items(sends)[i] == r[i]
    {
      if i > 0 {
        assert r[i] == Items(sends[1..])[i - 1];
      }
    }
  }

  lemma DeliveredOfNothing<T>(sends: seq<Send<T>>, n: nat)
    requires |sends| == 0
    ensures Delivered(sends, n) == multiset{}
  {
    var f := Shares(sends);
    TotalShift(f, f, n, 0, multiset{});
    TotalOfNothing(f, n);
  }

  lemma {:induction false} TotalOfNothing<T>(f: Rank -> multiset<T>, n: nat)
    requires forall r :: f(r) == multiset{}
    ensures Total(f, n) == multiset{}
  {
    if n > 0 {
      TotalOfNothing(f, n - 1);
    }
  }

  /**
   * Under silence after stopping, the stop marker is the last thing a rank
   * receives, so the worker's calls are exactly the task values it receives.
   */
  lemma {:induction false} CallsAreDeliveries<T>(sends: seq<Send<T>>, rank: Rank)
    requires StoppedRanksStaySilent(sends)
    ensures Calls(WorkerTrace(ReceivedBy(sends, rank))) == TaskValues(ReceivedBy(sends, rank))
  {
    var received := ReceivedBy(sends, rank);
    WorkerCalls(received);
    StopIsLastDelivery(sends, rank);
    var k := FirstStop(received);
    if k < |received| {
      assert received == received[..k] + [Shutdown];
      TaskValuesAppend(received[..k], [Shutdown]);
      assert TaskValues<T>([Shutdown]) == [];
    } else {
      assert received[..k] == received;
    }
  }

  /** Under silence after stopping, nothing follows the first stop marker a rank receives. */
  lemma {:induction false} StopIsLastDelivery<T>(sends: seq<Send<T>>, rank: Rank)
    requires StoppedRanksStaySilent(sends)
    ensures var received := ReceivedBy(sends, rank);
            FirstStop(received) >= |received| - 1
  {
    if |sends| > 0 {
      var rest := sends[1..];
      assert StoppedRanksStaySilent(rest) by {
        forall i, j | 0 <= i < j < |rest| && rest[i].item.Shutdown?
          ensures rest[j].dest != rest[i].dest
        {
          assert rest[i] == sends[i + 1] && rest[j] == sends[j + 1];
        }
      }
      StopIsLastDelivery(rest, rank);
      if sends[0].dest == rank && sends[0].item.Shutdown? {
        NothingAfterStop(sends, rank);
      }
    }
  }

  /** A rank whose first send is a stop marker is sent nothing more. */
  lemma NothingAfterStop<T>(sends: seq<Send<T>>, rank: Rank)
    requires |sends| > 0 && sends[0].dest == rank && sends[0].item.Shutdown?
    requires StoppedRanksStaySilent(sends)
    ensures ReceivedBy(sends[1..], rank) == []
  {
    NotSentTo(sends[1..], rank);
  }

  lemma {:induction false} NotSentTo<T>(sends: seq<Send<T>>, rank: Rank)
    requires forall i :: 0 <= i < |sends| ==> sends[i].dest != rank
    ensures ReceivedBy(sends, rank) == []
  {
    if |sends| > 0 {
      NotSentTo(sends[1..], rank);
    }
  }

  /** Under silence after stopping, the workers together execute exactly what was delivered. */
  lemma ExecutedIsDelivered<T>(sends: seq<Send<T>>, n: nat)
    requires StoppedRanksStaySilent(sends)
    ensures Executed(sends, n) == Delivered(sends, n)
  {
    var f, g := Works(sends), Shares(sends);
    forall r | 1 <= r <= n
      ensures f(r) == g(r)
    {
      CallsAreDeliveries(sends, r);
    }
    TotalSame(f, g, n);
  }

  /** A rank that is sent a stop marker receives one, so its worker stops. */
  lemma {:induction false} StopReachesWorker<T>(sends: seq<Send<T>>, i: nat)
    requires i < |sends| && sends[i].item.Shutdown?
    ensures FirstStop(ReceivedBy(sends, sends[i].dest)) < |ReceivedBy(sends, sends[i].dest)|
  {
    var rank := sends[i].dest;
    var received := ReceivedBy(sends, rank);
    if sends[0].dest == rank && sends[0].item.Shutdown? {
      assert received[0] == Shutdown;
    } else {
      var rest := sends[1..];
      assert i > 0 && rest[i - 1] == sends[i];
      StopReachesWorker(rest, i - 1);
      if sends[0].dest == rank {
        assert received == [sends[0].item] + ReceivedBy(rest, rank);
        assert received[0].Task? && received[1..] == ReceivedBy(rest, rank);
      } else {
        assert received == ReceivedBy(rest, rank);
      }
    }
  }

  /**
   * A complete run of the whole world of `nworkers` workers with validated
   * tasks: every worker receives a stop marker and leaves its loop, and the
   * task function is called on every task exactly once, across all workers.
   */
  lemma EveryTaskExecutedOnce<T>(nworkers: nat, tasks: seq<Item<T>>, requests: seq<Rank>, verbose: bool)
    requires AllTasks(tasks)
    requires |requests| >= nworkers + |tasks|
    requires forall i :: 0 <= i < nworkers + |tasks| ==> 1 <= requests[i] <= nworkers
    requires StoppedRanksStaySilent(Run(nworkers, tasks, requests, verbose).sends)
    ensures var sends := Run(nworkers, tasks, requests, verbose).sends;
            (forall rank :: 1 <= rank <= nworkers ==>
               FirstStop(ReceivedBy(sends, rank)) < |ReceivedBy(sends, rank)|) &&
            Executed(sends, nworkers) == multiset(TaskValues(tasks))
  {
    var sends := Run(nworkers, tasks, requests, verbose).sends;
    SendCount(nworkers, tasks, requests, verbose);
    EveryWorkerStopped(nworkers, tasks, requests, verbose);
    forall rank | 1 <= rank <= nworkers
      ensures FirstStop(ReceivedBy(sends, rank)) < |ReceivedBy(sends, rank)|
    {
      assert rank in WorkerRanks(nworkers);
      var i :| 0 <= i < |sends| && sends[i].item.Shutdown? && sends[i].dest == rank;
      StopReachesWorker(sends, i);
    }
    ExecutedIsDelivered(sends, nworkers);
    DeliveredAll(sends, nworkers);
    SentTasksAreInputReversed(nworkers, tasks, requests, verbose);
  }
}
