/**
 * What a coordinator run that has passed validation sends: how many messages,
 * in which order, to whom, and what it reports as remaining. The statements are
 * about `Protocol.Run`, the outcome both versions of `master_process` produce
 * once their checks accept the input.
 */
module CoordinatorFacts {
  import opened Protocol

  function Min(a: nat, b: nat): nat
  {
    if a <= b then a else b
  }

  // ---------------------------------------------------------------------------
  // Sequence facts

  lemma {:induction false} ReversedAt<X>(s: seq<X>)
    ensures |Reversed(s)| == |s|
    ensures forall k :: 0 <= k < |s| ==> Reversed(s)[k] == s[|s| - 1 - k]
  {
    if |s| > 0 {
      ReversedAt(s[..|s| - 1]);
    }
  }

  lemma ReversedAppend<X>(a: seq<X>, b: seq<X>)
    ensures Reversed(a + b) == Reversed(b) + Reversed(a)
  {
    ReversedAt(a + b);
    ReversedAt(a);
    ReversedAt(b);
    var r := Reversed(b) + Reversed(a);
    forall k | 0 <= k < |a| + |b|
      ensures Reversed(a + b)[k] == r[k]
    {
      if k < |b| {
        assert (a + b)[|a| + |b| - 1 - k] == b[|b| - 1 - k];
      } else {
        assert (a + b)[|a| + |b| - 1 - k] == a[|a| - 1 - (k - |b|)];
      }
    }
  }

  lemma {:induction false} ReversedMultiset<X>(s: seq<X>)
    ensures multiset(Reversed(s)) == multiset(s)
  {
    if |s| > 0 {
      ReversedMultiset(s[..|s| - 1]);
      assert s == s[..|s| - 1] + [s[|s| - 1]];
    }
  }

  lemma {:induction false} TaskValuesAppend<T>(a: seq<Item<T>>, b: seq<Item<T>>)
    ensures TaskValues(a + b) == TaskValues(a) + TaskValues(b)
  {
    if |a| > 0 {
      assert (a + b)[0] == a[0];
      assert (a + b)[1..] == a[1..] + b;
      TaskValuesAppend(a[1..], b);
    } else {
      assert a + b == b;
    }
  }

  lemma {:induction false} TaskValuesOfStops<T>(n: nat)
    ensures TaskValues(Stops<T>(n)) == []
  {
    if n > 0 {
      assert Stops<T>(n)[1..] == Stops<T>(n - 1);
      TaskValuesOfStops<T>(n - 1);
    }
  }

  lemma {:induction false} TaskValuesOfTasks<T>(s: seq<Item<T>>)
    requires AllTasks(s)
    ensures |TaskValues(s)| == |s|
    ensures forall i :: 0 <= i < |s| ==> TaskValues(s)[i] == s[i].value
  {
    if |s| > 0 {
      TaskValuesOfTasks(s[1..]);
    }
  }

  lemma {:induction false} TaskValuesReversed<T>(s: seq<Item<T>>)
    ensures TaskValues(Reversed(s)) == Reversed(TaskValues(s))
  {
    if |s| > 0 {
      var init, last := s[..|s| - 1], s[|s| - 1];
      TaskValuesReversed(init);
      assert s == init + [last];
      TaskValuesAppend(init, [last]);
      TaskValuesAppend([last], Reversed(init));
      ReversedAppend(TaskValues(init), TaskValues([last]));
      var tail := TaskValues([last]);
      assert |tail| <= 1;
      assert Reversed(tail) == tail;
    }
  }

  lemma {:induction false} StopCountAppend<T>(a: seq<Item<T>>, b: seq<Item<T>>)
    ensures StopCount(a + b) == StopCount(a) + StopCount(b)
  {
    if |a| > 0 {
      assert (a + b)[0] == a[0];
      assert (a + b)[1..] == a[1..] + b;
      StopCountAppend(a[1..], b);
    } else {
      assert a + b == b;
    }
  }

  lemma {:induction false} StopCountOfTasks<T>(s: seq<Item<T>>)
    requires AllTasks(s)
    ensures StopCount(s) == 0
  {
    if |s| > 0 {
      StopCountOfTasks(s[1..]);
    }
  }

  lemma {:induction false} StopCountOfStops<T>(n: nat)
    ensures StopCount(Stops<T>(n)) == n
  {
    if n > 0 {
      assert Stops<T>(n)[1..] == Stops<T>(n - 1);
      StopCountOfStops<T>(n - 1);
    }
  }

  // ---------------------------------------------------------------------------
  // One step of the loop

  /**
   * The i-th send answers the i-th arrival, and carries the element the i-th
   * `pop()` removes: the tail of the queue once i elements are gone. The loop
   * sends one message per arrival until the queue or the arrivals run out.
   */
  lemma {:induction false} ScheduleAt<T>(queue: seq<Item<T>>, requests: seq<Rank>)
    ensures |Schedule(queue, requests)| == Min(|queue|, |requests|)
    ensures forall i :: 0 <= i < Min(|queue|, |requests|) ==>
              Schedule(queue, requests)[i] == Send(requests[i], queue[|queue| - 1 - i])
    decreases |queue|
  {
    if |queue| > 0 && |requests| > 0 {
      ScheduleAt(queue[..|queue| - 1], requests[1..]);
    }
  }

  /** The items the loop sends are the queue in `pop()` order, cut off where arrivals stop. */
  lemma {:induction false} ScheduleItems<T>(queue: seq<Item<T>>, requests: seq<Rank>)
    ensures Items(Schedule(queue, requests)) == Reversed(queue)[..Min(|queue|, |requests|)]
  {
    ScheduleAt(queue, requests);
    ReversedAt(queue);
  }

  // ---------------------------------------------------------------------------
  // A whole run from the initial queue

  /** The i-th element sent from a fresh queue: the tasks from the last one back, then stop markers. */
  lemma SentItem<T>(nworkers: nat, tasks: seq<Item<T>>, requests: seq<Rank>, verbose: bool, i: nat)
    requires i < Min(nworkers + |tasks|, |requests|)
    ensures |Run(nworkers, tasks, requests, verbose).sends| == Min(nworkers + |tasks|, |requests|)
    ensures Run(nworkers, tasks, requests, verbose).sends[i] ==
              Send(requests[i], if i < |tasks| then tasks[|tasks| - 1 - i] else Shutdown)
  {
    var queue := InitialQueue(nworkers, tasks);
    ScheduleAt(queue, requests);
    if i < |tasks| {
      assert queue[|queue| - 1 - i] == queue[nworkers..][|tasks| - 1 - i];
    }
  }

  /**
   * A run that is not cut short sends exactly `nworkers + len(tasks)` messages,
   * one per arrival in arrival order, and empties the queue; a run whose
   * arrivals run out sends one message per arrival and stays blocked.
   */
  lemma SendCount<T>(nworkers: nat, tasks: seq<Item<T>>, requests: seq<Rank>, verbose: bool)
    ensures Run(nworkers, tasks, requests, verbose).complete <==> |requests| >= nworkers + |tasks|
    ensures |Run(nworkers, tasks, requests, verbose).sends| == Min(nworkers + |tasks|, |requests|)
    ensures Run(nworkers, tasks, requests, verbose).complete ==>
              |Run(nworkers, tasks, requests, verbose).sends| == nworkers + |tasks|
    ensures forall i :: 0 <= i < |Run(nworkers, tasks, requests, verbose).sends| ==>
              Run(nworkers, tasks, requests, verbose).sends[i].dest == requests[i]
  {
    ScheduleAt(InitialQueue(nworkers, tasks), requests);
  }

  /**
   * In a complete run the items go out as the tasks in reverse order followed
   * by `nworkers` stop markers: every real task is sent before any stop marker,
   * and the stop markers are the last `nworkers` sends.
   */
  lemma SendOrder<T>(nworkers: nat, tasks: seq<Item<T>>, requests: seq<Rank>, verbose: bool)
    requires |requests| >= nworkers + |tasks|
    ensures Items(Run(nworkers, tasks, requests, verbose).sends) == Reversed(tasks) + Stops(nworkers)
  {
    var queue := InitialQueue(nworkers, tasks);
    assert queue == Stops(nworkers) + tasks;
    calc {
      Items(Run(nworkers, tasks, requests, verbose).sends);
      Items(Schedule(queue, requests));
      { ScheduleItemsComplete(queue, requests); }
      Reversed(queue);
      { ReversedAppend(Stops<T>(nworkers), tasks); }
      Reversed(tasks) + Reversed(Stops<T>(nworkers));
      { ReversedStops<T>(nworkers); }
      Reversed(tasks) + Stops(nworkers);
    }
  }

  /** When arrivals do not run out, the loop sends the whole queue in `pop()` order. */
  lemma {:induction false} ScheduleItemsComplete<T>(queue: seq<Item<T>>, requests: seq<Rank>)
    requires |requests| >= |queue|
    ensures Items(Schedule(queue, requests)) == Reversed(queue)
  {
    ScheduleItems(queue, requests);
    assert Reversed(queue)[..Min(|queue|, |requests|)] == Reversed(queue);
  }

  lemma ReversedStops<T>(n: nat)
    ensures Reversed(Stops<T>(n)) == Stops<T>(n)
  {
    ReversedAt(Stops<T>(n));
  }

  /**
   * With validated tasks (no `None`), a complete run sends exactly `nworkers`
   * stop markers, exactly at the positions after the last task.
   */
  lemma StopsComeLast<T>(nworkers: nat, tasks: seq<Item<T>>, requests: seq<Rank>, verbose: bool)
    requires AllTasks(tasks)
    requires |requests| >= nworkers + |tasks|
    ensures var sends := Run(nworkers, tasks, requests, verbose).sends;
            StopCount(Items(sends)) == nworkers &&
            (forall i :: 0 <= i < |sends| ==> (sends[i].item.Shutdown? <==> i >= |tasks|))
  {
    var sends := Run(nworkers, tasks, requests, verbose).sends;
    SendOrder(nworkers, tasks, requests, verbose);
    ReversedAt(tasks);
    assert AllTasks(Reversed(tasks));
    StopCountAppend(Reversed(tasks), Stops<T>(nworkers));
    StopCountOfTasks(Reversed(tasks));
    StopCountOfStops<T>(nworkers);
    forall i | 0 <= i < |sends|
      ensures sends[i].item.Shutdown? <==> i >= |tasks|
    {
      assert sends[i].item == (Reversed(tasks) + Stops(nworkers))[i];
    }
  }

  /**
   * With validated tasks, the real tasks a complete run sends are the input in
   * reverse order, so each task is sent exactly once: as multisets the sent
   * values are the input values.
   */
  lemma SentTasksAreInputReversed<T>(nworkers: nat, tasks: seq<Item<T>>, requests: seq<Rank>, verbose: bool)
    requires |requests| >= nworkers + |tasks|
    ensures var sent := TaskValues(Items(Run(nworkers, tasks, requests, verbose).sends));
            sent == Reversed(TaskValues(tasks)) &&
            multiset(sent) == multiset(TaskValues(tasks))
  {
    SendOrder(nworkers, tasks, requests, verbose);
    TaskValuesAppend(Reversed(tasks), Stops<T>(nworkers));
    TaskValuesOfStops<T>(nworkers);
    TaskValuesReversed(tasks);
    ReversedMultiset(TaskValues(tasks));
  }

  /** With no tasks, a complete run sends exactly one stop marker per worker and reports nothing. */
  lemma EmptyTaskList<T>(nworkers: nat, requests: seq<Rank>, verbose: bool)
    requires |requests| >= nworkers
    ensures var outcome := Run<T>(nworkers, [], requests, verbose);
            outcome.complete &&
            Items(outcome.sends) == Stops(nworkers) &&
            outcome.reports == []
  {
    SendOrder<T>(nworkers, [], requests, verbose);
    assert InitialQueue<T>(nworkers, []) == Stops<T>(nworkers);
    assert Reversed<Item<T>>([]) == [];
    ReportsOfStops<T>(nworkers, requests);
  }

  // ---------------------------------------------------------------------------
  // The reported remaining count

  lemma {:induction false} ReportsOfStops<T>(nworkers: nat, requests: seq<Rank>)
    ensures Reports(Stops<T>(nworkers), requests, nworkers) == []
  {
    ReportsOfStopsFrom<T>(nworkers, nworkers, requests);
  }

  lemma {:induction false} ReportsOfStopsFrom<T>(n: nat, nworkers: nat, requests: seq<Rank>)
    ensures Reports(Stops<T>(n), requests, nworkers) == []
  {
    if n > 0 && |requests| > 0 {
      assert Stops<T>(n)[..n - 1] == Stops<T>(n - 1);
      ReportsOfStopsFrom<T>(n - 1, nworkers, requests[1..]);
    }
  }

  /**
   * The reports of a run from `Stops(nworkers) + tasks`: the j-th report is about
   * the j-th send, the task `tasks[m-1-j]`, and gives `m-1-j` as remaining.
   */
  lemma {:induction false} ReportsOfInitialQueue<T>(nworkers: nat, tasks: seq<Item<T>>, requests: seq<Rank>)
    requires AllTasks(tasks)
    ensures var reports := Reports(InitialQueue(nworkers, tasks), requests, nworkers);
            var m := |tasks|;
            |reports| == Min(m, |requests|) &&
            forall j :: 0 <= j < |reports| ==>
              reports[j] == Report(tasks[m - 1 - j].value, requests[j], m - 1 - j)
    decreases |tasks|
  {
    var queue := InitialQueue(nworkers, tasks);
    var m := |tasks|;
    if m == 0 {
      assert queue == Stops<T>(nworkers);
      ReportsOfStops<T>(nworkers, requests);
    } else if |requests| > 0 {
      var init := tasks[..m - 1];
      assert queue[..|queue| - 1] == InitialQueue(nworkers, init);
      ReportsOfInitialQueue(nworkers, init, requests[1..]);
    }
  }

  /**
   * Whenever the verbose coordinator has just sent a real task, the count it
   * prints, `len(tasks) - nworkers`, is the number of real tasks still queued,
   * and it is never negative. The j-th report is about the j-th send.
   */
  lemma ReportedRemaining<T>(nworkers: nat, tasks: seq<Item<T>>, requests: seq<Rank>)
    requires AllTasks(tasks)
    ensures var outcome := Run(nworkers, tasks, requests, true);
            var queue := InitialQueue(nworkers, tasks);
            |outcome.reports| == Min(|tasks|, |requests|) &&
            |outcome.reports| <= |outcome.sends| &&
            forall j :: 0 <= j < |outcome.reports| ==>
              outcome.sends[j] == Send(outcome.reports[j].dest, Task(outcome.reports[j].task)) &&
              outcome.reports[j].remaining == |TaskValues(queue[..|queue| - 1 - j])| &&
              outcome.reports[j].remaining >= 0
  {
    var outcome := Run(nworkers, tasks, requests, true);
    var queue := InitialQueue(nworkers, tasks);
    var m := |tasks|;
    ReportsOfInitialQueue(nworkers, tasks, requests);
    SendCount(nworkers, tasks, requests, true);
    forall j | 0 <= j < |outcome.reports|
      ensures outcome.sends[j] == Send(outcome.reports[j].dest, Task(outcome.reports[j].task))
      ensures outcome.reports[j].remaining == |TaskValues(queue[..|queue| - 1 - j])|
      ensures outcome.reports[j].remaining >= 0
    {
      SentItem(nworkers, tasks, requests, true, j);
      var rest := tasks[..m - 1 - j];
      assert queue[..|queue| - 1 - j] == Stops<T>(nworkers) + rest;
      TaskValuesAppend(Stops<T>(nworkers), rest);
      TaskValuesOfStops<T>(nworkers);
      TaskValuesOfTasks(rest);
    }
  }

  // ---------------------------------------------------------------------------
  // Termination of every worker

  /**
   * A rank that has been sent a stop marker never signals again: what a
   * worker does once it receives `None`.
   */
  ghost predicate StoppedRanksStaySilent<T>(sends: seq<Send<T>>)
  {
    forall i, j :: 0 <= i < j < |sends| && sends[i].item.Shutdown? ==> sends[j].dest != sends[i].dest
  }

  /** The ranks that receive a stop marker in `sends`. */
  ghost function StoppedRanks<T>(sends: seq<Send<T>>): set<Rank>
  {
    set i | 0 <= i < |sends| && sends[i].item.Shutdown? :: sends[i].dest
  }

  /** The worker ranks 1..nworkers. */
  ghost function WorkerRanks(nworkers: nat): (ranks: set<Rank>)
    ensures forall w :: w in ranks <==> 1 <= w <= nworkers
    ensures |ranks| == nworkers
  {
    if nworkers == 0 then {} else WorkerRanks(nworkers - 1) + {nworkers}
  }

  /** The ranks at positions lo..hi-1 of `sends`, when pairwise distinct, number hi - lo. */
  lemma {:induction false} DistinctRanksCount<T>(sends: seq<Send<T>>, lo: nat, hi: nat)
    requires lo <= hi <= |sends|
    requires forall i, j :: lo <= i < j < hi ==> sends[i].dest != sends[j].dest
    ensures |set i | lo <= i < hi :: sends[i].dest| == hi - lo
    decreases hi - lo
  {
    if lo < hi {
      DistinctRanksCount(sends, lo + 1, hi);
      var rest := set i | lo + 1 <= i < hi :: sends[i].dest;
      assert (set i | lo <= i < hi :: sends[i].dest) == rest + {sends[lo].dest};
      assert sends[lo].dest !in rest;
    }
  }

  lemma SubsetOfSameSize(a: set<Rank>, b: set<Rank>)
    requires a <= b && |a| == |b|
    ensures a == b
  {
    if a != b {
      var x :| x in b && x !in a;
      assert a <= b - {x};
      assert |b - {x}| == |b| - 1;
      SubsetCount(a, b - {x});
    }
  }

  lemma {:induction false} SubsetCount(a: set<Rank>, b: set<Rank>)
    requires a <= b
    ensures |a| <= |b|
  {
    assert b == a + (b - a);
  }

  /**
   * When every arrival comes from a worker rank and a stopped worker signals
   * no more, a complete run with validated tasks sends every worker exactly
   * one stop marker: no worker is left waiting for work.
   */
  lemma EveryWorkerStopped<T>(nworkers: nat, tasks: seq<Item<T>>, requests: seq<Rank>, verbose: bool)
    requires AllTasks(tasks)
    requires |requests| >= nworkers + |tasks|
    requires forall i :: 0 <= i < nworkers + |tasks| ==> 1 <= requests[i] <= nworkers
    requires StoppedRanksStaySilent(Run(nworkers, tasks, requests, verbose).sends)
    ensures var sends := Run(nworkers, tasks, requests, verbose).sends;
            StoppedRanks(sends) == WorkerRanks(nworkers) &&
            forall i, j ::
              (0 <= i < |sends| && 0 <= j < |sends| && sends[i].item.Shutdown? &&
               sends[j].item.Shutdown? && sends[i].dest == sends[j].dest) ==> i == j
  {
    var sends := Run(nworkers, tasks, requests, verbose).sends;
    var m := |tasks|;
    SendCount(nworkers, tasks, requests, verbose);
    StopsComeLast(nworkers, tasks, requests, verbose);
    assert StoppedRanks(sends) == set i | m <= i < m + nworkers :: sends[i].dest;
    DistinctRanksCount(sends, m, m + nworkers);
    SubsetOfSameSize(StoppedRanks(sends), WorkerRanks(nworkers));
  }
}
