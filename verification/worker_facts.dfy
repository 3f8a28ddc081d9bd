/**
 * What a worker does with the values it receives: one ready signal before every
 * receive, a call of the task function on every value up to the first stop
 * marker, nothing after it.
 */
module WorkerFacts {
  import opened Protocol
  import opened CoordinatorFacts

  /** Round j of a run of rounds is ready, receive of the j-th task, call on its value. */
  lemma {:induction false} RoundsAt<T>(tasks: seq<Item<T>>)
    requires AllTasks(tasks)
    ensures |Rounds(tasks)| == 3 * |tasks|
    ensures forall j :: 0 <= j < |tasks| ==>
              Rounds(tasks)[3 * j] == Ready(MasterRank) &&
              Rounds(tasks)[3 * j + 1] == Receive(tasks[j]) &&
              Rounds(tasks)[3 * j + 2] == Call(tasks[j].value)
  {
    if |tasks| > 0 {
      var front := tasks[..|tasks| - 1];
      RoundsAt(front);
      forall j | 0 <= j < |front|
        ensures tasks[j] == front[j]
      {
      }
    }
  }

  /**
   * The shape of a worker's events, with k the position of the first stop
   * marker: k rounds of ready, receive, call; then one more ready, followed by
   * the receive of the stop marker if there is one (otherwise the worker is
   * still waiting). The task function is never called on a stop marker.
   */
  lemma WorkerTraceShape<T>(received: seq<Item<T>>)
    ensures var trace, k := WorkerTrace(received), FirstStop(received);
            |trace| == 3 * k + (if k < |received| then 2 else 1) &&
            (forall j :: 0 <= j < k ==>
               trace[3 * j] == Ready(MasterRank) &&
               trace[3 * j + 1] == Receive(received[j]) &&
               trace[3 * j + 2] == Call(received[j].value)) &&
            trace[3 * k] == Ready(MasterRank) &&
            (k < |received| ==> trace[3 * k + 1] == Receive(Shutdown))
  {
    var k := FirstStop(received);
    var prefix := received[..k];
    RoundsAt(prefix);
    forall j | 0 <= j < k
      ensures prefix[j] == received[j]
    {
    }
  }

  /** The calls in two pieces of a trace are the calls of the first, then of the second. */
  lemma {:induction false} CallsAppend<T>(a: seq<WorkerEvent<T>>, b: seq<WorkerEvent<T>>)
    ensures Calls(a + b) == Calls(a) + Calls(b)
  {
    if |a| > 0 {
      assert (a + b)[0] == a[0];
      assert (a + b)[1..] == a[1..] + b;
      CallsAppend(a[1..], b);
    } else {
      assert a + b == b;
    }
  }

  /** A run of rounds calls the task function on each task, in order. */
  lemma {:induction false} CallsOfRounds<T>(tasks: seq<Item<T>>)
    requires AllTasks(tasks)
    ensures Calls(Rounds(tasks)) == TaskValues(tasks)
  {
    if |tasks| > 0 {
      var front, last := tasks[..|tasks| - 1], tasks[|tasks| - 1];
      var round: seq<WorkerEvent<T>> := [Ready(MasterRank), Receive(last), Call(last.value)];
      CallsOfRounds(front);
      CallsAppend(Rounds(front), round);
      assert Calls(round) == [last.value] by {
        var r1 := round[1..];
        var r2 := r1[1..];
        assert r2[1..] == [];
        assert Calls(r2) == [last.value];
        assert Calls(r1) == Calls(r2);
      }
      assert tasks == front + [last];
      TaskValuesAppend(front, [last]);
    }
  }

  /**
   * The task function is called on the values received before the first stop
   * marker, in the order received, and on nothing else.
   */
  lemma WorkerCalls<T>(received: seq<Item<T>>)
    ensures Calls(WorkerTrace(received)) == TaskValues(received[..FirstStop(received)])
  {
    var k := FirstStop(received);
    var rounds := Rounds(received[..k]);
    var ready: seq<WorkerEvent<T>> := [Ready(MasterRank)];
    var last: seq<WorkerEvent<T>> := if k < |received| then [Receive(Shutdown)] else [];
    CallsOfRounds(received[..k]);
    CallsAppend(rounds, ready);
    CallsAppend(rounds + ready, last);
    assert Calls(ready) == [] by {
      assert ready[1..] == [];
    }
    assert Calls(last) == [] by {
      if k < |received| {
        assert last[1..] == [];
      }
    }
  }

  /**
   * A worker reads nothing after its first stop marker: whatever would arrive
   * later changes neither its events nor where it stops.
   */
  lemma {:induction false} WorkerStopsAtFirstStop<T>(received: seq<Item<T>>, later: seq<Item<T>>)
    requires FirstStop(received) < |received|
    ensures FirstStop(received + later) == FirstStop(received)
    ensures WorkerTrace(received + later) == WorkerTrace(received)
  {
    var whole := received + later;
    assert whole[0] == received[0];
    if received[0].Task? {
      assert whole[1..] == received[1..] + later;
      WorkerStopsAtFirstStop(received[1..], later);
    }
    var k := FirstStop(received);
    assert whole[..k] == received[..k];
  }
}
