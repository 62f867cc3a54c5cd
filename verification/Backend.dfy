/** The storage backend object (backends/base.cpp): its queue, and one turn of the worker. */
module Backend {
  import Queue

  /** How a foreign storage call ends; after a save the worker may also be interrupted. */
  datatype CallResult = Returns | Throws
  datatype SaveResult = Saved | SaveThrows | SavedThenInterrupted

  class BaseImpl<M> {
    var messages: seq<M>
    var maxMessages: nat
    var worker: Queue.Worker<M>
    // What the storage thread does before call number n of add_message gets the lock.
    const schedule: nat -> seq<Queue.WorkerStep<M>>
    var calls: nat
    ghost var added: seq<M>
    ghost var saved: seq<M>
    ghost var dropped: seq<M>

    ghost function State(): Queue.State<M>
      reads this
    {
      Queue.State(messages, maxMessages, worker, added, saved, dropped)
    }

    constructor (schedule: nat -> seq<Queue.WorkerStep<M>>)
      ensures State() == Queue.Initial(4096) && this.schedule == schedule && calls == 0
    {
      this.schedule, calls := schedule, 0;
      messages, maxMessages := [], 4096;
      worker, added, saved, dropped := Queue.Sleeping, [], [], [];
    }

    method SetCapacity(capacity: nat)
      modifies this
      ensures State() == Queue.Next(old(State()), Queue.SetCapacity(capacity)) && calls == old(calls)
      ensures maxMessages == capacity && messages == old(messages)
    {
      maxMessages := capacity;
    }

    /** The part of add_message under the lock: throws std::overflow_error when the queue is
        full. */
    method Push(msg: M) returns (threw: bool)
      modifies this
      ensures State() == Queue.Next(old(State()), Queue.Add(msg)) && calls == old(calls)
      ensures threw == (|old(messages)| >= maxMessages)
      ensures maxMessages == old(maxMessages)
      ensures messages == if threw then old(messages) else old(messages) + [msg]
    {
      if |messages| >= maxMessages {
        return true;
      }
      messages, added := messages + [msg], added + [msg];
      return false;
    }

    /** One turn of the loop over the batch: the save, then the interruption point. */
    method SaveNext(result: SaveResult)
      requires worker.InBatch? && worker.todo != []
      modifies this
      ensures State() == Queue.Next(old(State()), StepOf(result)) && calls == old(calls)
    {
      var todo := worker.todo;
      match result {
        case Saved =>
          saved, worker := saved + [todo[0]], Queue.InBatch(todo[1..]);
        case SaveThrows =>
          dropped, worker := dropped + todo, Queue.Sleeping;
        case SavedThenInterrupted =>
          saved, dropped, worker := saved + [todo[0]], dropped + todo[1..], Queue.Sleeping;
      }
    }

    /** Producers add messages, one lock acquisition each. */
    method Arrive(ms: seq<M>)
      modifies this
      ensures State() == Queue.Run(old(State()), Queue.Adds(ms))
    {
      hide Queue.Next;
      ghost var q := State();
      for i := 0 to |ms|
        invariant State() == Queue.Run(q, Queue.Adds(ms[..i]))
      {
        Queue.RunMore(q, Queue.Adds(ms[..i]), Queue.Add(ms[i]));
        assert Queue.Adds(ms[..i + 1]) == Queue.Adds(ms[..i]) + [Queue.Add(ms[i])];
        var _ := Push(ms[i]);
      }
      assert ms[..|ms|] == ms;
    }

    /** Under the lock the worker takes the queue as a whole. */
    method TakeBatch() returns (batch: seq<M>)
      requires worker.Sleeping?
      modifies this
      ensures State() == Queue.Next(old(State()), Queue.TakeBatch) && batch == old(messages)
      ensures calls == old(calls)
    {
      batch := messages;
      messages, worker := [], Queue.InBatch(batch);
    }

    /** One turn of work_proc after its sleep: the queue is taken as a whole, and the batch is
        saved message by message until a call throws or the worker is interrupted. Producers
        go on meanwhile: arrivals(0) come before the lock is taken, arrivals(i + 1) while
        message i is being saved. Of n saves all but perhaps the last succeed; what is not
        saved is dropped, and what has arrived since is queued. */
    method WorkTurn(begin: CallResult, results: nat -> SaveResult, end: CallResult, arrivals: nat -> seq<M>)
      returns (ghost steps: seq<Queue.Step<M>>, n: nat)
      requires worker.Sleeping?
      modifies this
      ensures State() == Queue.Run(old(State()), steps)
      ensures begin.Throws? ==> State() == Queue.Run(old(State()), Queue.Adds(arrivals(0)))
      ensures begin.Returns? ==>
                && n <= |Queue.Batch(old(State()), arrivals)|
                && (forall i :: 0 <= i < n - 1 ==> results(i).Saved?)
                && (n < |Queue.Batch(old(State()), arrivals)| ==> n > 0 && !results(n - 1).Saved?)
                && State() == Queue.AfterTurn(old(State()), arrivals, n, SavedOf(results, n))
    {
      hide Queue.Run, Queue.Next, Queue.Adds, Queue.InTurn, Queue.AfterTurn;
      ghost var q := State();
      n, steps := 0, Queue.Adds(arrivals(0));
      Arrive(arrivals(0));
      if begin.Throws? {
        Queue.RunMore(q, steps, Queue.BeginBatchThrows);
        NothingBegun(State());
        steps := steps + [Queue.BeginBatchThrows];
        return;
      }
      Queue.AddsTaken(q, arrivals(0));
      Queue.RunMore(q, steps, Queue.TakeBatch);
      Queue.TurnBegins(q, arrivals);
      var batch := TakeBatch();
      steps := steps + [Queue.TakeBatch];
      while n < |batch|
        invariant n <= |batch| && batch == Queue.Batch(q, arrivals)
        invariant State() == Queue.Run(q, steps) == Queue.InTurn(q, arrivals, n, n)
        invariant forall i :: 0 <= i < n ==> results(i).Saved?
        decreases |batch| - n
      {
        Queue.RunAppend(q, steps, Queue.Adds(arrivals(n + 1)));
        Queue.TurnArrivals(q, arrivals, n, n);
        Arrive(arrivals(n + 1));
        steps := steps + Queue.Adds(arrivals(n + 1));
        Queue.RunMore(q, steps, StepOf(results(n)));
        Queue.TurnSaves(q, arrivals, n + 1, n);
        InBatchStill(q, arrivals, n + 1, n);
        SaveNext(results(n));
        steps := steps + [StepOf(results(n))];
        n := n + 1;
        if !results(n - 1).Saved? {
          return;
        }
      }
      Queue.RunMore(q, steps, if end.Returns? then Queue.EndBatch else Queue.EndBatchThrows);
      steps := steps + [if end.Returns? then Queue.EndBatch else Queue.EndBatchThrows];
      Queue.TurnEnds(q, arrivals, n);
      InBatchStill(q, arrivals, n, n);
      assert batch[n..] == [];
      EndTurn(end);
    }

    /** end_batch, after which the worker sleeps whether it throws or not. */
    method EndTurn(end: CallResult)
      requires worker == Queue.InBatch([])
      modifies this
      ensures State() == Queue.Next(old(State()), if end.Returns? then Queue.EndBatch else Queue.EndBatchThrows)
      ensures calls == old(calls)
    {
      worker := Queue.Sleeping;
    }

    /** The interruption that ends the worker. */
    method SleepInterrupted()
      requires worker.Sleeping?
      modifies this
      ensures State() == Queue.Next(old(State()), Queue.SleepInterrupted) && calls == old(calls)
      ensures worker.Ended? && messages == old(messages)
    {
      worker := Queue.Ended;
    }

    /** Any step of the storage thread; nothing where it is not at that point. */
    method WorkerDoes(step: Queue.WorkerStep<M>)
      modifies this
      ensures State() == Queue.Next(old(State()), step) && calls == old(calls)
    {
      match step {
        case SetCapacity(n) => SetCapacity(n);
        case TakeBatch => if worker.Sleeping? { var _ := TakeBatch(); }
        case Save => if worker.InBatch? && worker.todo != [] { SaveNext(Saved); }
        case SaveThrows => if worker.InBatch? && worker.todo != [] { SaveNext(SaveThrows); }
        case SaveThenInterrupted => if worker.InBatch? && worker.todo != [] { SaveNext(SavedThenInterrupted); }
        case EndBatch => if worker.InBatch? && worker.todo == [] { EndTurn(Returns); }
        case EndBatchThrows => if worker.InBatch? && worker.todo == [] { EndTurn(Throws); }
        case SleepInterrupted => if worker.Sleeping? { SleepInterrupted(); }
        case _ =>
      }
    }

    /** What the storage thread does while a producer waits for the lock. */
    method Meanwhile()
      modifies this
      ensures State() == Queue.Run(old(State()), schedule(old(calls))) && calls == old(calls) + 1
    {
      hide Queue.Next;
      ghost var q := State();
      var steps := schedule(calls);
      for i := 0 to |steps|
        invariant State() == Queue.Run(q, steps[..i]) && calls == old(calls)
      {
        Queue.RunMore(q, steps[..i], steps[i]);
        assert steps[..i + 1] == steps[..i] + [steps[i]];
        WorkerDoes(steps[i]);
      }
      assert steps[..|steps|] == steps;
      calls := calls + 1;
    }

    /** add_message: throws exactly when the queue is full once the lock is held. */
    method AddMessage(msg: M) returns (threw: bool)
      modifies this
      ensures var locked := Queue.Run(old(State()), schedule(old(calls)));
              && State() == Queue.Next(locked, Queue.Add(msg))
              && threw == (|locked.messages| >= locked.capacity)
              && messages == (if threw then locked.messages else locked.messages + [msg])
      ensures calls == old(calls) + 1
    {
      hide Queue.Run;
      Meanwhile();
      threw := Push(msg);
    }
  }

  ghost function StepOf<M>(result: SaveResult): Queue.Step<M> {
    match result
    case Saved => Queue.Save
    case SaveThrows => Queue.SaveThrows
    case SavedThenInterrupted => Queue.SaveThenInterrupted
  }

  lemma NothingBegun<M>(q: Queue.State<M>)
    ensures Queue.Next(q, Queue.BeginBatchThrows) == q
  {
  }

  /** How many of n saves succeeded. */
  ghost function SavedOf(results: nat -> SaveResult, n: nat): nat {
    if n > 0 && results(n - 1).SaveThrows? then n - 1 else n
  }

  lemma InBatchStill<M>(q: Queue.State<M>, arrivals: nat -> seq<M>, n: nat, k: nat)
    requires k <= |Queue.Batch(q, arrivals)|
    ensures Queue.InTurn(q, arrivals, n, k).worker == Queue.InBatch(Queue.Batch(q, arrivals)[k..])
  {
  }
}
