/** The bounded queue between the sessions and the storage thread (backends/base.cpp) as a
    step system: producers and the worker interleave between lock acquisitions. */
module Queue {

  /** The worker sleeps between batches, works off a batch, or has been ended by an
      interruption of its sleep. */
  datatype Worker<M> = Sleeping | InBatch(todo: seq<M>) | Ended

  /** The shared vector and its bound, the worker, and what has happened so far. */
  datatype State<M> = State(
    messages: seq<M>, capacity: nat, worker: Worker<M>,
    added: seq<M>, saved: seq<M>, dropped: seq<M>)

  /** One step of a producer or of the worker; the foreign storage calls may succeed or throw. */
  datatype Step<M> =
    | Add(m: M)
    | SetCapacity(n: nat)
    | BeginBatchThrows
    | TakeBatch
    | Save
    | SaveThrows
    | SaveThenInterrupted
    | EndBatch
    | EndBatchThrows
    | SleepInterrupted

  function Next<M>(q: State<M>, step: Step<M>): State<M> {
    match step
    case Add(m) =>
      if |q.messages| >= q.capacity then q
      else q.(messages := q.messages + [m], added := q.added + [m])
    case SetCapacity(n) => q.(capacity := n)
    case BeginBatchThrows => q
    case TakeBatch =>
      if q.worker.Sleeping? then q.(messages := [], worker := InBatch(q.messages)) else q
    case Save =>
      if q.worker.InBatch? && q.worker.todo != [] then
        q.(worker := InBatch(q.worker.todo[1..]), saved := q.saved + [q.worker.todo[0]])
      else q
    case SaveThrows =>
      if q.worker.InBatch? && q.worker.todo != [] then
        q.(worker := Sleeping, dropped := q.dropped + q.worker.todo)
      else q
    case SaveThenInterrupted =>
      if q.worker.InBatch? && q.worker.todo != [] then
        q.(worker := Sleeping, saved := q.saved + [q.worker.todo[0]], dropped := q.dropped + q.worker.todo[1..])
      else q
    case EndBatch => if q.worker == InBatch([]) then q.(worker := Sleeping) else q
    case EndBatchThrows => if q.worker == InBatch([]) then q.(worker := Sleeping) else q
    case SleepInterrupted => if q.worker.Sleeping? then q.(worker := Ended) else q
  }

  function Run<M>(q: State<M>, steps: seq<Step<M>>): State<M>
    decreases |steps|
  {
    if steps == [] then q else Run(Next(q, steps[0]), steps[1..])
  }

  function InFlight<M>(q: State<M>): seq<M> {
    if q.worker.InBatch? then q.worker.todo else []
  }

  /** A save that returns saves the next message of the batch, also if the worker is then
      interrupted; one that throws does not. */
  lemma SaveEffects<M>(q: State<M>)
    requires q.worker.InBatch? && q.worker.todo != []
    ensures Next(q, Save).saved == q.saved + [q.worker.todo[0]]
    ensures Next(q, SaveThenInterrupted).saved == q.saved + [q.worker.todo[0]]
    ensures Next(q, SaveThrows).saved == q.saved
  {
  }

  /** A worker interrupted in its sleep has ended for good: nothing is saved or dropped any
      more, and the queue only grows. */
  lemma EndedForGood<M>(q: State<M>, steps: seq<Step<M>>)
    requires q.worker.Sleeping?
    ensures var r := Run(Next(q, SleepInterrupted), steps);
            r.worker.Ended? && r.saved == q.saved && r.dropped == q.dropped && q.messages <= r.messages
  {
    StaysEnded(Next(q, SleepInterrupted), steps);
  }

  lemma {:induction false} StaysEnded<M>(q: State<M>, steps: seq<Step<M>>)
    requires q.worker.Ended?
    ensures var r := Run(q, steps);
            r.worker.Ended? && r.saved == q.saved && r.dropped == q.dropped && q.messages <= r.messages
    decreases |steps|
  {
    if steps != [] {
      StaysEnded(Next(q, steps[0]), steps[1..]);
    }
  }

  // ----- Conservation and order -----

  /** The messages of a list whose fate is the given one, in their order. */
  function Select<M>(ms: seq<M>, fates: seq<bool>, fate: bool): (r: seq<M>)
    requires |ms| == |fates|
  {
    if ms == [] then []
    else Select(ms[..|ms| - 1], fates[..|ms| - 1], fate)
         + if fates[|ms| - 1] == fate then [ms[|ms| - 1]] else []
  }

  /** Everything added splits, in order, into messages that met their fate (true: saved,
      false: dropped with the rest of their batch), messages in flight, and messages queued. */
  ghost predicate Conserved<M>(q: State<M>, fates: seq<bool>) {
    && |fates| <= |q.added|
    && q.added == q.added[..|fates|] + InFlight(q) + q.messages
    && q.saved == Select(q.added[..|fates|], fates, true)
    && q.dropped == Select(q.added[..|fates|], fates, false)
  }

  lemma {:induction false} SelectAll<M>(ms: seq<M>, fates: seq<bool>, more: seq<M>, fate: bool)
    requires |ms| == |fates|
    ensures var f := fates + seq(|more|, _ => fate);
            && Select(ms + more, f, fate) == Select(ms, fates, fate) + more
            && Select(ms + more, f, !fate) == Select(ms, fates, !fate)
    decreases |more|
  {
    var f := fates + seq(|more|, _ => fate);
    if more == [] {
      assert ms + more == ms && f == fates;
    } else {
      var n := |more| - 1;
      SelectAll(ms, fates, more[..n], fate);
      assert (ms + more)[..|ms + more| - 1] == ms + more[..n];
      assert f[..|ms + more| - 1] == fates + seq(n, _ => fate);
      assert more == more[..n] + [more[n]];
    }
  }

  /** One more message is saved. */
  lemma SaveOne<M>(q: State<M>, fates: seq<bool>)
    requires Conserved(q, fates) && q.worker.InBatch? && q.worker.todo != []
    ensures Conserved(Next(q, Save), fates + [true])
  {
    var n, todo := |fates|, q.worker.todo;
    SelectAll(q.added[..n], fates, [todo[0]], true);
    assert seq(1, _ => true) == [true];
    assert q.added[..n + 1] == q.added[..n] + [todo[0]];
    assert q.added == q.added[..n + 1] + todo[1..] + q.messages;
  }

  /** The rest of a batch is dropped. */
  lemma DropRest<M>(q: State<M>, fates: seq<bool>)
    requires Conserved(q, fates) && q.worker.InBatch?
    ensures Conserved(q.(worker := Sleeping, dropped := q.dropped + q.worker.todo),
                      fates + seq(|q.worker.todo|, _ => false))
  {
    var n, todo := |fates|, q.worker.todo;
    SelectAll(q.added[..n], fates, todo, false);
    assert q.added[..n + |todo|] == q.added[..n] + todo;
    assert q.added == q.added[..n + |todo|] + [] + q.messages;
  }

  lemma StepConserves<M>(q: State<M>, step: Step<M>, fates: seq<bool>) returns (fates': seq<bool>)
    requires Conserved(q, fates)
    ensures Conserved(Next(q, step), fates') && fates <= fates'
  {
    fates' := fates;
    var q' := Next(q, step);
    if step.Save? && q' != q {
      SaveOne(q, fates);
      fates' := fates + [true];
    } else if step.SaveThrows? && q' != q {
      DropRest(q, fates);
      fates' := fates + seq(|q.worker.todo|, _ => false);
    } else if step.SaveThenInterrupted? && q' != q {
      SaveOne(q, fates);
      DropRest(Next(q, Save), fates + [true]);
      fates' := fates + [true] + seq(|q.worker.todo| - 1, _ => false);
    } else {
      NoFateMet(q, step, fates);
    }
  }

  /** The other steps only move messages from the queue into a batch, or add one. */
  lemma NoFateMet<M>(q: State<M>, step: Step<M>, fates: seq<bool>)
    requires Conserved(q, fates)
    requires Next(q, step) == q || !(step.Save? || step.SaveThrows? || step.SaveThenInterrupted?)
    ensures Conserved(Next(q, step), fates)
  {
    hide Select;
    var q' := Next(q, step);
    assert q'.added[..|fates|] == q.added[..|fates|];
    if step.Add? {
      assert q'.added == q'.added[..|fates|] + InFlight(q') + q'.messages;
    } else if step.TakeBatch? {
      assert q'.added == q'.added[..|fates|] + InFlight(q') + q'.messages;
    }
  }

  /** In every interleaving what was added stays accounted for, in order: each message is
      saved at most once, and a fate once met is final. */
  lemma {:induction false} RunConserves<M>(q: State<M>, steps: seq<Step<M>>, fates: seq<bool>)
    returns (fates': seq<bool>)
    requires Conserved(q, fates)
    ensures Conserved(Run(q, steps), fates') && fates <= fates'
    decreases |steps|
  {
    hide Conserved, Next;
    fates' := fates;
    if steps != [] {
      fates' := StepConserves(q, steps[0], fates);
      fates' := RunConserves(Next(q, steps[0]), steps[1..], fates');
    }
  }

  /** Steps in which a storage call throws, or the worker is interrupted in a batch. */
  predicate CutsBatch<M>(step: Step<M>) {
    step.SaveThrows? || step.SaveThenInterrupted?
  }

  /** Without a batch cut short nothing is dropped: added = saved ++ in flight ++ queued. */
  lemma {:induction false} NothingDropped<M>(q: State<M>, steps: seq<Step<M>>)
    requires q.dropped == [] && q.added == q.saved + InFlight(q) + q.messages
    requires forall s :: s in steps ==> !CutsBatch(s)
    ensures var r := Run(q, steps);
            r.dropped == [] && r.added == r.saved + InFlight(r) + r.messages
    decreases |steps|
  {
    if steps != [] {
      var q' := Next(q, steps[0]);
      assert steps[0] in steps;
      assert q'.added == q'.saved + InFlight(q') + q'.messages;
      NothingDropped(q', steps[1..]);
    }
  }

  /** The queue never exceeds a capacity that is not changed. */
  lemma {:induction false} NeverOverfull<M>(q: State<M>, steps: seq<Step<M>>)
    requires |q.messages| <= q.capacity
    requires forall s :: s in steps ==> !s.SetCapacity?
    ensures |Run(q, steps).messages| <= Run(q, steps).capacity == q.capacity
    decreases |steps|
  {
    if steps != [] {
      assert steps[0] in steps;
      NeverOverfull(Next(q, steps[0]), steps[1..]);
    }
  }

  function Initial<M>(capacity: nat): State<M> {
    State([], capacity, Sleeping, [], [], [])
  }

  /** From the start, then: whatever producers and worker do, some assignment of fates
      accounts for everything added. */
  lemma FromTheStart<M>(capacity: nat, steps: seq<Step<M>>) returns (fates: seq<bool>)
    ensures Conserved(Run(Initial(capacity), steps), fates)
    ensures (forall s :: s in steps ==> !CutsBatch(s)) ==> Run(Initial(capacity), steps).dropped == []
    ensures (forall s :: s in steps ==> !s.SetCapacity?) ==> |Run(Initial(capacity), steps).messages| <= capacity
  {
    var q: State<M> := Initial(capacity);
    fates := RunConserves(q, steps, []);
    if forall s :: s in steps ==> !CutsBatch(s) {
      NothingDropped(q, steps);
    }
    if forall s :: s in steps ==> !s.SetCapacity? {
      NeverOverfull(q, steps);
    }
  }

  // ----- Runs put together -----

  lemma {:induction false} RunAppend<M>(q: State<M>, x: seq<Step<M>>, y: seq<Step<M>>)
    ensures Run(q, x + y) == Run(Run(q, x), y)
    decreases |x|
  {
    hide Next;
    if x == [] {
      assert x + y == y;
    } else {
      assert (x + y)[1..] == x[1..] + y;
      RunAppend(Next(q, x[0]), x[1..], y);
    }
  }

  lemma RunOne<M>(q: State<M>, step: Step<M>)
    ensures Run(q, [step]) == Next(q, step)
  {
    assert Run(q, [step]) == Run(Next(q, step), []);
  }

  lemma RunMore<M>(q: State<M>, steps: seq<Step<M>>, step: Step<M>)
    ensures Run(q, steps + [step]) == Next(Run(q, steps), step)
  {
    hide Run, Next;
    RunAppend(q, steps, [step]);
    RunOne(Run(q, steps), step);
  }

  /** Messages arriving one after the other at a queue. */
  function Adds<M>(ms: seq<M>): (steps: seq<Step<M>>)
    ensures |steps| == |ms|
  {
    seq(|ms|, i requires 0 <= i < |ms| => Add(ms[i]))
  }

  /** Those of them a queue of this length still takes. */
  function Taken<M>(length: nat, capacity: nat, ms: seq<M>): (r: seq<M>) {
    if length + |ms| <= capacity then ms
    else if length >= capacity then []
    else ms[..capacity - length]
  }

  /** Arrivals are appended until the queue is full, and change nothing else. */
  lemma {:induction false} AddsTaken<M>(q: State<M>, ms: seq<M>)
    ensures var taken := Taken(|q.messages|, q.capacity, ms);
            Run(q, Adds(ms)) == q.(messages := q.messages + taken, added := q.added + taken)
    decreases |ms|
  {
    if ms == [] {
      assert q.messages + [] == q.messages && q.added + [] == q.added;
    } else {
      var q', rest := Next(q, Add(ms[0])), ms[1..];
      AddsTaken(q', rest);
      assert Adds(ms)[1..] == Adds(rest);
      var taken, more := Taken(|q.messages|, q.capacity, ms), Taken(|q'.messages|, q.capacity, rest);
      if |q.messages| < q.capacity {
        assert taken == [ms[0]] + more;
        assert q.messages + taken == q'.messages + more && q.added + taken == q'.added + more;
      }
    }
  }

  lemma TakenMore<M>(length: nat, capacity: nat, x: seq<M>, y: seq<M>)
    ensures Taken(length, capacity, x + y) ==
            Taken(length, capacity, x) + Taken(length + |Taken(length, capacity, x)|, capacity, y)
  {
  }

  // ----- One turn of the worker, with producers going on -----

  /** What arrives in the first n intervals after the batch was taken. */
  function Later<M>(arrivals: nat -> seq<M>, n: nat): seq<M> {
    if n == 0 then [] else Later(arrivals, n - 1) + arrivals(n)
  }

  /** The batch: what was queued, and what the queue still took before the lock. */
  function Batch<M>(q: State<M>, arrivals: nat -> seq<M>): seq<M> {
    q.messages + Taken(|q.messages|, q.capacity, arrivals(0))
  }

  /** In the middle of a turn: n intervals have passed, k messages of the batch are saved. */
  function InTurn<M>(q: State<M>, arrivals: nat -> seq<M>, n: nat, k: nat): State<M>
    requires k <= |Batch(q, arrivals)|
  {
    var batch, later := Batch(q, arrivals), Taken(0, q.capacity, Later(arrivals, n));
    State(later, q.capacity, InBatch(batch[k..]),
          q.added + batch[|q.messages|..] + later, q.saved + batch[..k], q.dropped)
  }

  /** At its end: the first k messages of the batch are saved, the others dropped, and what
      has arrived since the batch was taken is queued. */
  function AfterTurn<M>(q: State<M>, arrivals: nat -> seq<M>, n: nat, k: nat): State<M>
    requires k <= |Batch(q, arrivals)|
  {
    var batch, later := Batch(q, arrivals), Taken(0, q.capacity, Later(arrivals, n));
    State(later, q.capacity, Sleeping,
          q.added + batch[|q.messages|..] + later, q.saved + batch[..k], q.dropped + batch[k..])
  }

  lemma TurnBegins<M>(q: State<M>, arrivals: nat -> seq<M>)
    requires q.worker.Sleeping?
    ensures Next(Run(q, Adds(arrivals(0))), TakeBatch) == InTurn(q, arrivals, 0, 0)
  {
    AddsTaken(q, arrivals(0));
    var batch := Batch(q, arrivals);
    assert batch[|q.messages|..] == Taken(|q.messages|, q.capacity, arrivals(0));
    assert batch[0..] == batch && q.saved + batch[..0] == q.saved;
    assert q.added + batch[|q.messages|..] + [] == q.added + batch[|q.messages|..];
  }

  lemma TurnArrivals<M>(q: State<M>, arrivals: nat -> seq<M>, n: nat, k: nat)
    requires k <= |Batch(q, arrivals)|
    ensures Run(InTurn(q, arrivals, n, k), Adds(arrivals(n + 1))) == InTurn(q, arrivals, n + 1, k)
  {
    var t := InTurn(q, arrivals, n, k);
    AddsTaken(t, arrivals(n + 1));
    TakenMore(0, q.capacity, Later(arrivals, n), arrivals(n + 1));
    var base, more := q.added + Batch(q, arrivals)[|q.messages|..], Taken(|t.messages|, q.capacity, arrivals(n + 1));
    assert base + t.messages + more == base + (t.messages + more);
  }

  lemma TurnSaves<M>(q: State<M>, arrivals: nat -> seq<M>, n: nat, k: nat)
    requires k < |Batch(q, arrivals)|
    ensures Next(InTurn(q, arrivals, n, k), Save) == InTurn(q, arrivals, n, k + 1)
    ensures Next(InTurn(q, arrivals, n, k), SaveThrows) == AfterTurn(q, arrivals, n, k)
    ensures Next(InTurn(q, arrivals, n, k), SaveThenInterrupted) == AfterTurn(q, arrivals, n, k + 1)
  {
    var batch := Batch(q, arrivals);
    assert batch[k..][1..] == batch[k + 1..];
    assert q.saved + batch[..k] + [batch[k]] == q.saved + batch[..k + 1];
  }

  lemma TurnEnds<M>(q: State<M>, arrivals: nat -> seq<M>, n: nat)
    ensures var k := |Batch(q, arrivals)|;
            && Next(InTurn(q, arrivals, n, k), EndBatch) == AfterTurn(q, arrivals, n, k)
            && Next(InTurn(q, arrivals, n, k), EndBatchThrows) == AfterTurn(q, arrivals, n, k)
  {
    assert q.dropped + Batch(q, arrivals)[|Batch(q, arrivals)|..] == q.dropped;
  }

  // ----- A producer beside the storage thread -----

  /** Everything but adding is done by the storage thread, or by whoever sets the bound. */
  type WorkerStep<M> = s: Step<M> | !s.Add? witness EndBatch

  /** The queue after a series of calls of add_message that ends at the first to throw; how
      many calls there have been by then; how many of these messages were accepted. */
  datatype Filled<M> = Filled(queue: State<M>, calls: nat, count: nat)

  /** Before call number n gets the lock, the storage thread does what the schedule says. */
  function Fill<M>(q: State<M>, calls: nat, schedule: nat -> seq<WorkerStep<M>>, ms: seq<M>): (r: Filled<M>)
    ensures r.count <= |ms|
    decreases |ms|
  {
    if ms == [] then Filled(q, calls, 0)
    else
      var locked := Run(q, schedule(calls));
      if |locked.messages| >= locked.capacity then Filled(locked, calls + 1, 0)
      else
        var more := Fill(Next(locked, Add(ms[0])), calls + 1, schedule, ms[1..]);
        more.(count := more.count + 1)
  }

  /** The steps of all threads in this time. */
  function FillSteps<M>(q: State<M>, calls: nat, schedule: nat -> seq<WorkerStep<M>>, ms: seq<M>): seq<Step<M>>
    decreases |ms|
  {
    if ms == [] then []
    else
      var locked := Run(q, schedule(calls));
      var first := schedule(calls) + [Add(ms[0])];
      if |locked.messages| >= locked.capacity then first
      else first + FillSteps(Next(locked, Add(ms[0])), calls + 1, schedule, ms[1..])
  }

  lemma {:induction false} WorkerAddsNothing<M>(q: State<M>, steps: seq<WorkerStep<M>>)
    ensures Run(q, steps).added == q.added
    decreases |steps|
  {
    if steps != [] {
      WorkerAddsNothing(Next(q, steps[0]), steps[1..]);
    }
  }

  /** Filling the queue is a run of its steps, and adds exactly what was accepted, in order. */
  lemma {:induction false} FillIsRun<M>(q: State<M>, calls: nat, schedule: nat -> seq<WorkerStep<M>>, ms: seq<M>)
    ensures var r := Fill(q, calls, schedule, ms);
            && r.queue == Run(q, FillSteps(q, calls, schedule, ms))
            && r.queue.added == q.added + ms[..r.count]
    decreases |ms|
  {
    hide Run;
    if ms == [] {
      NoSteps(q);
      assert q.added + [] == q.added;
    } else {
      var locked := Run(q, schedule(calls));
      var next := Next(locked, Add(ms[0]));
      WorkerAddsNothing(q, schedule(calls));
      RunMore(q, schedule(calls), Add(ms[0]));
      if |locked.messages| >= locked.capacity {
        assert q.added + [] == q.added;
      } else {
        FillIsRun(next, calls + 1, schedule, ms[1..]);
        RunAppend(q, schedule(calls) + [Add(ms[0])], FillSteps(next, calls + 1, schedule, ms[1..]));
        var more := Fill(next, calls + 1, schedule, ms[1..]);
        assert q.added + [ms[0]] + ms[1..][..more.count] == q.added + ms[..more.count + 1];
      }
    }
  }

  lemma FillNothing<M>(q: State<M>, calls: nat, schedule: nat -> seq<WorkerStep<M>>)
    ensures Fill(q, calls, schedule, []) == Filled(q, calls, 0)
  {
  }

  /** One call of the series: refused, or accepted and then the others. */
  lemma FillOne<M>(q: State<M>, calls: nat, schedule: nat -> seq<WorkerStep<M>>, ms: seq<M>, i: nat)
    requires i < |ms|
    ensures var locked := Run(q, schedule(calls));
            Fill(q, calls, schedule, ms[i..]) ==
            if |locked.messages| >= locked.capacity then Filled(Next(locked, Add(ms[i])), calls + 1, 0)
            else
              var more := Fill(Next(locked, Add(ms[i])), calls + 1, schedule, ms[i + 1..]);
              more.(count := more.count + 1)
  {
    hide Run;
    assert ms[i..][0] == ms[i] && ms[i..][1..] == ms[i + 1..];
  }

  lemma NoSteps<M>(q: State<M>)
    ensures Run(q, []) == q
  {
  }

  // ----- What has become of a message -----

  datatype Fate = StillQueued | InWork | WasSaved | WasDropped

  /** The fate of the message added as number p, given which of the first were saved. */
  function FateOf<M>(q: State<M>, fates: seq<bool>, p: nat): Fate {
    if p < |fates| then if fates[p] then WasSaved else WasDropped
    else if p < |fates| + |InFlight(q)| then InWork
    else StillQueued
  }

  /** In a queue that conserves its messages the fate is where the message is. */
  lemma FateIsPlace<M>(q: State<M>, fates: seq<bool>, p: nat)
    requires Conserved(q, fates) && p < |q.added|
    ensures match FateOf(q, fates, p)
            case WasSaved => q.added[p] in q.saved
            case WasDropped => q.added[p] in q.dropped
            case InWork => q.added[p] in InFlight(q)
            case StillQueued => q.added[p] in q.messages
  {
    var n := |fates|;
    if p < n {
      Selected(q.added[..n], fates, p);
    } else if p < n + |InFlight(q)| {
      assert q.added[p] == InFlight(q)[p - n];
    } else {
      assert q.added[p] == q.messages[p - n - |InFlight(q)|];
    }
  }

  lemma {:induction false} Selected<M>(ms: seq<M>, fates: seq<bool>, p: nat)
    requires |ms| == |fates| && p < |ms|
    ensures ms[p] in Select(ms, fates, fates[p])
    decreases |ms|
  {
    var n := |ms| - 1;
    if p < n {
      Selected(ms[..n], fates[..n], p);
    }
  }
}
