/** The whole server: connections and the storage thread over one queue. What has become of
    every record that a controller was told to delete. */
module Server {
  import opened Bytes
  import opened Handlers
  import opened Connection
  import opened System
  import opened Records
  import opened Network
  import opened Intake
  import Queue

  /** The connections, the queue with its storage thread, and the calls of add_message so far. */
  datatype Server = Server(net: Network, queue: Queue.State<Entry>, calls: nat)

  /** A connection opens, is read, or closes; or the storage thread works between reads. */
  datatype Deed =
    | Opens(id: nat)
    | Arrives(id: nat, data: seq<byte>)
    | Closes(id: nat)
    | Works(step: Queue.WorkerStep<Entry>)

  /** During a read the storage thread works too, as scheduled before each add_message. Once
      an undefined case was met nothing more is said. */
  function Serve(schedule: Schedule, s: Server, deed: Deed): Server {
    if s.net.lost then s
    else
      match deed
      case Opens(id) => s.(net := After(s.net, Open(id)))
      case Closes(id) => s.(net := After(s.net, Close(id)))
      case Works(step) => s.(queue := Queue.Next(s.queue, step))
      case Arrives(id, data) =>
        if id !in s.net.peers then s
        else
          var j := Reading(s, id);
          var r := ReadInto(schedule, j, data);
          ReadIntoIsRead(schedule, j, data);
          LogsGrow(Alone(ReadRooms(schedule, j, data)), j.peer, data);
          if r.peer.status == Lost then s.(net := s.net.(lost := true))
          else Server(AfterRead(s.net, id, j.peer, r.peer), r.queue, r.calls)
  }

  function Reading(s: Server, id: nat): Joint
    requires id in s.net.peers
  {
    Joint(Reader(s.net, id), s.queue, s.calls)
  }

  function ServeAll(schedule: Schedule, s: Server, deeds: seq<Deed>): Server
    decreases |deeds|
  {
    if deeds == [] then s else ServeAll(schedule, Serve(schedule, s, deeds[0]), deeds[1..])
  }

  // ----- Towards the controllers it is the network -----

  /** What a deed is for the connections: a read meets the room its entries find. */
  function Seen(schedule: Schedule, s: Server, deed: Deed): seq<Activity> {
    match deed
    case Opens(id) => [Open(id)]
    case Closes(id) => [Close(id)]
    case Works(_) => []
    case Arrives(id, data) =>
      if id in s.net.peers then [Read(id, data, ReadRooms(schedule, Reading(s, id), data))] else []
  }

  function AllSeen(schedule: Schedule, s: Server, deeds: seq<Deed>): seq<Activity>
    decreases |deeds|
  {
    if deeds == [] then []
    else Seen(schedule, s, deeds[0]) + AllSeen(schedule, Serve(schedule, s, deeds[0]), deeds[1..])
  }

  lemma DeedIsActivity(schedule: Schedule, s: Server, deed: Deed)
    ensures Serve(schedule, s, deed).net == AfterAll(s.net, Seen(schedule, s, deed))
  {
    hide ReadInto, ReceiveData, Alone, ReadRooms;
    match deed
    case Opens(id) => OneActivity(s.net, Open(id));
    case Closes(id) => OneActivity(s.net, Close(id));
    case Works(_) =>
    case Arrives(id, data) =>
      if id in s.net.peers {
        var j := Reading(s, id);
        ReadIntoIsRead(schedule, j, data);
        OneActivity(s.net, Read(id, data, ReadRooms(schedule, j, data)));
      }
  }

  lemma OneActivity(net: Network, a: Activity)
    ensures AfterAll(net, [a]) == After(net, a)
  {
    hide After;
    assert AfterAll(net, [a]) == AfterAll(After(net, a), []);
  }

  lemma {:induction false} ActivitiesAppend(net: Network, x: seq<Activity>, y: seq<Activity>)
    ensures AfterAll(net, x + y) == AfterAll(AfterAll(net, x), y)
    decreases |x|
  {
    hide After;
    if |x| == 0 {
      assert x + y == y;
    } else {
      assert (x + y)[1..] == x[1..] + y;
      ActivitiesAppend(After(net, x[0]), x[1..], y);
    }
  }

  lemma {:induction false} ServerIsNetwork(schedule: Schedule, s: Server, deeds: seq<Deed>)
    ensures ServeAll(schedule, s, deeds).net == AfterAll(s.net, AllSeen(schedule, s, deeds))
    decreases |deeds|
  {
    hide Serve, Seen, After;
    if deeds != [] {
      var next := Serve(schedule, s, deeds[0]);
      DeedIsActivity(schedule, s, deeds[0]);
      ServerIsNetwork(schedule, next, deeds[1..]);
      ActivitiesAppend(s.net, Seen(schedule, s, deeds[0]), AllSeen(schedule, next, deeds[1..]));
    }
  }

  // ----- Towards the storage it is the queue -----

  /** What a deed is for the queue. */
  function QueueSteps(schedule: Schedule, s: Server, deed: Deed): seq<Queue.Step<Entry>> {
    if s.net.lost then []
    else
      match deed
      case Works(step) => [step]
      case Arrives(id, data) =>
        if id !in s.net.peers || ReadInto(schedule, Reading(s, id), data).peer.status == Lost then []
        else Intake.ReadSteps(schedule, Reading(s, id), data)
      case _ => []
  }

  function AllQueueSteps(schedule: Schedule, s: Server, deeds: seq<Deed>): seq<Queue.Step<Entry>>
    decreases |deeds|
  {
    if deeds == [] then []
    else QueueSteps(schedule, s, deeds[0]) + AllQueueSteps(schedule, Serve(schedule, s, deeds[0]), deeds[1..])
  }

  /** Connections and queue agree on what was accepted, and in which order. */
  predicate Agree(s: Server) {
    s.net.accepted == s.queue.added
  }

  lemma DeedIsQueueRun(schedule: Schedule, s: Server, deed: Deed)
    requires Agree(s)
    ensures Agree(Serve(schedule, s, deed))
    ensures Serve(schedule, s, deed).queue == Queue.Run(s.queue, QueueSteps(schedule, s, deed))
  {
    hide ReadInto, Intake.ReadSteps, ReceiveData, Alone, ReadRooms;
    Queue.NoSteps(s.queue);
    if !s.net.lost {
      match deed
      case Opens(id) =>
      case Closes(id) =>
      case Works(step) =>
        Queue.RunOne(s.queue, step);
        Queue.WorkerAddsNothing(s.queue, [step]);
      case Arrives(id, data) =>
        if id in s.net.peers {
          hide Queue.Run;
          ReadAdds(schedule, Reading(s, id), data);
        }
    }
  }

  lemma {:induction false} ServerIsQueueRun(schedule: Schedule, s: Server, deeds: seq<Deed>)
    requires Agree(s)
    ensures Agree(ServeAll(schedule, s, deeds))
    ensures ServeAll(schedule, s, deeds).queue == Queue.Run(s.queue, AllQueueSteps(schedule, s, deeds))
    decreases |deeds|
  {
    hide Serve, QueueSteps, Agree, Queue.Run;
    if deeds == [] {
      Queue.NoSteps(s.queue);
    } else {
      var next := Serve(schedule, s, deeds[0]);
      DeedIsQueueRun(schedule, s, deeds[0]);
      ServerIsQueueRun(schedule, next, deeds[1..]);
      Queue.RunAppend(s.queue, QueueSteps(schedule, s, deeds[0]), AllQueueSteps(schedule, next, deeds[1..]));
    }
  }

  // ----- What has become of deleted records -----

  /** A server that starts: no connections, an empty queue, counters of an earlier run. */
  function Fresh(counters: Counters, capacity: nat): Server {
    Server(Started(counters), Queue.Initial(capacity), 0)
  }

  /** The session-level run behind a course of events. */
  function Behind(schedule: Schedule, s: Server, deeds: seq<Deed>): seq<Step> {
    AllSteps(s.net, AllSeen(schedule, s, deeds))
  }

  /** Every event of the record was added to the queue in its place, and each of them has been
      saved, or dropped with the rest of a batch cut short, or is being worked off or queued. */
  ghost predicate Traced(q: Queue.State<Entry>, fates: seq<bool>, t: Taken, n: int)
    requires t.last - |t.records| < n <= t.last
  {
    && RecordQueued(q.added, t, n)
    && forall p :: EntriesBegin(t, n) <= p < EntriesEnd(t, n) ==> InPlace(q, fates, p)
  }

  ghost predicate InPlace(q: Queue.State<Entry>, fates: seq<bool>, p: nat)
    requires p < |q.added|
  {
    match Queue.FateOf(q, fates, p)
    case WasSaved => q.added[p] in q.saved
    case WasDropped => q.added[p] in q.dropped
    case InWork => q.added[p] in Queue.InFlight(q)
    case StillQueued => q.added[p] in q.messages
  }

  /** Frame j carries the record, and its events are traced. */
  ghost predicate RecordTraced(q: Queue.State<Entry>, fates: seq<bool>, taken: seq<Taken>, c: uint32, n: int) {
    exists j :: 0 <= j < |taken| && Carries(taken[j], c, n) && Traced(q, fates, taken[j], n)
  }

  lemma CarriedIsTraced(q: Queue.State<Entry>, fates: seq<bool>, taken: seq<Taken>, c: uint32, n: int)
    requires Queue.Conserved(q, fates) && Carried(taken, c, n)
    requires forall j :: 0 <= j < |taken| ==> Stands(q.added, taken[j])
    ensures RecordTraced(q, fates, taken, c, n)
  {
    hide Stands, Queue.Conserved, EntriesBegin, EntriesEnd;
    var j :| 0 <= j < |taken| && Carries(taken[j], c, n);
    var t := taken[j];
    StandsQueued(q.added, t, n);
    forall p: nat | EntriesBegin(t, n) <= p < EntriesEnd(t, n)
      ensures InPlace(q, fates, p)
    {
      Queue.FateIsPlace(q, fates, p);
    }
  }

  /** Whatever bytes arrive on any number of connections and whatever the storage thread does
      in between and meanwhile, every record that a controller was told to delete was carried
      by a frame taken in full, all its events were added to the queue, and each of them is
      accounted for; none is dropped unless a batch was cut short. */
  lemma DeletedRecordsTraced(schedule: Schedule, counters: Counters, capacity: nat, deeds: seq<Deed>)
    returns (fates: seq<bool>)
    requires ContiguousRun(StartedSystem(counters), Behind(schedule, Fresh(counters, capacity), deeds))
    ensures var start := Fresh(counters, capacity);
            var end := ServeAll(schedule, start, deeds);
            var sys := Run(StartedSystem(counters), Behind(schedule, start, deeds));
            && Queue.Conserved(end.queue, fates)
            && (!end.net.lost ==>
                  forall x :: x in end.net.sent && x.1.Delete? ==>
                    exists e :: e in sys.history && e.Sent? && e.id == x.0 && e.reply == x.1
                      && forall n :: (if e.controller in counters then counters[e.controller] else 0) < n <= x.1.n ==>
                           RecordTraced(end.queue, fates, sys.taken, e.controller, n))
            && ((forall s :: s in AllQueueSteps(schedule, start, deeds) ==> !Queue.CutsBatch(s)) ==>
                  end.queue.dropped == [])
  {
    hide ServeAll, Run, ContiguousRun, AllSteps, AllSeen, AllQueueSteps, RecordTraced, Stands, Carried, Queue.Conserved,
         Queue.Run, AfterAll;
    var start := Fresh(counters, capacity);
    var end, seen := ServeAll(schedule, start, deeds), AllSeen(schedule, start, deeds);
    ServerIsNetwork(schedule, start, deeds);
    ServerIsQueueRun(schedule, start, deeds);
    fates := Queue.FromTheStart(capacity, AllQueueSteps(schedule, start, deeds));
    NothingLostFromStart(counters, seen);
    var sys := Run(StartedSystem(counters), AllSteps(Started(counters), seen));
    if !end.net.lost {
      forall x | x in end.net.sent && x.1.Delete?
        ensures exists e :: e in sys.history && e.Sent? && e.id == x.0 && e.reply == x.1
                  && forall n :: (if e.controller in counters then counters[e.controller] else 0) < n <= x.1.n ==>
                       RecordTraced(end.queue, fates, sys.taken, e.controller, n)
      {
        var e :| e in sys.history && e.Sent? && e.id == x.0 && e.reply == x.1
                 && CarriedUpTo(sys.taken, e.controller, LastCounter(counters, e.controller), e.reply.n);
        forall n | LastCounter(counters, e.controller) < n <= e.reply.n
          ensures RecordTraced(end.queue, fates, sys.taken, e.controller, n)
        {
          assert Carried(sys.taken, e.controller, n);
          CarriedIsTraced(end.queue, fates, sys.taken, e.controller, n);
        }
      }
    }
  }
}
