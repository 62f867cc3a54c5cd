/** The whole server at the level of bytes: many connections whose network reads interleave,
    tied to the session-level system, so that its theorems hold of reads. */
module Network {
  import opened Bytes
  import opened Frames
  import opened Escape
  import Receiver
  import opened InfoPackage
  import opened Handlers
  import opened Connection
  import opened System
  import opened Records

  /** Open connections, the shared counters, everything the queue accepted, everything sent
      and by which connection, and whether an undefined case was met. */
  datatype Network = Network(
    peers: map<nat, Peer>, counters: Counters, accepted: seq<Entry>, sent: seq<(nat, Reply)>, lost: bool)

  /** A read is handled to its end before anything else in the network thread; the queue may
      take any number of entries from each of its frames. A stopped connection may still be
      handed a read that was complete by then. */
  datatype Activity =
    | Open(id: nat)
    | Read(id: nat, data: seq<byte>, rooms: (nat, seq<Entry>) -> nat)
    | Close(id: nat)

  const NEW_PEER := Peer([], false, NEW_SESSION, map[], [], [], Running, 0)

  function Tagged(id: nat, sent: seq<Reply>): (r: seq<(nat, Reply)>)
    ensures |r| == |sent|
  {
    seq(|sent|, i requires 0 <= i < |sent| => (id, sent[i]))
  }

  /** The connection at the beginning of a read: it sees the counters of that moment. */
  function Reader(net: Network, id: nat): Peer
    requires id in net.peers
  {
    net.peers[id].(counters := net.counters)
  }

  function AfterRead(net: Network, id: nat, p: Peer, q: Peer): Network
    requires p.queued <= q.queued && p.sent <= q.sent
  {
    if q.status == Lost then net.(lost := true)
    else
      Network(net.peers[id := q], q.counters, net.accepted + q.queued[|p.queued|..],
              net.sent + Tagged(id, q.sent[|p.sent|..]), false)
  }

  function After(net: Network, a: Activity): Network {
    if net.lost then net
    else
      match a
      case Open(id) => if id in net.peers then net else net.(peers := net.peers[id := NEW_PEER])
      case Close(id) => net.(peers := net.peers - {id})
      case Read(id, data, rooms) =>
        if id !in net.peers then net
        else
          var p := Reader(net, id);
          LogsGrow(Alone(rooms), p, data);
          AfterRead(net, id, p, ReceiveData(Alone(rooms), p, data))
  }

  function AfterAll(net: Network, activities: seq<Activity>): Network
    decreases |activities|
  {
    if |activities| == 0 then net else AfterAll(After(net, activities[0]), activities[1..])
  }

  lemma {:induction false} HandlingGrows(env: Environment, p: Peer, frames: seq<seq<byte>>)
    ensures p.queued <= HandleFrames(env, p, frames).queued && p.sent <= HandleFrames(env, p, frames).sent
    decreases |frames|
  {
    hide ProcessMessage, IsFrame;
    if frames != [] && p.status == Running {
      HandlingGrows(env, HandleFrame(env, p, frames[0]), frames[1..]);
    }
  }

  lemma LogsGrow(env: Environment, p: Peer, data: seq<byte>)
    ensures p.queued <= ReceiveData(env, p, data).queued && p.sent <= ReceiveData(env, p, data).sent
  {
    hide Store, Receiver.Scan, HandleFrames;
    HandlingGrows(env, p.(status := Running), Receiver.Scan(p.buffer + Store(p.pending, data).out).frames);
  }

  // ----- One read is a run of deliveries -----

  /** The deliveries that handling these frames amounts to. */
  function Deliveries(id: nat, rooms: (nat, seq<Entry>) -> nat, p: Peer, frames: seq<seq<byte>>): seq<Step>
    decreases |frames|
  {
    if frames == [] || p.status != Running then []
    else
      [Deliver(id, frames[0], rooms(p.handled, p.queued))]
      + Deliveries(id, rooms, HandleFrame(Alone(rooms), p, frames[0]), frames[1..])
  }

  /** The replies in a history, with the session that sent them. */
  function Transmitted(history: seq<Event>): seq<(nat, Reply)> {
    if history == [] then []
    else
      Transmitted(history[..|history| - 1])
      + var e := history[|history| - 1]; if e.Sent? then [(e.id, e.reply)] else []
  }

  lemma {:induction false} TransmittedAppend(a: seq<Event>, b: seq<Event>)
    ensures Transmitted(a + b) == Transmitted(a) + Transmitted(b)
    decreases |b|
  {
    if b == [] {
      assert a + b == a;
    } else {
      assert (a + b)[..|a + b| - 1] == a + b[..|b| - 1];
      TransmittedAppend(a, b[..|b| - 1]);
    }
  }

  lemma {:induction false} TransmittedSent(id: nat, c: uint32, n: uint32, sent: seq<Reply>)
    ensures Transmitted(SentEvents(id, c, n, sent)) == Tagged(id, sent)
    decreases |sent|
  {
    if sent != [] {
      var k := |sent| - 1;
      assert SentEvents(id, c, n, sent)[..k] == SentEvents(id, c, n, sent[..k]);
      TransmittedSent(id, c, n, sent[..k]);
    }
  }

  lemma TransmittedEvents(id: nat, h: Handled, f: seq<byte>)
    requires IsFrame(f)
    ensures Transmitted(Events(id, h, f)) == Tagged(id, h.sent)
  {
    var c := h.session.controller;
    var ident := if f[1] == CONTROLLER_IDENT && h.outcome == Done then [Identified(id, c)] else [];
    var sent := SentEvents(id, c, LastCounter(h.counters, c), h.sent);
    TransmittedAppend(ident, sent);
    TransmittedSent(id, c, LastCounter(h.counters, c), h.sent);
    assert Transmitted(ident) == [] by {
      if ident != [] {
        assert ident[..0] == [];
      }
    }
  }

  /** Where the system stands after a connection went from p to q. */
  predicate Follows(sys: System, r: System, id: nat, p: Peer, q: Peer) {
    && r.lost == (q.status == Lost)
    && p.queued <= q.queued && p.sent <= q.sent
    && (!r.lost ==>
          && r.sessions == sys.sessions[id := q.session]
          && r.counters == q.counters
          && r.accepted == sys.accepted + q.queued[|p.queued|..]
          && Transmitted(r.history) == Transmitted(sys.history) + Tagged(id, q.sent[|p.sent|..]))
  }

  lemma FollowsOne(sys: System, id: nat, rooms: (nat, seq<Entry>) -> nat, p: Peer, f: seq<byte>)
    requires !sys.lost && id in sys.sessions && sys.sessions[id] == p.session && sys.counters == p.counters
    requires IsFrame(f)
    ensures Follows(sys, Next(sys, Deliver(id, f, rooms(p.handled, p.queued))), id, p,
                    HandleFrame(Alone(rooms), p, f))
  {
    hide ProcessMessage, IsFrame, Transmitted, Events;
    var h := ProcessMessage(p.session, p.counters, f, rooms(p.handled, p.queued));
    TransmittedEvents(id, h, f);
    TransmittedAppend(sys.history, Events(id, h, f));
  }

  lemma FollowsTwo(sys: System, r: System, t: System, id: nat, p: Peer, q: Peer, u: Peer)
    requires Follows(sys, r, id, p, q) && Follows(r, t, id, q, u) && !r.lost
    ensures Follows(sys, t, id, p, u)
  {
    hide Transmitted;
    if !t.lost {
      assert sys.sessions[id := q.session][id := u.session] == sys.sessions[id := u.session];
      assert q.queued[|p.queued|..] + u.queued[|q.queued|..] == u.queued[|p.queued|..];
      assert Tagged(id, q.sent[|p.sent|..]) + Tagged(id, u.sent[|q.sent|..]) == Tagged(id, u.sent[|p.sent|..]);
    }
  }

  lemma FollowsNone(sys: System, id: nat, p: Peer)
    requires !sys.lost && id in sys.sessions && sys.sessions[id] == p.session && sys.counters == p.counters
    requires p.status != Lost
    ensures Follows(sys, sys, id, p, p)
  {
    hide Transmitted;
    assert sys.accepted + [] == sys.accepted && p.queued[|p.queued|..] == [];
    assert Tagged(id, p.sent[|p.sent|..]) == [] && Transmitted(sys.history) + [] == Transmitted(sys.history);
  }

  lemma {:induction false} FramesAreDeliveries(sys: System, id: nat, rooms: (nat, seq<Entry>) -> nat,
                                               p: Peer, frames: seq<seq<byte>>)
    requires !sys.lost && id in sys.sessions && sys.sessions[id] == p.session && sys.counters == p.counters
    requires p.status != Lost && forall f :: f in frames ==> IsFrame(f)
    ensures Follows(sys, Run(sys, Deliveries(id, rooms, p, frames)), id, p, HandleFrames(Alone(rooms), p, frames))
    decreases |frames|
  {
    hide Follows, HandleFrame, Next, IsFrame, Alone;
    if frames == [] || p.status != Running {
      FollowsNone(sys, id, p);
    } else {
      var f := frames[0];
      FollowsOne(sys, id, rooms, p, f);
      var r, q := Next(sys, Deliver(id, f, rooms(p.handled, p.queued))), HandleFrame(Alone(rooms), p, f);
      FollowsState(sys, r, id, p, q);
      if q.status == Running {
        FramesAreDeliveries(r, id, rooms, q, frames[1..]);
        var u := HandleFrames(Alone(rooms), q, frames[1..]);
        FollowsTwo(sys, r, Run(r, Deliveries(id, rooms, q, frames[1..])), id, p, q, u);
      }
    }
  }

  lemma FollowsState(sys: System, r: System, id: nat, p: Peer, q: Peer)
    requires Follows(sys, r, id, p, q)
    ensures r.lost == (q.status == Lost)
    ensures !r.lost ==> id in r.sessions && r.sessions[id] == q.session && r.counters == q.counters
  {
  }

  /** The deliveries of one read. */
  function ReadSteps(id: nat, rooms: (nat, seq<Entry>) -> nat, p: Peer, data: seq<byte>): seq<Step> {
    Deliveries(id, rooms, p.(status := Running), Receiver.Scan(p.buffer + Store(p.pending, data).out).frames)
  }

  /** One network read has on sessions, counters, queue and replies exactly the effect of a
      run of deliveries. */
  lemma ReadIsRun(sys: System, id: nat, rooms: (nat, seq<Entry>) -> nat, p: Peer, data: seq<byte>)
    requires !sys.lost && id in sys.sessions && sys.sessions[id] == p.session && sys.counters == p.counters
    ensures Follows(sys, Run(sys, ReadSteps(id, rooms, p, data)), id, p, ReceiveData(Alone(rooms), p, data))
  {
    hide Store, Receiver.Scan, HandleFrames, Deliveries, Transmitted, Run, IsFrame;
    var frames := Receiver.Scan(p.buffer + Store(p.pending, data).out).frames;
    Receiver.ScanFrames(p.buffer + Store(p.pending, data).out);
    FramesAreDeliveries(sys, id, rooms, p.(status := Running), frames);
  }

  // ----- Interleaved reads of many connections -----

  /** The same counters, queue log and replies, and the same sessions behind the connections;
      nothing once an undefined case was met. */
  predicate Mirrors(net: Network, sys: System) {
    && net.lost == sys.lost
    && (!net.lost ==>
          && net.counters == sys.counters
          && net.accepted == sys.accepted
          && net.sent == Transmitted(sys.history)
          && net.peers.Keys == sys.sessions.Keys
          && forall id :: id in net.peers ==> net.peers[id].session == sys.sessions[id])
  }

  /** The session-level steps of one activity, and of many. */
  function StepsOf(net: Network, a: Activity): seq<Step> {
    if net.lost then []
    else
      match a
      case Open(id) => [Connect(id)]
      case Close(id) => [Disconnect(id)]
      case Read(id, data, rooms) => if id in net.peers then ReadSteps(id, rooms, Reader(net, id), data) else []
  }

  function AllSteps(net: Network, activities: seq<Activity>): seq<Step>
    decreases |activities|
  {
    if |activities| == 0 then [] else StepsOf(net, activities[0]) + AllSteps(After(net, activities[0]), activities[1..])
  }

  lemma ActivityIsRun(net: Network, sys: System, a: Activity)
    requires Mirrors(net, sys)
    ensures Mirrors(After(net, a), Run(sys, StepsOf(net, a)))
  {
    hide Transmitted, ReadSteps, ReceiveData, ProcessMessage;
    if !net.lost {
      match a
      case Open(id) => OneStep(sys, Connect(id));
      case Close(id) => OneStep(sys, Disconnect(id));
      case Read(id, data, rooms) =>
        if id in net.peers {
          hide Run;
          LogsGrow(Alone(rooms), Reader(net, id), data);
          ReadIsRun(sys, id, rooms, Reader(net, id), data);
        }
    }
  }

  lemma OneStep(sys: System, step: Step)
    ensures Run(sys, [step]) == Next(sys, step)
  {
    assert [step][1..] == [];
    assert Run(sys, [step]) == Run(Next(sys, step), []);
  }

  lemma {:induction false} StepsAppend(sys: System, x: seq<Step>, y: seq<Step>)
    ensures Run(sys, x + y) == Run(Run(sys, x), y)
    decreases |x|
  {
    hide Next;
    if x == [] {
      assert x + y == y;
    } else {
      assert (x + y)[1..] == x[1..] + y;
      StepsAppend(Next(sys, x[0]), x[1..], y);
    }
  }

  /** Every interleaving of reads is a run of the session-level system. */
  lemma {:induction false} ReadsAreRuns(net: Network, sys: System, activities: seq<Activity>)
    requires Mirrors(net, sys)
    ensures Mirrors(AfterAll(net, activities), Run(sys, AllSteps(net, activities)))
    decreases |activities|
  {
    hide Mirrors, After, StepsOf, Next;
    if |activities| != 0 {
      var a := activities[0];
      ActivityIsRun(net, sys, a);
      ReadsAreRuns(After(net, a), Run(sys, StepsOf(net, a)), activities[1..]);
      StepsAppend(sys, StepsOf(net, a), AllSteps(After(net, a), activities[1..]));
    }
  }

  /** Every record above the counters the server started with, and at or below a counter or a
      deletion sent on any connection, was carried by a frame taken in full; and of every such
      frame all events of all records have been queued. */
  ghost predicate NothingLost(net: Network, sys: System, base: Counters) {
    && (forall j :: 0 <= j < |sys.taken| ==> Stands(net.accepted, sys.taken[j]))
    && (forall c: uint32 :: CarriedUpTo(sys.taken, c, LastCounter(base, c), LastCounter(net.counters, c)))
    && (forall x :: x in net.sent && x.1.Delete? ==>
          exists e :: e in sys.history && e.Sent? && e.id == x.0 && e.reply == x.1
                      && CarriedUpTo(sys.taken, e.controller, LastCounter(base, e.controller), e.reply.n))
  }

  lemma {:induction false} TransmittedFrom(history: seq<Event>, x: (nat, Reply))
    requires x in Transmitted(history)
    ensures exists e :: e in history && e.Sent? && e.id == x.0 && e.reply == x.1
    decreases |history|
  {
    var e, before := history[|history| - 1], history[..|history| - 1];
    if x in Transmitted(before) {
      TransmittedFrom(before, x);
    } else {
      assert e in history && e.Sent? && e.id == x.0 && e.reply == x.1;
    }
  }

  /** No record is deleted before it is queued, whatever bytes arrive on any number of
      connections, in reads cut and interleaved at will: it is enough that the data frames
      among them start no later than the counter of their controller plus one. */
  lemma NoRecordLostInReads(net: Network, sys: System, base: Counters, activities: seq<Activity>)
    requires Mirrors(net, sys) && Safe(sys, base) && ContiguousRun(sys, AllSteps(net, activities))
    ensures var end := AfterAll(net, activities);
            !end.lost ==> NothingLost(end, Run(sys, AllSteps(net, activities)), base)
  {
    hide AfterAll, Run, AllSteps, ContiguousRun, Transmitted, CarriedUpTo, Stands;
    ReadsAreRuns(net, sys, activities);
    NoRecordLost(sys, base, AllSteps(net, activities));
    var end, r := AfterAll(net, activities), Run(sys, AllSteps(net, activities));
    if !end.lost {
      forall x | x in end.sent && x.1.Delete?
        ensures exists e :: e in r.history && e.Sent? && e.id == x.0 && e.reply == x.1
                            && CarriedUpTo(r.taken, e.controller, LastCounter(base, e.controller), e.reply.n)
      {
        TransmittedFrom(r.history, x);
      }
    }
  }

  /** A deleted record need not have left an entry, though: all of them have if and only if
      every one carries an event. */
  lemma ReadsLeaveEntriesExactly(net: Network, sys: System, base: Counters, activities: seq<Activity>)
    requires Mirrors(net, sys) && Safe(sys, base) && ContiguousRun(sys, AllSteps(net, activities))
    ensures var end, r := AfterAll(net, activities), Run(sys, AllSteps(net, activities));
            !end.lost ==>
              ((forall j: nat, n: int :: DeletedOf(r, base, j, n) ==> HasEntry(end.accepted, r.taken[j], n)) <==>
               (forall j: nat, n: int :: DeletedOf(r, base, j, n) ==> Mids(Decode(RecordOf(r.taken[j], n))) != []))
  {
    hide AfterAll, Run, AllSteps, ContiguousRun, Transmitted, Safe, HasEntry, Deleted, Decode, Mids, RecordOf;
    ReadsAreRuns(net, sys, activities);
    NoRecordLost(sys, base, AllSteps(net, activities));
    DeletedHasEntryExactly(Run(sys, AllSteps(net, activities)), base);
  }

  /** Data requests sent on one connection. */
  function RequestsSent(sent: seq<(nat, Reply)>, id: nat): nat {
    if sent == [] then 0
    else
      RequestsSent(sent[..|sent| - 1], id) +
      var x := sent[|sent| - 1]; if x.0 == id && x.1.Request? then 1 else 0
  }

  lemma {:induction false} RequestsTransmitted(history: seq<Event>, id: nat)
    ensures RequestsSent(Transmitted(history), id) == Requests(history, id)
    decreases |history|
  {
    if history != [] {
      var before, e := history[..|history| - 1], history[|history| - 1];
      RequestsTransmitted(before, id);
      if e.Sent? {
        assert (Transmitted(before) + [(e.id, e.reply)])[..|Transmitted(before)|] == Transmitted(before);
      } else {
        assert Transmitted(before) + [] == Transmitted(before);
      }
    }
  }

  /** Data requests sent on a connection never exceed the identifications accepted from it,
      and every reply carries the number it should, over all interleaved reads. */
  lemma RequestsAccountedInReads(net: Network, sys: System, activities: seq<Activity>, id: nat)
    requires Mirrors(net, sys) && Accounted(sys) && RepliesRight(sys.history)
    ensures var end, history := AfterAll(net, activities), Run(sys, AllSteps(net, activities)).history;
            !end.lost ==>
              && RequestsSent(end.sent, id) <= Identifications(history, id)
              && end.sent == Transmitted(history) && RepliesRight(history)
  {
    hide AfterAll, Run, AllSteps, Transmitted, Requests, RequestsSent, Identifications, RepliesRight;
    ReadsAreRuns(net, sys, activities);
    RequestsAccounted(sys, AllSteps(net, activities));
    RunRepliesRight(sys, AllSteps(net, activities));
    var r := Run(sys, AllSteps(net, activities));
    RequestsTransmitted(r.history, id);
    assert Requests(r.history, id) + (if Waiting(r, id) then 1 else 0) <= Identifications(r.history, id);
  }

  /** The server as it starts, with the counters of an earlier run. */
  function Started(counters: Counters): Network {
    Network(map[], counters, [], [], false)
  }

  function StartedSystem(counters: Counters): System {
    System(map[], counters, [], [], [], false)
  }

  lemma FreshStart(counters: Counters)
    ensures Mirrors(Started(counters), StartedSystem(counters))
    ensures Safe(StartedSystem(counters), counters)
    ensures Accounted(StartedSystem(counters)) && RepliesRight(StartedSystem(counters).history)
  {
  }

  /** From the start: nothing above the first counters is lost. */
  lemma NothingLostFromStart(counters: Counters, activities: seq<Activity>)
    requires ContiguousRun(StartedSystem(counters), AllSteps(Started(counters), activities))
    ensures var steps := AllSteps(Started(counters), activities);
            var end := AfterAll(Started(counters), activities);
            !end.lost ==> NothingLost(end, Run(StartedSystem(counters), steps), counters)
  {
    hide AfterAll, Run, AllSteps, NothingLost, ContiguousRun;
    FreshStart(counters);
    NoRecordLostInReads(Started(counters), StartedSystem(counters), counters, activities);
  }

  /** In plain terms: a deletion names no record that was not carried by a frame taken in full,
      above the number the server had for its controller at the start, or zero if it had none;
      and neither does a counter. */
  lemma DeletionsCoverCarried(counters: Counters, activities: seq<Activity>)
    requires ContiguousRun(StartedSystem(counters), AllSteps(Started(counters), activities))
    ensures var end := AfterAll(Started(counters), activities);
            var sys := Run(StartedSystem(counters), AllSteps(Started(counters), activities));
            !end.lost ==>
              && (forall x :: x in end.sent && x.1.Delete? ==>
                    exists e :: e in sys.history && e.Sent? && e.id == x.0 && e.reply == x.1
                      && forall n :: (if e.controller in counters then counters[e.controller] else 0) < n <= x.1.n ==>
                           Carried(sys.taken, e.controller, n))
              && (forall c, n ::
                    c in end.counters && (if c in counters then counters[c] else 0) < n <= end.counters[c] ==>
                      Carried(sys.taken, c, n))
  {
    hide AfterAll, Run, AllSteps, ContiguousRun, Carried, Stands;
    NothingLostFromStart(counters, activities);
    var end := AfterAll(Started(counters), activities);
    var sys := Run(StartedSystem(counters), AllSteps(Started(counters), activities));
    if !end.lost {
      forall x | x in end.sent && x.1.Delete?
        ensures exists e :: e in sys.history && e.Sent? && e.id == x.0 && e.reply == x.1
                  && forall n :: (if e.controller in counters then counters[e.controller] else 0) < n <= x.1.n ==>
                       Carried(sys.taken, e.controller, n)
      {
        var e :| e in sys.history && e.Sent? && e.id == x.0 && e.reply == x.1
                 && CarriedUpTo(sys.taken, e.controller, LastCounter(counters, e.controller), e.reply.n);
      }
      forall c, n | c in end.counters && (if c in counters then counters[c] else 0) < n <= end.counters[c]
        ensures Carried(sys.taken, c, n)
      {
        assert CarriedUpTo(sys.taken, c, LastCounter(counters, c), LastCounter(end.counters, c));
      }
    }
  }

  /** A server that starts without counters deletes only records 1 to n that it has taken in. */
  lemma NewServerLosesNothing(activities: seq<Activity>)
    requires ContiguousRun(StartedSystem(map[]), AllSteps(Started(map[]), activities))
    ensures var end := AfterAll(Started(map[]), activities);
            var sys := Run(StartedSystem(map[]), AllSteps(Started(map[]), activities));
            !end.lost ==>
              forall x :: x in end.sent && x.1.Delete? ==>
                exists e :: e in sys.history && e.Sent? && e.id == x.0 && e.reply == x.1
                  && forall n :: 1 <= n <= x.1.n ==> Carried(sys.taken, e.controller, n)
  {
    hide AfterAll, Run, AllSteps, ContiguousRun, Carried;
    DeletionsCoverCarried(map[], activities);
  }

  /** From the start, and without any assumption: requests and replies are as they should be. */
  lemma RequestsAccountedFromStart(counters: Counters, activities: seq<Activity>, id: nat)
    ensures var end := AfterAll(Started(counters), activities);
            var history := Run(StartedSystem(counters), AllSteps(Started(counters), activities)).history;
            !end.lost ==>
              && RequestsSent(end.sent, id) <= Identifications(history, id)
              && end.sent == Transmitted(history) && RepliesRight(history)
  {
    hide AfterAll, Run, AllSteps, Transmitted, RepliesRight;
    FreshStart(counters);
    RequestsAccountedInReads(Started(counters), StartedSystem(counters), activities, id);
  }
}
