/** Many sessions over one counter map and one queue, interleaved handler by handler:
    one thread runs the network service, while the storage thread may make room at any
    time. What holds over every run. */
module System {
  import opened Bytes
  import opened Frames
  import opened InfoPackage
  import opened Handlers

  /** What a session did, in the order it happened, with its controller at that moment. */
  datatype Event =
    | Identified(id: nat, controller: uint32)
    | Sent(id: nat, controller: uint32, counter: uint32, reply: Reply)

  /** A data frame taken in full: the session it came from, the number of its last record, its
      records, and how many entries had been accepted before. */
  datatype Taken = Taken(session: Session, last: uint32, records: seq<seq<byte>>, start: nat)

  /** Open sessions, counters, everything add_message ever accepted, the data frames taken in
      full, and the history. A lost system has met an undefined case: the rest is what it was
      before, and nothing more is claimed. */
  datatype System = System(
    sessions: map<nat, Session>, counters: Counters, accepted: seq<Entry>, taken: seq<Taken>,
    history: seq<Event>, lost: bool)

  /** A frame is delivered to a session while the queue takes at most `room` entries. */
  datatype Step = Connect(id: nat) | Deliver(id: nat, frame: seq<byte>, room: nat) | Disconnect(id: nat)

  function SentEvents(id: nat, controller: uint32, counter: uint32, sent: seq<Reply>): (es: seq<Event>)
    ensures |es| == |sent|
  {
    seq(|sent|, i requires 0 <= i < |sent| => Sent(id, controller, counter, sent[i]))
  }

  function Events(id: nat, h: Handled, f: seq<byte>): seq<Event>
    requires IsFrame(f)
  {
    var c := h.session.controller;
    (if f[1] == CONTROLLER_IDENT && h.outcome == Done then [Identified(id, c)] else [])
    + SentEvents(id, c, LastCounter(h.counters, c), h.sent)
  }

  /** The data frame is taken in full by the session it is delivered to. */
  predicate Accepts(s: Session, f: seq<byte>, room: nat) {
    && IsFrame(f) && (f[1] == ARCHIVE_DATA || f[1] == CURRENT_DATA)
    && HasBlock(f) && ChainOk(f) && |FrameEntries(s, f)| <= room
  }

  function TakenBy(s: Session, f: seq<byte>, room: nat, start: nat): seq<Taken> {
    if Accepts(s, f, room) then [Taken(s, LastNumber(f), SplitChain(Block(f)).records, start)] else []
  }

  /** A session whose handler threw stays until it is closed: its client has been stopped,
      but a read that was complete by then may still be handled. */
  function Next(sys: System, step: Step): System {
    if sys.lost then sys
    else
      match step
      case Connect(id) =>
        if id in sys.sessions then sys else sys.(sessions := sys.sessions[id := NEW_SESSION])
      case Disconnect(id) =>
        sys.(sessions := sys.sessions - {id})
      case Deliver(id, f, room) =>
        if id !in sys.sessions || !IsFrame(f) then sys
        else
          var h := ProcessMessage(sys.sessions[id], sys.counters, f, room);
          if h.outcome == Undefined then sys.(lost := true)
          else
            System(sys.sessions[id := h.session], h.counters, sys.accepted + h.queued,
                   sys.taken + TakenBy(sys.sessions[id], f, room, |sys.accepted|),
                   sys.history + Events(id, h, f), false)
  }

  function Run(sys: System, steps: seq<Step>): System
    decreases |steps|
  {
    if steps == [] then sys else Run(Next(sys, steps[0]), steps[1..])
  }

  /** Every request asks for what follows the current counter, every deletion carries the
      current, nonzero counter, and only a frame taken in full moves a counter. */
  lemma RepliesFollowCounter(s: Session, counters: Counters, f: seq<byte>, room: nat)
    requires IsFrame(f)
    ensures var h := ProcessMessage(s, counters, f, room);
            forall r :: r in h.sent && r.Delete? ==> r.n != 0 && r.n == LastCounter(h.counters, h.session.controller)
    ensures var h := ProcessMessage(s, counters, f, room);
            forall r :: r in h.sent && r.Request? ==>
              r.n == RequestNumber(LastCounter(h.counters, h.session.controller))
    ensures var h := ProcessMessage(s, counters, f, room);
            && (Accepts(s, f, room) ==>
                  && h.outcome == Done && h.session.controller == s.controller
                  && h.counters == counters[s.controller := LastNumber(f)] && h.queued == FrameEntries(s, f))
            && (!Accepts(s, f, room) ==> h.counters == counters)
  {
    hide SplitChain, Infos, EntriesOf;
  }

  // ----- Request accounting -----

  function Requests(history: seq<Event>, id: nat): nat {
    if history == [] then 0
    else Requests(history[..|history| - 1], id) +
         var e := history[|history| - 1];
         if e.Sent? && e.id == id && e.reply.Request? then 1 else 0
  }

  function Identifications(history: seq<Event>, id: nat): nat {
    if history == [] then 0
    else Identifications(history[..|history| - 1], id) +
         var e := history[|history| - 1];
         if e.Identified? && e.id == id then 1 else 0
  }

  predicate Waiting(sys: System, id: nat) {
    id in sys.sessions && sys.sessions[id].phase == WaitInitialDeleteConfirm
  }

  /** Data requests sent, plus one while waiting for the initial confirmation, never
      exceed the identifications accepted. */
  ghost predicate Accounted(sys: System) {
    forall id: nat ::
      Requests(sys.history, id) + (if Waiting(sys, id) then 1 else 0) <= Identifications(sys.history, id)
  }

  lemma {:induction false} CountsAppend(a: seq<Event>, b: seq<Event>, id: nat)
    ensures Requests(a + b, id) == Requests(a, id) + Requests(b, id)
    ensures Identifications(a + b, id) == Identifications(a, id) + Identifications(b, id)
    decreases |b|
  {
    if b == [] {
      assert a + b == a;
    } else {
      var b' := b[..|b| - 1];
      assert (a + b)[..|a + b| - 1] == a + b';
      CountsAppend(a, b', id);
    }
  }

  /** At most one reply per handler; a request only where waiting ends or an
      identification finds no counter. */
  lemma HandlerAccounts(s: Session, counters: Counters, f: seq<byte>, room: nat)
    requires IsFrame(f)
    ensures var h := ProcessMessage(s, counters, f, room);
            && |h.sent| <= 1
            && (h.outcome != Done ==> h.sent == [] && h.session == s)
            && (|h.sent| == 1 && h.sent[0].Request? && f[1] != CONTROLLER_IDENT ==> s.phase == WaitInitialDeleteConfirm)
            && (h.outcome == Done && h.session.phase == WaitInitialDeleteConfirm ==>
                  (|h.sent| == 1 ==> h.sent[0].Delete?)
                  && (f[1] == CONTROLLER_IDENT || s.phase == WaitInitialDeleteConfirm))
  {
    hide SplitChain, Infos, EntriesOf;
  }

  lemma EventCounts(id: nat, h: Handled, f: seq<byte>, j: nat)
    requires IsFrame(f) && |h.sent| <= 1
    ensures Requests(Events(id, h, f), j) == if j == id && |h.sent| == 1 && h.sent[0].Request? then 1 else 0
    ensures Identifications(Events(id, h, f), j) ==
            if j == id && f[1] == CONTROLLER_IDENT && h.outcome == Done then 1 else 0
  {
    hide Requests, Identifications;
    var c := h.session.controller;
    var ident := if f[1] == CONTROLLER_IDENT && h.outcome == Done then [Identified(id, c)] else [];
    var sent := SentEvents(id, c, LastCounter(h.counters, c), h.sent);
    CountsAppend(ident, sent, j);
    CountsOfFew(ident, j);
    CountsOfFew(sent, j);
  }

  lemma CountsOfFew(es: seq<Event>, id: nat)
    requires |es| <= 1
    ensures Requests(es, id) == if |es| == 1 && es[0].Sent? && es[0].id == id && es[0].reply.Request? then 1 else 0
    ensures Identifications(es, id) == if |es| == 1 && es[0].Identified? && es[0].id == id then 1 else 0
  {
    if |es| == 1 {
      assert es[..0] == [];
    }
  }

  lemma StepAccounted(sys: System, step: Step)
    requires Accounted(sys)
    ensures Accounted(Next(sys, step))
  {
    hide ProcessMessage, IsFrame, Requests, Identifications, Events;
    forall id: nat
      ensures var n := Next(sys, step);
              Requests(n.history, id) + (if Waiting(n, id) then 1 else 0) <= Identifications(n.history, id)
    {
      assert Requests(sys.history, id) + (if Waiting(sys, id) then 1 else 0) <= Identifications(sys.history, id);
      if !sys.lost && step.Deliver? && step.id in sys.sessions && IsFrame(step.frame) {
        var s, f := sys.sessions[step.id], step.frame;
        var h := ProcessMessage(s, sys.counters, f, step.room);
        HandlerAccounts(s, sys.counters, f, step.room);
        CountsAppend(sys.history, Events(step.id, h, f), id);
        EventCounts(step.id, h, f, id);
      }
    }
  }

  lemma {:induction false} RequestsAccounted(sys: System, steps: seq<Step>)
    requires Accounted(sys)
    ensures Accounted(Run(sys, steps))
    decreases |steps|
  {
    hide Accounted, Next;
    if steps != [] {
      StepAccounted(sys, steps[0]);
      RequestsAccounted(Next(sys, steps[0]), steps[1..]);
    }
  }

  /** Every request in the history carries 0 for a zero counter and counter + 1 modulo 2^32
      otherwise; every deletion carries the counter of that moment, which is not zero. */
  predicate RepliesRight(history: seq<Event>) {
    forall e :: e in history && e.Sent? ==>
      match e.reply
      case Request(n) => n == if e.counter == 0 then 0 else (e.counter as int + 1) % 0x1_0000_0000
      case Delete(n) => n == e.counter && n != 0
  }

  lemma StepRepliesRight(sys: System, step: Step)
    requires RepliesRight(sys.history)
    ensures RepliesRight(Next(sys, step).history)
  {
    hide ProcessMessage, IsFrame, Accepts, Events;
    if !sys.lost && step.Deliver? && step.id in sys.sessions && IsFrame(step.frame) {
      var h := ProcessMessage(sys.sessions[step.id], sys.counters, step.frame, step.room);
      RepliesFollowCounter(sys.sessions[step.id], sys.counters, step.frame, step.room);
      EventsRight(step.id, h, step.frame);
    }
  }

  lemma EventsRight(id: nat, h: Handled, f: seq<byte>)
    requires IsFrame(f)
    requires var n := LastCounter(h.counters, h.session.controller);
             forall r :: r in h.sent ==>
               match r case Request(k) => k == RequestNumber(n) case Delete(k) => k == n && k != 0
    ensures RepliesRight(Events(id, h, f))
  {
    hide IsFrame, LastCounter;
    forall e | e in Events(id, h, f) && e.Sent?
      ensures e.reply in h.sent && e.counter == LastCounter(h.counters, h.session.controller)
    {
    }
  }

  lemma {:induction false} RunRepliesRight(sys: System, steps: seq<Step>)
    requires RepliesRight(sys.history)
    ensures RepliesRight(Run(sys, steps).history)
    decreases |steps|
  {
    hide RepliesRight, Next;
    if steps != [] {
      StepRepliesRight(sys, steps[0]);
      RunRepliesRight(Next(sys, steps[0]), steps[1..]);
    }
  }
}
