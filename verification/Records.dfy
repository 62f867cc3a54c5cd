/** What the program is for: a controller is never told to delete a record that has not been
    taken in. Numbers are those of records, as controllers count them; a record may carry any
    number of events, each of which becomes one queued entry. */
module Records {
  import opened Bytes
  import opened Frames
  import opened InfoPackage
  import opened Handlers
  import opened System

  // ----- Where a record's entries are -----

  /** The entries of a frame taken in full stand together in the log, in order. */
  predicate Stands(accepted: seq<Entry>, t: Taken) {
    var es := EntriesOf(t.session, t.last, Infos(t.records));
    t.start + |es| <= |accepted| && accepted[t.start..t.start + |es|] == es
  }

  /** The frame carries record number n of controller c. */
  predicate Carries(t: Taken, c: uint32, n: int) {
    t.session.controller == c && t.last - |t.records| < n <= t.last
  }

  function IndexOf(t: Taken, n: int): (k: nat)
    requires t.last - |t.records| < n <= t.last
    ensures k < |t.records|
  {
    n - (t.last - |t.records|) - 1
  }

  function RecordOf(t: Taken, n: int): seq<byte>
    requires t.last - |t.records| < n <= t.last
  {
    t.records[IndexOf(t, n)]
  }

  /** Where the entries of that record begin in the log, and where they end. */
  function EntriesBegin(t: Taken, n: int): nat
    requires t.last - |t.records| < n <= t.last
  {
    t.start + |Infos(t.records[..IndexOf(t, n)])|
  }

  function EntriesEnd(t: Taken, n: int): (e: nat)
    requires t.last - |t.records| < n <= t.last
    ensures e == EntriesBegin(t, n) + |Mids(Decode(RecordOf(t, n)))|
  {
    hide Decode, Mids, Infos;
    InfosOfRecord(t.records, IndexOf(t, n));
    t.start + |Infos(t.records[..IndexOf(t, n) + 1])|
  }

  /** Entry i of the record is in the log, in its place, with its event, under its controller. */
  predicate EventQueued(accepted: seq<Entry>, t: Taken, n: int, i: nat)
    requires t.last - |t.records| < n <= t.last && i < |Mids(Decode(RecordOf(t, n)))|
  {
    var p := EntriesBegin(t, n) + i;
    && p < |accepted|
    && accepted[p].controller == t.session.controller && accepted[p].firmware == t.session.firmware
    && accepted[p].info.mid == Mids(Decode(RecordOf(t, n)))[i] && accepted[p].info.msg == Decode(RecordOf(t, n))
  }

  /** Every event of the record is in the log, in order. */
  predicate RecordQueued(accepted: seq<Entry>, t: Taken, n: int)
    requires t.last - |t.records| < n <= t.last
  {
    && EntriesEnd(t, n) <= |accepted|
    && forall i: nat :: i < |Mids(Decode(RecordOf(t, n)))| ==> EventQueued(accepted, t, n, i)
  }

  lemma StandsQueued(accepted: seq<Entry>, t: Taken, n: int)
    requires Stands(accepted, t) && t.last - |t.records| < n <= t.last
    ensures RecordQueued(accepted, t, n)
  {
    hide InfosIn, EntriesBegin, EntriesEnd, RecordOf, Stands, EventQueued, Infos, Decode, Mids;
    RecordPlace(t, n);
    StandsWithin(accepted, t);
    forall i: nat | i < |Mids(Decode(RecordOf(t, n)))|
      ensures EventQueued(accepted, t, n, i)
    {
      StandsEvent(accepted, t, n, i);
    }
  }

  lemma StandsEvent(accepted: seq<Entry>, t: Taken, n: int, i: nat)
    requires Stands(accepted, t) && t.last - |t.records| < n <= t.last && i < |Mids(Decode(RecordOf(t, n)))|
    ensures EventQueued(accepted, t, n, i)
  {
    hide InfosIn, EntriesBegin, EntriesEnd, RecordOf, Stands, Infos, Decode, Mids;
    RecordPlace(t, n);
    var at, infos := EntriesBegin(t, n) - t.start, Infos(t.records);
    assert infos[at..EntriesEnd(t, n) - t.start][i] == infos[at + i];
    StandsAt(accepted, t, at + i);
    assert t.start + (at + i) == EntriesBegin(t, n) + i;
  }

  /** The messages of a record among those of its frame. */
  lemma RecordPlace(t: Taken, n: int)
    requires t.last - |t.records| < n <= t.last
    ensures t.start <= EntriesBegin(t, n) <= EntriesEnd(t, n) <= t.start + |Infos(t.records)|
    ensures Infos(t.records)[EntriesBegin(t, n) - t.start..EntriesEnd(t, n) - t.start] == InfosIn(RecordOf(t, n))
  {
    hide InfosIn, Infos, Decode, Mids;
    InfosOfRecord(t.records, IndexOf(t, n));
  }

  lemma StandsWithin(accepted: seq<Entry>, t: Taken)
    requires Stands(accepted, t)
    ensures t.start + |Infos(t.records)| <= |accepted|
  {
  }

  /** Entry i of the frame, in the log. */
  lemma StandsAt(accepted: seq<Entry>, t: Taken, i: nat)
    requires Stands(accepted, t) && i < |Infos(t.records)|
    ensures t.start + i < |accepted|
    ensures accepted[t.start + i].controller == t.session.controller
    ensures accepted[t.start + i].firmware == t.session.firmware
    ensures accepted[t.start + i].info == Infos(t.records)[i]
    ensures accepted[t.start + i].mesNumber == LabelOf(t.last - |Infos(t.records)| + 1 + i)
  {
    hide EntriesOf, Infos, LabelOf;
    var es := EntriesOf(t.session, t.last, Infos(t.records));
    LabelsConsecutive(t.session, t.last, Infos(t.records), i);
    assert accepted[t.start..t.start + |es|][i] == accepted[t.start + i];
  }

  // ----- No record is deleted before it is queued -----

  ghost predicate Carried(taken: seq<Taken>, c: uint32, n: int) {
    exists j :: 0 <= j < |taken| && Carries(taken[j], c, n)
  }

  ghost predicate CarriedUpTo(taken: seq<Taken>, c: uint32, from: int, to: int) {
    forall n :: from < n <= to ==> Carried(taken, c, n)
  }

  /** Every record above the counters the server started with, and at or below a counter or a
      deletion sent since, was carried by a frame taken in full; and of every such frame all
      events of all records have been queued. */
  ghost predicate Safe(sys: System, base: Counters) {
    && (forall j :: 0 <= j < |sys.taken| ==> Stands(sys.accepted, sys.taken[j]))
    && (forall c: uint32 :: CarriedUpTo(sys.taken, c, LastCounter(base, c), LastCounter(sys.counters, c)))
    && (forall e :: e in sys.history && e.Sent? && e.reply.Delete? ==>
          CarriedUpTo(sys.taken, e.controller, LastCounter(base, e.controller), e.reply.n))
  }

  /** The number before the first record of a data frame. */
  function Before(f: seq<byte>): int
    requires HasBlock(f) && ChainOk(f)
  {
    LastNumber(f) - |SplitChain(Block(f)).records|
  }

  /** What is assumed of a controller: a data frame starts no later than counter + 1. */
  predicate Contiguous(sys: System, step: Step) {
    !sys.lost && step.Deliver? && step.id in sys.sessions && Accepts(sys.sessions[step.id], step.frame, step.room) ==>
      Before(step.frame) <= LastCounter(sys.counters, sys.sessions[step.id].controller)
  }

  predicate ContiguousRun(sys: System, steps: seq<Step>)
    decreases |steps|
  {
    steps == [] || (Contiguous(sys, steps[0]) && ContiguousRun(Next(sys, steps[0]), steps[1..]))
  }

  lemma CarriedMore(taken: seq<Taken>, more: seq<Taken>, c: uint32, from: int, to: int)
    requires CarriedUpTo(taken, c, from, to)
    ensures CarriedUpTo(taken + more, c, from, to)
  {
    forall n | from < n <= to
      ensures Carried(taken + more, c, n)
    {
      assert Carried(taken, c, n);
      var j :| 0 <= j < |taken| && Carries(taken[j], c, n);
      assert (taken + more)[j] == taken[j];
    }
  }

  /** A frame that begins no later than after what was carried extends it to its last record. */
  lemma CarriedOn(taken: seq<Taken>, t: Taken, from: int, to: int)
    requires CarriedUpTo(taken, t.session.controller, from, to)
    requires forall n :: from < n && to < n <= t.last - |t.records| ==> Carried(taken, t.session.controller, n)
    ensures CarriedUpTo(taken + [t], t.session.controller, from, t.last)
  {
    var c := t.session.controller;
    forall n | from < n <= t.last
      ensures Carried(taken + [t], c, n)
    {
      if n <= t.last - |t.records| {
        assert Carried(taken, c, n);
        var j :| 0 <= j < |taken| && Carries(taken[j], c, n);
        assert (taken + [t])[j] == taken[j];
      } else {
        assert (taken + [t])[|taken|] == t;
      }
    }
  }

  lemma StandStill(accepted: seq<Entry>, more: seq<Entry>, t: Taken)
    requires Stands(accepted, t)
    ensures Stands(accepted + more, t)
  {
    hide EntriesOf, Infos;
    var n := |EntriesOf(t.session, t.last, Infos(t.records))|;
    assert (accepted + more)[t.start..t.start + n] == accepted[t.start..t.start + n];
  }

  /** What a delivery does, in terms of its frame: only one taken in full moves a counter. */
  lemma DeliveryTakes(s: Session, counters: Counters, f: seq<byte>, room: nat, accepted: seq<Entry>)
    requires IsFrame(f)
    ensures var h, t := ProcessMessage(s, counters, f, room), TakenBy(s, f, room, |accepted|);
            && (t == [] ==> h.counters == counters)
            && (t != [] ==>
                  && Accepts(s, f, room) && t == [t[0]]
                  && t[0].session == s && t[0].last == LastNumber(f)
                  && t[0].last - |t[0].records| == Before(f)
                  && h.outcome == Done && h.counters == counters[s.controller := t[0].last]
                  && Stands(accepted + h.queued, t[0]))
  {
    hide ProcessMessage, IsFrame, SplitChain, Infos, EntriesOf;
    RepliesFollowCounter(s, counters, f, room);
    var t := TakenBy(s, f, room, |accepted|);
    if t != [] {
      var es := FrameEntries(s, f);
      assert (accepted + es)[|accepted|..|accepted| + |es|] == es;
    }
  }

  lemma HistorySafe(sys: System, base: Counters, id: nat, h: Handled, f: seq<byte>, more: seq<Taken>)
    requires Safe(sys, base) && IsFrame(f)
    requires forall c: uint32 ::
               CarriedUpTo(sys.taken + more, c, LastCounter(base, c), LastCounter(h.counters, c))
    requires forall r :: r in h.sent && r.Delete? ==> r.n == LastCounter(h.counters, h.session.controller)
    ensures forall e :: e in sys.history + Events(id, h, f) && e.Sent? && e.reply.Delete? ==>
              CarriedUpTo(sys.taken + more, e.controller, LastCounter(base, e.controller), e.reply.n)
  {
    hide CarriedUpTo, IsFrame, Stands;
    forall e | e in sys.history + Events(id, h, f) && e.Sent? && e.reply.Delete?
      ensures CarriedUpTo(sys.taken + more, e.controller, LastCounter(base, e.controller), e.reply.n)
    {
      if e in sys.history {
        CarriedMore(sys.taken, more, e.controller, LastCounter(base, e.controller), e.reply.n);
      } else {
        assert e in Events(id, h, f);
        assert e.reply in h.sent;
      }
    }
  }

  /** A delivery is safe if the records its frame skips were carried before. */
  lemma DeliverySafe(sys: System, base: Counters, id: nat, f: seq<byte>, room: nat)
    requires Safe(sys, base) && !sys.lost && id in sys.sessions && IsFrame(f)
    requires Accepts(sys.sessions[id], f, room) ==>
               var c := sys.sessions[id].controller;
               forall n :: LastCounter(base, c) < n && LastCounter(sys.counters, c) < n <= Before(f) ==>
                 Carried(sys.taken, c, n)
    ensures Safe(Next(sys, Deliver(id, f, room)), base)
  {
    hide ProcessMessage, Accepts, IsFrame, HasBlock, ChainOk, Before, Events, Carried, Stands;
    var s := sys.sessions[id];
    var h, more := ProcessMessage(s, sys.counters, f, room), TakenBy(s, f, room, |sys.accepted|);
    DeliveryTakes(s, sys.counters, f, room, sys.accepted);
    RepliesFollowCounter(s, sys.counters, f, room);
    forall c: uint32
      ensures CarriedUpTo(sys.taken + more, c, LastCounter(base, c), LastCounter(h.counters, c))
    {
      CarriedMore(sys.taken, more, c, LastCounter(base, c), LastCounter(sys.counters, c));
      if more != [] && c == s.controller {
        CarriedOn(sys.taken, more[0], LastCounter(base, c), LastCounter(sys.counters, c));
      }
    }
    HistorySafe(sys, base, id, h, f, more);
    forall j | 0 <= j < |sys.taken + more|
      ensures Stands(sys.accepted + h.queued, (sys.taken + more)[j])
    {
      if j < |sys.taken| {
        StandStill(sys.accepted, h.queued, sys.taken[j]);
      }
    }
  }

  lemma StepSafe(sys: System, base: Counters, step: Step)
    requires Safe(sys, base) && Contiguous(sys, step)
    ensures Safe(Next(sys, step), base)
  {
    hide Stands, CarriedUpTo, Before, Accepts, IsFrame, ProcessMessage;
    if !sys.lost && step.Deliver? && step.id in sys.sessions && IsFrame(step.frame) {
      DeliverySafe(sys, base, step.id, step.frame, step.room);
    }
  }

  /** No record is deleted before it is queued, over every run of any number of sessions,
      including runs in which the queue overflows in the middle of a frame. */
  lemma {:induction false} NoRecordLost(sys: System, base: Counters, steps: seq<Step>)
    requires Safe(sys, base) && ContiguousRun(sys, steps)
    ensures Safe(Run(sys, steps), base)
    decreases |steps|
  {
    hide Safe, Contiguous, Next;
    if steps != [] {
      StepSafe(sys, base, steps[0]);
      NoRecordLost(Next(sys, steps[0]), base, steps[1..]);
    }
  }

  /** The assumption is not idle: a frame taken in full keeps the system safe if and only if
      the records it skips, after the counter and before its first, were carried before. */
  lemma SafeExactly(sys: System, base: Counters, id: nat, f: seq<byte>, room: nat)
    requires Safe(sys, base) && !sys.lost && id in sys.sessions && Accepts(sys.sessions[id], f, room)
    ensures var c := sys.sessions[id].controller;
            Safe(Next(sys, Deliver(id, f, room)), base) <==>
            forall n :: LastCounter(base, c) < n && LastCounter(sys.counters, c) < n <= Before(f) ==>
              Carried(sys.taken, c, n)
  {
    hide ProcessMessage, HasBlock, ChainOk, Before, Stands;
    var s, next := sys.sessions[id], Next(sys, Deliver(id, f, room));
    var c := s.controller;
    DeliveryTakes(s, sys.counters, f, room, sys.accepted);
    if Safe(next, base) {
      var t := TakenBy(s, f, room, |sys.accepted|)[0];
      assert next.taken == sys.taken + [t] && LastCounter(next.counters, c) == t.last;
      forall n | LastCounter(base, c) < n && LastCounter(sys.counters, c) < n <= Before(f)
        ensures Carried(sys.taken, c, n)
      {
        assert CarriedUpTo(next.taken, c, LastCounter(base, c), t.last);
        assert Carried(next.taken, c, n);
        var j :| 0 <= j < |next.taken| && Carries(next.taken[j], c, n);
        assert next.taken[j] == sys.taken[j];
      }
    }
    if forall n :: LastCounter(base, c) < n && LastCounter(sys.counters, c) < n <= Before(f) ==>
         Carried(sys.taken, c, n) {
      DeliverySafe(sys, base, id, f, room);
    }
  }

  // ----- Records without events -----

  /** A deletion sent since the start covers record n of controller c. */
  ghost predicate Deleted(sys: System, base: Counters, c: uint32, n: int) {
    exists e :: e in sys.history && e.Sent? && e.reply.Delete? && e.controller == c
                && LastCounter(base, c) < n <= e.reply.n
  }

  /** Frame j carries record n, and a deletion sent covers it. */
  ghost predicate DeletedOf(sys: System, base: Counters, j: nat, n: int) {
    && j < |sys.taken|
    && Carries(sys.taken[j], sys.taken[j].session.controller, n)
    && Deleted(sys, base, sys.taken[j].session.controller, n)
  }

  /** In a safe system a deleted record was taken in, and all its events are queued. */
  lemma DeletedIsQueued(sys: System, base: Counters, c: uint32, n: int) returns (j: nat)
    requires Safe(sys, base) && Deleted(sys, base, c, n)
    ensures DeletedOf(sys, base, j, n) && sys.taken[j].session.controller == c
    ensures RecordQueued(sys.accepted, sys.taken[j], n)
  {
    hide Stands, RecordQueued;
    var e :| e in sys.history && e.Sent? && e.reply.Delete? && e.controller == c
             && LastCounter(base, c) < n <= e.reply.n;
    assert CarriedUpTo(sys.taken, c, LastCounter(base, c), e.reply.n);
    assert Carried(sys.taken, c, n);
    j :| 0 <= j < |sys.taken| && Carries(sys.taken[j], c, n);
    StandsQueued(sys.accepted, sys.taken[j], n);
  }

  /** Some entry in the log is this record's own. */
  predicate HasEntry(accepted: seq<Entry>, t: Taken, n: int)
    requires t.last - |t.records| < n <= t.last
  {
    exists p :: EntriesBegin(t, n) <= p < EntriesEnd(t, n) && p < |accepted|
                && accepted[p].controller == t.session.controller
                && accepted[p].info.msg == Decode(RecordOf(t, n))
  }

  lemma HasEntryExactly(accepted: seq<Entry>, t: Taken, n: int)
    requires Stands(accepted, t) && t.last - |t.records| < n <= t.last
    ensures HasEntry(accepted, t, n) <==> Mids(Decode(RecordOf(t, n))) != []
  {
    hide Decode, Mids, EntriesBegin, Stands, RecordOf;
    StandsQueued(accepted, t, n);
    if Mids(Decode(RecordOf(t, n))) != [] {
      assert EventQueued(accepted, t, n, 0);
    }
  }

  /** That a deleted record has left a trace in the queue is more than safety says: it holds
      of all of them if and only if every one of them carries an event. */
  lemma DeletedHasEntryExactly(sys: System, base: Counters)
    requires Safe(sys, base)
    ensures (forall j: nat, n: int :: DeletedOf(sys, base, j, n) ==> HasEntry(sys.accepted, sys.taken[j], n)) <==>
            (forall j: nat, n: int :: DeletedOf(sys, base, j, n) ==> Mids(Decode(RecordOf(sys.taken[j], n))) != [])
  {
    hide Decode, Mids, HasEntry, Stands, RecordOf, CarriedUpTo, Deleted;
    forall j: nat, n: int | DeletedOf(sys, base, j, n)
      ensures HasEntry(sys.accepted, sys.taken[j], n) <==> Mids(Decode(RecordOf(sys.taken[j], n))) != []
    {
      HasEntryExactly(sys.accepted, sys.taken[j], n);
    }
  }

  /** What a controller must grant for that: every record it sends carries an event. */
  predicate Eventful(records: seq<seq<byte>>) {
    forall r :: r in records ==> Mids(Decode(r)) != []
  }

  predicate EventfulRun(sys: System, steps: seq<Step>)
    decreases |steps|
  {
    steps == [] ||
    (var step := steps[0];
     && (step.Deliver? && HasBlock(step.frame) && ChainOk(step.frame) ==>
           Eventful(SplitChain(Block(step.frame)).records))
     && EventfulRun(Next(sys, step), steps[1..]))
  }

  predicate AllEventful(taken: seq<Taken>) {
    forall j :: 0 <= j < |taken| ==> Eventful(taken[j].records)
  }

  lemma {:induction false} RunEventful(sys: System, steps: seq<Step>)
    requires AllEventful(sys.taken) && EventfulRun(sys, steps)
    ensures AllEventful(Run(sys, steps).taken)
    decreases |steps|
  {
    hide Eventful, ProcessMessage, SplitChain, Infos, EntriesOf;
    if steps != [] {
      RunEventful(Next(sys, steps[0]), steps[1..]);
    }
  }

  /** Then, over every run, each deleted record has at least one entry of its own. */
  lemma EventfulNotLost(sys: System, base: Counters, steps: seq<Step>)
    requires Safe(sys, base) && ContiguousRun(sys, steps)
    requires AllEventful(sys.taken) && EventfulRun(sys, steps)
    ensures var r := Run(sys, steps);
            forall j: nat, n: int :: DeletedOf(r, base, j, n) ==> HasEntry(r.accepted, r.taken[j], n)
  {
    hide Safe, ContiguousRun, EventfulRun, Run, Deleted, HasEntry;
    NoRecordLost(sys, base, steps);
    RunEventful(sys, steps);
    DeletedHasEntryExactly(Run(sys, steps), base);
  }

  /** A current-data frame with these records, the last of which has this number. */
  function CurrentFrame(last: uint32, records: seq<Payload>): seq<byte>
    requires |EncodeChain(records)| <= 65526
  {
    MakeFrame(CURRENT_DATA, ResponseData(last, 0, 0, EncodeChain(records)))
  }

  /** An accepted frame, its records and their events; handled, it moves the counter to its
      last number and has everything up to there deleted. */
  lemma CurrentFrameHandled(sys: System, id: nat, last: uint32, records: seq<Payload>, room: nat)
    requires !sys.lost && id in sys.sessions && |EncodeChain(records)| <= 65526
    requires last != 0 && |Infos(records)| <= room
    ensures var s, f := sys.sessions[id], CurrentFrame(last, records);
            var next := Next(sys, Deliver(id, f, room));
            && Accepts(s, f, room) && CheckCrc(f) && Before(f) == last - |records|
            && next.accepted == sys.accepted + EntriesOf(s, last, Infos(records))
            && next.taken == sys.taken + [Taken(s, last, records, |sys.accepted|)]
            && Sent(id, s.controller, last, Delete(last)) in next.history
  {
    hide MakeFrame, CheckCrc, EncodeChain, SplitChain, Infos, EntriesOf;
    var s, data := sys.sessions[id], ResponseData(last, 0, 0, EncodeChain(records));
    ResponseRoundTrip(CURRENT_DATA, last, 0, 0, records);
    MakeFrameAccepted(CURRENT_DATA, data);
    var f := CurrentFrame(last, records);
    var h := ProcessMessage(s, sys.counters, f, room);
    assert h.sent == [Delete(last)] && LastCounter(h.counters, s.controller) == last;
    SentIsLogged(id, h, f);
    var next := Next(sys, Deliver(id, f, room));
    assert next.history == sys.history + Events(id, h, f);
  }

  lemma SentIsLogged(id: nat, h: Handled, f: seq<byte>)
    requires IsFrame(f) && |h.sent| == 1
    ensures var c := h.session.controller;
            Sent(id, c, LastCounter(h.counters, c), h.sent[0]) in Events(id, h, f)
  {
    var c := h.session.controller;
    var sent := SentEvents(id, c, LastCounter(h.counters, c), h.sent);
    assert sent[0] == Sent(id, c, LastCounter(h.counters, c), h.sent[0]);
    assert sent[0] in sent;
  }

  const ONE_EMPTY: seq<Payload> := [[]]

  lemma OneEmpty()
    ensures |EncodeChain(ONE_EMPTY)| == 2 && Infos(ONE_EMPTY) == []
  {
    hide EncodeChain, InfosIn, Infos;
    ChainLength(ONE_EMPTY);
    EmptyRecordHasNoEvent();
    InfosOfTwo([], []);
  }

  function EmptyFrame(last: uint32): seq<byte> {
    OneEmpty();
    CurrentFrame(last, ONE_EMPTY)
  }

  /** An input on which a record is deleted without a trace: the record after the counter, of
      no bytes, as the only one of a frame. The frame is contiguous, nothing is queued, and
      the deletion of the record goes out. */
  lemma EmptyRecordDeleted(sys: System, id: nat, n: uint32, room: nat)
    requires !sys.lost && id in sys.sessions
    requires LastCounter(sys.counters, sys.sessions[id].controller) == n < 0xFFFF_FFFF
    ensures var s, step := sys.sessions[id], Deliver(id, EmptyFrame(n + 1), room);
            && Contiguous(sys, step)
            && Next(sys, step).accepted == sys.accepted
            && Sent(id, s.controller, n + 1, Delete(n + 1)) in Next(sys, step).history
  {
    hide CurrentFrame, Accepts, Before, Next, Infos, EncodeChain;
    OneEmpty();
    CurrentFrameHandled(sys, id, n + 1, ONE_EMPTY, room);
    assert EntriesOf(sys.sessions[id], n + 1, []) == [] && sys.accepted + [] == sys.accepted;
  }

  // ----- Labels and record numbers -----

  /** The record has one entry, and it is labelled with the record's number. */
  predicate LabelledRight(accepted: seq<Entry>, t: Taken, n: int)
    requires t.last - |t.records| < n <= t.last
  {
    EntriesEnd(t, n) == EntriesBegin(t, n) + 1 <= |accepted|
    && accepted[EntriesBegin(t, n)].mesNumber == LabelOf(n)
  }

  /** The labels of a frame are those of its records if and only if every record carries
      exactly one event. */
  lemma LabelsNumberRecords(accepted: seq<Entry>, t: Taken)
    requires Stands(accepted, t)
    ensures (forall n :: t.last - |t.records| < n <= t.last ==> LabelledRight(accepted, t, n)) <==>
            (forall r :: r in t.records ==> |Mids(Decode(r))| == 1)
  {
    hide Decode, Mids, Stands, LabelOf, Infos;
    if forall n :: t.last - |t.records| < n <= t.last ==> LabelledRight(accepted, t, n) {
      forall r | r in t.records
        ensures |Mids(Decode(r))| == 1
      {
        var k :| 0 <= k < |t.records| && t.records[k] == r;
        var n := t.last - |t.records| + 1 + k;
        assert LabelledRight(accepted, t, n) && RecordOf(t, n) == r;
      }
    }
    if forall r :: r in t.records ==> |Mids(Decode(r))| == 1 {
      forall n | t.last - |t.records| < n <= t.last
        ensures LabelledRight(accepted, t, n)
      {
        OneEventLabel(accepted, t, n);
      }
    }
  }

  lemma OneEventLabel(accepted: seq<Entry>, t: Taken, n: int)
    requires Stands(accepted, t) && t.last - |t.records| < n <= t.last
    requires forall r :: r in t.records ==> |Mids(Decode(r))| == 1
    ensures LabelledRight(accepted, t, n)
  {
    hide Decode, Mids, LabelOf, Infos, Stands;
    var k := IndexOf(t, n);
    OneEventEach(t.records);
    OneEventEach(t.records[..k]);
    assert RecordOf(t, n) in t.records;
    StandsAt(accepted, t, k);
  }

  lemma TwoEntries(s: Session, last: uint32, a: Info, b: Info)
    requires last >= 2
    ensures EntriesOf(s, last, [a, b]) ==
            [Entry(s.controller, s.firmware, LabelOf(last - 1), a), Entry(s.controller, s.firmware, LabelOf(last), b)]
  {
    hide LabelOf, Label;
    LabelsConsecutive(s, last, [a, b], 0);
    LabelsConsecutive(s, last, [a, b], 1);
  }

  /** Inputs that mislead: after the counter a record of no bytes, then one with two events,
      such as TWO_EVENTS. No label is missing, yet the label of the first record is on an
      event of the second. */
  lemma LabelMisleads(sys: System, id: nat, n: uint32, records: seq<Payload>, room: nat)
    requires !sys.lost && id in sys.sessions && room >= 2
    requires LastCounter(sys.counters, sys.sessions[id].controller) == n < 0xFFFF_FFFE
    requires |records| == 2 && |EncodeChain(records)| <= 65526
    requires records[0] == [] && |Mids(Decode(records[1]))| == 2
    ensures var s, infos := sys.sessions[id], InfosIn(records[1]);
            var step := Deliver(id, CurrentFrame(n + 2, records), room);
            && Contiguous(sys, step)
            && Next(sys, step).accepted == sys.accepted
                 + [Entry(s.controller, s.firmware, LabelOf(n + 1), infos[0]),
                    Entry(s.controller, s.firmware, LabelOf(n + 2), infos[1])]
  {
    hide CurrentFrame, Accepts, Before, Next, Decode, Mids, LabelOf, EntriesOf, Infos, InfosIn, EncodeChain;
    EmptyRecordHasNoEvent();
    InfosOfTwo(records[0], records[1]);
    assert records == [records[0], records[1]];
    var none, infos: seq<Info> := [], InfosIn(records[1]);
    assert InfosIn([]) == none && none + infos == infos == [infos[0], infos[1]];
    CurrentFrameHandled(sys, id, n + 2, records, room);
    TwoEntries(sys.sessions[id], n + 2, infos[0], infos[1]);
  }
}
