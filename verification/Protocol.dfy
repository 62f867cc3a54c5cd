/** The transport protocol object (omnicomm/protocol.cpp): its methods update their fields,
    the shared counters, the queue and the client in place, and are proved to have the
    effect of the functions in Handlers and Connection. */
module Protocol {
  import opened Bytes
  import opened Crc
  import opened Frames
  import opened Escape
  import opened Receiver
  import opened InfoPackage
  import opened Handlers
  import opened Connection
  import opened Backend
  import opened Intake
  import Queue

  /** The message a reply is: marker, command, length four, number. */
  function ReplyBytes(r: Reply): (s: seq<byte>) {
    [PREFIX] + Body(if r.Request? then DATA_REQUEST else DELETE_DATA, PutLe32(r.n))
  }

  function Wires(sent: seq<Reply>): (w: seq<seq<byte>>)
    ensures |w| == |sent|
  {
    seq(|sent|, i requires 0 <= i < |sent| => SendBytes(ReplyBytes(sent[i])))
  }

  /** A controller that un-escapes what was sent for a reply finds one frame with the
      reply's command and number. */
  lemma ReplyReadBack(r: Reply)
    ensures var f := Store(false, SendBytes(ReplyBytes(r))).out;
            && !Store(false, SendBytes(ReplyBytes(r))).pending
            && IsFrame(f) && |f| == 10 && f[0] == 0xC0 && f[2] == 4 && f[3] == 0
            && f[4..8] == [r.n % 0x100, r.n / 0x100 % 0x100, r.n / 0x1_0000 % 0x100, r.n / 0x100_0000]
            && f[1] == (if r.Request? then 0x85 else 0x87)
            && Le32(f, 4) == r.n
  {
    hide Store, Wire, CheckCrc, Crc16, LowByte, HighByte;
    var data, body := ReplyBytes(r), ReplyBytes(r)[1..];
    assert body == Body(if r.Request? then DATA_REQUEST else DELETE_DATA, PutLe32(r.n));
    var lo, hi := LowByte(Crc16(body)), HighByte(Crc16(body));
    WireRecovered(data, lo, hi);
    var f := data + [lo, hi];
    var n := PutLe32(r.n);
    PutLittleEndian(r.n);
    assert f[2] == 4 && f[3] == 0;
    assert f[4] == n[0] && f[5] == n[1] && f[6] == n[2] && f[7] == n[3];
    assert f[4..8] == n;
  }

  /** The static counter map; saving it to a file is left out. */
  class Counterer {
    var counters: Counters

    constructor (initial: Counters)
      ensures counters == initial
    {
      counters := initial;
    }

    method GetLastCounter(controller: uint32) returns (n: uint32)
      ensures controller in counters ==> n == counters[controller]
      ensures controller !in counters ==> n == 0
      ensures n == LastCounter(counters, controller)
    {
      n := 0;
      if controller in counters {
        n := counters[controller];
      }
    }

    method SetLastCounter(controller: uint32, counter: uint32)
      modifies this
      ensures counters == old(counters)[controller := counter]
    {
      counters := counters[controller := counter];
    }
  }

  /** The network side of a connection: what was sent and whether it was stopped. */
  class Client {
    var wire: seq<seq<byte>>
    var stopped: bool
    ghost var sent: seq<Reply>

    constructor ()
      ensures wire == [] && !stopped && sent == []
    {
      wire, stopped, sent := [], false, [];
    }
  }

  /** What the scan meets in one turn: too few bytes, a bad checksum, one frame handled, or a
      handler that did not finish. */
  datatype Turn = TooFew | BadCrc | OneFrame | Broken(outcome: Outcome)

  function OutcomeOf(status: Status): Outcome {
    match status
    case Failed => Threw
    case Lost => Undefined
    case _ => Done
  }

  class TransportProtocol {
    var buffer: seq<byte>
    var possibleStuff: bool
    var phase: Phase
    var controllerId: uint32
    var firmwareVersion: uint32
    const counterer: Counterer
    const client: Client
    const backend: BaseImpl<Entry>
    ghost var queued: seq<Entry>
    ghost var handled: nat

    constructor (counterer: Counterer, client: Client, backend: BaseImpl<Entry>)
      requires client.wire == Wires(client.sent)
      ensures this.counterer == counterer && this.client == client && this.backend == backend
      ensures buffer == [] && !possibleStuff && Current() == NEW_SESSION && Valid()
      ensures phase == WaitInitial && controllerId == 0 && firmwareVersion == 0
      ensures queued == [] && handled == 0
    {
      buffer, possibleStuff, queued, handled := [], false, [], 0;
      phase, controllerId, firmwareVersion := WaitInitial, 0, 0;
      this.counterer, this.client, this.backend := counterer, client, backend;
    }

    ghost function Current(): Session
      reads this
    {
      Session(phase, controllerId, firmwareVersion)
    }

    /** This connection as a value, with the given status. */
    ghost function View(status: Status): Peer
      reads this, counterer, client
    {
      Peer(buffer, possibleStuff, Current(), counterer.counters, queued, client.sent, status, handled)
    }

    /** And together with the queue. */
    ghost function Both(status: Status): Joint
      reads this, counterer, client, backend
    {
      Joint(View(status), backend.State(), backend.calls)
    }

    /** What went over the wire is the encoding of the replies. */
    ghost predicate Valid()
      reads this, client
    {
      client.wire == Wires(client.sent)
    }

    // ----- Un-escaping and escaping -----

    method StoreData(data: seq<byte>)
      modifies this
      ensures var stored := Store(old(possibleStuff), data);
              buffer == old(buffer) + stored.out && possibleStuff == stored.pending
      ensures Current() == old(Current()) && queued == old(queued) && handled == old(handled)
    {
      hide Store;
      NothingStored(possibleStuff);
      for i := 0 to |data|
        invariant Current() == old(Current()) && queued == old(queued) && handled == old(handled)
        invariant var stored := Store(old(possibleStuff), data[..i]);
                  buffer == old(buffer) + stored.out && possibleStuff == stored.pending
      {
        StoreMore(old(possibleStuff), data, i);
        if !possibleStuff {
          if data[i] == ESC {
            possibleStuff := true;
          } else {
            buffer := buffer + [data[i]];
          }
        } else {
          if data[i] == ESC_END {
            buffer := buffer + [END];
          } else if data[i] == ESC_ESC {
            buffer := buffer + [ESC];
          } else {
            buffer := buffer + [ESC];
            buffer := buffer + [data[i]];
          }
          possibleStuff := false;
        }
      }
      assert data[..|data|] == data;
    }

    static method StuffByteToBuffer(b: byte, buffer0: seq<byte>) returns (buffer: seq<byte>)
      ensures buffer == buffer0 + StuffByte(b)
    {
      buffer := buffer0;
      if b == END {
        buffer := buffer + [ESC];
        buffer := buffer + [ESC_END];
      } else if b == ESC {
        buffer := buffer + [ESC];
        buffer := buffer + [ESC_ESC];
      } else {
        buffer := buffer + [b];
      }
    }

    method Send(data: seq<byte>)
      modifies client`wire
      ensures client.wire == if data == [] then old(client.wire) else old(client.wire) + [SendBytes(data)]
    {
      hide Crc16, StuffByte, Stuff, LowByte, HighByte;
      if |data| < 1 {
        return;
      }
      var out := [data[0]];
      NothingStuffed();
      assert data[1..1] == [];
      for i := 1 to |data|
        invariant out == [data[0]] + Stuff(data[1..i]) && client.wire == old(client.wire)
      {
        StuffAppend(data[1..i], [data[i]]);
        StuffOne(data[i]);
        assert data[1..i + 1] == data[1..i] + [data[i]];
        out := StuffByteToBuffer(data[i], out);
      }
      assert data[1..|data|] == data[1..];
      var crc := ComputeCrc16(data[1..]);
      out := StuffByteToBuffer(LowByte(crc), out);
      out := StuffByteToBuffer(HighByte(crc), out);
      assert out == SendBytes(data);
      client.wire := client.wire + [out];
    }

    /** Sends one reply and records it. */
    method SendReply(r: Reply)
      requires Valid()
      modifies client
      ensures Valid() && client.sent == old(client.sent) + [r] && client.stopped == old(client.stopped)
    {
      hide SendBytes;
      Send(ReplyBytes(r));
      client.sent := client.sent + [r];
      assert client.wire == Wires(client.sent);
    }

    method SendDelete()
      requires Valid()
      modifies client
      ensures Valid() && client.stopped == old(client.stopped)
      ensures client.sent == old(client.sent) + DeleteReply(Current(), counterer.counters)
      ensures client.sent == old(client.sent) +
                if controllerId in counterer.counters && counterer.counters[controllerId] != 0
                then [Delete(counterer.counters[controllerId])] else []
    {
      var lastCounter := counterer.GetLastCounter(controllerId);
      if lastCounter != 0 {
        SendReply(Delete(lastCounter));
      } else {
        assert client.sent + [] == client.sent;
      }
    }

    method SendRequest()
      requires Valid()
      modifies client
      ensures Valid() && client.stopped == old(client.stopped)
      ensures client.sent == old(client.sent) + RequestReply(Current(), counterer.counters)
      ensures var n := if controllerId in counterer.counters then counterer.counters[controllerId] else 0;
              client.sent == old(client.sent) + [Request(if n == 0 then 0 else (n as int + 1) % 0x1_0000_0000)]
    {
      var message := counterer.GetLastCounter(controllerId);
      if message != 0 {
        message := (message as int + 1) % 0x1_0000_0000;
      }
      SendReply(Request(message));
    }

    // ----- Handlers -----

    method ProcessInfoMessages(f: seq<byte>) returns (outcome: Outcome)
      requires IsFrame(f) && CheckLength(f, DATA_RESPONSE_SIZE)
      modifies backend, this`queued
      ensures var es := InfoEntries(Current(), f);
              var fill := Queue.Fill(old(backend.State()), old(backend.calls), backend.schedule, es);
              var r := Handlers.ProcessInfoMessages(Current(), f, fill.count);
              && outcome == r.0 && queued == old(queued) + r.1
              && backend.State() == fill.queue && backend.calls == fill.calls
    {
      hide SplitChain, Infos, IsFrame, Block, Queue.Run, Queue.Next, Queue.Fill, EntriesOf, Label;
      hide Handlers.ProcessInfoMessages, InfoEntries, MesNumber, PlusIndex, HoldEvents;
      InfosProcessed(Current(), f, 0);
      Queue.FillNothing(backend.State(), backend.calls, backend.schedule);
      var failed, infos := ParseInfoPackage(f, []);
      assert queued + [] == queued;
      if failed != Done {
        return failed;
      }
      assert infos == Infos(SplitChain(Block(f)).records);
      ghost var s := Current();
      ghost var es := EntriesOf(s, LastNumber(f), infos);
      ghost var fill := Queue.Fill(backend.State(), backend.calls, backend.schedule, es);
      var len := |infos|;
      var mesNumber := MesNumber(LastNumber(f), len);
      assert es[..0] == [] && es[0..] == es;
      for i := 0 to len
        invariant queued == old(queued) + es[..i]
        invariant var rest := Queue.Fill(backend.State(), backend.calls, backend.schedule, es[i..]);
                  fill == rest.(count := i + rest.count)
      {
        var e := Entry(controllerId, firmwareVersion, PlusIndex(mesNumber, i), infos[i]);
        EntryMade(s, LastNumber(f), infos, i);
        assert es[..i + 1] == es[..i] + [e];
        Queue.FillOne(backend.State(), backend.calls, backend.schedule, es, i);
        var threw := backend.AddMessage(e);
        if threw {
          InfosProcessed(s, f, i);
          return Threw;
        }
        queued := queued + [e];
      }
      assert es[..len] == es && es[len..] == [];
      Queue.FillNothing(backend.State(), backend.calls, backend.schedule);
      InfosProcessed(s, f, len);
      assert fill == Queue.Filled(backend.State(), backend.calls, len);
      return Done;
    }

    method ProcessDeleteConfirmation()
      requires Valid()
      modifies this, client
      ensures View(Running) ==
              Apply(old(View(Running)), Handlers.ProcessDeleteConfirmation(old(Current()), counterer.counters))
                .(handled := handled)
      ensures handled == old(handled) && queued == old(queued)
      ensures Valid() && client.stopped == old(client.stopped)
    {
      assert queued + [] == queued && client.sent + [] == client.sent;
      if phase == WaitInitialDeleteConfirm {
        SendRequest();
        phase := ProcessArchive;
      }
    }

    method ProcessControllerIdent(f: seq<byte>) returns (outcome: Outcome)
      requires Valid() && IsFrame(f)
      modifies this, client
      ensures var h := Handlers.ProcessControllerIdent(old(Current()), counterer.counters, f);
              View(StatusOf(h.outcome)) == Apply(old(View(Running)), h).(handled := handled) && outcome == h.outcome
      ensures handled == old(handled) && queued == old(queued)
      ensures Valid() && client.stopped == old(client.stopped)
    {
      hide CheckCrc;
      assert queued + [] == queued && client.sent + [] == client.sent;
      if !CheckLength(f, CONTROLLER_IDENT_SIZE) {
        return Threw;
      }
      controllerId := Le32(f, 4);
      firmwareVersion := Le32(f, 8);
      var lastCounter := counterer.GetLastCounter(controllerId);
      if lastCounter == 0 {
        SendRequest();
        phase := ProcessArchive;
      } else {
        SendDelete();
        phase := WaitInitialDeleteConfirm;
      }
      return Done;
    }

    method ProcessArchiveData(f: seq<byte>) returns (outcome: Outcome)
      requires Valid() && IsFrame(f)
      modifies this, client, counterer, backend
      ensures var es := InfoEntries(old(Current()), f);
              var fill := Queue.Fill(old(backend.State()), old(backend.calls), backend.schedule, es);
              var h := Handlers.ProcessArchiveData(old(Current()), old(counterer.counters), f, fill.count);
              && Both(StatusOf(h.outcome))
                 == Joint(Apply(old(View(Running)), h).(handled := handled), fill.queue, fill.calls)
              && outcome == h.outcome
      ensures handled == old(handled)
      ensures Valid() && client.stopped == old(client.stopped)
    {
      hide ChainOk, FrameEntries, Queue.Fill;
      assert queued + [] == queued && client.sent + [] == client.sent;
      NothingAttempted(f, Current());
      Queue.FillNothing(backend.State(), backend.calls, backend.schedule);
      if DataLen(f) == 0 {
        SendDelete();
        phase := WaitFinalDeleteConfirm;
        return Done;
      }
      if !CheckLength(f, DATA_RESPONSE_SIZE) {
        return Threw;
      }
      outcome := ProcessInfoMessages(f);
      if outcome == Done {
        counterer.SetLastCounter(controllerId, LastNumber(f));
      }
    }

    method ProcessCurrentData(f: seq<byte>) returns (outcome: Outcome)
      requires Valid() && IsFrame(f)
      modifies this, client, counterer, backend
      ensures var es := InfoEntries(old(Current()), f);
              var fill := Queue.Fill(old(backend.State()), old(backend.calls), backend.schedule, es);
              var h := Handlers.ProcessCurrentData(old(Current()), old(counterer.counters), f, fill.count);
              && Both(StatusOf(h.outcome))
                 == Joint(Apply(old(View(Running)), h).(handled := handled), fill.queue, fill.calls)
              && outcome == h.outcome
      ensures handled == old(handled)
      ensures Valid() && client.stopped == old(client.stopped)
    {
      hide ChainOk, FrameEntries, Queue.Fill;
      assert queued + [] == queued && client.sent + [] == client.sent;
      NothingAttempted(f, Current());
      Queue.FillNothing(backend.State(), backend.calls, backend.schedule);
      if !CheckLength(f, DATA_RESPONSE_SIZE) {
        return Threw;
      }
      outcome := ProcessInfoMessages(f);
      if outcome == Done {
        counterer.SetLastCounter(controllerId, LastNumber(f));
        SendDelete();
        phase := WaitFinalDeleteConfirm;
      }
    }

    /** Dispatch; a handler that throws stops the client and the exception goes on. */
    method ProcessMessage(f: seq<byte>) returns (outcome: Outcome)
      requires Valid() && IsFrame(f)
      modifies this, client, counterer, backend
      ensures Both(StatusOf(outcome)) == FrameInto(backend.schedule, old(Both(Running)), f)
      ensures Valid() && client.stopped == (old(client.stopped) || outcome == Threw)
    {
      hide Handlers.ProcessControllerIdent, Handlers.ProcessArchiveData, Handlers.ProcessCurrentData;
      hide InfoEntries, Queue.Fill, CheckCrc;
      assert queued + [] == queued && client.sent + [] == client.sent;
      Queue.FillNothing(backend.State(), backend.calls, backend.schedule);
      outcome := Done;
      var cmd := f[1];
      if cmd == CONTROLLER_IDENT {
        outcome := ProcessControllerIdent(f);
      } else if cmd == CURRENT_DATA {
        outcome := ProcessCurrentData(f);
      } else if cmd == ARCHIVE_DATA {
        outcome := ProcessArchiveData(f);
      } else if cmd == DELETE_CONFIRM {
        ProcessDeleteConfirmation();
      }
      if outcome == Threw {
        client.stopped := true;
      }
      handled := handled + 1;
    }

    // ----- Receiving -----

    method CheckFrameCrc(f: seq<byte>) returns (ok: bool)
      requires IsFrame(f)
      ensures ok == CheckCrc(f)
    {
      hide Crc16;
      var crc := ComputeCrc16(f[1..HEADER_SIZE + DataLen(f)]);
      ok := GetCrc(f) == crc;
    }

    /** One turn of the scan from `end` on; after a frame it goes on at `next`. */
    method TakeFrame(end: nat) returns (turn: Turn, next: nat)
      requires Valid() && end <= |buffer|
      modifies this, client, counterer, backend
      ensures Valid() && buffer == old(buffer) && possibleStuff == old(possibleStuff)
      ensures turn.TooFew? || turn.BadCrc? ==>
                && Both(Running) == old(Both(Running))
                && NextFrame(buffer[end..]) == if turn.BadCrc? then Corrupt else Wait
      ensures turn.Broken? ==>
                && turn.outcome != Done
                && Both(StatusOf(turn.outcome))
                   == FramesInto(backend.schedule, old(Both(Running)), Scan(buffer[end..]).frames)
      ensures turn.OneFrame? ==>
                && end < next <= |buffer|
                && Scan(buffer[end..]).rest == Scan(buffer[next..]).rest
                && Scan(buffer[end..]).corrupt == Scan(buffer[next..]).corrupt
                && FramesInto(backend.schedule, Both(Running), Scan(buffer[next..]).frames)
                   == FramesInto(backend.schedule, old(Both(Running)), Scan(buffer[end..]).frames)
      ensures client.stopped == (old(client.stopped) || turn.BadCrc? || turn == Broken(Threw))
    {
      hide NextFrame, FindMarker, FramesInto, FrameInto, IsFrame, CheckCrc, Scan;
      var start := end + FindMarker(buffer[end..]);
      NextInTail(buffer, end, start);
      if start == |buffer| {
        return TooFew, end;
      }
      var remain := |buffer| - start;
      if remain < HEADER_SIZE {
        return TooFew, end;
      }
      var fullLength := HEADER_SIZE + Le16(buffer[start + 2], buffer[start + 3]) + 2;
      if remain < fullLength {
        return TooFew, end;
      }
      var f := buffer[start..start + fullLength];
      var ok := CheckFrameCrc(f);
      if !ok {
        client.stopped := true;
        return BadCrc, end;
      }
      next := start + fullLength;
      FrameNext(backend.schedule, buffer, end, start, next, Both(Running));
      FrameKeepsInput(backend.schedule, Both(Running), f);
      var outcome := ProcessMessage(f);
      if outcome == Done {
        turn := OneFrame;
      } else {
        StoppedTakes(backend.schedule, Both(StatusOf(outcome)), Scan(buffer[next..]).frames);
        turn := Broken(outcome);
      }
    }

    /** Takes in one network read. It does not ask whether the client was stopped. */
    method ReciveImpl(data: seq<byte>) returns (outcome: Outcome)
      requires Valid()
      modifies this, client, counterer, backend
      ensures var r := ReadInto(backend.schedule, old(Both(Running)), data);
              && Both(r.peer.status) == r
              && outcome == OutcomeOf(r.peer.status)
              && client.stopped == (old(client.stopped) || r.peer.status == Corrupted || r.peer.status == Failed)
      ensures Valid()
    {
      hide NextFrame, FramesInto, ReadInto, Store, Scan;
      ReadInTwo(backend.schedule, Both(Running), data);
      StoreData(data);
      ghost var goal := FramesInto(backend.schedule, Both(Running), Scan(buffer).frames);
      ghost var whole := buffer;
      assert whole[0..] == whole;
      var end, turn := 0, OneFrame;
      while turn == OneFrame
        invariant end <= |buffer| && buffer == whole && Valid()
        invariant FramesInto(backend.schedule, Both(Running), Scan(whole[end..]).frames) == goal
        invariant Scan(whole[end..]).rest == Scan(whole).rest && Scan(whole[end..]).corrupt == Scan(whole).corrupt
        invariant client.stopped == (old(client.stopped) || turn.BadCrc?)
        invariant turn.OneFrame? || NextFrame(whole[end..]) == if turn.BadCrc? then Corrupt else Wait
        decreases |buffer| - end, turn.OneFrame?
      {
        var next;
        turn, next := TakeFrame(end);
        if turn.Broken? {
          return turn.outcome;
        }
        if turn == OneFrame {
          end := next;
        }
      }
      NothingTaken(backend.schedule, Both(Running), whole[end..]);
      buffer := buffer[end..];
      return Done;
    }
  }

  /** One read in terms of the buffer after un-escaping. */
  lemma ReadInTwo(schedule: Schedule, j: Joint, data: seq<byte>)
    requires j.peer.status == Running
    ensures var p := j.peer;
            var stored := Store(p.pending, data);
            var scanned := Scan(p.buffer + stored.out);
            var r := FramesInto(schedule, j.(peer := p.(buffer := p.buffer + stored.out, pending := stored.pending)),
                                scanned.frames);
            ReadInto(schedule, j, data) ==
            if r.peer.status != Running then r
            else r.(peer := r.peer.(buffer := scanned.rest, status := if scanned.corrupt then Corrupted else Running))
  {
    hide Scan, FramesInto, Store;
    var stored := Store(j.peer.pending, data);
    assert j.(peer := j.peer.(status := Running)) == j;
    FramesKeepInput(schedule, j, Scan(j.peer.buffer + stored.out).frames, j.peer.buffer + stored.out, stored.pending);
  }

  /** The handlers do not look at the input. */
  lemma {:induction false} FramesKeepInput(
    schedule: Schedule, j: Joint, frames: seq<seq<byte>>, buffer: seq<byte>, pending: bool)
    ensures var k := j.(peer := j.peer.(buffer := buffer, pending := pending));
            var r := FramesInto(schedule, j, frames);
            FramesInto(schedule, k, frames) == r.(peer := r.peer.(buffer := buffer, pending := pending))
    decreases |frames|
  {
    hide ProcessMessage, IsFrame, Attempted, Queue.Fill;
    if frames != [] && j.peer.status == Running {
      FramesKeepInput(schedule, FrameInto(schedule, j, frames[0]), frames[1..], buffer, pending);
    }
  }

  /** The checks of one turn of the scan decide what comes next in the tail. */
  lemma NextInTail(s: seq<byte>, end: nat, at: nat)
    requires end <= |s| && at == end + FindMarker(s[end..])
    ensures at <= |s|
    ensures |s| - at < HEADER_SIZE ==> NextFrame(s[end..]).Wait?
    ensures |s| - at >= HEADER_SIZE ==>
              var next := at + (HEADER_SIZE + Le16(s[at + 2], s[at + 3]) + 2);
              && (next > |s| ==> NextFrame(s[end..]).Wait?)
              && (next <= |s| ==>
                    && IsFrame(s[at..next])
                    && NextFrame(s[end..]) == if CheckCrc(s[at..next]) then Frame(at - end, next - end) else Corrupt)
  {
    hide CheckCrc;
    var tail, k := s[end..], at - end;
    if |tail| - k >= HEADER_SIZE {
      assert tail[k + 2] == s[at + 2] && tail[k + 3] == s[at + 3] && s[at] == tail[k];
      var n := HEADER_SIZE + Le16(s[at + 2], s[at + 3]) + 2;
      if k + n <= |tail| {
        SliceOfSlice(s, end, |s|, k, k + n);
        assert s[end..|s|] == tail;
      }
    }
  }

  /** Handling the first frame of a tail leaves the rest of the tail to handle. */
  lemma FrameNext(schedule: Schedule, s: seq<byte>, end: nat, at: nat, next: nat, j: Joint)
    requires end <= at <= next <= |s| && NextFrame(s[end..]) == Frame(at - end, next - end)
    requires j.peer.status == Running
    ensures Scan(s[end..]).rest == Scan(s[next..]).rest && Scan(s[end..]).corrupt == Scan(s[next..]).corrupt
    ensures FramesInto(schedule, j, Scan(s[end..]).frames)
            == FramesInto(schedule, FrameInto(schedule, j, s[at..next]), Scan(s[next..]).frames)
  {
    hide NextFrame, FrameInto, FramesInto, Scan;
    var tail := s[end..];
    SliceOfSlice(s, end, |s|, at - end, next - end);
    assert s[end..|s|] == tail;
    assert tail[next - end..] == s[next..];
    ScanFirst(tail, at - end, next - end);
    TakeFirst(schedule, j, s[at..next], Scan(s[next..]).frames);
  }

  lemma ScanFirst(s: seq<byte>, at: nat, end: nat)
    requires NextFrame(s) == Frame(at, end)
    ensures Scan(s) == Scan(s[end..]).(frames := [s[at..end]] + Scan(s[end..]).frames)
  {
    hide NextFrame;
  }

  lemma TakeFirst(schedule: Schedule, j: Joint, f: seq<byte>, more: seq<seq<byte>>)
    requires j.peer.status == Running
    ensures FramesInto(schedule, j, [f] + more) == FramesInto(schedule, FrameInto(schedule, j, f), more)
  {
    hide FrameInto;
    assert ([f] + more)[1..] == more;
  }

  lemma FrameKeepsInput(schedule: Schedule, j: Joint, f: seq<byte>)
    ensures FrameInto(schedule, j, f).peer.buffer == j.peer.buffer
    ensures FrameInto(schedule, j, f).peer.pending == j.peer.pending
  {
    hide ProcessMessage, IsFrame;
  }

  lemma StoppedTakes(schedule: Schedule, j: Joint, frames: seq<seq<byte>>)
    requires j.peer.status != Running
    ensures FramesInto(schedule, j, frames) == j
  {
  }

  lemma NothingTaken(schedule: Schedule, j: Joint, tail: seq<byte>)
    requires !NextFrame(tail).Frame?
    ensures Scan(tail) == Scanned([], tail, NextFrame(tail).Corrupt?)
    ensures FramesInto(schedule, j, Scan(tail).frames) == j
  {
    hide NextFrame, FrameInto;
  }

  /** The entry put together in one turn of the loop. */
  lemma EntryMade(s: Session, last: uint32, infos: seq<Info>, i: nat)
    requires i < |infos|
    ensures EntriesOf(s, last, infos)[i] ==
            Entry(s.controller, s.firmware, PlusIndex(MesNumber(last, |infos|), i), infos[i])
  {
  }

  /** The ways process_info_messages ends. */
  lemma InfosProcessed(s: Session, f: seq<byte>, room: nat)
    requires IsFrame(f)
    ensures !HasBlock(f) ==> InfoEntries(s, f) == [] && Handlers.ProcessInfoMessages(s, f, room) == (Undefined, [])
    ensures HasBlock(f) && !ChainOk(f) ==>
              InfoEntries(s, f) == [] && Handlers.ProcessInfoMessages(s, f, room) == (Threw, [])
    ensures HasBlock(f) && ChainOk(f) ==>
              var infos := Infos(SplitChain(Block(f)).records);
              var es := EntriesOf(s, LastNumber(f), infos);
              && |es| == |infos| && InfoEntries(s, f) == es
              && Handlers.ProcessInfoMessages(s, f, room) == if |es| <= room then (Done, es) else (Threw, es[..room])
  {
    hide SplitChain, Infos, EntriesOf, Block;
  }

  lemma NothingAttempted(f: seq<byte>, s: Session)
    ensures !HasBlock(f) ==> InfoEntries(s, f) == []
  {
  }

  lemma NothingStored(pending: bool)
    ensures Store(pending, []) == Stored(pending, [])
  {
  }

  lemma StoreMore(pending: bool, data: seq<byte>, i: nat)
    requires i < |data|
    ensures var x := Store(pending, data[..i]);
            var y := StoreByte(x.pending, data[i]);
            Store(pending, data[..i + 1]) == Stored(y.pending, x.out + y.out)
  {
    assert data[..i + 1] == data[..i] + [data[i]];
    StoreAppend(pending, data[..i], [data[i]]);
    var x := Store(pending, data[..i]);
    var y := StoreByte(x.pending, data[i]);
    assert [data[i]][1..] == [];
    assert Store(x.pending, [data[i]]).out == y.out + [];
  }

  lemma NothingStuffed()
    ensures Stuff([]) == []
  {
  }

  lemma StuffOne(b: byte)
    ensures Stuff([b]) == StuffByte(b)
  {
    assert [b][1..] == [];
    assert StuffByte(b) + [] == StuffByte(b);
  }
}
