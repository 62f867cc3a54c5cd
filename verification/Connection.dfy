/** A whole connection: bytes in, handlers run, replies out, while the rest of the program
    goes on; and its independence of how the input is cut into network reads. */
module Connection {
  import opened Bytes
  import opened Frames
  import opened Escape
  import opened Receiver
  import opened InfoPackage
  import opened Handlers

  /** Running; stopped by a bad checksum; stopped because a handler threw; or beyond what
      the source defines. */
  datatype Status = Running | Corrupted | Failed | Lost

  /** One connection: its input buffer and un-escaper, its session, the counters as it last
      saw them, what it has queued and sent, how its last read ended, and how many frames it
      has handled. */
  datatype Peer = Peer(
    buffer: seq<byte>, pending: bool, session: Session, counters: Counters,
    queued: seq<Entry>, sent: seq<Reply>, status: Status, handled: nat)

  /** What a frame meets: the counters, and how many entries the queue will take from it. */
  datatype World = World(counters: Counters, room: nat)

  /** The rest of the program. Before each frame other sessions may have changed the
      counters and filled the queue, and the storage thread may have drained it. Every course
      of events is one function of the number of frames handled; it may also look at the
      counters and entries this connection left behind. */
  type Environment = (nat, Counters, seq<Entry>) -> World

  /** While one network read is handled no other session runs. Only the room in the queue
      varies, with the frames handled and the entries this connection has queued. */
  function Alone(rooms: (nat, seq<Entry>) -> nat): Environment {
    (n, counters, queued) => World(counters, rooms(n, queued))
  }

  function Meets(env: Environment, p: Peer): World {
    env(p.handled, p.counters, p.queued)
  }

  function StatusOf(outcome: Outcome): Status {
    match outcome
    case Done => Running
    case Threw => Failed
    case Undefined => Lost
  }

  /** The effect of a handler. */
  function Apply(p: Peer, h: Handled): Peer {
    p.(session := h.session, counters := h.counters, queued := p.queued + h.queued,
       sent := p.sent + h.sent, status := StatusOf(h.outcome), handled := p.handled + 1)
  }

  function HandleFrame(env: Environment, p: Peer, f: seq<byte>): Peer {
    if !IsFrame(f) then p
    else Apply(p, ProcessMessage(p.session, Meets(env, p).counters, f, Meets(env, p).room))
  }

  /** Frames are handled in order until a handler does not finish. */
  function HandleFrames(env: Environment, p: Peer, frames: seq<seq<byte>>): Peer
    decreases |frames|
  {
    if frames == [] || p.status != Running then p
    else HandleFrames(env, HandleFrame(env, p, frames[0]), frames[1..])
  }

  /** recive_impl: un-escape into the buffer, scan, handle, erase what was consumed. When a
      handler throws nothing is erased. It does not ask whether the client was stopped. */
  function ReceiveData(env: Environment, p: Peer, data: seq<byte>): Peer {
    var stored := Store(p.pending, data);
    var buffer := p.buffer + stored.out;
    var scanned := Scan(buffer);
    var q := HandleFrames(env, p.(status := Running), scanned.frames);
    if q.status != Running then q.(buffer := buffer, pending := stored.pending)
    else q.(buffer := scanned.rest, pending := stored.pending,
            status := if scanned.corrupt then Corrupted else Running)
  }

  /** The reads of a connection up to the one that stops it. */
  function ReceiveAllData(env: Environment, p: Peer, chunks: seq<seq<byte>>): Peer
    decreases |chunks|
  {
    if chunks == [] || p.status != Running then p
    else ReceiveAllData(env, ReceiveData(env, p, chunks[0]), chunks[1..])
  }

  /** Equal in everything, except that a stopped connection may hold other unread input. */
  predicate SameEffect(p: Peer, q: Peer) {
    && p == q.(buffer := p.buffer, pending := p.pending)
    && (p.status == Running ==> p == q)
  }

  /** The handlers do not look at the input. */
  lemma {:induction false} HandleInput(
    env: Environment, p: Peer, frames: seq<seq<byte>>, buffer: seq<byte>, pending: bool)
    ensures HandleFrames(env, p.(buffer := buffer, pending := pending), frames) ==
            HandleFrames(env, p, frames).(buffer := buffer, pending := pending)
    ensures HandleFrames(env, p, frames).buffer == p.buffer && HandleFrames(env, p, frames).pending == p.pending
    decreases |frames|
  {
    hide ProcessMessage, IsFrame;
    if frames != [] && p.status == Running {
      HandleInput(env, HandleFrame(env, p, frames[0]), frames[1..], buffer, pending);
    }
  }

  lemma {:induction false} HandleAppend(env: Environment, p: Peer, x: seq<seq<byte>>, y: seq<seq<byte>>)
    ensures HandleFrames(env, p, x + y) == HandleFrames(env, HandleFrames(env, p, x), y)
    decreases |x|
  {
    hide HandleFrame;
    if x == [] {
      assert x + y == y;
    } else if p.status == Running {
      assert (x + y)[1..] == x[1..] + y;
      HandleAppend(env, HandleFrame(env, p, x[0]), x[1..], y);
    }
  }

  /** What a read leaves in the buffer: everything, if a handler did not finish, otherwise what
      the scan keeps; a bad checksum also stops the connection. */
  lemma ReadLeaves(env: Environment, p: Peer, data: seq<byte>)
    ensures var q := ReceiveData(env, p, data);
            var buffer := p.buffer + Store(p.pending, data).out;
            && q.pending == Store(p.pending, data).pending
            && (q.status == Failed || q.status == Lost ==> q.buffer == buffer)
            && (q.status == Running || q.status == Corrupted ==>
                  q.buffer == Scan(buffer).rest && (q.status == Corrupted <==> Scan(buffer).corrupt))
  {
    hide Store, Scan, HandleFrames;
    var frames := Scan(p.buffer + Store(p.pending, data).out).frames;
    NeverCorrupted(env, p.(status := Running), frames);
  }

  /** Handlers finish, throw, or leave what is defined. */
  lemma {:induction false} NeverCorrupted(env: Environment, p: Peer, frames: seq<seq<byte>>)
    requires p.status != Corrupted
    ensures HandleFrames(env, p, frames).status != Corrupted
    decreases |frames|
  {
    hide ProcessMessage, IsFrame;
    if frames != [] && p.status == Running {
      NeverCorrupted(env, HandleFrame(env, p, frames[0]), frames[1..]);
    }
  }

  /** Two reads in a row, the second only if the first leaves the connection running, have
      the effect of one read of both parts. */
  lemma ReceiveTwice(env: Environment, p: Peer, a: seq<byte>, b: seq<byte>)
    requires p.status == Running
    ensures var q := ReceiveData(env, p, a);
            SameEffect(if q.status == Running then ReceiveData(env, q, b) else q, ReceiveData(env, p, a + b))
  {
    hide Store, Scan, HandleFrames;
    var x, y := Store(p.pending, a), Store(Store(p.pending, a).pending, b);
    StoreAppend(p.pending, a, b);
    var buffer := p.buffer + x.out;
    assert p.buffer + (x.out + y.out) == buffer + y.out;
    var first := Scan(buffer);
    var q := HandleFrames(env, p, first.frames);
    assert p.(status := Running) == p;
    ScanAppend(buffer, y.out);
    HandleInput(env, p, first.frames, buffer, x.pending);
    if !first.corrupt {
      var more := Scan(first.rest + y.out);
      HandleAppend(env, p, first.frames, more.frames);
      if q.status != Running {
        StoppedHandles(env, q, more.frames);
      } else {
        var r := q.(buffer := first.rest, pending := x.pending);
        assert r.(status := Running) == r;
        HandleInput(env, q, more.frames, first.rest, x.pending);
      }
    }
  }

  lemma StoppedHandles(env: Environment, p: Peer, frames: seq<seq<byte>>)
    requires p.status != Running
    ensures HandleFrames(env, p, frames) == p
  {
  }

  /** Nothing happens on reading nothing, once everything that can be handled has been. */
  lemma ReceiveNothing(env: Environment, p: Peer)
    requires p.status == Running && NextFrame(p.buffer).Wait?
    ensures ReceiveData(env, p, []) == p
  {
    hide NextFrame;
    assert p.buffer + [] == p.buffer;
    assert Scan(p.buffer) == Scanned([], p.buffer, false);
  }

  /** Chunking independence of a whole connection: what it queues, the counters, what it
      sends and how it ends depend only on the concatenation of everything received, and on
      what its frames meet. */
  lemma {:induction false} WholeConnection(env: Environment, p: Peer, chunks: seq<seq<byte>>)
    requires p.status == Running && NextFrame(p.buffer).Wait?
    ensures SameEffect(ReceiveAllData(env, p, chunks), ReceiveData(env, p, Concat(chunks)))
    decreases |chunks|
  {
    hide ReceiveData, NextFrame;
    if chunks == [] {
      ReceiveNothing(env, p);
    } else {
      ReceiveTwice(env, p, chunks[0], Concat(chunks[1..]));
      var q := ReceiveData(env, p, chunks[0]);
      if q.status == Running {
        ReceiveLeavesWait(env, p, chunks[0]);
        WholeConnection(env, q, chunks[1..]);
      }
    }
  }

  lemma ReceiveLeavesWait(env: Environment, p: Peer, data: seq<byte>)
    requires ReceiveData(env, p, data).status == Running
    ensures NextFrame(ReceiveData(env, p, data).buffer).Wait?
  {
    hide Store, HandleFrames, NextFrame;
    ScanSettles(p.buffer + Store(p.pending, data).out);
  }

  /** End to end: however a stream of encoded messages with gaps is cut, a new connection
      does exactly what handling its frames one after the other does. */
  lemma EncodedMessagesHandled(
    env: Environment, p: Peer, ms: seq<Message>, gaps: seq<seq<byte>>, last: seq<byte>, chunks: seq<seq<byte>>)
    requires p.status == Running && p.buffer == [] && !p.pending
    requires |gaps| == |ms| && Gap(last) && forall g :: g in gaps ==> Gap(g)
    requires Concat(chunks) == Stream(ms, gaps) + last
    ensures SameEffect(ReceiveAllData(env, p, chunks),
                       HandleFrames(env, p, FramesOf(ms)).(buffer := Store(false, last).out))
  {
    hide NextFrame, ReceiveData, HandleFrames, Stream, FramesOf, Gap, Store;
    NoMarker([]);
    WholeConnection(env, p, chunks);
    OnePass(env, p, ms, gaps, last);
  }

  lemma OnePass(env: Environment, p: Peer, ms: seq<Message>, gaps: seq<seq<byte>>, last: seq<byte>)
    requires p.status == Running && p.buffer == [] && !p.pending
    requires |gaps| == |ms| && Gap(last) && forall g :: g in gaps ==> Gap(g)
    ensures SameEffect(ReceiveData(env, p, Stream(ms, gaps) + last),
                       HandleFrames(env, p, FramesOf(ms)).(buffer := Store(false, last).out))
  {
    hide Store, Scan, HandleFrames, ReceiveData, SameEffect, Stream, FramesOf, Gap;
    StreamScanned(ms, gaps, last);
    ReadScanned(env, p, Stream(ms, gaps) + last, FramesOf(ms), Store(false, last).out);
  }

  /** One read by a new connection, given what un-escaping and scanning make of it. */
  lemma ReadScanned(env: Environment, p: Peer, data: seq<byte>, frames: seq<seq<byte>>, rest: seq<byte>)
    requires p.status == Running && p.buffer == [] && !p.pending
    requires !Store(false, data).pending && Scan(Store(false, data).out) == Scanned(frames, rest, false)
    ensures SameEffect(ReceiveData(env, p, data), HandleFrames(env, p, frames).(buffer := rest))
  {
    hide Store, Scan, HandleFrames;
    var out := Store(false, data).out;
    assert [] + out == out && p.(status := Running) == p;
    HandleInput(env, p, frames, p.buffer, p.pending);
  }
}
