/** Network reads of one connection into the queue while the storage thread works: before
    every call of add_message the thread may have taken steps of its own. */
module Intake {
  import opened Bytes
  import opened Frames
  import opened Escape
  import Receiver
  import opened Handlers
  import opened Connection
  import Queue

  /** The steps of the storage thread before each call of add_message. */
  type Schedule = nat -> seq<Queue.WorkerStep<Entry>>

  /** A connection, the queue, and how many calls of add_message there have been. */
  datatype Joint = Joint(peer: Peer, queue: Queue.State<Entry>, calls: nat)

  /** The queue while one frame is handled. */
  function FillFor(schedule: Schedule, j: Joint, f: seq<byte>): Queue.Filled<Entry>
    requires IsFrame(f)
  {
    Queue.Fill(j.queue, j.calls, schedule, Attempted(j.peer.session, f))
  }

  function FrameInto(schedule: Schedule, j: Joint, f: seq<byte>): Joint {
    if !IsFrame(f) then j
    else
      var fill := FillFor(schedule, j, f);
      var h := ProcessMessage(j.peer.session, j.peer.counters, f, fill.count);
      Joint(Apply(j.peer, h), fill.queue, fill.calls)
  }

  function FramesInto(schedule: Schedule, j: Joint, frames: seq<seq<byte>>): Joint
    decreases |frames|
  {
    if frames == [] || j.peer.status != Running then j
    else FramesInto(schedule, FrameInto(schedule, j, frames[0]), frames[1..])
  }

  /** recive_impl beside the storage thread. */
  function ReadInto(schedule: Schedule, j: Joint, data: seq<byte>): Joint {
    var p := j.peer;
    var stored := Store(p.pending, data);
    var buffer := p.buffer + stored.out;
    var scanned := Receiver.Scan(buffer);
    var r := FramesInto(schedule, j.(peer := p.(status := Running)), scanned.frames);
    var q := r.peer;
    r.(peer :=
         if q.status != Running then q.(buffer := buffer, pending := stored.pending)
         else q.(buffer := scanned.rest, pending := stored.pending,
                 status := if scanned.corrupt then Corrupted else Running))
  }

  // ----- It is a read in an environment -----

  /** The room each handled frame finds. */
  function RoomsFound(schedule: Schedule, j: Joint, frames: seq<seq<byte>>): seq<nat>
    decreases |frames|
  {
    if frames == [] || j.peer.status != Running || !IsFrame(frames[0]) then []
    else
      [FillFor(schedule, j, frames[0]).count]
      + RoomsFound(schedule, FrameInto(schedule, j, frames[0]), frames[1..])
  }

  /** These rooms for the frames from number `from` on. */
  function Listed(from: nat, rooms: seq<nat>): (nat, seq<Entry>) -> nat {
    (n, _) => if from <= n < from + |rooms| then rooms[n - from] else 0
  }

  lemma FrameIsHandled(schedule: Schedule, j: Joint, f: seq<byte>, rooms: (nat, seq<Entry>) -> nat)
    requires IsFrame(f) && rooms(j.peer.handled, j.peer.queued) == FillFor(schedule, j, f).count
    ensures FrameInto(schedule, j, f).peer == HandleFrame(Alone(rooms), j.peer, f)
    ensures FrameInto(schedule, j, f).peer.handled == j.peer.handled + 1
  {
    hide ProcessMessage, IsFrame, Attempted;
  }

  lemma {:induction false} FramesAreHandled(schedule: Schedule, j: Joint, frames: seq<seq<byte>>,
                                            from: nat, before: seq<nat>)
    requires (forall f :: f in frames ==> IsFrame(f)) && j.peer.handled == from + |before|
    ensures FramesInto(schedule, j, frames).peer ==
            HandleFrames(Alone(Listed(from, before + RoomsFound(schedule, j, frames))), j.peer, frames)
    decreases |frames|
  {
    hide FrameInto, HandleFrame, FillFor, IsFrame, Alone;
    if frames != [] && j.peer.status == Running {
      var f, found := frames[0], RoomsFound(schedule, j, frames);
      var room := FillFor(schedule, j, f).count;
      assert (before + found)[|before|] == room;
      FrameIsHandled(schedule, j, f, Listed(from, before + found));
      var next := FrameInto(schedule, j, f);
      FramesAreHandled(schedule, next, frames[1..], from, before + [room]);
      assert before + [room] + RoomsFound(schedule, next, frames[1..]) == before + found;
    }
  }

  /** The rooms that the frames of a read find. */
  function ReadRooms(schedule: Schedule, j: Joint, data: seq<byte>): (nat, seq<Entry>) -> nat {
    var frames := Receiver.Scan(j.peer.buffer + Store(j.peer.pending, data).out).frames;
    Listed(j.peer.handled, RoomsFound(schedule, j.(peer := j.peer.(status := Running)), frames))
  }

  /** A read beside the storage thread is a read whose frames meet some room. */
  lemma ReadIntoIsRead(schedule: Schedule, j: Joint, data: seq<byte>)
    ensures ReadInto(schedule, j, data).peer == ReceiveData(Alone(ReadRooms(schedule, j, data)), j.peer, data)
  {
    hide FramesInto, HandleFrames, Receiver.Scan, Store, Alone, IsFrame, Listed, RoomsFound;
    var buffer := j.peer.buffer + Store(j.peer.pending, data).out;
    var frames, begun := Receiver.Scan(buffer).frames, j.(peer := j.peer.(status := Running));
    Receiver.ScanFrames(buffer);
    FramesAreHandled(schedule, begun, frames, j.peer.handled, []);
    assert [] + RoomsFound(schedule, begun, frames) == RoomsFound(schedule, begun, frames);
  }

  // ----- And a run of the queue -----

  function IntoSteps(schedule: Schedule, j: Joint, frames: seq<seq<byte>>): seq<Queue.Step<Entry>>
    decreases |frames|
  {
    if frames == [] || j.peer.status != Running || !IsFrame(frames[0]) then []
    else
      Queue.FillSteps(j.queue, j.calls, schedule, Attempted(j.peer.session, frames[0]))
      + IntoSteps(schedule, FrameInto(schedule, j, frames[0]), frames[1..])
  }

  /** Queue and connection gain the same entries. */
  lemma FrameAdds(schedule: Schedule, j: Joint, f: seq<byte>)
    requires IsFrame(f)
    ensures var r := FrameInto(schedule, j, f);
            && j.peer.queued <= r.peer.queued
            && r.queue.added == j.queue.added + r.peer.queued[|j.peer.queued|..]
            && r.queue == Queue.Run(j.queue, Queue.FillSteps(j.queue, j.calls, schedule, Attempted(j.peer.session, f)))
  {
    hide ProcessMessage, IsFrame, Attempted, Queue.Fill, Queue.FillSteps, Queue.Run;
    var es, fill := Attempted(j.peer.session, f), FillFor(schedule, j, f);
    Queue.FillIsRun(j.queue, j.calls, schedule, es);
    AttemptedIsQueued(j.peer.session, j.peer.counters, f, fill.count);
    assert es[..|es|] == es;
  }

  lemma {:induction false} FramesAdd(schedule: Schedule, j: Joint, frames: seq<seq<byte>>)
    requires forall f :: f in frames ==> IsFrame(f)
    ensures var r := FramesInto(schedule, j, frames);
            && j.peer.queued <= r.peer.queued
            && r.queue.added == j.queue.added + r.peer.queued[|j.peer.queued|..]
            && r.queue == Queue.Run(j.queue, IntoSteps(schedule, j, frames))
    decreases |frames|
  {
    hide FrameInto, IsFrame, Queue.FillSteps, Queue.Run;
    if frames == [] || j.peer.status != Running {
      Queue.NoSteps(j.queue);
      assert j.queue.added + [] == j.queue.added && j.peer.queued[|j.peer.queued|..] == [];
    } else {
      var f, next := frames[0], FrameInto(schedule, j, frames[0]);
      FrameAdds(schedule, j, f);
      FramesAdd(schedule, next, frames[1..]);
      var steps := Queue.FillSteps(j.queue, j.calls, schedule, Attempted(j.peer.session, f));
      Queue.RunAppend(j.queue, steps, IntoSteps(schedule, next, frames[1..]));
      var r := FramesInto(schedule, next, frames[1..]);
      assert next.peer.queued[|j.peer.queued|..] + r.peer.queued[|next.peer.queued|..]
             == r.peer.queued[|j.peer.queued|..];
    }
  }

  function ReadSteps(schedule: Schedule, j: Joint, data: seq<byte>): seq<Queue.Step<Entry>> {
    var frames := Receiver.Scan(j.peer.buffer + Store(j.peer.pending, data).out).frames;
    IntoSteps(schedule, j.(peer := j.peer.(status := Running)), frames)
  }

  lemma ReadAdds(schedule: Schedule, j: Joint, data: seq<byte>)
    ensures var r := ReadInto(schedule, j, data);
            && j.peer.queued <= r.peer.queued
            && r.queue.added == j.queue.added + r.peer.queued[|j.peer.queued|..]
            && r.queue == Queue.Run(j.queue, ReadSteps(schedule, j, data))
  {
    hide FramesInto, Receiver.Scan, Store, IsFrame, IntoSteps, Queue.Run;
    var buffer := j.peer.buffer + Store(j.peer.pending, data).out;
    Receiver.ScanFrames(buffer);
    FramesAdd(schedule, j.(peer := j.peer.(status := Running)), Receiver.Scan(buffer).frames);
  }
}
