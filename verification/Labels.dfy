/** What the labels of queued entries say. A label is the number of the last record of a
    frame less the count of its events that follow, so it tells a record only where every
    record carries one event; the results here are about labels alone. */
module Labels {
  import opened Bytes
  import opened Frames
  import opened InfoPackage
  import opened Handlers
  import opened System
  import Queue

  /** An entry of controller c with the n-th label has been accepted by the queue. */
  ghost predicate Labelled(accepted: seq<Entry>, c: uint32, n: int) {
    exists k :: 0 <= k < |accepted| && accepted[k].controller == c && accepted[k].mesNumber == LabelOf(n)
  }

  ghost predicate LabelledUpTo(accepted: seq<Entry>, c: uint32, n: int) {
    forall k :: 1 <= k <= n ==> Labelled(accepted, c, k)
  }

  /** Every label at or below a counter, and every label covered by a deletion already sent,
      has been given out. */
  ghost predicate AllLabelled(sys: System) {
    && (forall c: uint32 :: LabelledUpTo(sys.accepted, c, LastCounter(sys.counters, c)))
    && (forall e :: e in sys.history && e.Sent? && e.reply.Delete? ==>
          LabelledUpTo(sys.accepted, e.controller, e.reply.n))
  }

  /** The number before the first label of a data frame, which counts its events. */
  function LabelsBefore(s: Session, f: seq<byte>): int
    requires HasBlock(f) && ChainOk(f)
  {
    LastNumber(f) - |FrameEntries(s, f)|
  }

  /** The labels of a data frame taken in full start no later than counter + 1. */
  predicate LabelsMeet(sys: System, step: Step) {
    !sys.lost && step.Deliver? && step.id in sys.sessions && Accepts(sys.sessions[step.id], step.frame, step.room) ==>
      LabelsBefore(sys.sessions[step.id], step.frame)
        <= LastCounter(sys.counters, sys.sessions[step.id].controller)
  }

  predicate LabelsMeetRun(sys: System, steps: seq<Step>)
    decreases |steps|
  {
    steps == [] || (LabelsMeet(sys, steps[0]) && LabelsMeetRun(Next(sys, steps[0]), steps[1..]))
  }

  lemma LabelledMore(accepted: seq<Entry>, more: seq<Entry>, c: uint32, n: int)
    requires LabelledUpTo(accepted, c, n)
    ensures LabelledUpTo(accepted + more, c, n)
  {
    forall k | 1 <= k <= n
      ensures Labelled(accepted + more, c, k)
    {
      assert Labelled(accepted, c, k);
      var j :| 0 <= j < |accepted| && accepted[j].controller == c && accepted[j].mesNumber == LabelOf(k);
      assert (accepted + more)[j] == accepted[j];
    }
  }

  /** A frame that is taken in full gives out the labels LabelsBefore + 1 to its last. */
  lemma FrameLabels(accepted: seq<Entry>, s: Session, f: seq<byte>, n: int)
    requires HasBlock(f) && ChainOk(f) && LabelsBefore(s, f) < n <= LastNumber(f)
    ensures Labelled(accepted + FrameEntries(s, f), s.controller, n)
  {
    hide SplitChain, Infos, EntriesOf, LabelOf;
    var infos := Infos(SplitChain(Block(f)).records);
    var i := n - LabelsBefore(s, f) - 1;
    LabelsConsecutive(s, LastNumber(f), infos, i);
    assert (accepted + FrameEntries(s, f))[|accepted| + i] == FrameEntries(s, f)[i];
  }

  /** A step leaves no gap if the labels of its frame start no later than counter + 1. */
  lemma StepLabelled(sys: System, step: Step)
    requires AllLabelled(sys) && LabelsMeet(sys, step)
    ensures AllLabelled(Next(sys, step))
  {
    hide ProcessMessage, FrameEntries, ChainOk, HasBlock, IsFrame;
    if !sys.lost && step.Deliver? && step.id in sys.sessions && IsFrame(step.frame) {
      var s, f := sys.sessions[step.id], step.frame;
      var h := ProcessMessage(s, sys.counters, f, step.room);
      RepliesFollowCounter(s, sys.counters, f, step.room);
      forall c: uint32
        ensures LabelledUpTo(sys.accepted + h.queued, c, LastCounter(h.counters, c))
      {
        LabelledMore(sys.accepted, h.queued, c, LastCounter(sys.counters, c));
        if Accepts(s, f, step.room) && c == s.controller {
          NewLabels(sys.accepted, s, f, LastCounter(sys.counters, c));
        }
      }
      HistoryLabelled(sys, step.id, h, f);
    }
  }

  /** With the older labels given out before the frame, all up to its last are after it. */
  lemma NewLabels(accepted: seq<Entry>, s: Session, f: seq<byte>, counter: int)
    requires HasBlock(f) && ChainOk(f)
    requires LabelledUpTo(accepted, s.controller, counter)
    requires forall n :: 0 < n && counter < n <= LabelsBefore(s, f) ==> Labelled(accepted, s.controller, n)
    ensures LabelledUpTo(accepted + FrameEntries(s, f), s.controller, LastNumber(f))
  {
    hide FrameEntries, ChainOk, HasBlock;
    var es := FrameEntries(s, f);
    forall n | 1 <= n <= LastNumber(f)
      ensures Labelled(accepted + es, s.controller, n)
    {
      if n <= LabelsBefore(s, f) {
        assert LabelledUpTo(accepted, s.controller, counter);
        assert Labelled(accepted, s.controller, n);
        StillLabelled(accepted, es, s.controller, n);
      } else {
        FrameLabels(accepted, s, f, n);
      }
    }
  }

  lemma StillLabelled(accepted: seq<Entry>, more: seq<Entry>, c: uint32, n: int)
    requires Labelled(accepted, c, n)
    ensures Labelled(accepted + more, c, n)
  {
    var j :| 0 <= j < |accepted| && accepted[j].controller == c && accepted[j].mesNumber == LabelOf(n);
    assert (accepted + more)[j] == accepted[j];
  }

  lemma HistoryLabelled(sys: System, id: nat, h: Handled, f: seq<byte>)
    requires AllLabelled(sys) && IsFrame(f)
    requires forall c: uint32 :: LabelledUpTo(sys.accepted + h.queued, c, LastCounter(h.counters, c))
    requires forall r :: r in h.sent && r.Delete? ==> r.n == LastCounter(h.counters, h.session.controller)
    ensures forall e :: e in sys.history + Events(id, h, f) && e.Sent? && e.reply.Delete? ==>
              LabelledUpTo(sys.accepted + h.queued, e.controller, e.reply.n)
  {
    hide LabelledUpTo, IsFrame;
    forall e | e in sys.history + Events(id, h, f) && e.Sent? && e.reply.Delete?
      ensures LabelledUpTo(sys.accepted + h.queued, e.controller, e.reply.n)
    {
      if e in sys.history {
        LabelledMore(sys.accepted, h.queued, e.controller, e.reply.n);
      } else {
        assert e in Events(id, h, f);
        assert e.reply in h.sent;
      }
    }
  }

  /** No label up to a counter or a deletion is missing, over every run of any number of
      sessions, including runs in which the queue overflows in the middle of a frame. */
  lemma {:induction false} NoLabelMissing(sys: System, steps: seq<Step>)
    requires AllLabelled(sys) && LabelsMeetRun(sys, steps)
    ensures AllLabelled(Run(sys, steps))
    decreases |steps|
  {
    hide AllLabelled, LabelsMeet, Next;
    if steps != [] {
      StepLabelled(sys, steps[0]);
      NoLabelMissing(Next(sys, steps[0]), steps[1..]);
    }
  }

  /** The assumption is not idle: after a frame taken in full none is missing if and only if
      the labels it skips, after the counter and before its first, were given out already. */
  lemma LabelsExactly(sys: System, id: nat, f: seq<byte>, room: nat)
    requires AllLabelled(sys) && !sys.lost && id in sys.sessions && Accepts(sys.sessions[id], f, room)
    ensures var s := sys.sessions[id];
            AllLabelled(Next(sys, Deliver(id, f, room))) <==>
            forall n :: LastCounter(sys.counters, s.controller) < n <= LabelsBefore(s, f) ==>
              Labelled(sys.accepted, s.controller, n)
  {
    hide ProcessMessage, FrameEntries, ChainOk, HasBlock, IsFrame, Events;
    var s := sys.sessions[id];
    var h := ProcessMessage(s, sys.counters, f, room);
    var next := Next(sys, Deliver(id, f, room));
    var counter := LastCounter(sys.counters, s.controller);
    RepliesFollowCounter(s, sys.counters, f, room);
    if AllLabelled(next) {
      assert LastCounter(next.counters, s.controller) == LastNumber(f);
      forall n | counter < n <= LabelsBefore(s, f)
        ensures Labelled(sys.accepted, s.controller, n)
      {
        assert LabelledUpTo(next.accepted, s.controller, LastNumber(f));
        assert Labelled(next.accepted, s.controller, n);
        NotInFrame(sys.accepted, s, f, n);
      }
    }
    if forall n :: counter < n <= LabelsBefore(s, f) ==> Labelled(sys.accepted, s.controller, n) {
      forall c: uint32
        ensures LabelledUpTo(sys.accepted + h.queued, c, LastCounter(h.counters, c))
      {
        LabelledMore(sys.accepted, h.queued, c, LastCounter(sys.counters, c));
        if c == s.controller {
          NewLabels(sys.accepted, s, f, counter);
        }
      }
      HistoryLabelled(sys, id, h, f);
    }
  }

  /** A label before the first of a frame is not among those the frame gives out. */
  lemma NotInFrame(accepted: seq<Entry>, s: Session, f: seq<byte>, n: int)
    requires HasBlock(f) && ChainOk(f) && 1 <= n <= LabelsBefore(s, f)
    requires Labelled(accepted + FrameEntries(s, f), s.controller, n)
    ensures Labelled(accepted, s.controller, n)
  {
    hide SplitChain, Infos, EntriesOf, LabelOf;
    var es := FrameEntries(s, f);
    var k :| 0 <= k < |accepted + es| && (accepted + es)[k].controller == s.controller
             && (accepted + es)[k].mesNumber == LabelOf(n);
    if k < |accepted| {
      assert (accepted + es)[k] == accepted[k];
    } else {
      var i := k - |accepted|;
      LabelsConsecutive(s, LastNumber(f), Infos(SplitChain(Block(f)).records), i);
      LabelInjective(LabelsBefore(s, f) + 1 + i, n);
    }
  }

  // ----- Numbering across frames -----

  /** What a step adds to the accepted entries. */
  function Queues(sys: System, step: Step): seq<Entry> {
    if sys.lost || !step.Deliver? || step.id !in sys.sessions || !IsFrame(step.frame) then []
    else ProcessMessage(sys.sessions[step.id], sys.counters, step.frame, step.room).queued
  }

  function OwnStep(sys: System, id: nat, step: Step): seq<Entry> {
    if step.Deliver? && step.id == id then Queues(sys, step) else []
  }

  /** The entries that the frames of one session queue in the course of a run. */
  function Own(sys: System, id: nat, steps: seq<Step>): seq<Entry>
    decreases |steps|
  {
    if steps == [] then [] else OwnStep(sys, id, steps[0]) + Own(Next(sys, steps[0]), id, steps[1..])
  }

  /** Each frame of this session that queues anything, archive or current, is taken in full.
      Everything else is free: other sessions, connections coming and going, confirmations,
      repeated identification. */
  predicate Whole(sys: System, id: nat, steps: seq<Step>)
    decreases |steps|
  {
    steps == [] ||
    (&& (OwnStep(sys, id, steps[0]) != [] ==> Accepts(sys.sessions[id], steps[0].frame, steps[0].room))
     && Whole(Next(sys, steps[0]), id, steps[1..]))
  }

  /** The labels of each of these frames start where those of the previous one ended. */
  predicate Adjoining(sys: System, id: nat, start: int, steps: seq<Step>)
    requires Whole(sys, id, steps)
    decreases |steps|
  {
    steps == [] ||
    (var es := OwnStep(sys, id, steps[0]);
     && (es != [] ==> SameLabel(LabelsBefore(sys.sessions[id], steps[0].frame), start))
     && Adjoining(Next(sys, steps[0]), id, start + |es|, steps[1..]))
  }

  /** Numbers carry the same label if they differ by a multiple of 2^32. */
  predicate SameLabel(a: int, b: int) {
    (a - b) % 0x1_0000_0000 == 0
  }

  lemma SameLabelExactly(a: int, b: int)
    ensures SameLabel(a, b) <==> LabelOf(a) == LabelOf(b)
  {
    var m := 0x1_0000_0000;
    assert a - 1 == m * ((a - 1) / m) + (a - 1) % m;
    assert b - 1 == m * ((b - 1) / m) + (b - 1) % m;
  }

  predicate Gapless(es: seq<Entry>, start: int) {
    forall k :: 0 <= k < |es| ==> es[k].mesNumber == LabelOf(start + 1 + k)
  }

  /** Whatever else goes on, the labels of a session's entries form one run without gaps if
      and only if its frames adjoin. */
  lemma {:induction false} LabelsGapless(sys: System, id: nat, start: int, steps: seq<Step>)
    requires Whole(sys, id, steps)
    ensures Gapless(Own(sys, id, steps), start) <==> Adjoining(sys, id, start, steps)
    decreases |steps|
  {
    hide Next, Gapless, SameLabel, LabelsBefore, OwnStep, Accepts, FrameEntries, HasBlock, ChainOk;
    if steps == [] {
      NoGap(start);
    } else {
      var step, es := steps[0], OwnStep(sys, id, steps[0]);
      LabelsGapless(Next(sys, step), id, start + |es|, steps[1..]);
      GaplessTwo(es, Own(Next(sys, step), id, steps[1..]), start);
      if es == [] {
        NoGap(start);
      } else {
        OwnStepIsFrame(sys, id, step);
        FrameGapless(sys.sessions[id], step.frame, start);
      }
    }
  }

  lemma OwnStepIsFrame(sys: System, id: nat, step: Step)
    requires OwnStep(sys, id, step) != [] && Accepts(sys.sessions[id], step.frame, step.room)
    ensures step.Deliver? && id in sys.sessions && HasBlock(step.frame) && ChainOk(step.frame)
    ensures OwnStep(sys, id, step) == FrameEntries(sys.sessions[id], step.frame)
  {
    hide ProcessMessage, FrameEntries, IsFrame, HasBlock, ChainOk;
    RepliesFollowCounter(sys.sessions[id], sys.counters, step.frame, step.room);
  }

  lemma NoGap(start: int)
    ensures Gapless([], start)
  {
  }

  lemma GaplessTwo(a: seq<Entry>, b: seq<Entry>, start: int)
    ensures Gapless(a + b, start) <==> Gapless(a, start) && Gapless(b, start + |a|)
  {
    hide LabelOf;
    if Gapless(a + b, start) {
      forall k | 0 <= k < |a|
        ensures a[k].mesNumber == LabelOf(start + 1 + k)
      {
        assert (a + b)[k] == a[k];
      }
      forall k | 0 <= k < |b|
        ensures b[k].mesNumber == LabelOf(start + |a| + 1 + k)
      {
        assert (a + b)[|a| + k] == b[k];
      }
    }
    if Gapless(a, start) && Gapless(b, start + |a|) {
      forall k | 0 <= k < |a + b|
        ensures (a + b)[k].mesNumber == LabelOf(start + 1 + k)
      {
        if k >= |a| {
          assert (a + b)[k] == b[k - |a|];
          assert start + |a| + 1 + (k - |a|) == start + 1 + k;
        }
      }
    }
  }

  lemma FrameGapless(s: Session, f: seq<byte>, start: int)
    requires HasBlock(f) && ChainOk(f) && FrameEntries(s, f) != []
    ensures Gapless(FrameEntries(s, f), start) <==> SameLabel(LabelsBefore(s, f), start)
  {
    hide FrameEntries, HasBlock, ChainOk, LabelOf;
    var es, before := FrameEntries(s, f), LabelsBefore(s, f);
    forall k | 0 <= k < |es|
      ensures es[k].mesNumber == LabelOf(before + 1 + k)
      ensures SameLabel(before, start) <==> LabelOf(before + 1 + k) == LabelOf(start + 1 + k)
    {
      FrameLabel(s, f, k);
      SameLabelExactly(before + 1 + k, start + 1 + k);
    }
    assert es[0].mesNumber == LabelOf(before + 1 + 0);
  }

  /** Each non-empty data frame of this session is taken in full, its first record follows
      the last record of the previous one, and every record carries one event. */
  predicate RecordsAdjoin(sys: System, id: nat, start: int, steps: seq<Step>)
    decreases |steps|
  {
    steps == [] ||
    (var step := steps[0];
     var taken := OwnStepTaken(sys, id, step);
     && (OwnStep(sys, id, step) != [] ==> taken != [])
     && (taken != [] ==>
           && taken[0].last - |taken[0].records| == start
           && forall r :: r in taken[0].records ==> |Mids(Decode(r))| == 1)
     && RecordsAdjoin(Next(sys, step), id, if taken != [] then taken[0].last else start, steps[1..]))
  }

  function OwnStepTaken(sys: System, id: nat, step: Step): (r: seq<Taken>)
    ensures |r| <= 1
  {
    if !sys.lost && step.Deliver? && step.id == id && id in sys.sessions then
      TakenBy(sys.sessions[id], step.frame, step.room, |sys.accepted|)
    else []
  }

  /** Over a download of frames whose records adjoin and carry one event each, the labels form
      one run without gaps. */
  lemma DownloadGapless(sys: System, id: nat, start: int, steps: seq<Step>)
    requires RecordsAdjoin(sys, id, start, steps)
    ensures Gapless(Own(sys, id, steps), start)
  {
    hide Next, Gapless, Own;
    RecordsAreLabels(sys, id, start, steps);
    LabelsGapless(sys, id, start, steps);
  }

  lemma {:induction false} RecordsAreLabels(sys: System, id: nat, start: int, steps: seq<Step>)
    requires RecordsAdjoin(sys, id, start, steps)
    ensures Whole(sys, id, steps) && Adjoining(sys, id, start, steps)
    decreases |steps|
  {
    hide Next, ProcessMessage, ChainOk, HasBlock, IsFrame, SplitChain, Infos, Decode, Mids;
    if steps != [] {
      var step, taken := steps[0], OwnStepTaken(sys, id, steps[0]);
      RecordsAreLabels(Next(sys, step), id, if taken != [] then taken[0].last else start, steps[1..]);
      if taken != [] {
        OneEventEach(taken[0].records);
        RepliesFollowCounter(sys.sessions[id], sys.counters, step.frame, step.room);
      }
    }
  }

  /** Everything queued in a run, with the mark whether it is this session's. */
  function Marks(sys: System, id: nat, steps: seq<Step>): seq<bool>
    decreases |steps|
  {
    if steps == [] then []
    else
      var mine := steps[0].Deliver? && steps[0].id == id;
      seq(|Queues(sys, steps[0])|, _ => mine) + Marks(Next(sys, steps[0]), id, steps[1..])
  }

  /** A run only adds to the accepted entries, and a session's own entries are among those
      added, each once and in order. */
  lemma {:induction false} OwnAmongAccepted(sys: System, id: nat, steps: seq<Step>)
    ensures sys.accepted <= Run(sys, steps).accepted
    ensures |Marks(sys, id, steps)| == |Run(sys, steps).accepted| - |sys.accepted|
    ensures Queue.Select(Run(sys, steps).accepted[|sys.accepted|..], Marks(sys, id, steps), true) == Own(sys, id, steps)
    decreases |steps|
  {
    hide Next, Queues, Queue.Select;
    if steps == [] {
      assert sys.accepted[|sys.accepted|..] == [];
      SelectNone();
    } else {
      var next := Next(sys, steps[0]);
      StepQueues(sys, steps[0]);
      OwnAmongAccepted(next, id, steps[1..]);
      AddedBefore(sys.accepted, Queues(sys, steps[0]), Run(next, steps[1..]).accepted);
      SelectTwo(Queues(sys, steps[0]), steps[0].Deliver? && steps[0].id == id,
                Run(next, steps[1..]).accepted[|next.accepted|..], Marks(next, id, steps[1..]));
    }
  }

  lemma AddedBefore(a: seq<Entry>, es: seq<Entry>, all: seq<Entry>)
    requires a + es <= all
    ensures a <= all && all[|a|..] == es + all[|a + es|..]
  {
  }

  lemma StepQueues(sys: System, step: Step)
    ensures Next(sys, step).accepted == sys.accepted + Queues(sys, step)
  {
    hide ProcessMessage, Events, IsFrame;
    if !sys.lost && step.Deliver? && step.id in sys.sessions && IsFrame(step.frame) {
      UndefinedQueuesNothing(sys.sessions[step.id], sys.counters, step.frame, step.room);
    }
    assert sys.accepted + [] == sys.accepted;
  }

  lemma UndefinedQueuesNothing(s: Session, counters: Counters, f: seq<byte>, room: nat)
    requires IsFrame(f)
    ensures var h := ProcessMessage(s, counters, f, room); h.outcome == Undefined ==> h.queued == []
  {
    hide SplitChain, Infos, EntriesOf;
  }

  lemma SelectNone()
    ensures Queue.Select<Entry>([], [], true) == []
  {
  }

  /** Selecting from a block that is wholly selected or wholly left out, and then the rest. */
  lemma {:induction false} SelectTwo(es: seq<Entry>, mine: bool, more: seq<Entry>, marks: seq<bool>)
    requires |more| == |marks|
    ensures Queue.Select(es + more, seq(|es|, _ => mine) + marks, true) ==
            (if mine then es else []) + Queue.Select(more, marks, true)
    decreases |more|
  {
    var block := seq(|es|, _ => mine);
    if more == [] {
      assert es + more == es && block + marks == block;
      assert [] + es == es && [] + block == block;
      Queue.SelectAll([], [], es, mine);
    } else {
      var n := |more| - 1;
      SelectTwo(es, mine, more[..n], marks[..n]);
      assert (es + more)[..|es + more| - 1] == es + more[..n];
      assert (block + marks)[..|es + more| - 1] == block + marks[..n];
    }
  }

  lemma FrameLabel(s: Session, f: seq<byte>, i: nat)
    requires HasBlock(f) && ChainOk(f) && i < |FrameEntries(s, f)|
    ensures FrameEntries(s, f)[i].mesNumber == LabelOf(LabelsBefore(s, f) + 1 + i)
  {
    hide SplitChain, Infos, EntriesOf, LabelOf;
    LabelsConsecutive(s, LastNumber(f), Infos(SplitChain(Block(f)).records), i);
  }

  /** Below 2^31 the n-th label is n - 1, so the run above is strictly increasing. */
  lemma LabelIsNumber(n: int)
    requires 1 <= n <= 0x8000_0000
    ensures LabelOf(n) == n - 1
  {
  }
}
