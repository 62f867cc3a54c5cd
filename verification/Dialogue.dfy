/** The whole dialogue with one controller, from the bytes it sends to the replies and the
    queued records, while other sessions and the storage thread go on. */
module Dialogue {
  import opened Bytes
  import opened Frames
  import opened Receiver
  import opened InfoPackage
  import opened Handlers
  import opened Connection
  import opened Escape

  function Ident(controller: uint32, firmware: uint32): Message {
    Message(CONTROLLER_IDENT, PutLe32(controller) + PutLe32(firmware))
  }

  function Confirm(n: uint32): Message {
    Message(DELETE_CONFIRM, PutLe32(n))
  }

  /** One archive frame: number of its last record, time, priority, records. */
  datatype Batch = Batch(last: uint32, time: uint32, priority: byte, records: seq<Payload>)

  predicate Fits(b: Batch) {
    |EncodeChain(b.records)| <= 65526
  }

  type ArchiveBatch = b: Batch | Fits(b) witness Batch(0, 0, 0, [])

  function Archive(b: ArchiveBatch): Message {
    Message(ARCHIVE_DATA, ResponseData(b.last, b.time, b.priority, EncodeChain(b.records)))
  }

  function ArchiveEnd(): Message {
    Message(ARCHIVE_DATA, [])
  }

  function Archives(batches: seq<ArchiveBatch>): (ms: seq<Message>)
    ensures |ms| == |batches|
  {
    if batches == [] then [] else [Archive(batches[0])] + Archives(batches[1..])
  }

  /** What the batches put into the queue, in order. */
  function BatchEntries(s: Session, batches: seq<ArchiveBatch>): seq<Entry> {
    if batches == [] then []
    else EntriesOf(s, batches[0].last, Infos(batches[0].records)) + BatchEntries(s, batches[1..])
  }

  /** The counter after the batches. */
  function CounterAfter(n: uint32, batches: seq<ArchiveBatch>): uint32 {
    if batches == [] then n else batches[|batches| - 1].last
  }

  /** Identification and, for a controller known already, confirmation of the deletion it
      was asked for. */
  function Opening(controller: uint32, firmware: uint32, known: uint32): seq<Message> {
    [Ident(controller, firmware)] + if known != 0 then [Confirm(known)] else []
  }

  /** Everything the controller sends: the opening, its archive, and the end of the archive. */
  function Script(controller: uint32, firmware: uint32, known: uint32, batches: seq<ArchiveBatch>): seq<Message> {
    Opening(controller, firmware, known) + Archives(batches) + [ArchiveEnd()]
  }

  /** The replies: a known controller is first told to delete what was accepted before and
      then asked for what follows, an unknown one is asked for everything. */
  function Greeting(known: uint32): seq<Reply> {
    if known != 0 then [Delete(known), Request(RequestNumber(known))] else [Request(0)]
  }

  /** At the end it is told to delete up to the last record accepted. */
  function Farewell(last: uint32): seq<Reply> {
    if last != 0 then [Delete(last)] else []
  }

  // ----- What is asked of the rest of the program -----

  /** No other session moves the counter of this controller. Other counters, and the queue,
      may change between any two frames. */
  ghost predicate Undisturbed(env: Environment, controller: uint32) {
    forall n, counters, queued ::
      LastCounter(env(n, counters, queued).counters, controller) == LastCounter(counters, controller)
  }

  /** The queue takes each batch when its own frame is handled. */
  predicate FitsRoom(env: Environment, p: Peer, batches: seq<ArchiveBatch>)
    decreases |batches|
  {
    batches == [] ||
    (&& |Infos(batches[0].records)| <= Meets(env, p).room
     && FitsRoom(env, HandleFrame(env, p, ArchiveFrame(batches[0])), batches[1..]))
  }

  function ArchiveFrame(b: ArchiveBatch): seq<byte> {
    MakeFrame(ARCHIVE_DATA, Archive(b).data)
  }

  /** From p to q: this session now, these entries queued, these replies sent, this counter
      of its controller; still running, and no input touched. */
  predicate Became(p: Peer, q: Peer, s: Session, entries: seq<Entry>, replies: seq<Reply>, counter: uint32) {
    && q.session == s
    && q.queued == p.queued + entries
    && q.sent == p.sent + replies
    && LastCounter(q.counters, s.controller) == counter
    && q.status == Running && q.buffer == p.buffer && q.pending == p.pending
  }

  lemma BecameThen(p: Peer, q: Peer, r: Peer, s: Session, e: seq<Entry>, x: seq<Reply>, n: uint32,
                   s': Session, e': seq<Entry>, x': seq<Reply>, n': uint32)
    requires Became(p, q, s, e, x, n) && Became(q, r, s', e', x', n')
    ensures Became(p, r, s', e + e', x + x', n')
  {
    assert p.queued + e + e' == p.queued + (e + e');
    assert p.sent + x + x' == p.sent + (x + x');
  }

  // ----- One frame -----

  lemma IdentHandled(env: Environment, p: Peer, controller: uint32, firmware: uint32)
    requires p.status == Running && Undisturbed(env, controller)
    ensures var known := LastCounter(p.counters, controller);
            Became(p, HandleFrame(env, p, MakeFrame(CONTROLLER_IDENT, Ident(controller, firmware).data)),
                   Session(if known == 0 then ProcessArchive else WaitInitialDeleteConfirm, controller, firmware),
                   [], if known == 0 then [Request(0)] else [Delete(known)], known)
  {
    hide MakeFrame, CheckCrc;
    var data := PutLe32(controller) + PutLe32(firmware);
    MakeFrameAccepted(CONTROLLER_IDENT, data);
    var f := MakeFrame(CONTROLLER_IDENT, data);
    FieldsOf(f, data);
    assert data[..4] == PutLe32(controller) && data[4..8] == PutLe32(firmware);
  }

  /** The first two integers of a frame's data. */
  lemma FieldsOf(f: seq<byte>, data: seq<byte>)
    requires |data| >= 8 && |f| >= 4 + |data| && f[4..4 + |data|] == data
    ensures Le32(f, 4) == Le32(data[..4], 0) && Le32(f, 8) == Le32(data[4..8], 0)
  {
    assert forall i :: 0 <= i < |data| ==> f[4 + i] == f[4..4 + |data|][i] == data[i];
  }

  lemma ConfirmHandled(env: Environment, p: Peer, n: uint32)
    requires p.status == Running && p.session.phase == WaitInitialDeleteConfirm
    requires Undisturbed(env, p.session.controller)
    ensures var known := LastCounter(p.counters, p.session.controller);
            Became(p, HandleFrame(env, p, MakeFrame(DELETE_CONFIRM, Confirm(n).data)),
                   p.session.(phase := ProcessArchive), [], [Request(RequestNumber(known))], known)
  {
    hide MakeFrame, CheckCrc;
    MakeFrameAccepted(DELETE_CONFIRM, PutLe32(n));
  }

  lemma ArchiveHandled(env: Environment, p: Peer, b: ArchiveBatch)
    requires p.status == Running && |Infos(b.records)| <= Meets(env, p).room
    ensures Became(p, HandleFrame(env, p, ArchiveFrame(b)),
                   p.session, EntriesOf(p.session, b.last, Infos(b.records)), [], b.last)
  {
    hide MakeFrame, CheckCrc, SplitChain, Infos, EntriesOf, EncodeChain;
    ResponseRoundTrip(ARCHIVE_DATA, b.last, b.time, b.priority, b.records);
    MakeFrameAccepted(ARCHIVE_DATA, Archive(b).data);
  }

  lemma ArchiveEndHandled(env: Environment, p: Peer)
    requires p.status == Running && Undisturbed(env, p.session.controller)
    ensures var last := LastCounter(p.counters, p.session.controller);
            Became(p, HandleFrame(env, p, MakeFrame(ARCHIVE_DATA, [])),
                   p.session.(phase := WaitFinalDeleteConfirm), [], Farewell(last), last)
  {
    hide MakeFrame, CheckCrc;
    MakeFrameAccepted(ARCHIVE_DATA, []);
  }

  // ----- The whole dialogue -----

  lemma NothingBecame(p: Peer)
    requires p.status == Running
    ensures Became(p, p, p.session, [], [], LastCounter(p.counters, p.session.controller))
  {
  }

  lemma {:induction false} ArchivesHandled(env: Environment, p: Peer, batches: seq<ArchiveBatch>)
    requires p.status == Running && FitsRoom(env, p, batches)
    ensures Became(p, HandleFrames(env, p, FramesOf(Archives(batches))),
                   p.session, BatchEntries(p.session, batches), [],
                   CounterAfter(LastCounter(p.counters, p.session.controller), batches))
    decreases |batches|
  {
    hide MakeFrame, HandleFrame, EntriesOf, Infos, LastCounter, Became;
    if batches == [] {
      NothingBecame(p);
    } else {
      var b, rest := batches[0], batches[1..];
      ArchiveHandled(env, p, b);
      var q := HandleFrame(env, p, ArchiveFrame(b));
      BecameSession(p, q, p.session, EntriesOf(p.session, b.last, Infos(b.records)), [], b.last);
      ArchivesHandled(env, q, rest);
      var r := HandleFrames(env, q, FramesOf(Archives(rest)));
      BecameThen(p, q, r, p.session, EntriesOf(p.session, b.last, Infos(b.records)), [], b.last,
                 p.session, BatchEntries(p.session, rest), [], CounterAfter(b.last, rest));
      assert FramesOf(Archives(batches)) == [ArchiveFrame(b)] + FramesOf(Archives(rest));
    }
  }

  lemma BecameSession(p: Peer, q: Peer, s: Session, e: seq<Entry>, x: seq<Reply>, n: uint32)
    requires Became(p, q, s, e, x, n)
    ensures q.session == s && q.status == Running && LastCounter(q.counters, s.controller) == n
  {
  }

  lemma {:induction false} FramesAppend(a: seq<Message>, b: seq<Message>)
    ensures FramesOf(a + b) == FramesOf(a) + FramesOf(b)
  {
    hide MakeFrame;
    if a == [] {
      assert a + b == b;
    } else {
      assert (a + b)[1..] == a[1..] + b;
      FramesAppend(a[1..], b);
    }
  }

  lemma HandleMore(env: Environment, p: Peer, a: seq<Message>, b: seq<Message>)
    ensures HandleFrames(env, p, FramesOf(a + b)) == HandleFrames(env, HandleFrames(env, p, FramesOf(a)), FramesOf(b))
  {
    FramesAppend(a, b);
    HandleAppend(env, p, FramesOf(a), FramesOf(b));
  }

  lemma HandleOne(env: Environment, p: Peer, m: Message)
    requires p.status == Running
    ensures HandleFrames(env, p, FramesOf([m])) == HandleFrame(env, p, MakeFrame(m.cmd, m.data))
  {
    hide HandleFrame, MakeFrame;
    assert [m][1..] == [];
    assert FramesOf([m]) == [MakeFrame(m.cmd, m.data)] + [];
  }

  lemma OpeningHandled(env: Environment, p: Peer, controller: uint32, firmware: uint32)
    requires p.status == Running && Undisturbed(env, controller)
    ensures var known := LastCounter(p.counters, controller);
            Became(p, HandleFrames(env, p, FramesOf(Opening(controller, firmware, known))),
                   Session(ProcessArchive, controller, firmware), [], Greeting(known), known)
  {
    hide HandleFrames, HandleFrame, FramesOf, MakeFrame, LastCounter, Undisturbed;
    var known := LastCounter(p.counters, controller);
    HandleOne(env, p, Ident(controller, firmware));
    IdentHandled(env, p, controller, firmware);
    var q := HandleFrame(env, p, MakeFrame(CONTROLLER_IDENT, Ident(controller, firmware).data));
    if known == 0 {
      assert Opening(controller, firmware, known) == [Ident(controller, firmware)];
    } else {
      HandleMore(env, p, [Ident(controller, firmware)], [Confirm(known)]);
      HandleOne(env, q, Confirm(known));
      ConfirmHandled(env, q, known);
      BecameThen(p, q, HandleFrame(env, q, MakeFrame(DELETE_CONFIRM, Confirm(known).data)),
                 q.session, [], [Delete(known)], known,
                 q.session.(phase := ProcessArchive), [], [Request(RequestNumber(known))], known);
    }
  }

  /** The opening in plain terms: a controller that has no counter is asked for everything and
      told to delete nothing; one that has is told to delete up to it, and then asked for what
      follows. */
  predicate Greeted(p: Peer, q: Peer, controller: uint32, firmware: uint32) {
    && q.queued == p.queued && q.status == Running
    && q.session == Session(ProcessArchive, controller, firmware)
    && (controller !in p.counters ==> q.sent == p.sent + [Request(0)])
    && (controller in p.counters && p.counters[controller] != 0 ==>
          var n := p.counters[controller];
          q.sent == p.sent + [Delete(n), Request((n as int + 1) % 0x1_0000_0000)])
  }

  lemma OpeningReplies(env: Environment, p: Peer, controller: uint32, firmware: uint32)
    requires p.status == Running && Undisturbed(env, controller)
    ensures Greeted(p, Opened(env, p, controller, firmware), controller, firmware)
  {
    hide HandleFrames, FramesOf, Opening, Undisturbed;
    OpeningHandled(env, p, controller, firmware);
    assert p.queued + [] == p.queued;
  }

  /** What the dialogue leaves behind: every record queued in order under its controller and
      firmware, the counter at the last record, exactly these replies, in this order. */
  predicate AfterDialogue(p: Peer, q: Peer, controller: uint32, firmware: uint32, batches: seq<ArchiveBatch>) {
    var known := LastCounter(p.counters, controller);
    var last := CounterAfter(known, batches);
    Became(p, q, Session(WaitFinalDeleteConfirm, controller, firmware),
           BatchEntries(Session(ProcessArchive, controller, firmware), batches),
           Greeting(known) + Farewell(last), last)
  }

  /** The state in which the first archive frame is met. */
  function Opened(env: Environment, p: Peer, controller: uint32, firmware: uint32): Peer {
    HandleFrames(env, p, FramesOf(Opening(controller, firmware, LastCounter(p.counters, controller))))
  }

  /** The dialogue has exactly its specified effect, whatever the rest of the program does to
      other counters and to the queue, as long as each batch fits when it comes. */
  lemma DialogueHandled(env: Environment, p: Peer, controller: uint32, firmware: uint32, batches: seq<ArchiveBatch>)
    requires p.status == Running && Undisturbed(env, controller)
    requires FitsRoom(env, Opened(env, p, controller, firmware), batches)
    ensures var ms := Script(controller, firmware, LastCounter(p.counters, controller), batches);
            AfterDialogue(p, HandleFrames(env, p, FramesOf(ms)), controller, firmware, batches)
  {
    hide HandleFrames, HandleFrame, FramesOf, MakeFrame, Archives, BatchEntries, LastCounter, Undisturbed, Became,
         FitsRoom, CounterAfter, Opening, Greeting, Farewell;
    var known := LastCounter(p.counters, controller);
    var opening, s := Opening(controller, firmware, known), Session(ProcessArchive, controller, firmware);
    var last, entries := CounterAfter(known, batches), BatchEntries(s, batches);
    OpeningHandled(env, p, controller, firmware);
    var q := HandleFrames(env, p, FramesOf(opening));
    BecameSession(p, q, s, [], Greeting(known), known);
    ArchivesHandled(env, q, batches);
    var r := HandleFrames(env, q, FramesOf(Archives(batches)));
    BecameSession(q, r, s, entries, [], last);
    HandleOne(env, r, ArchiveEnd());
    ArchiveEndHandled(env, r);
    var end := HandleFrames(env, r, FramesOf([ArchiveEnd()]));
    HandleMore(env, p, opening, Archives(batches));
    HandleMore(env, p, opening + Archives(batches), [ArchiveEnd()]);
    BecameThen(p, q, r, s, [], Greeting(known), known, s, entries, [], last);
    BecameThen(p, r, end, s, [] + entries, Greeting(known) + [], last,
               s.(phase := WaitFinalDeleteConfirm), [], Farewell(last), last);
    assert [] + entries + [] == entries;
    assert Greeting(known) + [] + Farewell(last) == Greeting(known) + Farewell(last);
  }

  /** These pieces are these messages on the wire, each after its gap. */
  predicate Arrive(chunks: seq<seq<byte>>, ms: seq<Message>, gaps: seq<seq<byte>>) {
    && |gaps| == |ms|
    && (forall g :: g in gaps ==> Gap(g))
    && Concat(chunks) == Stream(ms, gaps)
  }

  /** End to end: the encoded script, with any gaps between its frames, arriving in any
      pieces, has exactly the effect of the dialogue, and leaves no input behind. */
  lemma DialogueEndToEnd(env: Environment, p: Peer, controller: uint32, firmware: uint32,
                         batches: seq<ArchiveBatch>, gaps: seq<seq<byte>>, chunks: seq<seq<byte>>)
    requires p.status == Running && p.buffer == [] && !p.pending && Undisturbed(env, controller)
    requires FitsRoom(env, Opened(env, p, controller, firmware), batches)
    requires Arrive(chunks, Script(controller, firmware, LastCounter(p.counters, controller), batches), gaps)
    ensures AfterDialogue(p, ReceiveAllData(env, p, chunks), controller, firmware, batches)
  {
    hide HandleFrames, ReceiveAllData, FramesOf, Stream, Script, BatchEntries, Greeting, Farewell, FitsRoom, Opened,
         Undisturbed, LastCounter;
    var ms := Script(controller, firmware, LastCounter(p.counters, controller), batches);
    EmptyGap();
    assert Stream(ms, gaps) + [] == Stream(ms, gaps);
    EncodedMessagesHandled(env, p, ms, gaps, [], chunks);
    DialogueHandled(env, p, controller, firmware, batches);
  }

  lemma EmptyGap()
    ensures Gap([]) && Store(false, []).out == []
  {
  }
}
