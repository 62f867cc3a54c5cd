/** The message handlers of one session (omnicomm/protocol.cpp) as functions of its
    state, the counters shared by all sessions, and the room left in the queue. */
module Handlers {
  import opened Bytes
  import opened Frames
  import opened WireFormat
  import opened InfoPackage

  datatype Phase = WaitInitial | WaitInitialDeleteConfirm | ProcessArchive | ProcessCurrent | WaitFinalDeleteConfirm

  datatype Session = Session(phase: Phase, controller: uint32, firmware: uint32)

  const NEW_SESSION := Session(WaitInitial, 0, 0)

  /** Last accepted message number by controller, shared by all sessions. */
  type Counters = map<uint32, uint32>

  /** A queued message: the parts its text is put together from. */
  datatype Entry = Entry(controller: uint32, firmware: uint32, mesNumber: int32, info: Info)

  /** What a session sends: a data request or a deletion, with its message number. */
  datatype Reply = Request(n: uint32) | Delete(n: uint32)

  datatype Handled = Handled(
    outcome: Outcome, session: Session, counters: Counters, queued: seq<Entry>, sent: seq<Reply>)

  function LastCounter(counters: Counters, controller: uint32): uint32 {
    if controller in counters then counters[controller] else 0
  }

  /** send_delete: nothing is sent for a zero counter. */
  function DeleteReply(s: Session, counters: Counters): seq<Reply> {
    var n := LastCounter(counters, s.controller);
    if n != 0 then [Delete(n)] else []
  }

  /** Zero asks for everything, otherwise for what follows the counter. */
  function RequestNumber(counter: uint32): uint32 {
    if counter != 0 then (counter as int + 1) % 0x1_0000_0000 else 0
  }

  /** send_request */
  function RequestReply(s: Session, counters: Counters): seq<Reply> {
    [Request(RequestNumber(LastCounter(counters, s.controller)))]
  }

  function ToInt32(n: uint32): int32 {
    if n < 0x8000_0000 then n else n - 0x1_0000_0000
  }

  /** The number before the first label: a difference in unsigned arithmetic made signed. */
  function MesNumber(last: uint32, len: nat): int32 {
    ToInt32((last - len) % 0x1_0000_0000)
  }

  function PlusIndex(mesNumber: int32, i: nat): int32 {
    ToInt32((mesNumber + i) % 0x1_0000_0000)
  }

  function Label(last: uint32, len: nat, i: nat): int32 {
    PlusIndex(MesNumber(last, len), i)
  }

  function EntriesOf(s: Session, last: uint32, infos: seq<Info>): (es: seq<Entry>)
    ensures |es| == |infos|
  {
    seq(|infos|, i requires 0 <= i < |infos| =>
      Entry(s.controller, s.firmware, Label(last, |infos|, i), infos[i]))
  }

  /** The entries a data frame stands for, if its record chain is well formed. */
  predicate ChainOk(f: seq<byte>)
    requires HasBlock(f)
  {
    SplitChain(Block(f)).Chain?
  }

  function FrameEntries(s: Session, f: seq<byte>): (es: seq<Entry>)
    requires HasBlock(f) && ChainOk(f)
  {
    EntriesOf(s, LastNumber(f), Infos(SplitChain(Block(f)).records))
  }

  /** process_info_messages: add_message throws at the first entry there is no room for. */
  function ProcessInfoMessages(s: Session, f: seq<byte>, room: nat): (r: (Outcome, seq<Entry>))
    requires IsFrame(f)
  {
    if !HasBlock(f) then (Undefined, [])
    else if !ChainOk(f) then (Threw, [])
    else
      var es := FrameEntries(s, f);
      if |es| <= room then (Done, es) else (Threw, es[..room])
  }

  function ProcessDeleteConfirmation(s: Session, counters: Counters): Handled {
    if s.phase == WaitInitialDeleteConfirm then
      Handled(Done, s.(phase := ProcessArchive), counters, [], RequestReply(s, counters))
    else
      Handled(Done, s, counters, [], [])
  }

  function ProcessControllerIdent(s: Session, counters: Counters, f: seq<byte>): Handled
    requires IsFrame(f)
  {
    if !CheckLength(f, CONTROLLER_IDENT_SIZE) then Handled(Threw, s, counters, [], [])
    else
      var s' := s.(controller := Le32(f, 4), firmware := Le32(f, 8));
      if LastCounter(counters, s'.controller) == 0 then
        Handled(Done, s'.(phase := ProcessArchive), counters, [], RequestReply(s', counters))
      else
        Handled(Done, s'.(phase := WaitInitialDeleteConfirm), counters, [], DeleteReply(s', counters))
  }

  function ProcessArchiveData(s: Session, counters: Counters, f: seq<byte>, room: nat): Handled
    requires IsFrame(f)
  {
    if DataLen(f) == 0 then
      Handled(Done, s.(phase := WaitFinalDeleteConfirm), counters, [], DeleteReply(s, counters))
    else if !CheckLength(f, DATA_RESPONSE_SIZE) then Handled(Threw, s, counters, [], [])
    else
      var r := ProcessInfoMessages(s, f, room);
      if r.0 != Done then Handled(r.0, s, counters, r.1, [])
      else Handled(Done, s, counters[s.controller := LastNumber(f)], r.1, [])
  }

  function ProcessCurrentData(s: Session, counters: Counters, f: seq<byte>, room: nat): Handled
    requires IsFrame(f)
  {
    if !CheckLength(f, DATA_RESPONSE_SIZE) then Handled(Threw, s, counters, [], [])
    else
      var r := ProcessInfoMessages(s, f, room);
      if r.0 != Done then Handled(r.0, s, counters, r.1, [])
      else
        var counters' := counters[s.controller := LastNumber(f)];
        Handled(Done, s.(phase := WaitFinalDeleteConfirm), counters', r.1, DeleteReply(s, counters'))
  }

  /** process_message: dispatch on the command, in any phase. */
  function ProcessMessage(s: Session, counters: Counters, f: seq<byte>, room: nat): Handled
    requires IsFrame(f)
  {
    var cmd := f[1];
    if cmd == CONTROLLER_IDENT then ProcessControllerIdent(s, counters, f)
    else if cmd == CURRENT_DATA then ProcessCurrentData(s, counters, f, room)
    else if cmd == ARCHIVE_DATA then ProcessArchiveData(s, counters, f, room)
    else if cmd == DELETE_CONFIRM then ProcessDeleteConfirmation(s, counters)
    else Handled(Done, s, counters, [], [])
  }

  // ----- What a frame tries to queue -----

  /** The entries process_info_messages goes through. */
  function InfoEntries(s: Session, f: seq<byte>): seq<Entry> {
    if HasBlock(f) && ChainOk(f) then FrameEntries(s, f) else []
  }

  /** The entries for which a frame has add_message called, until one call throws. */
  function Attempted(s: Session, f: seq<byte>): seq<Entry>
    requires IsFrame(f)
  {
    if f[1] == ARCHIVE_DATA || f[1] == CURRENT_DATA then InfoEntries(s, f) else []
  }

  /** What is queued is what was attempted, up to the room there is. */
  lemma AttemptedIsQueued(s: Session, counters: Counters, f: seq<byte>, room: nat)
    requires IsFrame(f)
    ensures var es := Attempted(s, f);
            ProcessMessage(s, counters, f, room).queued == if |es| <= room then es else es[..room]
  {
    hide SplitChain, Infos, EntriesOf;
  }

  // ----- Failed handlers -----

  /** Whenever a handler throws, session and counters are as before and nothing is sent;
      what was queued is a prefix of the frame's entries, none at all if the chain is
      malformed, and cut exactly where the room ended. */
  lemma FailureIsAtomic(s: Session, counters: Counters, f: seq<byte>, room: nat)
    requires IsFrame(f) && ProcessMessage(s, counters, f, room).outcome == Threw
    ensures var h := ProcessMessage(s, counters, f, room);
            && h.session == s && h.counters == counters && h.sent == []
            && (h.queued != [] ==>
                  && HasBlock(f) && ChainOk(f)
                  && h.queued <= FrameEntries(s, f)
                  && |h.queued| == room < |FrameEntries(s, f)|)
  {
    hide SplitChain, Infos, EntriesOf;
  }

  /** When the source reaches Undefined: a data frame of seven or eight bytes, which
      check_length accepts because it counts the CRC bytes as data. */
  lemma UndefinedExactly(s: Session, counters: Counters, f: seq<byte>, room: nat)
    requires IsFrame(f)
    ensures ProcessMessage(s, counters, f, room).outcome == Undefined <==>
            (f[1] == ARCHIVE_DATA || f[1] == CURRENT_DATA) && (DataLen(f) == 7 || DataLen(f) == 8)
  {
    hide SplitChain, Infos, EntriesOf;
  }

  // ----- What each frame does -----

  /** A handler throws exactly on a frame too short for its command, on a malformed chain, and
      when the queue has no room for all entries. */
  lemma ThrewExactly(s: Session, counters: Counters, f: seq<byte>, room: nat)
    requires IsFrame(f)
    ensures ProcessMessage(s, counters, f, room).outcome == Threw <==>
            || (f[1] == 0x80 && |f| < 12)
            || (f[1] == 0x95 && |f| < 13)
            || (f[1] == 0x86 && 6 < |f| < 13)
            || ((f[1] == 0x86 || f[1] == 0x95) && HasBlock(f) && (!ChainOk(f) || |FrameEntries(s, f)| > room))
  {
    hide SplitChain, Infos, EntriesOf, CheckCrc;
  }

  /** Identification: the session takes the two numbers of the frame. A controller without a
      counter is asked for everything; the others are told to delete up to their counter, and
      the confirmation of that is awaited. */
  lemma IdentEffect(s: Session, counters: Counters, f: seq<byte>, room: nat)
    requires IsFrame(f) && f[1] == 0x80 && |f| >= 12
    ensures var id := f[4] as int + 0x100 * (f[5] as int + 0x100 * (f[6] as int + 0x100 * f[7] as int));
            var firmware := f[8] as int + 0x100 * (f[9] as int + 0x100 * (f[10] as int + 0x100 * f[11] as int));
            ProcessMessage(s, counters, f, room) ==
            if id !in counters || counters[id] == 0 then
              Handled(Done, Session(ProcessArchive, id, firmware), counters, [], [Request(0)])
            else
              Handled(Done, Session(WaitInitialDeleteConfirm, id, firmware), counters, [], [Delete(counters[id])])
  {
    hide CheckCrc;
  }

  /** Confirmation: while the first one is awaited the archive is asked for, from the record
      after the counter; at any other time nothing happens. */
  lemma ConfirmEffect(s: Session, counters: Counters, f: seq<byte>, room: nat)
    requires IsFrame(f) && f[1] == 0x88
    ensures ProcessMessage(s, counters, f, room) ==
            if s.phase != WaitInitialDeleteConfirm then Handled(Done, s, counters, [], [])
            else
              var n := if s.controller in counters then counters[s.controller] else 0;
              Handled(Done, s.(phase := ProcessArchive), counters, [],
                      [Request(if n == 0 then 0 else (n as int + 1) % 0x1_0000_0000)])
  {
  }

  /** End of the archive: deletion up to the counter, if there is one. */
  lemma ArchiveEndEffect(s: Session, counters: Counters, f: seq<byte>, room: nat)
    requires IsFrame(f) && f[1] == 0x86 && |f| == 6
    ensures ProcessMessage(s, counters, f, room) ==
            Handled(Done, s.(phase := WaitFinalDeleteConfirm), counters, [],
                    if s.controller in counters && counters[s.controller] != 0 then [Delete(counters[s.controller])]
                    else [])
  {
    hide CheckCrc;
  }

  /** A data frame taken in full moves the counter to its last record. Archive data is not
      answered; current data is, with the deletion of everything up to there. */
  lemma DataEffect(s: Session, counters: Counters, f: seq<byte>, room: nat)
    requires IsFrame(f) && (f[1] == 0x86 || f[1] == 0x95)
    requires HasBlock(f) && ChainOk(f) && |FrameEntries(s, f)| <= room
    ensures var last := f[4] as int + 0x100 * (f[5] as int + 0x100 * (f[6] as int + 0x100 * f[7] as int));
            ProcessMessage(s, counters, f, room) ==
            if f[1] == 0x86 then Handled(Done, s, counters[s.controller := last], FrameEntries(s, f), [])
            else
              Handled(Done, s.(phase := WaitFinalDeleteConfirm), counters[s.controller := last], FrameEntries(s, f),
                      if last != 0 then [Delete(last)] else [])
  {
    hide SplitChain, Infos, EntriesOf, CheckCrc;
  }

  /** Any other command is ignored. */
  lemma OthersIgnored(s: Session, counters: Counters, f: seq<byte>, room: nat)
    requires IsFrame(f) && f[1] != 0x80 && f[1] != 0x86 && f[1] != 0x88 && f[1] != 0x95
    ensures ProcessMessage(s, counters, f, room) == Handled(Done, s, counters, [], [])
  {
  }

  // ----- Numbering -----

  /** The n-th label is n - 1 as a signed number. */
  function LabelOf(n: int): int32 {
    ToInt32((n - 1) % 0x1_0000_0000)
  }

  /** Within a frame the labels are consecutive and end with that of its last number. Their
      count is that of events, not of records. */
  lemma LabelsConsecutive(s: Session, last: uint32, infos: seq<Info>, i: nat)
    requires i < |infos|
    ensures EntriesOf(s, last, infos)[i].mesNumber == LabelOf(last - |infos| + 1 + i)
    ensures EntriesOf(s, last, infos)[i].controller == s.controller
    ensures EntriesOf(s, last, infos)[i].firmware == s.firmware
    ensures EntriesOf(s, last, infos)[i].info == infos[i]
  {
    WrapTwice(last - |infos|, i);
  }

  /** A label is the number before, up to a multiple of 2^32. */
  lemma LabelWraps(n: int)
    ensures (LabelOf(n) - (n - 1)) % 0x1_0000_0000 == 0
  {
    var m := 0x1_0000_0000;
    assert n - 1 == m * ((n - 1) / m) + (n - 1) % m;
    var q := (n - 1) / m;
    if (n - 1) % m < 0x8000_0000 {
      ModShift(0, -q);
    } else {
      ModShift(0, -q - 1);
    }
  }

  lemma WrapTwice(a: int, i: nat)
    ensures ToInt32((ToInt32(a % 0x1_0000_0000) + i) % 0x1_0000_0000) == ToInt32((a + i) % 0x1_0000_0000)
  {
    var m := 0x1_0000_0000;
    var q := a / m;
    assert a == m * q + a % m;
    if a % m < 0x8000_0000 {
      ModShift(a % m + i, q);
    } else {
      ModShift(a % m + i, q);
      ModShift(a % m + i, -1);
    }
  }

  lemma ModShift(n: int, q: int)
    ensures (n + 0x1_0000_0000 * q) % 0x1_0000_0000 == n % 0x1_0000_0000
  {
  }

  lemma LabelInjective(n: int, m: int)
    requires 1 <= n <= 0x1_0000_0000 && 1 <= m <= 0x1_0000_0000 && LabelOf(n) == LabelOf(m)
    ensures n == m
  {
  }
}
