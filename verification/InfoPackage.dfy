/** The chain of information records inside a data frame (omnicomm/info_package.cpp). */
module InfoPackage {
  import opened Bytes
  import opened Frames
  import opened WireFormat
  import opened Messages
  import opened Parse
  import opened Serializer
  import opened RecReg

  /** One message of the result: an event identifier and the record it came with. */
  datatype Info = Info(mid: uint32, msg: Message)

  /** Storage of a list that only ever grew by one: room for four, then doubled. */
  function Capacity(size: nat): (n: nat)
    ensures n >= size
  {
    if size <= 4 then 4 else 2 * Capacity((size + 1) / 2)
  }

  const GROWTH: Spare := (_, size) => Capacity(size) - size

  /** RecReg::ParseFromArray; the caller goes on with whatever was merged, even on failure. */
  function Decode(data: seq<byte>): (m: Message)
    ensures Valid(REC_REG, m)
  {
    EmptyValid(REC_REG);
    MergePartial(GROWTH, REC_REG, Empty(REC_REG), data).msg
  }

  /** A record that is a serialized message decodes to that message. */
  lemma DecodeSerialized(m: Message)
    requires Valid(REC_REG, m) && |Serialize(REC_REG, m)| < 0x1_0000
    ensures Decode(Serialize(REC_REG, m)) == m
  {
    hide MergePartial, Valid, WellFormed, Serialize;
    RecRegWellFormed();
    MessageRoundTrip(GROWTH, REC_REG, m);
  }

  function Mids(m: Message): seq<uint32>
    requires Valid(REC_REG, m)
  {
    assert ValidField(REC_REG[0], m.has[0], m.vals[0]);
    m.vals[0].ns
  }

  /** Reading a tag of the event list goes on as after the field's own read. */
  lemma MidsRead(spare: Spare, m: Message, wireType: nat, s: seq<byte>, body: seq<byte>)
    requires Valid(REC_REG, m) && (wireType == VARINT || wireType == LENGTH_DELIMITED)
    requires ReadTag(s) == (MakeTag(1, wireType), body)
    ensures ValidField(REC_REG[0], m.has[0], m.vals[0])
    ensures var f := ReadField(spare, REC_REG[0], wireType, m.has[0], m.vals[0], body);
            var m' := Set(m, 0, f.has, f.value);
            && Valid(REC_REG, m')
            && MergePartial(spare, REC_REG, m, s) ==
               if f.ok then MergePartial(spare, REC_REG, m', f.rest) else Parsed(false, m', f.rest, 0)
  {
    hide MergePartial, WellFormed, ReadTag, ReadField, Valid;
    RecRegWellFormed();
    FieldOfMessage(REC_REG, m, 0);
    TagLeadsToField(spare, REC_REG, m, 0, wireType, s, body);
    var f := ReadField(spare, REC_REG[0], wireType, m.has[0], m.vals[0], body);
    SetValid(REC_REG, m, 0, f.has, f.value);
  }

  /** Event 5 written singly, then the packed list of event 7. */
  const SINGLE_THEN_PACKED: seq<byte> := [0x08, 5, 0x0A, 1, 7]

  lemma ReadAsTheFormatAsks()
    ensures Valid(REC_REG, Empty(REC_REG))
    ensures var p := MergePartial(NO_SPARE, REC_REG, Empty(REC_REG), SINGLE_THEN_PACKED);
            p.ok && Mids(p.msg) == [5, 7]
  {
    hide MergePartial, WellFormed, Valid, ReadVarint32, Empty;
    EmptyValid(REC_REG);
    var m, s := Empty(REC_REG), SINGLE_THEN_PACKED;
    SmallVarint(s);
    SmallVarint(s[1..]);
    SmallVarint(s[2..]);
    SmallVarint(s[3..]);
    SmallVarint(s[4..]);
    NoMids();
    MidsRead(NO_SPARE, m, VARINT, s, s[1..]);
    assert [] + [5] == [5] && [5] + [7] == [5, 7];
    var m1 := Set(m, 0, false, Nums([5]));
    MidsRead(NO_SPARE, m1, LENGTH_DELIMITED, s[2..], s[3..]);
    assert s[3..][1..][..1] == s[4..] && s[3..][1..][1..] == [];
    assert ReadItems([5], s[4..]) == (true, [5, 7]);
    AtEnd(NO_SPARE, REC_REG, Set(m1, 0, false, Nums([5, 7])));
  }

  lemma ReadAsTheRuntimeDoes()
    ensures Valid(REC_REG, Empty(REC_REG))
    ensures var p := MergePartial(GROWTH, REC_REG, Empty(REC_REG), SINGLE_THEN_PACKED);
            !p.ok && Mids(p.msg) == [5, 1]
  {
    hide MergePartial, WellFormed, Valid, ReadVarint32, Empty;
    EmptyValid(REC_REG);
    var m, s := Empty(REC_REG), SINGLE_THEN_PACKED;
    SmallVarint(s);
    SmallVarint(s[1..]);
    SmallVarint(s[3..]);
    NoMids();
    MidsRead(GROWTH, m, VARINT, s, s[1..]);
    assert [] + [5] == [5] && [5] + [1] == [5, 1];
    assert ReadAhead(0x0A, [5, 1], s[4..], 2) == PackedRead(true, [5, 1], s[4..]);
    assert ReadAhead(0x0A, [5], s[2..], 3) == PackedRead(true, [5, 1], s[4..]);
    NoSuchTag(Set(m, 0, false, Nums([5, 1])), s[4..]);
  }

  /** An input on which reading ahead changes the record: the length 1 of the packed list is
      taken for an event and its content for a tag, which no field can have. */
  lemma LookAheadHarms()
    ensures Valid(REC_REG, Empty(REC_REG))
    ensures var asked := MergePartial(NO_SPARE, REC_REG, Empty(REC_REG), SINGLE_THEN_PACKED);
            asked.ok && Mids(asked.msg) == [5, 7]
    ensures var read := MergePartial(GROWTH, REC_REG, Empty(REC_REG), SINGLE_THEN_PACKED);
            !read.ok && Mids(read.msg) == [5, 1]
    ensures Mids(Decode(SINGLE_THEN_PACKED)) == [5, 1]
  {
    ReadAsTheFormatAsks();
    ReadAsTheRuntimeDoes();
  }

  lemma SmallVarint(s: seq<byte>)
    requires s != [] && s[0] < 0x80
    ensures ReadVarint32(s) == Got(s[0], s[1..])
  {
  }

  lemma NoMids()
    ensures |Empty(REC_REG).has| == |Empty(REC_REG).vals| == 8
    ensures !Empty(REC_REG).has[0] && Empty(REC_REG).vals[0] == Nums([])
  {
  }

  /** Seven is no tag: field number zero, wire type seven. */
  lemma NoSuchTag(m: Message, s: seq<byte>)
    requires Valid(REC_REG, m) && s == [7]
    ensures MergePartial(GROWTH, REC_REG, m, s) == Parsed(false, m, [], 0)
  {
    hide Valid, REC_REG;
    RecRegWellFormed();
    forall i | 0 <= i < |REC_REG|
      ensures REC_REG[i].number != 0
    {
      assert FieldOk(REC_REG[i], 0 + i);
    }
    SmallVarint(s);
    assert SkipField(7, []) == Failed;
  }

  /** A record of no bytes is a message without events. */
  lemma EmptyRecordHasNoEvent()
    ensures Mids(Decode([])) == []
  {
    hide MergePartial, Valid, Empty;
    EmptyValid(REC_REG);
    AtEnd(GROWTH, REC_REG, Empty(REC_REG));
    NoMids();
  }

  /** The packed list of events 7 and 8. */
  const TWO_EVENTS: seq<byte> := [0x0A, 2, 7, 8]

  lemma TwoEventsInOneRecord()
    ensures Mids(Decode(TWO_EVENTS)) == [7, 8]
  {
    hide MergePartial, WellFormed, Valid, ReadVarint32, Empty;
    EmptyValid(REC_REG);
    var m, s := Empty(REC_REG), TWO_EVENTS;
    SmallVarint(s);
    SmallVarint(s[1..]);
    SmallVarint(s[2..]);
    SmallVarint(s[3..]);
    NoMids();
    MidsRead(GROWTH, m, LENGTH_DELIMITED, s, s[1..]);
    assert s[1..][1..][..2] == s[2..] && s[1..][1..][2..] == [];
    assert s[2..][1..] == s[3..] && s[3..][1..] == [];
    assert [] + [7] == [7] && [7] + [8] == [7, 8];
    assert ReadItems([7, 8], []) == (true, [7, 8]);
    assert ReadItems([7], s[3..]) == (true, [7, 8]);
    assert ReadItems([], s[2..]) == (true, [7, 8]);
    AtEnd(GROWTH, REC_REG, Set(m, 0, false, Nums([7, 8])));
  }

  /** One message per event identifier of the record. */
  function InfosOf(m: Message, mids: seq<uint32>): (r: seq<Info>)
    ensures |r| == |mids|
  {
    seq(|mids|, i requires 0 <= i < |mids| => Info(mids[i], m))
  }

  /** The messages of one record: each of its events once, in order, with the record. */
  function InfosIn(record: seq<byte>): (r: seq<Info>)
    ensures |r| == |Mids(Decode(record))|
    ensures forall i :: 0 <= i < |r| ==> r[i].mid == Mids(Decode(record))[i] && r[i].msg == Decode(record)
  {
    InfosOf(Decode(record), Mids(Decode(record)))
  }

  function Infos(records: seq<seq<byte>>): seq<Info> {
    if records == [] then [] else InfosIn(records[0]) + Infos(records[1..])
  }

  lemma {:induction false} InfosConcat(a: seq<seq<byte>>, b: seq<seq<byte>>)
    ensures Infos(a + b) == Infos(a) + Infos(b)
    decreases |a|
  {
    hide InfosIn;
    if a == [] {
      assert a + b == b;
    } else {
      assert (a + b)[1..] == a[1..] + b;
      InfosConcat(a[1..], b);
    }
  }

  /** The messages of record k stand together after those of the records before it. */
  lemma InfosOfRecord(records: seq<seq<byte>>, k: nat)
    requires k < |records|
    ensures |Infos(records[..k + 1])| == |Infos(records[..k])| + |InfosIn(records[k])|
    ensures |Infos(records[..k + 1])| <= |Infos(records)|
    ensures Infos(records)[|Infos(records[..k])|..|Infos(records[..k + 1])|] == InfosIn(records[k])
  {
    hide InfosIn, Infos;
    InfosAppend(records[..k], records[k]);
    assert records[..k] + [records[k]] == records[..k + 1];
    InfosConcat(records[..k + 1], records[k + 1..]);
    assert records[..k + 1] + records[k + 1..] == records;
  }

  /** Event i of record k, at its place among the messages. */
  lemma MessageAt(records: seq<seq<byte>>, k: nat, i: nat)
    requires k < |records| && i < |Mids(Decode(records[k]))|
    ensures var p := |Infos(records[..k])| + i;
            && p < |Infos(records)|
            && Infos(records)[p].mid == Mids(Decode(records[k]))[i]
            && Infos(records)[p].msg == Decode(records[k])
  {
    hide InfosIn, Infos, Decode, Mids;
    InfosOfRecord(records, k);
    var a, b := |Infos(records[..k])|, |Infos(records[..k + 1])|;
    assert Infos(records)[a..b][i] == Infos(records)[a + i];
  }

  lemma InfosOfTwo(a: seq<byte>, b: seq<byte>)
    ensures Infos([a]) == InfosIn(a) && Infos([a, b]) == InfosIn(a) + InfosIn(b)
  {
    hide InfosIn;
    NoInfos();
    InfosAppend([], a);
    InfosAppend([a], b);
    assert [] + [a] == [a] && [a] + [b] == [a, b];
  }

  /** As many messages as records, if every record carries one event. */
  lemma {:induction false} OneEventEach(records: seq<seq<byte>>)
    requires forall r :: r in records ==> |Mids(Decode(r))| == 1
    ensures |Infos(records)| == |records|
    decreases |records|
  {
    hide Decode, Mids;
    if records != [] {
      assert records[0] in records;
      OneEventEach(records[1..]);
    }
  }

  /** The records of a block, or None where the source throws std::length_error. */
  datatype Chain = Chain(records: seq<seq<byte>>) | Malformed

  function SplitChain(block: seq<byte>): (r: Chain)
    decreases |block|
  {
    if block == [] then Chain([])
    else if |block| < 2 || 2 + Le16(block[0], block[1]) > |block| then Malformed
    else
      var end := 2 + Le16(block[0], block[1]);
      Prepend([block[2..end]], SplitChain(block[end..]))
  }

  function Prepend(records: seq<seq<byte>>, c: Chain): Chain {
    match c
    case Malformed => Malformed
    case Chain(more) => Chain(records + more)
  }

  lemma PrependTwice(a: seq<seq<byte>>, b: seq<seq<byte>>, c: Chain)
    ensures Prepend(a, Prepend(b, c)) == Prepend(a + b, c)
    ensures Prepend([], c) == c
  {
    if c.Chain? {
      assert a + (b + c.records) == a + b + c.records;
      assert [] + c.records == c.records;
    }
  }

  /** A record behind its two-byte length. */
  function EncodeRecord(r: Payload): seq<byte> {
    PutLe16(|r|) + r
  }

  function EncodeChain(records: seq<Payload>): seq<byte> {
    if records == [] then [] else EncodeRecord(records[0]) + EncodeChain(records[1..])
  }

  /** The bytes of a chain: each record behind the count of its bytes, low byte first. */
  lemma ChainBytes(lo: byte, hi: byte, rest: seq<byte>)
    ensures var n := lo as int + 0x100 * hi as int;
            SplitChain([lo, hi] + rest) ==
            if n > |rest| then Malformed else Prepend([rest[..n]], SplitChain(rest[n..]))
  {
    hide Prepend, SplitChain;
    var n, block := lo as int + 0x100 * hi as int, [lo, hi] + rest;
    FirstOfChain(block);
    assert block[0] == lo && block[1] == hi;
    if n <= |rest| {
      assert block[2..2 + n] == rest[..n] && block[2 + n..] == rest[n..];
    }
  }

  lemma RecordBytes(lo: byte, hi: byte, record: seq<byte>)
    requires |record| == lo as int + 0x100 * hi as int
    ensures EncodeRecord(record) == [lo, hi] + record
  {
  }

  lemma ChainLength(records: seq<Payload>)
    ensures |records| == 1 ==> |EncodeChain(records)| == 2 + |records[0]|
    ensures |records| == 2 ==> |EncodeChain(records)| == 4 + |records[0]| + |records[1]|
  {
    hide PutLe16;
    if |records| == 2 {
      ChainLength(records[1..]);
    }
  }

  lemma FirstRecord(r: Payload, s: seq<byte>)
    ensures SplitChain(EncodeRecord(r) + s) == Prepend([r], SplitChain(s))
  {
    hide Prepend;
    var block := EncodeRecord(r) + s;
    assert block[0] == PutLe16(|r|)[0] && block[1] == PutLe16(|r|)[1];
    assert block[2..2 + |r|] == r && block[2 + |r|..] == s;
  }

  /** After well-formed records, what follows decides. */
  lemma {:induction false} ChainPrefix(records: seq<Payload>, s: seq<byte>)
    ensures SplitChain(EncodeChain(records) + s) == Prepend(records, SplitChain(s))
  {
    hide EncodeRecord, SplitChain, Prepend;
    PrependTwice([], [], SplitChain(s));
    if records == [] {
      assert EncodeChain(records) + s == s;
    } else {
      var tail := EncodeChain(records[1..]) + s;
      assert EncodeChain(records) + s == EncodeRecord(records[0]) + tail;
      FirstRecord(records[0], tail);
      ChainPrefix(records[1..], s);
      PrependTwice([records[0]], records[1..], SplitChain(s));
      assert [records[0]] + records[1..] == records;
    }
  }

  /** Any list of records is recovered, in order. */
  lemma ChainRoundTrip(records: seq<Payload>)
    ensures SplitChain(EncodeChain(records)) == Chain(records)
  {
    hide EncodeChain;
    ChainPrefix(records, []);
    assert SplitChain([]) == Chain([]);
    assert EncodeChain(records) + [] == EncodeChain(records);
    assert records + [] == records;
  }

  /** The parse finishes only on a concatenation of records: with ChainRoundTrip, exactly
      on those, and the decomposition is unique. */
  lemma {:induction false} ChainTiles(block: seq<byte>)
    requires SplitChain(block).Chain?
    ensures forall r :: r in SplitChain(block).records ==> |r| < 0x1_0000
    ensures EncodeChain(SplitChain(block).records) == block
    decreases |block|
  {
    hide EncodeRecord;
    if block != [] {
      var end := 2 + Le16(block[0], block[1]);
      ChainTiles(block[end..]);
      RecordTile(block, end);
      var more := SplitChain(block[end..]).records;
      assert SplitChain(block).records == [block[2..end]] + more;
      assert ([block[2..end]] + more)[1..] == more;
      assert block[..end] + block[end..] == block;
    }
  }

  lemma RecordTile(block: seq<byte>, end: nat)
    requires 2 <= end <= |block| && end == 2 + Le16(block[0], block[1])
    ensures EncodeRecord(block[2..end]) == block[..end]
  {
    var r := block[2..end];
    assert PutLe16(|r|) == block[..2];
  }

  lemma ChainUnique(a: seq<Payload>, b: seq<Payload>)
    requires EncodeChain(a) == EncodeChain(b)
    ensures a == b
  {
    ChainRoundTrip(a);
    ChainRoundTrip(b);
  }

  /** A leftover odd byte is always rejected. */
  lemma OddByteRejected(records: seq<Payload>, b: byte)
    ensures SplitChain(EncodeChain(records) + [b]) == Malformed
  {
    ChainPrefix(records, [b]);
  }

  /** So is a record longer than what is left. */
  lemma OverlongRejected(records: seq<Payload>, n: uint16, s: seq<byte>)
    requires |s| < n
    ensures SplitChain(EncodeChain(records) + PutLe16(n) + s) == Malformed
  {
    var tail := PutLe16(n) + s;
    assert tail[0] == PutLe16(n)[0] && tail[1] == PutLe16(n)[1];
    ChainPrefix(records, tail);
    assert EncodeChain(records) + PutLe16(n) + s == EncodeChain(records) + tail;
  }

  // ----- The block inside a frame -----

  /** How a handler ends. `Undefined`: get_im_length wraps around and the parser reads on
      beyond the frame, so nothing is claimed of what the source does. */
  datatype Outcome = Done | Threw | Undefined

  /** A frame whose record block lies inside its data. */
  predicate HasBlock(f: seq<byte>) {
    IsFrame(f) && DataLen(f) >= 9
  }

  function Block(f: seq<byte>): seq<byte>
    requires HasBlock(f)
  {
    f[DATA_RESPONSE_SIZE..HEADER_SIZE + DataLen(f)]
  }

  function LastNumber(f: seq<byte>): uint32
    requires HasBlock(f)
  {
    Le32(f, 4)
  }

  /** Where the record number and the block of a data frame are. */
  lemma BlockLayout(f: seq<byte>)
    requires IsFrame(f)
    ensures HasBlock(f) <==> |f| >= 15
    ensures HasBlock(f) ==>
              && LastNumber(f) == f[4] as int + 0x100 * (f[5] as int + 0x100 * (f[6] as int + 0x100 * f[7] as int))
              && Block(f) == f[13..|f| - 2]
  {
  }

  /** Data of a data response: number of the last record, time, priority, records. */
  function ResponseData(last: uint32, time: uint32, priority: byte, chain: seq<byte>): seq<byte> {
    PutLe32(last) + PutLe32(time) + [priority] + chain
  }

  /** Any list of records of total size up to 65526 bytes survives the frame. */
  lemma ResponseRoundTrip(cmd: byte, last: uint32, time: uint32, priority: byte, records: seq<Payload>)
    requires |EncodeChain(records)| <= 65526
    ensures var f := MakeFrame(cmd, ResponseData(last, time, priority, EncodeChain(records)));
            && HasBlock(f) && CheckCrc(f)
            && LastNumber(f) == last
            && SplitChain(Block(f)) == Chain(records)
  {
    hide CheckCrc, MakeFrame, EncodeChain, SplitChain;
    var data := ResponseData(last, time, priority, EncodeChain(records));
    MakeFrameAccepted(cmd, data);
    var f := MakeFrame(cmd, data);
    ChainRoundTrip(records);
    assert f[4..4 + |data|] == data;
    assert Block(f) == data[9..] == EncodeChain(records);
    assert f[4..8] == data[..4] == PutLe32(last);
    assert f[4] == f[4..8][0] && f[5] == f[4..8][1] && f[6] == f[4..8][2] && f[7] == f[4..8][3];
  }

  /** parse_info_package: appends to `messages`, or throws. The length of a record is read
      before it is checked, so with one byte left the read takes in a CRC byte. A frame
      without room for a block makes the loop run on beyond the frame. */
  method ParseInfoPackage(f: seq<byte>, messages0: seq<Info>) returns (outcome: Outcome, messages: seq<Info>)
    requires IsFrame(f) && CheckLength(f, DATA_RESPONSE_SIZE)
    ensures outcome.Undefined? <==> !HasBlock(f)
    ensures HasBlock(f) ==> (outcome.Threw? <==> SplitChain(Block(f)).Malformed?)
    ensures outcome.Done? ==> messages == messages0 + Infos(SplitChain(Block(f)).records)
    ensures outcome.Done? ==>
              var records := SplitChain(Block(f)).records;
              forall k: nat :: k < |records| ==>
                HoldEvents(messages, |messages0| + |Infos(records[..k])|, records[k])
  {
    hide Infos, Decode, IsFrame, Block, ImLength, SplitChain, Prepend, InfosOf, HoldEvents, Mids;
    messages := messages0;
    BlockInside(f);
    var i: nat, size := 0, ImLength(f);
    if DATA_RESPONSE_SIZE + size > |f| {
      return Undefined, messages;
    }
    FrameLength(f);
    NoInfos();
    ghost var block := Block(f);
    ghost var done: seq<seq<byte>> := [];
    assert block[0..] == block && messages0 + [] == messages0;
    PrependTwice([], [], SplitChain(block));
    while i < size
      invariant i <= size == |block|
      invariant messages == messages0 + Infos(done)
      invariant SplitChain(block) == Prepend(done, SplitChain(block[i..]))
    {
      var at := DATA_RESPONSE_SIZE + i;
      var dataSize := Le16(f[at], f[at + 1]);
      BlockRecord(f, i);
      if i + (dataSize + 2) > size {
        PrependMalformed(done);
        return Threw, messages;
      }
      var data := f[at + 2..at + 2 + dataSize];
      var message := ParseRecord(data);
      messages := messages + InfosOf(message, Mids(message));
      InfosAppend(done, data);
      PrependTwice(done, [data], SplitChain(block[i + (dataSize + 2)..]));
      done := done + [data];
      i := i + (dataSize + 2);
    }
    NothingLeft(block, done);
    forall k: nat | k < |SplitChain(block).records| {
      EventsHeld(messages0, SplitChain(block).records, k);
    }
    return Done, messages;
  }

  /** The messages from place p on carry the events of the record, in order. */
  predicate HoldEvents(messages: seq<Info>, p: nat, record: seq<byte>) {
    var mids := Mids(Decode(record));
    && p + |mids| <= |messages|
    && forall i :: 0 <= i < |mids| ==> messages[p + i].mid == mids[i] && messages[p + i].msg == Decode(record)
  }

  lemma EventsHeld(before: seq<Info>, records: seq<seq<byte>>, k: nat)
    requires k < |records|
    ensures HoldEvents(before + Infos(records), |before| + |Infos(records[..k])|, records[k])
  {
    hide Infos, Decode, Mids;
    var p, mids := |Infos(records[..k])|, Mids(Decode(records[k]));
    InfosOfRecord(records, k);
    var messages := before + Infos(records);
    forall i | 0 <= i < |mids|
      ensures messages[|before| + p + i].mid == mids[i] && messages[|before| + p + i].msg == Decode(records[k])
    {
      MessageAt(records, k, i);
      assert messages[|before| + p + i] == Infos(records)[p + i];
    }
  }

  lemma PrependMalformed(records: seq<seq<byte>>)
    ensures Prepend(records, Malformed) == Malformed
  {
  }

  lemma NothingLeft(block: seq<byte>, done: seq<seq<byte>>)
    ensures Prepend(done, SplitChain(block[|block|..])) == Chain(done)
  {
    assert block[|block|..] == [] && done + [] == done;
  }

  /** ParseFromArray on a new RecReg; its verdict is only logged. */
  method ParseRecord(data: seq<byte>) returns (m: Message)
    ensures m == Decode(data)
  {
    hide MergePartial, Valid, WellFormed;
    RecRegWellFormed();
    EmptyValid(REC_REG);
    var p := MergePartialFromCodedStream(GROWTH, REC_REG, Empty(REC_REG), data);
    m := p.msg;
  }

  /** The wrapped-around length reaches beyond the frame. */
  lemma BlockInside(f: seq<byte>)
    requires IsFrame(f) && CheckLength(f, DATA_RESPONSE_SIZE)
    ensures HasHeader(f) && (DATA_RESPONSE_SIZE + ImLength(f) <= |f| <==> HasBlock(f))
  {
  }

  lemma FrameLength(f: seq<byte>)
    requires HasBlock(f)
    ensures DATA_RESPONSE_SIZE + ImLength(f) + 2 == |f|
    ensures |Block(f)| == ImLength(f)
  {
  }

  lemma NoInfos()
    ensures Infos([]) == []
  {
  }

  lemma SliceOfSlice(s: seq<byte>, a: nat, b: nat, i: nat, j: nat)
    requires a <= b <= |s| && i <= j <= b - a
    ensures s[a..b][i..j] == s[a + i..a + j]
  {
    var x, y := s[a..b][i..j], s[a + i..a + j];
    assert |x| == |y|;
    forall k | 0 <= k < |x|
      ensures x[k] == y[k]
    {
      assert x[k] == s[a..b][i + k] == s[a + (i + k)];
    }
  }

  /** What one turn of the loop reads, in terms of the block. */
  lemma BlockRecord(f: seq<byte>, i: nat)
    requires HasBlock(f) && i < |Block(f)| && DATA_RESPONSE_SIZE + i + 2 <= |f|
    ensures var at := DATA_RESPONSE_SIZE + i;
            var n := Le16(f[at], f[at + 1]);
            && (i + n + 2 > |Block(f)| ==> SplitChain(Block(f)[i..]) == Malformed)
            && (i + n + 2 <= |Block(f)| ==>
                  SplitChain(Block(f)[i..]) == Prepend([f[at + 2..at + 2 + n]], SplitChain(Block(f)[i + n + 2..])))
  {
    hide Prepend, SplitChain;
    var at := DATA_RESPONSE_SIZE + i;
    var rest := f[at..HEADER_SIZE + DataLen(f)];
    assert rest == Block(f)[i..];
    FirstOfChain(rest);
    if |rest| >= 2 {
      assert rest[0] == f[at] && rest[1] == f[at + 1];
      var n := Le16(f[at], f[at + 1]);
      if 2 + n <= |rest| {
        SliceOfSlice(f, at, HEADER_SIZE + DataLen(f), 2, 2 + n);
        assert rest[2 + n..] == Block(f)[i + n + 2..];
      }
    }
  }

  lemma FirstOfChain(block: seq<byte>)
    requires block != []
    ensures |block| == 1 ==> SplitChain(block) == Malformed
    ensures |block| >= 2 ==>
              var end := 2 + Le16(block[0], block[1]);
              && (end > |block| ==> SplitChain(block) == Malformed)
              && (end <= |block| ==> SplitChain(block) == Prepend([block[2..end]], SplitChain(block[end..])))
  {
  }

  lemma InfosAppend(records: seq<seq<byte>>, r: seq<byte>)
    ensures Infos(records + [r]) == Infos(records) + InfosIn(r)
  {
    hide InfosIn;
    InfosConcat(records, [r]);
    assert Infos([r]) == InfosIn(r) + Infos([]);
  }
}
