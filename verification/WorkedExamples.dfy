/** Given bytes and what they mean: constants, orders and signs that no theorem about inverse
    functions can fix. */
module WorkedExamples {
  import opened Bytes
  import opened Bits
  import opened Crc
  import opened Frames
  import Receiver
  import opened WireFormat
  import opened Messages
  import opened RecReg
  import opened Parse
  import opened Serializer
  import opened InfoPackage

  // ----- A confirmation -----

  /** The confirmation of a record number, least significant byte first, as ten bytes with the
      checksum high byte first: one whole frame to the receiver, and that number. */
  lemma ConfirmationReceived(a: byte, b: byte, c: byte, d: byte)
    ensures var crc := Crc16([0x88, 4, 0, a, b, c, d]);
            var f := [0xC0, 0x88, 4, 0, a, b, c, d, HighByte(crc), LowByte(crc)];
            && Receiver.Scan(f) == Receiver.Scanned([f], [], false)
            && IsFrame(f) && f[1] == DELETE_CONFIRM
            && Le32(f, 4) == a as int + 0x100 * (b as int + 0x100 * (c as int + 0x100 * d as int))
  {
    hide Crc16, ToBits, HighByte, LowByte, Receiver.Scan;
    var body := [0x88, 4, 0, a, b, c, d];
    var crc := Crc16(body);
    var f := [0xC0, 0x88, 4, 0, a, b, c, d, HighByte(crc), LowByte(crc)];
    Layout(f);
    assert f[1..8] == body && crc == crc[..8] + crc[8..];
    Receiver.ScanOneFrame([], f, []);
    assert [] + (f + []) == f;
    EmptyScan();
  }

  lemma EmptyScan()
    ensures Receiver.Scan([]) == Receiver.Scanned([], [], false)
  {
    hide Receiver.NextFrame;
    Receiver.NoMarker([]);
  }

  // ----- A record -----

  /** Latitude 1, longitude -1, speed 150; the other fields of the group are not set. */
  function Position(): Message {
    Message([true, true, true, false, false, false], [Num(1), Num(-1), Num(150), Num(0), Num(0), Num(0)])
  }

  /** A record with this position and nothing else. */
  function PositionRecord(): Message {
    EmptyValid(REC_REG);
    Set(Empty(REC_REG), 3, true, Sub(Position()))
  }

  lemma PositionValid()
    ensures Valid(NAV, Position()) && Valid(REC_REG, PositionRecord())
  {
    EmptyValid(REC_REG);
    var m := Position();
    assert forall i :: 0 <= i < |NAV| ==> ValidField(NAV[i], m.has[i], m.vals[i]);
    SetValid(REC_REG, Empty(REC_REG), 3, true, Sub(m));
  }

  /** The fields between two positions leave no bytes if none is set. */
  lemma {:induction false} NothingWritten(t: Table, m: Message, i: nat, j: nat)
    requires Valid(t, m) && i <= j <= |t|
    requires forall k :: i <= k < j ==> !m.has[k] && m.vals[k] == Default(t[k])
    ensures FieldsFrom(t, m, i) == FieldsFrom(t, m, j)
    decreases j - i
  {
    if i < j {
      NothingWritten(t, m, i + 1, j);
      assert ValidField(t[i], m.has[i], m.vals[i]);
      assert FieldBytes(t[i], m.has[i], m.vals[i]) == [];
    }
  }

  lemma FieldWritten(t: Table, m: Message, i: nat)
    requires Valid(t, m) && i < |t|
    ensures OfType(t[i], m.vals[i])
    ensures FieldsFrom(t, m, i) == FieldBytes(t[i], m.has[i], m.vals[i]) + FieldsFrom(t, m, i + 1)
  {
    assert ValidField(t[i], m.has[i], m.vals[i]);
  }

  /** The position on the wire: tag and value of each field, signed values alternating. */
  lemma PositionBytes()
    ensures Valid(NAV, Position())
    ensures Serialize(NAV, Position()) == [0x08, 0x02, 0x10, 0x01, 0x18, 0x96, 0x01]
  {
    hide Valid, FieldsFrom, PutVarint, Default;
    PositionValid();
    var m := Position();
    FieldWritten(NAV, m, 0);
    FieldWritten(NAV, m, 1);
    FieldWritten(NAV, m, 2);
    SmallNumber(NAV[0], 0x08, Num(1), 0x02);
    SmallNumber(NAV[1], 0x10, Num(-1), 0x01);
    Speed150();
    NotSet(m);
    NothingWritten(NAV, m, 3, 6);
    NothingLeft(NAV, m);
  }

  lemma NotSet(m: Message)
    requires m == Position()
    ensures forall k :: 3 <= k < 6 ==> !m.has[k] && m.vals[k] == Default(NAV[k])
  {
  }

  /** A signed number with a code of seven bits. */
  lemma SmallNumber(f: Field, tag: byte, v: Value, code: byte)
    requires f.kind == SInt32 && f.tag == tag < 0x80 && OfType(f, v) && ZigZag(v.n) == code < 0x80
    ensures FieldBytes(f, true, v) == [tag, code]
  {
    hide PutVarint;
    VarintBytes(tag, 0, []);
    VarintBytes(code, 0, []);
  }

  lemma Speed150()
    ensures FieldBytes(NAV[2], true, Num(150)) == [0x18, 0x96, 0x01]
  {
    hide PutVarint;
    VarintBytes(0x18, 0, []);
    VarintBytes(0x16, 1, []);
  }

  lemma NothingLeft(t: Table, m: Message)
    requires Valid(t, m)
    ensures FieldsFrom(t, m, |t|) == []
  {
  }

  /** The record on the wire: start tag, position, end tag; and these bytes decode to it. */
  lemma PositionRecordBytes()
    ensures Valid(REC_REG, PositionRecord())
    ensures Serialize(REC_REG, PositionRecord()) == [0x2B, 0x08, 0x02, 0x10, 0x01, 0x18, 0x96, 0x01, 0x2C]
    ensures Decode([0x2B, 0x08, 0x02, 0x10, 0x01, 0x18, 0x96, 0x01, 0x2C]) == PositionRecord()
  {
    hide Valid, FieldsFrom, FieldBytes, PutVarint, Decode, Empty, Serialize;
    PositionValid();
    EmptyValid(REC_REG);
    var m := PositionRecord();
    DefaultsOf(REC_REG);
    NothingWritten(REC_REG, m, 0, 3);
    FieldWritten(REC_REG, m, 3);
    NothingWritten(REC_REG, m, 4, 8);
    NothingLeft(REC_REG, m);
    AllFields(REC_REG, m);
    PositionBytes();
    GroupWritten(Position());
    DecodeSerialized(m);
  }

  lemma AllFields(t: Table, m: Message)
    requires Valid(t, m)
    ensures Serialize(t, m) == FieldsFrom(t, m, 0)
  {
  }

  lemma GroupWritten(m: Message)
    requires Valid(NAV, m)
    ensures FieldBytes(REC_REG[3], true, Sub(m)) == [0x2B] + Serialize(NAV, m) + [0x2C]
  {
    hide PutVarint, Serialize, Valid;
    VarintBytes(0x2B, 0, []);
    VarintBytes(0x2C, 0, []);
  }

  lemma DefaultsOf(t: Table)
    ensures forall k :: 0 <= k < |t| ==> !Empty(t).has[k] && Empty(t).vals[k] == Default(t[k])
  {
  }

  /** Of two values for one field the last one counts. */
  lemma LastValueWins(spare: Spare, s: seq<byte>)
    requires s == [0x08, 0x02, 0x08, 0x04]
    ensures Valid(NAV, Empty(NAV))
    ensures var p := MergePartial(spare, NAV, Empty(NAV), s);
            p.ok && p.rest == [] && p.msg.has[0] && p.msg.vals[0] == Num(2)
  {
    hide Valid, MergePartial, ReadTag, ReadVarint32, Empty;
    NavWellFormed();
    EmptyValid(NAV);
    var m := Empty(NAV);
    VarintBytes(0x08, 0, s[1..]);
    VarintBytes(0x02, 0, s[2..]);
    VarintBytes(0x08, 0, s[3..]);
    VarintBytes(0x04, 0, s[4..]);
    assert s == [0x08] + s[1..] && s[1..] == [0x02] + s[2..] && s[2..] == [0x08] + s[3..] && s[3..] == [0x04] + s[4..];
    LatitudeRead(spare, m, s, s[1..], 2, s[2..]);
    var m1 := Set(m, 0, true, Num(1));
    LatitudeRead(spare, m1, s[2..], s[3..], 4, s[4..]);
    AtEnd(spare, NAV, Set(m1, 0, true, Num(2)));
  }

  lemma LatitudeRead(spare: Spare, m: Message, s: seq<byte>, body: seq<byte>, code: uint32, rest: seq<byte>)
    requires Valid(NAV, m) && ReadVarint32(s) == Got(0x08, body) && ReadVarint32(body) == Got(code, rest)
    ensures Valid(NAV, Set(m, 0, true, Num(UnZigZag(code))))
    ensures MergePartial(spare, NAV, m, s) == MergePartial(spare, NAV, Set(m, 0, true, Num(UnZigZag(code))), rest)
  {
    hide Valid, MergePartial, ReadVarint32;
    NavWellFormed();
    FieldOfMessage(NAV, m, 0);
    TagLeadsToField(spare, NAV, m, 0, VARINT, s, body);
    SetValid(NAV, m, 0, true, Num(UnZigZag(code)));
  }

  /** Text and lists on the wire: text behind its length, a packed list as one counted string,
      repeated text once per item; nothing for an empty list. */
  lemma TextAndLists(a: byte, b: byte)
    requires a < 0x80 && b < 0x80
    ensures FieldBytes(GENERAL[2], true, Text([a, b])) == [0x1A, 2, a, b]
    ensures FieldBytes(REC_REG[0], false, Nums([a, b])) == [0x0A, 2, a, b]
    ensures FieldBytes(LOG[0], false, Texts([[a], [b]])) == [0x0A, 1, a, 0x0A, 1, b]
    ensures FieldBytes(REC_REG[0], false, Nums([])) == [] == FieldBytes(LOG[0], false, Texts([]))
  {
    hide PutVarint, PutItems;
    VarintBytes(0x1A, 0, []);
    VarintBytes(0x0A, 0, []);
    VarintBytes(2, 0, []);
    TwoItems(a, b);
    TwoTexts(a, b);
  }

  lemma TwoTexts(a: byte, b: byte)
    ensures StringsBytes(0x0A, [[a], [b]]) == [0x0A, 1, a, 0x0A, 1, b] && StringsBytes(0x0A, []) == []
  {
    hide PutVarint;
    VarintBytes(0x0A, 0, []);
    VarintBytes(1, 0, []);
    assert [[a], [b]][1..] == [[b]] && [[b]][1..] == [];
    assert StringsBytes(0x0A, [[b]]) == [0x0A, 1, b] + StringsBytes(0x0A, []);
  }

  lemma TwoItems(a: byte, b: byte)
    requires a < 0x80 && b < 0x80
    ensures PutItems([a, b]) == [a, b]
  {
    hide PutVarint;
    VarintBytes(a, 0, []);
    VarintBytes(b, 0, []);
    assert [a, b][1..] == [b] && [b][1..] == [];
    assert PutItems([b]) == [b] + PutItems([]);
  }

  // ----- Inputs that end early or badly -----

  /** A zero tag ends the parse, successfully, wherever it stands. */
  lemma ZeroTagEnds(spare: Spare, t: Table, m: Message, s: seq<byte>)
    requires Valid(t, m)
    ensures MergePartial(spare, t, m, [0] + s) == Parsed(true, m, s, 0)
  {
    hide Valid;
    VarintBytes(0, 0, s);
  }

  /** A group must end with its own end tag: not with another's, and not with the input. */
  lemma GroupMustEnd(spare: Spare, m: Message)
    requires Valid(NAV, m)
    ensures !ReadField(spare, REC_REG[3], START_GROUP, true, Sub(m), []).ok
    ensures !ReadField(spare, REC_REG[3], START_GROUP, true, Sub(m), [0x34]).ok
    ensures ReadField(spare, REC_REG[3], START_GROUP, true, Sub(m), [0x2C]) == FieldRead(true, true, Sub(m), [])
  {
    hide Valid, MergePartial;
    AtEnd(spare, NAV, m);
    EndTagStops(spare, m, 0x34);
    EndTagStops(spare, m, 0x2C);
  }

  lemma EndTagStops(spare: Spare, m: Message, tag: byte)
    requires Valid(NAV, m) && tag % 8 == 4 && tag < 0x80
    ensures MergePartial(spare, NAV, m, [tag]) == Parsed(true, m, [], tag)
  {
    hide Valid, AfterTag;
    VarintBytes(tag, 0, []);
    assert [tag] + [] == [tag];
    assert forall k :: 0 <= k < |NAV| ==> !Accepts(NAV[k], 4);
  }

  /** A string or a list longer than the input is an error; what was there is kept. */
  lemma CutShort(a: byte, b: byte)
    requires a < 0x80 && b < 0x80
    ensures ReadBytes([], [3, a, b]) == BytesRead(false, [a, b], [])
    ensures ReadBytes([], [1, a, b]) == BytesRead(true, [a], [b])
    ensures ReadPacked([], [3, a, b]) == PackedRead(false, [a, b], [])
    ensures ReadPacked([], [1, a, b]) == PackedRead(true, [a], [b])
  {
    hide ReadVarint32;
    VarintBytes(3, 0, [a, b]);
    VarintBytes(1, 0, [a, b]);
    VarintBytes(a, 0, [b]);
    VarintBytes(a, 0, []);
    VarintBytes(b, 0, []);
    assert [3] + [a, b] == [3, a, b] && [1] + [a, b] == [1, a, b] && [a] + [b] == [a, b];
    assert [a] + [] == [a] && [b] + [] == [b] && [] + [a] == [a];
    assert ReadItems([a, b], []) == (true, [a, b]);
    assert ReadItems([a], [b]) == (true, [a, b]);
    assert [a, b][..1] == [a] && [a, b][1..] == [b];
    assert ReadItems([a], []) == (true, [a]);
  }

  /** An unknown group is skipped up to its own end tag only. */
  lemma SkippedGroupMustEnd()
    ensures SkipField(0x53, [0x54]) == Got((), [])
    ensures SkipField(0x53, [0x5C]) == Failed && SkipField(0x53, []) == Failed
  {
    VarintBytes(0x54, 0, []);
    VarintBytes(0x5C, 0, []);
    assert [0x54] + [] == [0x54] && [0x5C] + [] == [0x5C];
  }

  /** A list that grew by one has room for four, eight, sixteen values. */
  lemma Capacities()
    ensures Capacity(1) == 4 && Capacity(4) == 4 && Capacity(5) == 8 && Capacity(8) == 8 && Capacity(9) == 16
  {
  }
}
