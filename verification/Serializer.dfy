/** Serialization, ByteSize, MergeFrom and Clear of the generated messages, and the
    theorems that tie them to parsing. */
module Serializer {
  import opened Bytes
  import opened WireFormat
  import opened Messages
  import opened Parse

  /** The bytes of one field, nothing when it is absent. */
  function FieldBytes(f: Field, has: bool, v: Value): (s: seq<byte>)
    requires OfType(f, v)
    decreases f, 1
  {
    match f.kind
    case UInt32 => if has then PutVarint(f.tag) + PutVarint(v.n) else []
    case SInt32 => if has then PutVarint(f.tag) + PutVarint(ZigZag(v.n)) else []
    case Str => if has then PutVarint(f.tag) + PutBytes(v.s) else []
    case Packed => if v.ns == [] then [] else PutVarint(f.tag) + PutBytes(PutItems(v.ns))
    case Strs => StringsBytes(f.tag, v.ss)
    case Group(table) =>
      if has then PutVarint(f.tag) + Serialize(table, v.m) + PutVarint(EndTag(f)) else []
  }

  function StringsBytes(tag: nat, ss: seq<seq<byte>>): seq<byte> {
    if ss == [] then [] else PutVarint(tag) + PutBytes(ss[0]) + StringsBytes(tag, ss[1..])
  }

  /** The fields from position i on, in declaration order. */
  function FieldsFrom(t: Table, m: Message, i: nat): (s: seq<byte>)
    requires Valid(t, m) && i <= |t|
    decreases t, |t| - i
  {
    if i == |t| then []
    else
      assert ValidField(t[i], m.has[i], m.vals[i]);
      FieldBytes(t[i], m.has[i], m.vals[i]) + FieldsFrom(t, m, i + 1)
  }

  function Serialize(t: Table, m: Message): (s: seq<byte>)
    requires Valid(t, m)
    decreases t, |t| + 1
  {
    FieldsFrom(t, m, 0)
  }

  // ----- Parsing what was serialized merges it -----

  /** The message with the fields before i already merged from b. */
  function MergedTo(t: Table, a: Message, b: Message, i: nat): (m: Message)
    requires Valid(t, a) && Valid(t, b) && i <= |t|
    ensures |m.has| == |m.vals| == |t|
  {
    var whole := Merge(t, a, b);
    Message(whole.has[..i] + a.has[i..], whole.vals[..i] + a.vals[i..])
  }

  lemma MergedToValid(t: Table, a: Message, b: Message, i: nat)
    requires Valid(t, a) && Valid(t, b) && i <= |t|
    ensures Valid(t, MergedTo(t, a, b, i))
  {
    hide ValidField, Merge;
    MergeValid(t, a, b);
    var m := MergedTo(t, a, b, i);
    forall k | 0 <= k < |t|
      ensures ValidField(t[k], m.has[k], m.vals[k])
    {
    }
  }

  lemma MergedToNext(t: Table, a: Message, b: Message, i: nat)
    requires Valid(t, a) && Valid(t, b) && i < |t|
    ensures ValidField(t[i], a.has[i], a.vals[i]) && ValidField(t[i], b.has[i], b.vals[i])
    ensures OfType(t[i], a.vals[i]) && OfType(t[i], b.vals[i])
    ensures var m := MergedTo(t, a, b, i);
            && m.has[i] == a.has[i] && m.vals[i] == a.vals[i]
            && MergedTo(t, a, b, i + 1) ==
               Set(m, i, a.has[i] || b.has[i], MergeValue(t[i], a.vals[i], b.has[i], b.vals[i]))
  {
    hide MergeValue, OfType;
    var whole := Merge(t, a, b);
    assert ValidField(t[i], a.has[i], a.vals[i]) && ValidField(t[i], b.has[i], b.vals[i]);
    Advance(whole.has, a.has, i);
    Advance(whole.vals, a.vals, i);
  }

  lemma Advance<T>(done: seq<T>, todo: seq<T>, i: nat)
    requires |done| == |todo| && i < |todo|
    ensures (done[..i] + todo[i..])[i] == todo[i]
    ensures done[..i + 1] + todo[i + 1..] == (done[..i] + todo[i..])[i := done[i]]
  {
  }

  lemma ReadPutTag(f: Field, i: nat, wireType: nat, s: seq<byte>)
    requires FieldOk(f, i) && wireType < 8
    ensures MakeTag(f.number, wireType) != 0
    ensures ReadTag(PutVarint(MakeTag(f.number, wireType)) + s) == (MakeTag(f.number, wireType), s)
  {
    hide PutVarint, ReadVarint32, VarintSize;
    ReadPutVarint(MakeTag(f.number, wireType), s);
  }

  /** After the field's tag, one written value is read back. */
  lemma {:induction false} FieldMerges(spare: Spare, t: Table, m: Message, i: nat, b: Value, s: seq<byte>)
    requires WellFormed(t) && Valid(t, m) && i < |t| && ValidField(t[i], true, b)
    requires !Repeated(t[i].kind)
    requires |FieldBytes(t[i], true, b)| < 0x8000_0000
    ensures OfType(t[i], m.vals[i])
    ensures var v := MergeValue(t[i], m.vals[i], true, b);
            && Valid(t, Set(m, i, true, v))
            && MergePartial(spare, t, m, FieldBytes(t[i], true, b) + s) == MergePartial(spare, t, Set(m, i, true, v), s)
    decreases t, 0, 0
  {
    FieldOfMessage(t, m, i);
    var f := t[i];
    MergeFieldValid(f, m.has[i], m.vals[i], true, b);
    SetValid(t, m, i, true, MergeValue(f, m.vals[i], true, b));
    var body := ValueBytes(f, b);
    assert FieldBytes(f, true, b) + s == PutVarint(f.tag) + (body + s);
    ReadPutTag(f, i, WireType(f.kind), body + s);
    TagLeadsToField(spare, t, m, i, WireType(f.kind), FieldBytes(f, true, b) + s, body + s);
    ValueRead(spare, f, i, m.has[i], m.vals[i], b, s);
  }

  /** What follows the tag of a singular field. */
  function ValueBytes(f: Field, v: Value): (s: seq<byte>)
    requires OfType(f, v) && !Repeated(f.kind)
    decreases f, 1
  {
    match f.kind
    case UInt32 => PutVarint(v.n)
    case SInt32 => PutVarint(ZigZag(v.n))
    case Str => PutBytes(v.s)
    case Group(table) => Serialize(table, v.m) + PutVarint(EndTag(f))
    case _ => assert false; []
  }

  lemma {:induction false} ValueRead(spare: Spare, f: Field, i: nat, has: bool, a: Value, b: Value, s: seq<byte>)
    requires FieldOk(f, i) && ValidField(f, has, a) && ValidField(f, true, b) && !Repeated(f.kind)
    requires |ValueBytes(f, b)| < 0x8000_0000
    ensures ReadField(spare, f, WireType(f.kind), has, a, ValueBytes(f, b) + s) ==
            FieldRead(true, true, MergeValue(f, a, true, b), s)
    decreases f, 0
  {
    match f.kind
    case UInt32 => ReadPutVarint(b.n, s);
    case SInt32 =>
      ReadPutVarint(ZigZag(b.n), s);
      ZigZagInverse(b.n);
    case Str => ReadPutBytes(a.s, b.s, s);
    case Group(table) =>
      var end := PutVarint(EndTag(f));
      assert ValueBytes(f, b) + s == Serialize(table, b.m) + (end + s);
      ParseSerialized(spare, table, a.m, b.m, end + s);
      MergeValid(table, a.m, b.m);
      GroupEnds(spare, f, i, table, Merge(table, a.m, b.m), s);
  }

  /** The end tag of a group stops the parse of its content. */
  lemma GroupEnds(spare: Spare, f: Field, i: nat, table: Table, m: Message, s: seq<byte>)
    requires FieldOk(f, i) && Valid(table, m)
    ensures MergePartial(spare, table, m, PutVarint(EndTag(f)) + s) == Parsed(true, m, s, EndTag(f))
  {
    hide PutVarint, Valid, ReadTag;
    ReadPutTag(f, i, END_GROUP, s);
    assert EndTag(f) % 8 == END_GROUP;
    assert forall k :: 0 <= k < |table| ==> !Accepts(table[k], END_GROUP);
  }

  /** Serializing b in front of any further input merges b into the message being parsed. */
  lemma {:induction false} ParseSerialized(spare: Spare, t: Table, a: Message, b: Message, s: seq<byte>)
    requires WellFormed(t) && Valid(t, a) && Valid(t, b)
    requires |Serialize(t, b)| < 0x8000_0000
    ensures Valid(t, Merge(t, a, b))
    ensures MergePartial(spare, t, a, Serialize(t, b) + s) == MergePartial(spare, t, Merge(t, a, b), s)
    decreases t, |t| + 1
  {
    MergeValid(t, a, b);
    MergedToValid(t, a, b, 0);
    assert MergedTo(t, a, b, 0) == a;
    assert MergedTo(t, a, b, |t|) == Merge(t, a, b);
    FieldsMerge(spare, t, a, b, 0, s);
  }

  lemma {:induction false} FieldsMerge(spare: Spare, t: Table, a: Message, b: Message, i: nat, s: seq<byte>)
    requires WellFormed(t) && Valid(t, a) && Valid(t, b) && i <= |t|
    requires |FieldsFrom(t, b, i)| < 0x8000_0000
    ensures Valid(t, MergedTo(t, a, b, i)) && Valid(t, MergedTo(t, a, b, |t|))
    ensures MergePartial(spare, t, MergedTo(t, a, b, i), FieldsFrom(t, b, i) + s) ==
            MergePartial(spare, t, MergedTo(t, a, b, |t|), s)
    decreases t, |t| - i, 1
  {
    hide MergePartial, Merge, MergedTo, ValidField, WellFormed, FieldBytes;
    MergedToValid(t, a, b, i);
    MergedToValid(t, a, b, |t|);
    if i == |t| {
      assert FieldsFrom(t, b, i) + s == s;
    } else {
      MergedToNext(t, a, b, i);
      FieldsMerge(spare, t, a, b, i + 1, s);
      var tail := FieldsFrom(t, b, i + 1) + s;
      assert FieldsFrom(t, b, i) + s == FieldBytes(t[i], b.has[i], b.vals[i]) + tail;
      OneFieldMerges(spare, t, MergedTo(t, a, b, i), i, b.has[i], b.vals[i], tail);
    }
  }

  /** One field, present or not, singular or repeated. */
  lemma {:induction false} OneFieldMerges(spare: Spare, t: Table, m: Message, i: nat, has: bool, b: Value, s: seq<byte>)
    requires WellFormed(t) && Valid(t, m) && i < |t| && ValidField(t[i], has, b)
    requires |FieldBytes(t[i], has, b)| < 0x8000_0000
    ensures ValidField(t[i], m.has[i], m.vals[i])
    ensures var m' := Set(m, i, m.has[i] || has, MergeValue(t[i], m.vals[i], has, b));
            && Valid(t, m')
            && MergePartial(spare, t, m, FieldBytes(t[i], has, b) + s) == MergePartial(spare, t, m', s)
    decreases t, 0, 1
  {
    hide MergePartial, Valid, FieldOk;
    FieldOfMessage(t, m, i);
    var f := t[i];
    MergeFieldValid(f, m.has[i], m.vals[i], has, b);
    SetValid(t, m, i, m.has[i] || has, MergeValue(f, m.vals[i], has, b));
    if f.kind.Strs? {
      StringsMerge(spare, t, m, i, b.ss, s);
    } else if f.kind.Packed? && b.ns != [] {
      PackedMerges(spare, t, m, i, b.ns, s);
    } else if has {
      FieldMerges(spare, t, m, i, b, s);
    } else {
      assert FieldBytes(f, has, b) + s == s;
      NothingMerged(m, i, f, b);
    }
  }

  lemma NothingMerged(m: Message, i: nat, f: Field, b: Value)
    requires i < |m.has| == |m.vals| && OfType(f, m.vals[i]) && OfType(f, b)
    requires f.kind.Packed? ==> b.ns == []
    requires !f.kind.Strs?
    ensures Set(m, i, m.has[i], MergeValue(f, m.vals[i], false, b)) == m
  {
    if f.kind.Packed? {
      assert m.vals[i].ns + [] == m.vals[i].ns;
    }
    assert m.has[i := m.has[i]] == m.has && m.vals[i := m.vals[i]] == m.vals;
  }

  lemma PackedMerges(spare: Spare, t: Table, m: Message, i: nat, ns: seq<uint32>, s: seq<byte>)
    requires WellFormed(t) && Valid(t, m) && i < |t| && t[i].kind.Packed? && ns != []
    requires |PutBytes(PutItems(ns))| < 0x8000_0000
    ensures OfType(t[i], m.vals[i])
    ensures var m' := Set(m, i, m.has[i], Nums(m.vals[i].ns + ns));
            && Valid(t, m')
            && MergePartial(spare, t, m, FieldBytes(t[i], false, Nums(ns)) + s) == MergePartial(spare, t, m', s)
  {
    hide MergePartial, Valid, PutBytes, PutItems, ReadPacked;
    FieldOfMessage(t, m, i);
    var f, body := t[i], PutBytes(PutItems(ns));
    SetValid(t, m, i, m.has[i], Nums(m.vals[i].ns + ns));
    assert FieldBytes(f, false, Nums(ns)) + s == PutVarint(f.tag) + (body + s);
    ReadPutTag(f, i, LENGTH_DELIMITED, body + s);
    TagLeadsToField(spare, t, m, i, LENGTH_DELIMITED, FieldBytes(f, false, Nums(ns)) + s, body + s);
    PutBytesLonger(PutItems(ns));
    ReadPutPacked(m.vals[i].ns, ns, s);
  }

  lemma PutBytesLonger(b: seq<byte>)
    ensures |b| < |PutBytes(b)|
  {
  }

  lemma {:induction false} StringsMerge(spare: Spare, t: Table, m: Message, i: nat, ss: seq<seq<byte>>, s: seq<byte>)
    requires WellFormed(t) && Valid(t, m) && i < |t| && t[i].kind.Strs?
    requires |StringsBytes(t[i].tag, ss)| < 0x8000_0000
    ensures OfType(t[i], m.vals[i])
    ensures var m' := Set(m, i, m.has[i], Texts(m.vals[i].ss + ss));
            && Valid(t, m')
            && MergePartial(spare, t, m, StringsBytes(t[i].tag, ss) + s) == MergePartial(spare, t, m', s)
    decreases |ss|
  {
    hide MergePartial, Valid, PutBytes, ReadBytes;
    FieldOfMessage(t, m, i);
    var f, prior := t[i], m.vals[i].ss;
    if ss == [] {
      SetValid(t, m, i, m.has[i], m.vals[i]);
      assert prior + ss == prior;
      assert m.has[i := m.has[i]] == m.has && m.vals[i := m.vals[i]] == m.vals;
      assert StringsBytes(f.tag, ss) + s == s;
    } else {
      var body, more := PutBytes(ss[0]), StringsBytes(f.tag, ss[1..]);
      var m1 := Set(m, i, m.has[i], Texts(prior + [ss[0]]));
      SetValid(t, m, i, m.has[i], Texts(prior + [ss[0]]));
      var wire := StringsBytes(f.tag, ss) + s;
      assert wire == PutVarint(f.tag) + (body + (more + s));
      ReadPutTag(f, i, LENGTH_DELIMITED, body + (more + s));
      TagLeadsToField(spare, t, m, i, LENGTH_DELIMITED, wire, body + (more + s));
      PutBytesLonger(ss[0]);
      ReadPutBytes([], ss[0], more + s);
      StringsMerge(spare, t, m1, i, ss[1..], s);
      assert prior + [ss[0]] + ss[1..] == prior + ss;
      assert Set(m1, i, m.has[i], Texts(prior + ss)) == Set(m, i, m.has[i], Texts(prior + ss));
    }
  }

  // ----- The main results -----

  /** Parsing serialize(a) followed by serialize(b) gives the same message as MergeFrom
      applied to a and then to b. */
  lemma ConcatenationIsMerge(spare: Spare, t: Table, m: Message, a: Message, b: Message)
    requires WellFormed(t) && Valid(t, m) && Valid(t, a) && Valid(t, b)
    requires |Serialize(t, a)| < 0x8000_0000 && |Serialize(t, b)| < 0x8000_0000
    ensures Valid(t, Merge(t, m, a))
    ensures MergePartial(spare, t, m, Serialize(t, a) + Serialize(t, b)) ==
            Parsed(true, Merge(t, Merge(t, m, a), b), [], 0)
  {
    hide MergePartial, Valid, Merge, Serialize;
    MergeValid(t, m, a);
    MergeValid(t, Merge(t, m, a), b);
    var wire := Serialize(t, b);
    ParseSerialized(spare, t, m, a, wire);
    ParseSerialized(spare, t, Merge(t, m, a), b, []);
    assert wire + [] == wire;
    AtEnd(spare, t, Merge(t, Merge(t, m, a), b));
  }

  /** Round trip: a fresh message parsed from serialize(a) is a. */
  lemma MessageRoundTrip(spare: Spare, t: Table, a: Message)
    requires WellFormed(t) && Valid(t, a) && |Serialize(t, a)| < 0x8000_0000
    ensures Valid(t, Empty(t))
    ensures MergePartial(spare, t, Empty(t), Serialize(t, a)) == Parsed(true, a, [], 0)
  {
    hide MergePartial, Valid, Merge, Serialize;
    MergeEmpty(t, a);
    ParseSerialized(spare, t, Empty(t), a, []);
    assert Serialize(t, a) + [] == Serialize(t, a);
    AtEnd(spare, t, a);
  }
}
