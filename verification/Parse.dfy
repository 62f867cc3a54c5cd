/** MergePartialFromCodedStream: the plain read-and-dispatch loop as a function, and the
    generated method with its chain of predicted tags, proved to compute the same. */
module Parse {
  import opened Bytes
  import opened WireFormat
  import opened Messages

  /** Success, the message afterwards (partly merged on failure), the unread input, and
      the last tag read, which tells a group how it ended. */
  datatype Parsed = Parsed(ok: bool, msg: Message, rest: seq<byte>, lastTag: nat)

  datatype FieldRead = FieldRead(ok: bool, has: bool, value: Value, rest: seq<byte>)

  /** Position of the field with this number, or the table's length. */
  function Find(t: Table, number: nat): (i: nat)
    ensures i <= |t|
    ensures i < |t| ==> t[i].number == number
  {
    if t == [] || t[0].number == number then 0 else 1 + Find(t[1..], number)
  }

  /** Wire types a field accepts; a packed field also takes single unpacked values. */
  predicate Accepts(f: Field, wireType: nat) {
    wireType == WireType(f.kind) || (f.kind.Packed? && wireType == VARINT)
  }

  /** How many more values a list has storage for, by the bytes still unread and the values
      it holds. Within one parse no two reads leave the same bytes unread, so whatever the
      storage has been through is one such function. */
  type Spare = (nat, nat) -> nat

  const NO_SPARE: Spare := (_, _) => 0

  /** After a single value of a packed field the runtime goes on while the tag it is given,
      the packed one, follows and storage is left, and reads a value, not a packed list. */
  function ReadAhead(tag: nat, values: seq<uint32>, s: seq<byte>, slots: nat): (r: PackedRead)
    ensures |r.rest| <= |s| && |r.values| >= |values|
    ensures slots > 0 && ExpectTag(s, tag).Got? && r.ok ==> |r.values| > |values|
    decreases slots
  {
    if slots == 0 then PackedRead(true, values, s)
    else
      match ExpectTag(s, tag)
      case Failed => PackedRead(true, values, s)
      case Got(_, body) =>
        match ReadVarint32(body)
        case Failed => PackedRead(false, values, body)
        case Got(n, rest) => ReadAhead(tag, values + [n], rest, slots - 1)
  }

  /** Reads one value of a field whose tag has just been read. */
  function ReadField(spare: Spare, f: Field, wireType: nat, has: bool, v: Value, s: seq<byte>): (r: FieldRead)
    requires ValidField(f, has, v)
    ensures |r.rest| <= |s|
    ensures ValidField(f, r.has, r.value)
    decreases |s|, 1
  {
    assert OfType(f, v);
    match f.kind
    case UInt32 =>
      (match ReadVarint32(s)
       case Failed => FieldRead(false, has, v, s)
       case Got(n, rest) => FieldRead(true, true, Num(n), rest))
    case SInt32 =>
      (match ReadVarint32(s)
       case Failed => FieldRead(false, has, v, s)
       case Got(n, rest) => FieldRead(true, true, Num(UnZigZag(n)), rest))
    case Str =>
      var b := ReadBytes(v.s, s);
      FieldRead(b.ok, true, Text(b.value), b.rest)
    case Packed =>
      if wireType == LENGTH_DELIMITED then
        var p := ReadPacked(v.ns, s);
        FieldRead(p.ok, has, Nums(p.values), p.rest)
      else
        (match ReadVarint32(s)
         case Failed => FieldRead(false, has, v, s)
         case Got(n, rest) =>
           var a := ReadAhead(f.tag, v.ns + [n], rest, spare(|rest|, |v.ns| + 1));
           FieldRead(a.ok, has, Nums(a.values), a.rest))
    case Strs =>
      var b := ReadBytes([], s);
      FieldRead(b.ok, has, Texts(v.ss + [b.value]), b.rest)
    case Group(table) =>
      var p := MergePartial(spare, table, v.m, s);
      FieldRead(p.ok && p.lastTag == EndTag(f), true, Sub(p.msg), p.rest)
  }

  /** Goes on with field i once its tag has been read. */
  function AfterTag(spare: Spare, t: Table, m: Message, i: nat, wireType: nat, s: seq<byte>): (p: Parsed)
    requires Valid(t, m) && i < |t|
    ensures |p.rest| <= |s|
    ensures Valid(t, p.msg)
    decreases |s|, 2
  {
    assert ValidField(t[i], m.has[i], m.vals[i]);
    var f := ReadField(spare, t[i], wireType, m.has[i], m.vals[i], s);
    var m' := Set(m, i, f.has, f.value);
    SetValid(t, m, i, f.has, f.value);
    if f.ok then MergePartial(spare, t, m', f.rest) else Parsed(false, m', f.rest, 0)
  }

  function MergePartial(spare: Spare, t: Table, m: Message, s: seq<byte>): (p: Parsed)
    requires Valid(t, m)
    ensures |p.rest| <= |s|
    ensures Valid(t, p.msg)
    decreases |s|, 0
  {
    var (tag, body) := ReadTag(s);
    if tag == 0 then Parsed(true, m, body, 0)
    else
      var i := Find(t, tag / 8);
      if i < |t| && Accepts(t[i], tag % 8) then AfterTag(spare, t, m, i, tag % 8, body)
      else if tag % 8 == END_GROUP then Parsed(true, m, body, tag)
      else
        match SkipField(tag, body)
        case Failed => Parsed(false, m, body, 0)
        case Got(_, rest) => MergePartial(spare, t, m, rest)
  }

  // ----- Tag prediction -----

  lemma {:induction false} Ascending(t: Table, start: nat, i: nat, j: nat)
    requires Run(t, start) && i < j < |t|
    ensures t[i].number < t[j].number
    decreases j
  {
    hide FieldOk;
    if i < j - 1 {
      Ascending(t, start, i, j - 1);
    }
  }

  lemma {:induction false} FindField(t: Table, start: nat, j: nat)
    requires Run(t, start) && j < |t|
    ensures Find(t, t[j].number) == j
    decreases |t|
  {
    hide FieldOk;
    if j != 0 {
      Ascending(t, start, 0, j);
      forall i | 0 <= i < |t[1..]|
        ensures FieldOk(t[1..][i], start + 1 + i)
      {
        assert FieldOk(t[i + 1], start + (i + 1));
      }
      FindField(t[1..], start + 1, j - 1);
    }
  }

  /** Reading field j's own tag leads the plain loop to field j. */
  lemma TagLeadsToField(spare: Spare, t: Table, m: Message, j: nat, wireType: nat, s: seq<byte>, body: seq<byte>)
    requires WellFormed(t) && Valid(t, m) && j < |t|
    requires wireType < 8 && Accepts(t[j], wireType)
    requires ReadTag(s) == (MakeTag(t[j].number, wireType), body)
    ensures MergePartial(spare, t, m, s) == AfterTag(spare, t, m, j, wireType, body)
  {
    hide AfterTag, Valid, ReadTag;
    assert FieldOk(t[j], 0 + j);
    FindField(t, 0, j);
    assert MakeTag(t[j].number, wireType) / 8 == t[j].number;
  }

  lemma PredictionIsDispatch(spare: Spare, t: Table, m: Message, j: nat, s: seq<byte>)
    requires WellFormed(t) && Valid(t, m) && j < |t|
    requires ExpectTag(s, t[j].tag).Got?
    ensures MergePartial(spare, t, m, s) == AfterTag(spare, t, m, j, WireType(t[j].kind), ExpectTag(s, t[j].tag).rest)
  {
    hide AfterTag, MergePartial, Valid, ReadTag;
    assert FieldOk(t[j], 0 + j);
    ExpectedTagIsRead(s, t[j].tag);
    TagLeadsToField(spare, t, m, j, WireType(t[j].kind), s, ExpectTag(s, t[j].tag).rest);
  }

  method ReadFieldInto(spare: Spare, f: Field, ghost at: nat, wireType: nat, has: bool, v: Value, s: seq<byte>)
    returns (r: FieldRead)
    requires FieldOk(f, at) && ValidField(f, has, v)
    ensures r == ReadField(spare, f, wireType, has, v, s)
    decreases |s|, 1
  {
    match f.kind
    case Group(table) =>
      assert OfType(f, v);
      var p := MergePartialFromCodedStream(spare, table, v.m, s);
      r := FieldRead(p.ok && p.lastTag == EndTag(f), true, Sub(p.msg), p.rest);
    case _ =>
      r := ReadField(spare, f, wireType, has, v, s);
  }

  /** From one dispatched field along the predicted tags: after each field the generated
      code guesses the tag of the next one (of the same one for repeated strings, the end
      of input after the last) and, if the guess is right, jumps there directly. */
  method FollowPredictions(spare: Spare, t: Table, m0: Message, i0: nat, wireType0: nat, s0: seq<byte>)
    returns (returned: bool, p: Parsed)
    requires WellFormed(t) && Valid(t, m0) && i0 < |t|
    ensures returned ==> p == AfterTag(spare, t, m0, i0, wireType0, s0)
    ensures !returned ==> Valid(t, p.msg) && |p.rest| <= |s0|
    ensures !returned ==> MergePartial(spare, t, p.msg, p.rest) == AfterTag(spare, t, m0, i0, wireType0, s0)
    decreases |s0|, 2
  {
    hide MergePartial, Valid, ReadField, FieldOk;
    var m, body := m0, s0;
    var i: nat, wireType: nat := i0, wireType0;
    while true
      invariant Valid(t, m) && i < |t| && |body| <= |s0|
      invariant AfterTag(spare, t, m, i, wireType, body) == AfterTag(spare, t, m0, i0, wireType0, s0)
      decreases |body|
    {
      FieldOfMessage(t, m, i);
      var f := ReadFieldInto(spare, t[i], i, wireType, m.has[i], m.vals[i], body);
      SetValid(t, m, i, f.has, f.value);
      m := Set(m, i, f.has, f.value);
      if !f.ok {
        return true, Parsed(false, m, f.rest, 0);
      }
      if t[i].kind.Strs? && ExpectTag(f.rest, t[i].tag).Got? {
        PredictionIsDispatch(spare, t, m, i, f.rest);
      } else if i + 1 == |t| {
        if f.rest == [] {
          AtEnd(spare, t, m);
          return true, Parsed(true, m, [], 0);
        }
        return false, Parsed(true, m, f.rest, 0);
      } else if ExpectTag(f.rest, t[i + 1].tag).Got? {
        i := i + 1;
        PredictionIsDispatch(spare, t, m, i, f.rest);
      } else {
        return false, Parsed(true, m, f.rest, 0);
      }
      wireType, body := WireType(t[i].kind), ExpectTag(f.rest, t[i].tag).rest;
    }
  }

  lemma FieldOfMessage(t: Table, m: Message, i: nat)
    requires WellFormed(t) && Valid(t, m) && i < |t|
    ensures |m.has| == |m.vals| == |t|
    ensures FieldOk(t[i], i) && ValidField(t[i], m.has[i], m.vals[i])
  {
    assert FieldOk(t[i], 0 + i);
  }

  lemma AtEnd(spare: Spare, t: Table, m: Message)
    requires Valid(t, m)
    ensures MergePartial(spare, t, m, []) == Parsed(true, m, [], 0)
  {
  }

  /** The generated method builds the same message, has-bits included, accepts the same
      inputs and stops at the same place as the plain loop. */
  method MergePartialFromCodedStream(spare: Spare, t: Table, m0: Message, s0: seq<byte>) returns (p: Parsed)
    requires WellFormed(t) && Valid(t, m0)
    ensures p == MergePartial(spare, t, m0, s0)
    decreases |s0|, 0
  {
    hide AfterTag, Valid, ReadTag, Find, SkipField, WellFormed;
    var m, s := m0, s0;
    while true
      invariant Valid(t, m) && |s| <= |s0|
      invariant MergePartial(spare, t, m, s) == MergePartial(spare, t, m0, s0)
      decreases |s|
    {
      var (tag, body) := ReadTag(s);
      if tag == 0 {
        return Parsed(true, m, body, 0);
      }
      var i, wireType := Find(t, tag / 8), tag % 8;
      if i < |t| && Accepts(t[i], wireType) {
        var returned;
        returned, p := FollowPredictions(spare, t, m, i, wireType, body);
        if returned {
          return;
        }
        m, s := p.msg, p.rest;
      } else if wireType == END_GROUP {
        return Parsed(true, m, body, tag);
      } else {
        match SkipField(tag, body) {
          case Failed => return Parsed(false, m, body, 0);
          case Got(_, rest) => s := rest;
        }
      }
    }
  }

  // ----- The look-ahead of the runtime -----

  /** A single value of a packed field, storage left, and the packed tag next. */
  predicate LooksAhead(spare: Spare, f: Field, v: Value, s: seq<byte>)
    requires v.Nums?
  {
    var first := ReadVarint32(s);
    first.Got? && spare(|first.rest|, |v.ns| + 1) > 0 && ExpectTag(first.rest, f.tag).Got?
  }

  /** Reading ahead is not a mere speed-up: it gives what the wire format asks for if and
      only if it does not happen, because it takes the length of a packed list for a value. */
  lemma LookAheadExactly(spare: Spare, f: Field, has: bool, v: Value, s: seq<byte>)
    requires f.kind.Packed? && v.Nums? && ValidField(f, has, v)
    ensures ReadField(spare, f, VARINT, has, v, s) == ReadField(NO_SPARE, f, VARINT, has, v, s)
            <==> !LooksAhead(spare, f, v, s)
  {
    hide ExpectTag, ReadVarint32;
    var first := ReadVarint32(s);
    if first.Got? {
      var values := v.ns + [first.value];
      var slots := spare(|first.rest|, |values|);
      assert ReadAhead(f.tag, values, first.rest, 0) == PackedRead(true, values, first.rest);
      if LooksAhead(spare, f, v, s) {
        var a := ReadAhead(f.tag, values, first.rest, slots);
        assert !a.ok || |a.values| > |values|;
      }
    }
  }

  /** No single value of a packed field is followed by its packed tag, at any depth of what
      the plain loop reads. */
  predicate Calm(t: Table, m: Message, s: seq<byte>)
    requires Valid(t, m)
    decreases |s|, 0
  {
    var (tag, body) := ReadTag(s);
    tag == 0 ||
    var i := Find(t, tag / 8);
    if i < |t| && Accepts(t[i], tag % 8) then CalmAfterTag(t, m, i, tag % 8, body)
    else if tag % 8 == END_GROUP then true
    else
      match SkipField(tag, body)
      case Failed => true
      case Got(_, rest) => Calm(t, m, rest)
  }

  predicate CalmAfterTag(t: Table, m: Message, i: nat, wireType: nat, s: seq<byte>)
    requires Valid(t, m) && i < |t|
    decreases |s|, 2
  {
    assert ValidField(t[i], m.has[i], m.vals[i]);
    && CalmField(t[i], wireType, m.has[i], m.vals[i], s)
    && var f := ReadField(NO_SPARE, t[i], wireType, m.has[i], m.vals[i], s);
       SetValid(t, m, i, f.has, f.value);
       f.ok ==> Calm(t, Set(m, i, f.has, f.value), f.rest)
  }

  predicate CalmField(f: Field, wireType: nat, has: bool, v: Value, s: seq<byte>)
    requires ValidField(f, has, v)
    decreases |s|, 1
  {
    assert OfType(f, v);
    match f.kind
    case Packed =>
      wireType == LENGTH_DELIMITED || ReadVarint32(s).Failed? || ExpectTag(ReadVarint32(s).rest, f.tag).Failed?
    case Group(table) => Calm(table, v.m, s)
    case _ => true
  }

  /** Then reading ahead never happens, and any storage gives the message the format asks for. */
  lemma {:induction false} CalmParse(spare: Spare, t: Table, m: Message, s: seq<byte>)
    requires Valid(t, m) && Calm(t, m, s)
    ensures MergePartial(spare, t, m, s) == MergePartial(NO_SPARE, t, m, s)
    decreases |s|, 0
  {
    hide Valid, AfterTag, CalmAfterTag, ReadTag, SkipField, Find, Accepts;
    var (tag, body) := ReadTag(s);
    if tag != 0 {
      var i := Find(t, tag / 8);
      if i < |t| && Accepts(t[i], tag % 8) {
        CalmAfter(spare, t, m, i, tag % 8, body);
      } else if tag % 8 != END_GROUP {
        match SkipField(tag, body)
        case Failed =>
        case Got(_, rest) => CalmParse(spare, t, m, rest);
      }
    }
  }

  lemma {:induction false} CalmAfter(spare: Spare, t: Table, m: Message, i: nat, wireType: nat, s: seq<byte>)
    requires Valid(t, m) && i < |t| && CalmAfterTag(t, m, i, wireType, s)
    ensures AfterTag(spare, t, m, i, wireType, s) == AfterTag(NO_SPARE, t, m, i, wireType, s)
    decreases |s|, 2
  {
    hide Valid, MergePartial, Calm, ReadField, CalmField, ValidField;
    assert ValidField(t[i], m.has[i], m.vals[i]) by { FieldValid(t, m, i); }
    CalmRead(spare, t[i], wireType, m.has[i], m.vals[i], s);
    var f := ReadField(NO_SPARE, t[i], wireType, m.has[i], m.vals[i], s);
    SetValid(t, m, i, f.has, f.value);
    if f.ok {
      CalmParse(spare, t, Set(m, i, f.has, f.value), f.rest);
    }
  }

  lemma FieldValid(t: Table, m: Message, i: nat)
    requires Valid(t, m) && i < |t|
    ensures |m.has| == |m.vals| == |t| && ValidField(t[i], m.has[i], m.vals[i])
  {
  }

  lemma {:induction false} CalmRead(spare: Spare, f: Field, wireType: nat, has: bool, v: Value, s: seq<byte>)
    requires ValidField(f, has, v) && CalmField(f, wireType, has, v, s)
    ensures ReadField(spare, f, wireType, has, v, s) == ReadField(NO_SPARE, f, wireType, has, v, s)
    decreases |s|, 1
  {
    hide MergePartial, Calm, ReadVarint32, ExpectTag, ReadBytes, ReadPacked;
    match f.kind
    case Group(table) =>
      assert OfType(f, v);
      CalmParse(spare, table, v.m, s);
    case _ =>
  }

  // ----- Unknown fields -----

  /** A well-formed field whose number the type does not know, or knows with another wire
      type, changes nothing, whatever it contains and wherever it stands. */
  lemma UnknownFieldIgnored(spare: Spare, t: Table, m: Message, f: Numbered, s: seq<byte>)
    requires Valid(t, m) && EncodableField(f)
    requires forall i :: 0 <= i < |t| && t[i].number == f.number ==> !Accepts(t[i], WireTypeOf(f.field))
    ensures MergePartial(spare, t, m, PutField(f) + s) == MergePartial(spare, t, m, s)
  {
    hide Valid, AfterTag, PutField, ReadTag, SkipField;
    SkipsField(f, s);
  }
}
