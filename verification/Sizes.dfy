/** The generated methods that work through has-bit masks and cached sizes
    (omnicomm/message.pb.cc): ByteSize, SerializeWithCachedSizesToArray, MergeFrom, Clear. */
module Sizes {
  import opened Bytes
  import opened WireFormat
  import opened Messages
  import opened Parse
  import opened Serializer

  /** What ByteSize remembers: the data size of each packed field, and the same for groups. */
  datatype Cache = Cache(sizes: seq<nat>, subs: seq<Cache>)

  /** The cache holds what the serializer will read from it. */
  ghost predicate Fresh(t: Table, m: Message, c: Cache)
    requires Valid(t, m)
    decreases t
  {
    && |c.sizes| == |c.subs| == |t|
    && forall i :: 0 <= i < |t| ==>
         assert ValidField(t[i], m.has[i], m.vals[i]);
         FreshField(t[i], m.has[i], m.vals[i], c.sizes[i], c.subs[i])
  }

  ghost predicate FreshField(f: Field, has: bool, v: Value, size: nat, sub: Cache)
    requires OfType(f, v)
    decreases f
  {
    match f.kind
    case Packed => size == |PutItems(v.ns)|
    case Group(table) => has ==> Fresh(table, v.m, sub)
    case _ => true
  }

  /** The mask test of the generated code: some has-bit of the eight from b on is set. */
  predicate MaskSet(has: seq<bool>, b: nat) {
    exists k :: b <= k < b + 8 && k < |has| && has[k]
  }

  /** The lengths of the fields before i that are repeated, or that are not. */
  ghost function LengthBefore(t: Table, m: Message, i: nat, repeated: bool): nat
    requires Valid(t, m) && i <= |t|
  {
    if i == 0 then 0
    else
      assert ValidField(t[i - 1], m.has[i - 1], m.vals[i - 1]);
      LengthBefore(t, m, i - 1, repeated)
      + if Repeated(t[i - 1].kind) == repeated then |FieldBytes(t[i - 1], m.has[i - 1], m.vals[i - 1])| else 0
  }

  lemma {:induction false} LengthSplits(t: Table, m: Message, i: nat)
    requires Valid(t, m) && i <= |t|
    ensures LengthBefore(t, m, i, true) + LengthBefore(t, m, i, false) + |FieldsFrom(t, m, i)| == |Serialize(t, m)|
    decreases i
  {
    hide FieldBytes, ValidField;
    if i != 0 {
      LengthSplits(t, m, i - 1);
    }
  }

  /** ByteSize: singular fields under their masks, then repeated fields; the result is the
      exact serialized length, and the cache is fresh for the serializer. */
  method ByteSize(t: Table, m: Message, c0: Cache) returns (total: nat, c: Cache)
    requires WellFormed(t) && Valid(t, m) && |c0.sizes| == |c0.subs| == |t|
    requires |Serialize(t, m)| < 0x8000_0000
    ensures total == |Serialize(t, m)|
    ensures Fresh(t, m, c)
    decreases t, 1
  {
    hide FieldBytes, FreshField, ValidField, WellFormed, FieldOk, FieldsFrom, Serialize, MaskSet;
    total, c := 0, c0;
    LengthSplits(t, m, |t|);
    for i := 0 to |t|
      invariant |c.sizes| == |c.subs| == |t|
      invariant total == LengthBefore(t, m, i, false)
      invariant FreshBefore(t, m, c, i, false)
    {
      FieldOfMessage(t, m, i);
      if !Repeated(t[i].kind) {
        FieldFits(t, m, i);
        if MaskSet(m.has, t[i].block) {
          var n, size, sub := FieldByteSize(t[i], i, m.has[i], m.vals[i], c.sizes[i], c.subs[i]);
          total, c := total + n, Cache(c.sizes[i := size], c.subs[i := sub]);
        } else {
          MaskCovers(t, m, i);
        }
      }
    }
    for i := 0 to |t|
      invariant |c.sizes| == |c.subs| == |t|
      invariant total == LengthBefore(t, m, |t|, false) + LengthBefore(t, m, i, true)
      invariant FreshBefore(t, m, c, |t|, false) && FreshBefore(t, m, c, i, true)
    {
      FieldOfMessage(t, m, i);
      if Repeated(t[i].kind) {
        FieldFits(t, m, i);
        var n, size, sub := FieldByteSize(t[i], i, m.has[i], m.vals[i], c.sizes[i], c.subs[i]);
        total, c := total + n, Cache(c.sizes[i := size], c.subs[i := sub]);
      }
    }
    EmptyTail(t, m);
  }

  lemma EmptyTail(t: Table, m: Message)
    requires Valid(t, m)
    ensures FieldsFrom(t, m, |t|) == []
  {
  }

  ghost predicate FreshBefore(t: Table, m: Message, c: Cache, i: nat, repeated: bool)
    requires Valid(t, m) && i <= |t| && |c.sizes| == |c.subs| == |t|
  {
    forall k :: 0 <= k < i && Repeated(t[k].kind) == repeated ==>
      assert ValidField(t[k], m.has[k], m.vals[k]);
      FreshField(t[k], m.has[k], m.vals[k], c.sizes[k], c.subs[k])
  }

  /** No mask ever hides a set field. */
  lemma MaskCovers(t: Table, m: Message, i: nat)
    requires WellFormed(t) && Valid(t, m) && i < |t|
    requires !Repeated(t[i].kind) && !MaskSet(m.has, t[i].block)
    ensures !m.has[i] && OfType(t[i], m.vals[i]) && m.vals[i] == Default(t[i])
    ensures FieldBytes(t[i], false, m.vals[i]) == []
    ensures forall size, sub :: FreshField(t[i], false, m.vals[i], size, sub)
  {
    FieldOfMessage(t, m, i);
  }

  lemma {:induction false} FieldFits(t: Table, m: Message, i: nat)
    requires Valid(t, m) && i < |t| && |Serialize(t, m)| < 0x8000_0000
    ensures ValidField(t[i], m.has[i], m.vals[i])
    ensures |FieldBytes(t[i], m.has[i], m.vals[i])| < 0x8000_0000
  {
    hide FieldBytes;
    LengthSplits(t, m, i);
    assert ValidField(t[i], m.has[i], m.vals[i]);
  }

  /** The contribution of one field. */
  method FieldByteSize(f: Field, ghost at: nat, has: bool, v: Value, size0: nat, sub0: Cache)
    returns (n: nat, size: nat, sub: Cache)
    requires FieldOk(f, at) && ValidField(f, has, v) && |FieldBytes(f, has, v)| < 0x8000_0000
    ensures n == |FieldBytes(f, has, v)|
    ensures FreshField(f, has, v, size, sub)
    decreases f
  {
    n, size, sub := 0, size0, sub0;
    VarintSizeIsLength(f.tag);
    match f.kind
    case UInt32 =>
      if has { n := f.width + VarintSize(v.n); VarintSizeIsLength(v.n); }
    case SInt32 =>
      if has { n := f.width + VarintSize(ZigZag(v.n)); VarintSizeIsLength(ZigZag(v.n)); }
    case Str =>
      if has { n := f.width + VarintSize(|v.s|) + |v.s|; VarintSizeIsLength(|v.s|); }
    case Packed =>
      PackedFits(f, has, v.ns);
      size := ItemsSize(v.ns);
      n := (if size > 0 then f.width + VarintSize(size) else 0) + size;
      VarintSizeIsLength(size);
    case Strs =>
      n := StringsSize(f, at, v.ss);
    case Group(table) =>
      if has {
        var inner;
        GroupFits(f, v.m);
        inner, sub := ByteSize(table, v.m, NoCache(table));
        n := f.width + inner;
        EndTagWidth(f, at);
      }
  }

  function NoCache(t: Table): (c: Cache)
    ensures |c.sizes| == |c.subs| == |t|
  {
    Cache(seq(|t|, _ => 0), seq(|t|, _ => Cache([], [])))
  }

  lemma PackedFits(f: Field, has: bool, ns: seq<uint32>)
    requires f.kind.Packed? && |FieldBytes(f, has, Nums(ns))| < 0x8000_0000
    ensures |PutItems(ns)| < 0x8000_0000
    ensures PutItems(ns) == [] <==> ns == []
  {
    hide PutVarint;
  }

  lemma GroupFits(f: Field, m: Message)
    requires f.kind.Group? && Valid(f.kind.table, m) && |FieldBytes(f, true, Sub(m))| < 0x8000_0000
    ensures |Serialize(f.kind.table, m)| < 0x8000_0000
  {
    hide PutVarint, FieldsFrom, Valid;
  }

  lemma EndTagWidth(f: Field, at: nat)
    requires FieldOk(f, at) && f.kind.Group?
    ensures |PutVarint(f.tag)| + |PutVarint(EndTag(f))| == f.width
  {
    hide PutVarint;
    VarintSizeIsLength(f.tag);
    VarintSizeIsLength(EndTag(f));
  }

  method ItemsSize(ns: seq<uint32>) returns (size: nat)
    ensures size == |PutItems(ns)|
  {
    size := 0;
    for i := 0 to |ns|
      invariant size + |PutItems(ns[i..])| == |PutItems(ns)|
    {
      VarintSizeIsLength(ns[i]);
      assert ns[i..][1..] == ns[i + 1..];
      size := size + VarintSize(ns[i]);
    }
    assert ns[|ns|..] == [];
  }

  /** The strings without their tags. */
  function StringsPayload(ss: seq<seq<byte>>): nat {
    if ss == [] then 0 else |PutBytes(ss[0])| + StringsPayload(ss[1..])
  }

  lemma {:induction false} StringsLength(tag: nat, ss: seq<seq<byte>>)
    ensures |StringsBytes(tag, ss)| == |PutVarint(tag)| * |ss| + StringsPayload(ss)
  {
    hide PutVarint, PutBytes;
    if ss != [] {
      StringsLength(tag, ss[1..]);
      var w, n := |PutVarint(tag)|, |ss[1..]|;
      assert w * (n + 1) == w * n + w;
    }
  }

  method StringsSize(f: Field, ghost at: nat, ss: seq<seq<byte>>) returns (size: nat)
    requires FieldOk(f, at) && f.kind.Strs?
    requires |StringsBytes(f.tag, ss)| < 0x8000_0000
    ensures size == |StringsBytes(f.tag, ss)|
  {
    hide PutVarint, VarintSize, StringsBytes;
    VarintSizeIsLength(f.tag);
    StringsLength(f.tag, ss);
    ghost var tags := f.width * |ss|;
    size := f.width * |ss|;
    assert ss[0..] == ss;
    for i := 0 to |ss|
      invariant size + StringsPayload(ss[i..]) == tags + StringsPayload(ss)
      invariant StringsPayload(ss[i..]) < 0x8000_0000
    {
      assert ss[i..][1..] == ss[i + 1..];
      VarintSizeIsLength(|ss[i]|);
      size := size + (VarintSize(|ss[i]|) + |ss[i]|);
    }
  }

  // ----- SerializeWithCachedSizesToArray -----

  /** Writes after `target`, taking the length of packed fields from the cache. */
  method SerializeWithCachedSizesToArray(t: Table, m: Message, c: Cache, target0: seq<byte>)
    returns (target: seq<byte>)
    requires WellFormed(t) && Valid(t, m) && Fresh(t, m, c)
    requires |Serialize(t, m)| < 0x8000_0000
    ensures target == target0 + Serialize(t, m)
    decreases t, 1
  {
    hide FieldBytes, FreshField, ValidField, FieldOk, WellFormed;
    target := target0;
    assert target0 + FieldsFrom(t, m, 0) == target + FieldsFrom(t, m, 0);
    for i := 0 to |t|
      invariant target + FieldsFrom(t, m, i) == target0 + FieldsFrom(t, m, 0)
    {
      FieldOfMessage(t, m, i);
      FieldFits(t, m, i);
      ghost var before := target;
      target := WriteField(t[i], i, m.has[i], m.vals[i], c.sizes[i], c.subs[i], target);
      assert target + FieldsFrom(t, m, i + 1)
             == before + (FieldBytes(t[i], m.has[i], m.vals[i]) + FieldsFrom(t, m, i + 1));
    }
    assert target + [] == target;
  }

  method WriteField(f: Field, ghost at: nat, has: bool, v: Value, size: nat, sub: Cache, target0: seq<byte>)
    returns (target: seq<byte>)
    requires FieldOk(f, at) && ValidField(f, has, v) && FreshField(f, has, v, size, sub)
    requires |FieldBytes(f, has, v)| < 0x8000_0000
    ensures target == target0 + FieldBytes(f, has, v)
    decreases f
  {
    hide PutVarint;
    target := target0;
    match f.kind
    case UInt32 =>
      if has { target := target + PutVarint(f.tag) + PutVarint(v.n); }
    case SInt32 =>
      if has { target := target + PutVarint(f.tag) + PutVarint(ZigZag(v.n)); }
    case Str =>
      if has { target := target + PutVarint(f.tag) + PutVarint(|v.s|) + v.s; }
    case Packed =>
      if |v.ns| > 0 {
        target := target + PutVarint(f.tag) + PutVarint(size);
      }
      ghost var head := target;
      for i := 0 to |v.ns|
        invariant target + PutItems(v.ns[i..]) == head + PutItems(v.ns)
      {
        assert v.ns[i..][1..] == v.ns[i + 1..];
        assert target + PutItems(v.ns[i..]) == target + PutVarint(v.ns[i]) + PutItems(v.ns[i + 1..]);
        target := target + PutVarint(v.ns[i]);
      }
      assert target + [] == target;
    case Strs =>
      for i := 0 to |v.ss|
        invariant target + StringsBytes(f.tag, v.ss[i..]) == target0 + StringsBytes(f.tag, v.ss)
      {
        assert v.ss[i..][1..] == v.ss[i + 1..];
        assert target + StringsBytes(f.tag, v.ss[i..])
               == target + PutVarint(f.tag) + PutBytes(v.ss[i]) + StringsBytes(f.tag, v.ss[i + 1..]);
        target := target + PutVarint(f.tag) + PutBytes(v.ss[i]);
      }
      assert target + [] == target;
    case Group(table) =>
      if has {
        GroupFits(f, v.m);
        target := target + PutVarint(f.tag);
        target := SerializeWithCachedSizesToArray(table, v.m, sub, target);
        target := target + PutVarint(EndTag(f));
      }
  }

  /** Size agreement: serializing right after ByteSize writes exactly that many bytes. */
  method SerializeToArray(t: Table, m: Message, ghost spare: Spare) returns (size: nat, bytes: seq<byte>)
    requires WellFormed(t) && Valid(t, m) && |Serialize(t, m)| < 0x8000_0000
    ensures |bytes| == size
    ensures MergePartial(spare, t, EmptyOf(t), bytes) == Parsed(true, m, [], 0)
  {
    hide Serialize, MergePartial, Valid;
    var c;
    size, c := ByteSize(t, m, NoCache(t));
    bytes := SerializeWithCachedSizesToArray(t, m, c, []);
    assert [] + Serialize(t, m) == Serialize(t, m);
    MessageRoundTrip(spare, t, m);
  }

  function EmptyOf(t: Table): (m: Message)
    ensures Valid(t, m) && m == Empty(t)
  {
    EmptyValid(t);
    Empty(t)
  }

  // ----- MergeFrom and Clear -----

  /** Repeated fields are appended first, then set fields copied under their masks. */
  method MergeFrom(t: Table, a: Message, b: Message) returns (m: Message)
    requires WellFormed(t) && Valid(t, a) && Valid(t, b)
    ensures m == Merge(t, a, b)
    decreases t, 1
  {
    hide ValidField, FieldOk, WellFormed, MaskSet, MergeValue;
    m := a;
    for i := 0 to |t|
      invariant |m.has| == |m.vals| == |t| && m.has == a.has
      invariant forall k :: 0 <= k < |t| ==>
                  m.vals[k] == if k < i && Repeated(t[k].kind) then Merge(t, a, b).vals[k] else a.vals[k]
    {
      FieldOfMessage(t, a, i);
      FieldOfMessage(t, b, i);
      if Repeated(t[i].kind) {
        var v := AppendRepeated(t[i], a.vals[i], b.vals[i], b.has[i]);
        m := Set(m, i, m.has[i], v);
      }
    }
    for i := 0 to |t|
      invariant |m.has| == |m.vals| == |t|
      invariant forall k :: 0 <= k < |t| ==>
                  m.has[k] == (if k < i && !Repeated(t[k].kind) then a.has[k] || b.has[k] else a.has[k])
      invariant forall k :: 0 <= k < |t| ==>
                  m.vals[k] == if k < i || Repeated(t[k].kind) then Merge(t, a, b).vals[k] else a.vals[k]
    {
      FieldOfMessage(t, a, i);
      FieldOfMessage(t, b, i);
      if !Repeated(t[i].kind) {
        if MaskSet(b.has, t[i].block) && b.has[i] {
          var v := MergeSet(t[i], i, a.vals[i], b.vals[i]);
          m := Set(m, i, true, v);
        } else {
          NothingSet(t, a, b, i);
        }
      }
    }
    RepeatedUnset(t, b);
    assert m.has == Merge(t, a, b).has && m.vals == Merge(t, a, b).vals;
  }

  lemma RepeatedUnset(t: Table, m: Message)
    requires Valid(t, m)
    ensures forall k :: 0 <= k < |t| && Repeated(t[k].kind) ==> !m.has[k]
  {
    forall k | 0 <= k < |t| && Repeated(t[k].kind)
      ensures !m.has[k]
    {
      assert ValidField(t[k], m.has[k], m.vals[k]);
    }
  }

  lemma NothingSet(t: Table, a: Message, b: Message, i: nat)
    requires WellFormed(t) && Valid(t, a) && Valid(t, b) && i < |t| && !Repeated(t[i].kind)
    requires !MaskSet(b.has, t[i].block) || !b.has[i]
    ensures !b.has[i] && Merge(t, a, b).vals[i] == a.vals[i]
  {
    FieldOfMessage(t, a, i);
    FieldOfMessage(t, b, i);
  }

  method AppendRepeated(f: Field, a: Value, b: Value, ghost hasB: bool) returns (v: Value)
    requires Repeated(f.kind) && OfType(f, a) && OfType(f, b)
    ensures v == MergeValue(f, a, hasB, b)
  {
    if f.kind.Packed? {
      v := Nums(a.ns + b.ns);
    } else {
      v := Texts(a.ss + b.ss);
    }
  }

  method MergeSet(f: Field, ghost at: nat, a: Value, b: Value) returns (v: Value)
    requires !Repeated(f.kind) && FieldOk(f, at) && OfType(f, a) && OfType(f, b)
    ensures v == MergeValue(f, a, true, b)
    decreases f
  {
    match f.kind
    case Group(table) =>
      var inner := MergeFrom(table, a.m, b.m);
      v := Sub(inner);
    case _ =>
      v := b;
  }

  /** Clear resets a field only if its mask is set, and still leaves a fresh message. */
  method Clear(t: Table, m0: Message) returns (m: Message)
    requires WellFormed(t) && Valid(t, m0)
    ensures m == Empty(t)
    decreases t, 1
  {
    hide ValidField, FieldOk, WellFormed, MaskSet, Default;
    m := m0;
    for i := 0 to |t|
      invariant |m.has| == |m.vals| == |t|
      invariant forall k :: 0 <= k < |t| ==> m.vals[k] == if k < i then Default(t[k]) else m0.vals[k]
    {
      FieldOfMessage(t, m0, i);
      if Repeated(t[i].kind) {
        m := Message(m.has, m.vals[i := if t[i].kind.Packed? then Nums([]) else Texts([])]);
        RepeatedDefault(t[i]);
      } else if MaskSet(m0.has, t[i].block) {
        var v := ClearField(t[i], i, m0.has[i], m0.vals[i]);
        m := Message(m.has, m.vals[i := v]);
      } else {
        MaskCovers(t, m0, i);
      }
    }
    m := Message(seq(|t|, _ => false), m.vals);
    assert m.vals == Empty(t).vals;
  }

  lemma RepeatedDefault(f: Field)
    requires Repeated(f.kind)
    ensures Default(f) == if f.kind.Packed? then Nums([]) else Texts([])
  {
  }

  method ClearField(f: Field, ghost at: nat, has: bool, v0: Value) returns (v: Value)
    requires !Repeated(f.kind) && FieldOk(f, at) && ValidField(f, has, v0)
    ensures v == Default(f)
    decreases f
  {
    match f.kind
    case UInt32 => v := Num(0);
    case SInt32 => v := Num(0);
    case Group(table) =>
      v := v0;
      if has {
        assert OfType(f, v0);
        var inner := Clear(table, v0.m);
        v := Sub(inner);
      }
    case _ =>
      v := v0;
      if has { v := Text([]); }
  }
}
