/** Generated message types as field tables, and message values with has-bits.
    A table lists the fields of a type in declaration order, each with the constants
    the generated code carries for it. */
module Messages {
  import opened Bytes
  import opened WireFormat

  datatype Kind =
    | UInt32
    | SInt32
    | Str
    | Packed
    | Strs
    | Group(table: seq<Field>)

  /** `tag` is the constant of ExpectTag and WriteTag, `width` the constant ByteSize adds
      for it (for a group both tags), `block` the first bit of the has-bit mask that
      guards the field in Clear, ByteSize and MergeFrom. */
  datatype Field = Field(number: nat, kind: Kind, tag: nat, width: nat, block: nat)

  type Table = seq<Field>

  predicate Repeated(k: Kind) {
    k.Packed? || k.Strs?
  }

  function WireType(k: Kind): nat {
    match k
    case UInt32 => VARINT
    case SInt32 => VARINT
    case Group(_) => START_GROUP
    case _ => LENGTH_DELIMITED
  }

  function EndTag(f: Field): nat {
    MakeTag(f.number, END_GROUP)
  }

  /** What the constants of a table must satisfy. */
  ghost predicate WellFormed(t: Table) {
    Run(t, 0)
  }

  /** Consecutive fields of a table, the first at position `start`. */
  ghost predicate Run(t: Table, start: nat) {
    && (forall i :: 0 <= i < |t| ==> FieldOk(t[i], start + i))
    && (forall i :: 0 < i < |t| ==> t[i - 1].number < t[i].number)
  }

  lemma RunAppend(a: Table, b: Table, start: nat)
    requires Run(a, start) && Run(b, start + |a|)
    requires a != [] && b != [] && a[|a| - 1].number < b[0].number
    ensures Run(a + b, start)
  {
    hide FieldOk;
    forall i | |a| <= i < |a + b|
      ensures FieldOk((a + b)[i], start + i)
    {
      assert (a + b)[i] == b[i - |a|];
      assert FieldOk(b[i - |a|], start + |a| + (i - |a|));
    }
  }

  ghost predicate FieldOk(f: Field, i: nat) {
    && 0 < f.number
    && f.tag == MakeTag(f.number, WireType(f.kind)) < 0x4000
    && f.width == VarintSize(f.tag) * (if f.kind.Group? then 2 else 1)
    && (Repeated(f.kind) || f.block <= i < f.block + 8)
    && (f.kind.Group? ==> WellFormed(f.kind.table))
  }

  datatype Value =
    | Num(n: int)
    | Text(s: seq<byte>)
    | Nums(ns: seq<uint32>)
    | Texts(ss: seq<seq<byte>>)
    | Sub(m: Message)

  /** Field values in table order; has-bits of repeated fields are never set. */
  datatype Message = Message(has: seq<bool>, vals: seq<Value>)

  function Default(f: Field): Value {
    match f.kind
    case UInt32 => Num(0)
    case SInt32 => Num(0)
    case Str => Text([])
    case Packed => Nums([])
    case Strs => Texts([])
    case Group(table) => Sub(Empty(table))
  }

  /** A freshly constructed message. */
  function Empty(t: Table): (m: Message)
    ensures |m.has| == |m.vals| == |t|
  {
    Message(seq(|t|, _ => false), seq(|t|, i requires 0 <= i < |t| => Default(t[i])))
  }

  predicate OfType(f: Field, v: Value)
    decreases f, 0
  {
    match f.kind
    case UInt32 => v.Num? && 0 <= v.n < 0x1_0000_0000
    case SInt32 => v.Num? && -0x8000_0000 <= v.n < 0x8000_0000
    case Str => v.Text?
    case Packed => v.Nums?
    case Strs => v.Texts?
    case Group(table) => v.Sub? && Valid(table, v.m)
  }

  /** Repeated fields use no has-bit; a field without its has-bit holds its default. */
  predicate ValidField(f: Field, has: bool, v: Value)
    decreases f, 1
  {
    && OfType(f, v)
    && (Repeated(f.kind) ==> !has)
    && (!Repeated(f.kind) && !has ==> v == Default(f))
  }

  predicate Valid(t: Table, m: Message) {
    && |m.has| == |m.vals| == |t|
    && forall i :: 0 <= i < |t| ==> ValidField(t[i], m.has[i], m.vals[i])
  }

  lemma {:induction false} EmptyValid(t: Table)
    ensures Valid(t, Empty(t))
  {
    forall i | 0 <= i < |t|
      ensures ValidField(t[i], Empty(t).has[i], Empty(t).vals[i])
    {
      DefaultValid(t[i]);
    }
  }

  lemma {:induction false} DefaultValid(f: Field)
    ensures ValidField(f, false, Default(f))
  {
    match f.kind
    case Group(table) => EmptyValid(table);
    case _ =>
  }

  function Set(m: Message, i: nat, has: bool, v: Value): (r: Message)
    requires i < |m.has| == |m.vals|
    ensures |r.has| == |r.vals| == |m.has|
  {
    Message(m.has[i := has], m.vals[i := v])
  }

  lemma SetValid(t: Table, m: Message, i: nat, has: bool, v: Value)
    requires Valid(t, m) && i < |t| && ValidField(t[i], has, v)
    ensures Valid(t, Set(m, i, has, v))
  {
    hide ValidField;
  }

  /** Last scalar wins, repeated fields append, groups merge. */
  function MergeValue(f: Field, a: Value, hasB: bool, b: Value): (v: Value)
    requires OfType(f, a) && OfType(f, b)
  {
    match f.kind
    case Packed => Nums(a.ns + b.ns)
    case Strs => Texts(a.ss + b.ss)
    case Group(table) => if hasB then Sub(Merge(table, a.m, b.m)) else a
    case _ => if hasB then b else a
  }

  function Merge(t: Table, a: Message, b: Message): (m: Message)
    requires Valid(t, a) && Valid(t, b)
    ensures |m.has| == |m.vals| == |t|
  {
    Message(
      seq(|t|, i requires 0 <= i < |t| => a.has[i] || b.has[i]),
      seq(|t|, i requires 0 <= i < |t| =>
        assert ValidField(t[i], a.has[i], a.vals[i]) && ValidField(t[i], b.has[i], b.vals[i]);
        MergeValue(t[i], a.vals[i], b.has[i], b.vals[i])))
  }

  /** Field by field: a scalar of b wins where b has one, a list of b goes after that of a, and
      groups are merged. */
  lemma MergeFields(t: Table, a: Message, b: Message, i: nat)
    requires Valid(t, a) && Valid(t, b) && i < |t|
    ensures OfType(t[i], a.vals[i]) && OfType(t[i], b.vals[i])
    ensures var m := Merge(t, a, b);
            && (t[i].kind.Packed? ==> m.vals[i] == Nums(a.vals[i].ns + b.vals[i].ns))
            && (t[i].kind.Strs? ==> m.vals[i] == Texts(a.vals[i].ss + b.vals[i].ss))
            && (!Repeated(t[i].kind) && !b.has[i] ==> m.has[i] == a.has[i] && m.vals[i] == a.vals[i])
            && (!Repeated(t[i].kind) && b.has[i] ==>
                  && m.has[i]
                  && (if t[i].kind.Group? then m.vals[i] == Sub(Merge(t[i].kind.table, a.vals[i].m, b.vals[i].m))
                      else m.vals[i] == b.vals[i]))
  {
    assert ValidField(t[i], a.has[i], a.vals[i]) && ValidField(t[i], b.has[i], b.vals[i]);
  }

  lemma {:induction false} MergeValid(t: Table, a: Message, b: Message)
    requires Valid(t, a) && Valid(t, b)
    ensures Valid(t, Merge(t, a, b))
  {
    forall i | 0 <= i < |t|
      ensures ValidField(t[i], Merge(t, a, b).has[i], Merge(t, a, b).vals[i])
    {
      MergeFieldValid(t[i], a.has[i], a.vals[i], b.has[i], b.vals[i]);
    }
  }

  lemma {:induction false} MergeFieldValid(f: Field, hasA: bool, a: Value, hasB: bool, b: Value)
    requires ValidField(f, hasA, a) && ValidField(f, hasB, b)
    ensures ValidField(f, hasA || hasB, MergeValue(f, a, hasB, b))
  {
    match f.kind
    case Group(table) => MergeValid(table, a.m, b.m);
    case _ =>
  }

  /** The empty message is the identity on both sides. */
  lemma {:induction false} MergeEmpty(t: Table, a: Message)
    requires Valid(t, a)
    ensures Valid(t, Empty(t))
    ensures Merge(t, Empty(t), a) == a
    ensures Merge(t, a, Empty(t)) == a
  {
    EmptyValid(t);
    var e := Empty(t);
    forall i | 0 <= i < |t|
      ensures Merge(t, e, a).vals[i] == a.vals[i] && Merge(t, a, e).vals[i] == a.vals[i]
    {
      MergeDefault(t[i], a.has[i], a.vals[i]);
    }
    assert Merge(t, e, a).has == a.has && Merge(t, a, e).has == a.has;
    assert Merge(t, e, a).vals == a.vals && Merge(t, a, e).vals == a.vals;
  }

  lemma {:induction false} MergeDefault(f: Field, has: bool, v: Value)
    requires ValidField(f, has, v)
    ensures OfType(f, Default(f))
    ensures MergeValue(f, Default(f), has, v) == v
    ensures MergeValue(f, v, false, Default(f)) == v
  {
    DefaultValid(f);
    match f.kind
    case Packed =>
      assert [] + v.ns == v.ns && v.ns + [] == v.ns;
    case Strs =>
      assert [] + v.ss == v.ss && v.ss + [] == v.ss;
    case Group(table) =>
      MergeEmpty(table, v.m);
    case _ =>
  }

  /** Merging is associative. */
  lemma {:induction false} MergeAssociates(t: Table, a: Message, b: Message, c: Message)
    requires Valid(t, a) && Valid(t, b) && Valid(t, c)
    ensures Valid(t, Merge(t, a, b)) && Valid(t, Merge(t, b, c))
    ensures Merge(t, Merge(t, a, b), c) == Merge(t, a, Merge(t, b, c))
  {
    hide MergeValue, ValidField;
    MergeValid(t, a, b);
    MergeValid(t, b, c);
    var x, y := Merge(t, Merge(t, a, b), c), Merge(t, a, Merge(t, b, c));
    forall i | 0 <= i < |t|
      ensures x.vals[i] == y.vals[i]
    {
      assert ValidField(t[i], a.has[i], a.vals[i]) && ValidField(t[i], b.has[i], b.vals[i])
          && ValidField(t[i], c.has[i], c.vals[i]);
      MergeFieldAssociates(t[i], a.has[i], a.vals[i], b.has[i], b.vals[i], c.has[i], c.vals[i]);
    }
    assert x.has == y.has && x.vals == y.vals;
  }

  lemma {:induction false} MergeFieldAssociates(
    f: Field, hasA: bool, a: Value, hasB: bool, b: Value, hasC: bool, c: Value)
    requires ValidField(f, hasA, a) && ValidField(f, hasB, b) && ValidField(f, hasC, c)
    ensures OfType(f, MergeValue(f, a, hasB, b)) && OfType(f, MergeValue(f, b, hasC, c))
    ensures MergeValue(f, MergeValue(f, a, hasB, b), hasC, c) ==
            MergeValue(f, a, hasB || hasC, MergeValue(f, b, hasC, c))
  {
    MergeFieldValid(f, hasA, a, hasB, b);
    MergeFieldValid(f, hasB, b, hasC, c);
    match f.kind
    case Packed =>
      assert a.ns + b.ns + c.ns == a.ns + (b.ns + c.ns);
    case Strs =>
      assert a.ss + b.ss + c.ss == a.ss + (b.ss + c.ss);
    case Group(table) =>
      MergeAssociates(table, a.m, b.m, c.m);
      if !hasB && hasC {
        MergeEmpty(table, c.m);
      }
    case _ =>
  }
}
