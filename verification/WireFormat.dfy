/** Protocol Buffers wire primitives, after the Encoding specification: sections
    "Base 128 Varints", "Signed Integers", "Length-Delimited Records", "Packed Repeated
    Fields" and "Groups". */
module WireFormat {
  import opened Bytes

  type int32 = x: int | -0x8000_0000 <= x < 0x8000_0000

  const VARINT := 0
  const FIXED64 := 1
  const LENGTH_DELIMITED := 2
  const START_GROUP := 3
  const END_GROUP := 4
  const FIXED32 := 5

  const MAX_VARINT_BYTES := 10

  function PutVarint(n: nat): (s: seq<byte>)
    ensures |s| > 0
  {
    if n < 0x80 then [n] else [0x80 + n % 0x80] + PutVarint(n / 0x80)
  }

  /** UInt32Size: the thresholds at multiples of seven bits. */
  function VarintSize(n: uint32): nat {
    if n < 0x80 then 1
    else if n < 0x4000 then 2
    else if n < 0x20_0000 then 3
    else if n < 0x1000_0000 then 4
    else 5
  }

  lemma VarintSizeIsLength(n: uint32)
    ensures |PutVarint(n)| == VarintSize(n)
  {
    assert n >= 0x80 ==> |PutVarint(n)| == 1 + |PutVarint(n / 0x80)|;
    assert n >= 0x4000 ==> |PutVarint(n / 0x80)| == 1 + |PutVarint(n / 0x4000)|;
    assert n >= 0x20_0000 ==> |PutVarint(n / 0x4000)| == 1 + |PutVarint(n / 0x20_0000)|;
    assert n >= 0x1000_0000 ==> |PutVarint(n / 0x20_0000)| == 1 + |PutVarint(n / 0x1000_0000)|;
  }

  datatype Read<T> = Failed | Got(value: T, rest: seq<byte>)

  /** A varint of at most k bytes. */
  function GetVarint(s: seq<byte>, k: nat): (r: Read<nat>)
    ensures r.Got? ==> |r.rest| < |s|
    decreases k
  {
    if k == 0 || s == [] then Failed
    else if s[0] < 0x80 then Got(s[0], s[1..])
    else
      match GetVarint(s[1..], k - 1)
      case Failed => Failed
      case Got(v, rest) => Got(s[0] - 0x80 + 0x80 * v, rest)
  }

  /** At most ten bytes: a longer varint is rejected. */
  lemma {:induction false} VarintTooLong(s: seq<byte>, k: nat)
    requires |s| >= k && forall i :: 0 <= i < k ==> s[i] >= 0x80
    ensures GetVarint(s, k) == Failed
  {
    if k != 0 {
      VarintTooLong(s[1..], k - 1);
    }
  }

  /** The low 32 bits of a varint. */
  function ReadVarint32(s: seq<byte>): (r: Read<uint32>)
    ensures r.Got? ==> |r.rest| < |s|
  {
    match GetVarint(s, MAX_VARINT_BYTES)
    case Failed => Failed
    case Got(v, rest) => Got(v % 0x1_0000_0000, rest)
  }

  /** Seven bits to a byte, the low ones first, each byte but the last marked. */
  lemma VarintBytes(a: byte, b: byte, s: seq<byte>)
    requires a < 0x80 && b < 0x80
    ensures ReadVarint32([a] + s) == Got(a, s) && PutVarint(a) == [a]
    ensures ReadVarint32([0x80 + a, b] + s) == Got(a + 0x80 * b, s)
    ensures b != 0 ==> PutVarint(a + 0x80 * b) == [0x80 + a, b]
  {
    var two := [0x80 + a, b] + s;
    assert ([a] + s)[1..] == s && two[1..] == [b] + s && ([b] + s)[1..] == s;
    assert GetVarint([b] + s, 9) == Got(b, s);
  }

  /** Bits beyond the thirty-second are cut off; an eleventh byte is an error. */
  lemma VarintLimits(s: seq<byte>)
    ensures ReadVarint32([0xFF, 0xFF, 0xFF, 0xFF, 0x7F] + s) == Got(0xFFFF_FFFF, s)
    ensures ReadVarint32([0x80, 0x80, 0x80, 0x80, 0x80, 0x80, 0x80, 0x80, 0x80, 1] + s) == Got(0, s)
    ensures |s| >= 10 && (forall i :: 0 <= i < 10 ==> s[i] >= 0x80) ==> ReadVarint32(s) == Failed
  {
    hide GetVarint;
    var one := [0x7F] + s;
    LastOfVarint(0x7F, s, 5);
    MoreOfVarint(0xFF, one, 6);
    MoreOfVarint(0xFF, [0xFF] + one, 7);
    MoreOfVarint(0xFF, [0xFF] + ([0xFF] + one), 8);
    MoreOfVarint(0xFF, [0xFF] + ([0xFF] + ([0xFF] + one)), 9);
    assert [0xFF, 0xFF, 0xFF, 0xFF, 0x7F] + s == [0xFF] + ([0xFF] + ([0xFF] + ([0xFF] + one)));
    NineMarks(s);
    if |s| >= 10 && forall i :: 0 <= i < 10 ==> s[i] >= 0x80 {
      VarintTooLong(s, 10);
    }
  }

  lemma NineMarks(s: seq<byte>)
    ensures GetVarint([0x80, 0x80, 0x80, 0x80, 0x80, 0x80, 0x80, 0x80, 0x80, 1] + s, 10)
            == Got(0x8000_0000_0000_0000, s)
  {
    hide GetVarint;
    var one := [1] + s;
    LastOfVarint(1, s, 0);
    MoreOfVarint(0x80, one, 1);
    var two := [0x80] + one;
    MoreOfVarint(0x80, two, 2);
    var three := [0x80] + two;
    MoreOfVarint(0x80, three, 3);
    var four := [0x80] + three;
    MoreOfVarint(0x80, four, 4);
    var five := [0x80] + four;
    MoreOfVarint(0x80, five, 5);
    var six := [0x80] + five;
    MoreOfVarint(0x80, six, 6);
    var seven := [0x80] + six;
    MoreOfVarint(0x80, seven, 7);
    var eight := [0x80] + seven;
    MoreOfVarint(0x80, eight, 8);
    var nine := [0x80] + eight;
    MoreOfVarint(0x80, nine, 9);
    assert [0x80, 0x80, 0x80, 0x80, 0x80, 0x80, 0x80, 0x80, 0x80, 1] + s == [0x80] + nine;
  }

  lemma LastOfVarint(b: byte, s: seq<byte>, k: nat)
    requires b < 0x80
    ensures GetVarint([b] + s, k + 1) == Got(b, s)
  {
    assert ([b] + s)[1..] == s;
  }

  lemma MoreOfVarint(b: byte, s: seq<byte>, k: nat)
    requires b >= 0x80 && GetVarint(s, k).Got?
    ensures var r := GetVarint(s, k);
            GetVarint([b] + s, k + 1) == Got(b - 0x80 + 0x80 * r.value, r.rest)
  {
    assert ([b] + s)[1..] == s;
  }

  lemma {:induction false} GetPutVarint(n: nat, s: seq<byte>, k: nat)
    requires |PutVarint(n)| <= k
    ensures GetVarint(PutVarint(n) + s, k) == Got(n, s)
    decreases n
  {
    var p := PutVarint(n);
    if n < 0x80 {
      assert (p + s)[1..] == s;
    } else {
      GetPutVarint(n / 0x80, s, k - 1);
      assert (p + s)[1..] == PutVarint(n / 0x80) + s;
    }
  }

  lemma ReadPutVarint(n: uint32, s: seq<byte>)
    ensures ReadVarint32(PutVarint(n) + s) == Got(n, s)
  {
    hide PutVarint, GetVarint;
    VarintSizeIsLength(n);
    GetPutVarint(n, s, MAX_VARINT_BYTES);
  }

  function ZigZag(i: int32): (n: uint32) {
    if i >= 0 then 2 * i else -2 * i - 1
  }

  function UnZigZag(n: uint32): (i: int32) {
    if n % 2 == 0 then n / 2 else -(n / 2) - 1
  }

  /** Signed numbers alternate: negative ones have odd codes, and the magnitude is half the
      code, rounded up. */
  lemma ZigZagSign(i: int32)
    ensures ZigZag(i) % 2 == 1 <==> i < 0
    ensures (ZigZag(i) + 1) / 2 == if i < 0 then -(i as int) else i as int
  {
  }

  lemma ZigZagInverse(i: int32)
    ensures UnZigZag(ZigZag(i)) == i
  {
  }

  function MakeTag(number: nat, wireType: nat): nat {
    8 * number + wireType
  }

  /** ReadTag: zero at the end of the input and where no varint can be read. */
  function ReadTag(s: seq<byte>): (r: (uint32, seq<byte>))
    ensures |r.1| <= |s|
    ensures r.0 != 0 ==> |r.1| < |s|
  {
    match ReadVarint32(s)
    case Failed => (0, s)
    case Got(tag, rest) => (tag, rest)
  }

  /** ExpectTag: compares the next one or two raw bytes with a constant. */
  function ExpectTag(s: seq<byte>, tag: nat): (r: Read<()>)
    ensures r.Got? ==> |r.rest| < |s|
  {
    if tag < 0x80 then
      if |s| >= 1 && s[0] == tag then Got((), s[1..]) else Failed
    else if tag < 0x4000 then
      if |s| >= 2 && s[0] == 0x80 + tag % 0x80 && s[1] == tag / 0x80 then Got((), s[2..]) else Failed
    else Failed
  }

  /** A predicted tag is one the ordinary read would have returned. */
  lemma ExpectedTagIsRead(s: seq<byte>, tag: nat)
    requires ExpectTag(s, tag).Got?
    ensures ReadTag(s) == (tag, ExpectTag(s, tag).rest)
  {
    if tag >= 0x80 {
      assert s[1..][0] == s[1] && s[1..][1..] == s[2..];
      assert GetVarint(s[1..], 9) == Got(s[1], s[2..]);
    }
  }

  /** ReadBytes into an existing string: success, the string afterwards, the rest. */
  datatype BytesRead = BytesRead(ok: bool, value: seq<byte>, rest: seq<byte>)

  function ReadBytes(prior: seq<byte>, s: seq<byte>): (r: BytesRead)
    ensures |r.rest| <= |s|
    ensures r.ok ==> |r.rest| < |s|
  {
    match ReadVarint32(s)
    case Failed => BytesRead(false, prior, s)
    case Got(n, rest) =>
      if n >= 0x8000_0000 then BytesRead(false, prior, rest)
      else if n <= |rest| then BytesRead(true, rest[..n], rest[n..])
      else BytesRead(false, rest, [])
  }

  function PutBytes(b: seq<byte>): seq<byte> {
    PutVarint(|b|) + b
  }

  lemma ReadPutBytes(prior: seq<byte>, b: seq<byte>, s: seq<byte>)
    requires |b| < 0x8000_0000
    ensures ReadBytes(prior, PutBytes(b) + s) == BytesRead(true, b, s)
  {
    ReadPutVarint(|b|, b + s);
    assert PutBytes(b) + s == PutVarint(|b|) + (b + s);
    assert (b + s)[..|b|] == b && (b + s)[|b|..] == s;
  }

  /** ReadPackedPrimitive, appending to an existing list. */
  datatype PackedRead = PackedRead(ok: bool, values: seq<uint32>, rest: seq<byte>)

  function ReadItems(values: seq<uint32>, s: seq<byte>): (r: (bool, seq<uint32>))
    decreases |s|
  {
    if s == [] then (true, values)
    else
      match ReadVarint32(s)
      case Failed => (false, values)
      case Got(v, rest) => ReadItems(values + [v], rest)
  }

  function ReadPacked(values: seq<uint32>, s: seq<byte>): (r: PackedRead)
    ensures |r.rest| <= |s|
    ensures r.ok ==> |r.rest| < |s|
  {
    match ReadVarint32(s)
    case Failed => PackedRead(false, values, s)
    case Got(n, rest) =>
      if n <= |rest| then
        var items := ReadItems(values, rest[..n]);
        PackedRead(items.0, items.1, rest[n..])
      else PackedRead(false, ReadItems(values, rest).1, [])
  }

  function PutItems(values: seq<uint32>): seq<byte> {
    if values == [] then [] else PutVarint(values[0]) + PutItems(values[1..])
  }

  lemma {:induction false} ReadPutItems(prior: seq<uint32>, values: seq<uint32>)
    ensures ReadItems(prior, PutItems(values)) == (true, prior + values)
    decreases |values|
  {
    hide PutVarint, ReadVarint32;
    if values == [] {
      assert prior + values == prior;
    } else {
      ReadPutVarint(values[0], PutItems(values[1..]));
      ReadPutItems(prior + [values[0]], values[1..]);
      assert prior + [values[0]] + values[1..] == prior + values;
    }
  }

  lemma ReadPutPacked(prior: seq<uint32>, values: seq<uint32>, s: seq<byte>)
    requires |PutItems(values)| < 0x8000_0000
    ensures ReadPacked(prior, PutBytes(PutItems(values)) + s) == PackedRead(true, prior + values, s)
  {
    var b := PutItems(values);
    ReadPutVarint(|b|, b + s);
    assert PutBytes(b) + s == PutVarint(|b|) + (b + s);
    assert (b + s)[..|b|] == b && (b + s)[|b|..] == s;
    ReadPutItems(prior, values);
  }

  /** SkipField for fields the message type does not know. */
  function SkipField(tag: uint32, s: seq<byte>): (r: Read<()>)
    ensures r.Got? ==> |r.rest| <= |s|
    decreases |s|, 1
  {
    var wireType := tag % 8;
    if wireType == VARINT then
      match ReadVarint32(s)
      case Failed => Failed
      case Got(_, rest) => Got((), rest)
    else if wireType == FIXED64 then
      if |s| >= 8 then Got((), s[8..]) else Failed
    else if wireType == LENGTH_DELIMITED then
      var b := ReadBytes([], s);
      if b.ok then Got((), b.rest) else Failed
    else if wireType == START_GROUP then SkipGroup(tag / 8, s)
    else if wireType == FIXED32 then
      if |s| >= 4 then Got((), s[4..]) else Failed
    else Failed
  }

  /** What is skipped by wire type: eight bytes for type 1, four for type 5, a counted string
      for type 2; an end tag alone and the unused types are errors. */
  lemma SkipByType(number: nat, s: seq<byte>)
    requires number < 0x2000_0000
    ensures SkipField(8 * number + 1, s) == if |s| >= 8 then Got((), s[8..]) else Failed
    ensures SkipField(8 * number + 5, s) == if |s| >= 4 then Got((), s[4..]) else Failed
    ensures |s| >= 1 && s[0] < 0x80 && s[0] as int < |s| ==>
              SkipField(8 * number + 2, s) == Got((), s[1 + s[0] as int..])
    ensures SkipField(8 * number + 4, s) == SkipField(8 * number + 6, s) == SkipField(8 * number + 7, s) == Failed
  {
    hide ReadVarint32, SkipGroup;
    if |s| >= 1 && s[0] < 0x80 {
      VarintBytes(s[0], 0, s[1..]);
      assert [s[0]] + s[1..] == s;
      if s[0] as int < |s| {
        assert s[1..][s[0] as int..] == s[1 + s[0] as int..];
      }
    }
  }

  /** Skips up to and including the end tag of the group. */
  function SkipGroup(number: nat, s: seq<byte>): (r: Read<()>)
    ensures r.Got? ==> |r.rest| <= |s|
    decreases |s|, 0
  {
    var (tag, rest) := ReadTag(s);
    if tag == 0 then Failed
    else if tag % 8 == END_GROUP then
      if tag == MakeTag(number, END_GROUP) then Got((), rest) else Failed
    else
      match SkipField(tag, rest)
      case Failed => Failed
      case Got(_, after) => SkipGroup(number, after)
  }

  // ----- What skipping skips -----

  /** A field a message type does not know, of any wire type, groups nested at will. */
  datatype Unknown =
    | Varint32(n: uint32)
    | Eight(b: seq<byte>)
    | Delimited(b: seq<byte>)
    | Fields(fields: seq<Numbered>)
    | Four(b: seq<byte>)

  datatype Numbered = Numbered(number: nat, field: Unknown)

  predicate Encodable(u: Unknown) {
    match u
    case Varint32(_) => true
    case Eight(b) => |b| == 8
    case Delimited(b) => |b| < 0x8000_0000
    case Fields(fields) => forall i :: 0 <= i < |fields| ==> EncodableField(fields[i])
    case Four(b) => |b| == 4
  }

  /** Field numbers have 29 bits and start at one. */
  predicate EncodableField(f: Numbered) {
    0 < f.number < 0x2000_0000 && Encodable(f.field)
  }

  function WireTypeOf(u: Unknown): nat {
    match u
    case Varint32(_) => VARINT
    case Eight(_) => FIXED64
    case Delimited(_) => LENGTH_DELIMITED
    case Fields(_) => START_GROUP
    case Four(_) => FIXED32
  }

  function PutPayload(number: nat, u: Unknown): seq<byte>
    decreases u, 0
  {
    match u
    case Varint32(n) => PutVarint(n)
    case Eight(b) => b
    case Delimited(b) => PutBytes(b)
    case Fields(fields) => PutAll(fields) + PutVarint(MakeTag(number, END_GROUP))
    case Four(b) => b
  }

  function PutField(f: Numbered): seq<byte>
    decreases f, 0
  {
    PutVarint(MakeTag(f.number, WireTypeOf(f.field))) + PutPayload(f.number, f.field)
  }

  function PutAll(fields: seq<Numbered>): seq<byte>
    decreases fields, 1
  {
    if fields == [] then [] else PutField(fields[0]) + PutAll(fields[1..])
  }

  lemma ReadPutTagOf(number: nat, wireType: nat, s: seq<byte>)
    requires 0 < number < 0x2000_0000 && wireType < 8
    ensures ReadTag(PutVarint(MakeTag(number, wireType)) + s) == (MakeTag(number, wireType), s)
    ensures MakeTag(number, wireType) != 0
    ensures MakeTag(number, wireType) / 8 == number && MakeTag(number, wireType) % 8 == wireType
  {
    hide PutVarint, ReadVarint32;
    ReadPutVarint(MakeTag(number, wireType), s);
  }

  /** Skipping consumes exactly the field. */
  lemma {:induction false} SkipsPayload(number: nat, u: Unknown, s: seq<byte>)
    requires 0 < number < 0x2000_0000 && Encodable(u)
    ensures SkipField(MakeTag(number, WireTypeOf(u)), PutPayload(number, u) + s) == Got((), s)
    decreases u, 0
  {
    hide PutVarint, PutBytes, ReadBytes, ReadVarint32, SkipGroup, PutAll;
    assert MakeTag(number, WireTypeOf(u)) / 8 == number && MakeTag(number, WireTypeOf(u)) % 8 == WireTypeOf(u);
    match u
    case Varint32(n) => ReadPutVarint(n, s);
    case Eight(b) => assert (b + s)[8..] == s;
    case Delimited(b) => ReadPutBytes([], b, s);
    case Fields(fields) =>
      SkipsAll(number, fields, s);
      var end := PutVarint(MakeTag(number, END_GROUP));
      assert PutAll(fields) + end + s == PutAll(fields) + (end + s);
    case Four(b) => assert (b + s)[4..] == s;
  }

  lemma {:induction false} SkipsAll(number: nat, fields: seq<Numbered>, s: seq<byte>)
    requires 0 < number < 0x2000_0000
    requires forall i :: 0 <= i < |fields| ==> EncodableField(fields[i])
    ensures SkipGroup(number, PutAll(fields) + (PutVarint(MakeTag(number, END_GROUP)) + s)) == Got((), s)
    decreases fields, 1
  {
    hide PutVarint, PutField, ReadTag, SkipField;
    var end := PutVarint(MakeTag(number, END_GROUP));
    if fields == [] {
      ReadPutTagOf(number, END_GROUP, s);
      assert PutAll(fields) + (end + s) == end + s;
    } else {
      var f, tail := fields[0], PutAll(fields[1..]) + (end + s);
      assert EncodableField(f);
      assert PutAll(fields) + (end + s) == PutField(f) + tail;
      SkipsField(f, tail);
      SkipsAll(number, fields[1..], s);
    }
  }

  /** Reading the tag of a field and skipping it leaves what follows. */
  lemma {:induction false} SkipsField(f: Numbered, s: seq<byte>)
    requires EncodableField(f)
    ensures var (tag, body) := ReadTag(PutField(f) + s);
            && tag != 0 && tag / 8 == f.number && tag % 8 == WireTypeOf(f.field) != END_GROUP
            && |body| < |PutField(f) + s|
            && SkipField(tag, body) == Got((), s)
    decreases f, 0
  {
    hide PutVarint, PutPayload, ReadTag, SkipField;
    var payload := PutPayload(f.number, f.field);
    assert PutField(f) + s == PutVarint(MakeTag(f.number, WireTypeOf(f.field))) + (payload + s);
    ReadPutTagOf(f.number, WireTypeOf(f.field), payload + s);
    SkipsPayload(f.number, f.field, s);
  }
}
