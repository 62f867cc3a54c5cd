/** The packed transport messages (omnicomm/transport_messages.hpp), read straight
    from the bytes of a frame. */
module Frames {
  import opened Bytes
  import opened Bits
  import opened Crc

  const PREFIX: byte := 0xC0

  const CONTROLLER_IDENT: byte := 0x80
  const DATA_REQUEST: byte := 0x85
  const ARCHIVE_DATA: byte := 0x86
  const DELETE_DATA: byte := 0x87
  const DELETE_CONFIRM: byte := 0x88
  const CURRENT_DATA: byte := 0x95

  const HEADER_SIZE := 4
  const CONTROLLER_IDENT_SIZE := 12
  const DATA_RESPONSE_SIZE := 13

  /** The modulus of size_t. */
  const SIZE_T_RANGE := 0x1_0000_0000_0000_0000

  predicate HasHeader(s: seq<byte>) {
    |s| >= HEADER_SIZE
  }

  function DataLen(s: seq<byte>): uint16
    requires HasHeader(s)
  {
    Le16(s[2], s[3])
  }

  function FullLength(s: seq<byte>): nat
    requires HasHeader(s)
  {
    HEADER_SIZE + DataLen(s) + 2
  }

  predicate Complete(s: seq<byte>) {
    HasHeader(s) && FullLength(s) <= |s|
  }

  /** Exactly one frame. */
  predicate IsFrame(f: seq<byte>) {
    Complete(f) && |f| == FullLength(f) && f[0] == PREFIX
  }

  /** The trailer, high byte first. */
  function GetCrc(s: seq<byte>): (r: seq<bool>)
    requires Complete(s)
  {
    ToBits(s[HEADER_SIZE + DataLen(s)], 8) + ToBits(s[HEADER_SIZE + DataLen(s) + 1], 8)
  }

  /** The checksum of command, length and data. */
  function CalcCrc(s: seq<byte>): (r: seq<bool>)
    requires Complete(s)
  {
    Crc16(s[1..HEADER_SIZE + DataLen(s)])
  }

  predicate CheckCrc(s: seq<byte>)
    requires Complete(s)
  {
    GetCrc(s) == CalcCrc(s)
  }

  /** check_length of a message type whose structure has `size` bytes; the two CRC
      bytes count towards it. */
  predicate CheckLength(f: seq<byte>, size: nat)
    requires HasHeader(f)
  {
    FullLength(f) >= size
  }

  /** get_im_length, an unsigned subtraction. */
  function ImLength(f: seq<byte>): nat
    requires HasHeader(f)
  {
    (FullLength(f) - DATA_RESPONSE_SIZE - 2) % SIZE_T_RANGE
  }

  /** Where the fields of a frame are: marker, command, length with its low byte first, data,
      and two bytes of checksum. */
  lemma Layout(f: seq<byte>)
    requires |f| >= 4
    ensures DataLen(f) == f[2] as int + 0x100 * f[3] as int
    ensures FullLength(f) == 6 + DataLen(f)
    ensures IsFrame(f) <==> f[0] == 0xC0 && |f| == 6 + f[2] as int + 0x100 * f[3] as int
    ensures IsFrame(f) ==>
              var n := |f|;
              && CalcCrc(f) == Crc16(f[1..n - 2])
              && GetCrc(f) == ToBits(f[n - 2], 8) + ToBits(f[n - 1], 8)
  {
    hide Crc16, ToBits;
  }

  /** Among the frames check_length accepts as data responses, the record block lies
      inside the data exactly when the data has at least nine bytes. */
  lemma ImLengthMeaningful(f: seq<byte>)
    requires IsFrame(f) && CheckLength(f, DATA_RESPONSE_SIZE)
    ensures DATA_RESPONSE_SIZE + ImLength(f) <= HEADER_SIZE + DataLen(f) <==> DataLen(f) >= 9
    ensures DataLen(f) >= 9 ==> DATA_RESPONSE_SIZE + ImLength(f) == HEADER_SIZE + DataLen(f)
  {
  }

  /** Accepting a frame is the same as its bytes after the prefix leaving no remainder. */
  lemma CheckCrcIsResidue(f: seq<byte>)
    requires IsFrame(f)
    ensures CheckCrc(f) <==> Crc16(f[1..]) == Zeros(16)
  {
    var n := HEADER_SIZE + DataLen(f);
    assert f[1..] == f[1..n] + [f[n], f[n + 1]];
    Residue(f[1..n], f[n], f[n + 1]);
  }

  function HighByte(r: seq<bool>): (b: byte)
    requires Register(r)
    ensures ToBits(b, 8) == r[..8]
  {
    Powers();
    BitsNatBits(r[..8]);
    ToNat(r[..8])
  }

  function LowByte(r: seq<bool>): (b: byte)
    requires Register(r)
    ensures ToBits(b, 8) == r[8..]
  {
    Powers();
    BitsNatBits(r[8..]);
    ToNat(r[8..])
  }

  /** Command, length and data of a message, as they stand in a frame. */
  function Body(cmd: byte, data: seq<byte>): (s: seq<byte>)
    requires |data| < 0x1_0000
    ensures |s| == 3 + |data|
  {
    [cmd] + PutLe16(|data|) + data
  }

  /** The frame get_crc and calc_crc agree on. */
  function MakeFrame(cmd: byte, data: seq<byte>): (f: seq<byte>)
    requires |data| < 0x1_0000
  {
    var body := Body(cmd, data);
    [PREFIX] + body + [HighByte(Crc16(body)), LowByte(Crc16(body))]
  }

  lemma MakeFrameAccepted(cmd: byte, data: seq<byte>)
    requires |data| < 0x1_0000
    ensures IsFrame(MakeFrame(cmd, data)) && CheckCrc(MakeFrame(cmd, data))
    ensures DataLen(MakeFrame(cmd, data)) == |data|
    ensures MakeFrame(cmd, data)[1] == cmd && MakeFrame(cmd, data)[4..4 + |data|] == data
  {
    var f, body, n := MakeFrame(cmd, data), Body(cmd, data), 4 + |data|;
    assert f[2] == PutLe16(|data|)[0] && f[3] == PutLe16(|data|)[1];
    assert f[1..n] == body;
    var r := Crc16(body);
    assert r == r[..8] + r[8..];
  }

  /** The other direction: every accepted frame is one MakeFrame builds. */
  lemma AcceptedIsMade(f: seq<byte>)
    requires IsFrame(f) && CheckCrc(f)
    ensures f == MakeFrame(f[1], f[4..4 + DataLen(f)])
  {
    hide Crc16, ToBits;
    var n := 4 + DataLen(f);
    BodyOfFrame(f);
    var body := f[1..n];
    var hi, lo := HighByte(Crc16(body)), LowByte(Crc16(body));
    TrailerBytes(f, Crc16(body), hi, lo);
    assert f == [f[0]] + body + [hi, lo];
  }

  lemma BodyOfFrame(f: seq<byte>)
    requires IsFrame(f)
    ensures f[1..4 + DataLen(f)] == Body(f[1], f[4..4 + DataLen(f)])
  {
    assert PutLe16(DataLen(f)) == [f[2], f[3]];
  }

  lemma TrailerBytes(f: seq<byte>, r: seq<bool>, hi: byte, lo: byte)
    requires IsFrame(f) && Register(r) && GetCrc(f) == r
    requires ToBits(hi, 8) == r[..8] && ToBits(lo, 8) == r[8..]
    ensures f[4 + DataLen(f)] == hi && f[5 + DataLen(f)] == lo
  {
    var n := 4 + DataLen(f);
    assert GetCrc(f)[..8] == ToBits(f[n], 8) && GetCrc(f)[8..] == ToBits(f[n + 1], 8);
    SameByte(f[n], hi);
    SameByte(f[n + 1], lo);
  }

  lemma SameByte(a: byte, b: byte)
    requires ToBits(a, 8) == ToBits(b, 8)
    ensures a == b
  {
    Powers();
    NatBitsNat(a, 8);
    NatBitsNat(b, 8);
  }
}
