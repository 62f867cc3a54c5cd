/** Byte stuffing (omnicomm/protocol.cpp): the escape map of the PROTOCOL section of
    RFC 1055, and the un-escaper whose state survives between network reads. */
module Escape {
  import opened Bytes
  import opened Bits
  import opened Crc
  import opened Frames

  const END: byte := 0xC0
  const ESC: byte := 0xDB
  const ESC_END: byte := 0xDC
  const ESC_ESC: byte := 0xDD

  function StuffByte(b: byte): (s: seq<byte>) {
    if b == END then [ESC, ESC_END] else if b == ESC then [ESC, ESC_ESC] else [b]
  }

  function Stuff(data: seq<byte>): (s: seq<byte>) {
    if data == [] then [] else StuffByte(data[0]) + Stuff(data[1..])
  }

  /** The un-escaper: whether an escape byte is pending, and the bytes stored. */
  datatype Stored = Stored(pending: bool, out: seq<byte>)

  function StoreByte(pending: bool, b: byte): Stored {
    if !pending then
      if b == ESC then Stored(true, []) else Stored(false, [b])
    else if b == ESC_END then Stored(false, [END])
    else if b == ESC_ESC then Stored(false, [ESC])
    else Stored(false, [ESC, b])
  }

  function Store(pending: bool, data: seq<byte>): Stored
    decreases |data|
  {
    if data == [] then Stored(pending, [])
    else
      var first := StoreByte(pending, data[0]);
      var more := Store(first.pending, data[1..]);
      Stored(more.pending, first.out + more.out)
  }

  /** The escape codes, byte by byte, in both directions. An escape byte that no code follows
      is kept together with the byte that does. */
  lemma EscapeCodes(b: byte)
    ensures StuffByte(0xC0) == [0xDB, 0xDC] && StuffByte(0xDB) == [0xDB, 0xDD]
    ensures b != 0xC0 && b != 0xDB ==> StuffByte(b) == [b]
    ensures StoreByte(true, 0xDC) == Stored(false, [0xC0]) && StoreByte(true, 0xDD) == Stored(false, [0xDB])
    ensures b != 0xDC && b != 0xDD ==> StoreByte(true, b) == Stored(false, [0xDB, b])
    ensures StoreByte(false, 0xDB) == Stored(true, [])
    ensures b != 0xDB ==> StoreByte(false, b) == Stored(false, [b])
  {
  }

  lemma {:induction false} StoreAppend(pending: bool, a: seq<byte>, b: seq<byte>)
    ensures Store(pending, a + b) ==
            var x := Store(pending, a);
            var y := Store(x.pending, b);
            Stored(y.pending, x.out + y.out)
    decreases |a|
  {
    if a == [] {
      assert a + b == b;
    } else {
      assert (a + b)[1..] == a[1..] + b;
      StoreAppend(StoreByte(pending, a[0]).pending, a[1..], b);
    }
  }

  function Concat(chunks: seq<seq<byte>>): seq<byte> {
    if chunks == [] then [] else chunks[0] + Concat(chunks[1..])
  }

  /** The un-escaper fed piece by piece. */
  function StorePieces(pending: bool, pieces: seq<seq<byte>>): Stored
    decreases |pieces|
  {
    if pieces == [] then Stored(pending, [])
    else
      var first := Store(pending, pieces[0]);
      var more := StorePieces(first.pending, pieces[1..]);
      Stored(more.pending, first.out + more.out)
  }

  /** Its state carries over: any split of the input gives what the whole input gives. */
  lemma {:induction false} AnySplit(pending: bool, pieces: seq<seq<byte>>)
    ensures StorePieces(pending, pieces) == Store(pending, Concat(pieces))
    decreases |pieces|
  {
    if pieces != [] {
      AnySplit(Store(pending, pieces[0]).pending, pieces[1..]);
      StoreAppend(pending, pieces[0], Concat(pieces[1..]));
    }
  }

  lemma {:induction false} StuffAppend(a: seq<byte>, b: seq<byte>)
    ensures Stuff(a + b) == Stuff(a) + Stuff(b)
    decreases |a|
  {
    if a == [] {
      assert a + b == b;
    } else {
      assert (a + b)[1..] == a[1..] + b;
      StuffAppend(a[1..], b);
    }
  }

  lemma StoreInvertsStuffByte(b: byte)
    ensures Store(false, StuffByte(b)) == Stored(false, [b])
  {
    if b == END || b == ESC {
      var code := if b == END then ESC_END else ESC_ESC;
      assert Store(true, [code]) == Stored(false, [b] + Store(false, []).out);
      assert [ESC, code][1..] == [code];
    } else {
      assert Store(false, [b]) == Stored(false, [b] + Store(false, []).out);
    }
  }

  /** Un-escaping inverts stuffing and ends in the normal state. */
  lemma {:induction false} StoreInvertsStuff(data: seq<byte>)
    ensures Store(false, Stuff(data)) == Stored(false, data)
  {
    if data != [] {
      StoreInvertsStuffByte(data[0]);
      StoreInvertsStuff(data[1..]);
      StoreAppend(false, StuffByte(data[0]), Stuff(data[1..]));
    }
  }

  /** Escaped text: no frame marker, and every escape byte is followed by its code. */
  predicate Escaped(s: seq<byte>) {
    && (forall i :: 0 <= i < |s| ==> s[i] != END)
    && (forall i :: 0 <= i < |s| && s[i] == ESC ==> i + 1 < |s| && (s[i + 1] == ESC_END || s[i + 1] == ESC_ESC))
  }

  lemma {:induction false} StuffEscaped(data: seq<byte>)
    ensures Escaped(Stuff(data))
    ensures |data| <= |Stuff(data)| <= 2 * |data|
  {
    if data != [] {
      StuffEscaped(data[1..]);
      var s, t := StuffByte(data[0]), Stuff(data[1..]);
      forall i | 0 <= i < |s + t|
        ensures (s + t)[i] != END
        ensures (s + t)[i] == ESC ==> i + 1 < |s + t| && ((s + t)[i + 1] == ESC_END || (s + t)[i + 1] == ESC_ESC)
      {
        if i >= |s| {
          assert (s + t)[i] == t[i - |s|];
        }
      }
    }
  }

  lemma StuffTwo(data: seq<byte>, x: byte, y: byte)
    ensures Stuff(data + [x, y]) == Stuff(data) + StuffByte(x) + StuffByte(y)
  {
    StuffAppend(data, [x, y]);
    assert [x, y][1..] == [y] && [y][1..] == [];
    assert Stuff([y]) == StuffByte(y) + [];
  }

  /** First byte raw, the rest and the two given trailer bytes stuffed. */
  function Wire(data: seq<byte>, x: byte, y: byte): (s: seq<byte>)
    requires data != []
  {
    [data[0]] + Stuff(data[1..]) + StuffByte(x) + StuffByte(y)
  }

  /** Shape of everything on the wire that starts with the frame marker. */
  lemma WireEscaped(data: seq<byte>, x: byte, y: byte)
    requires data != [] && data[0] == END
    ensures Wire(data, x, y)[0] == END && Escaped(Wire(data, x, y)[1..])
    ensures |data| + 2 <= |Wire(data, x, y)| <= 2 * |data| + 3
  {
    hide Stuff, StuffByte;
    StuffTwo(data[1..], x, y);
    StuffEscaped(data[1..] + [x, y]);
    assert Wire(data, x, y) == [data[0]] + Stuff(data[1..] + [x, y]);
  }

  /** The un-escaper recovers the message and its trailer. */
  lemma WireRecovered(data: seq<byte>, x: byte, y: byte)
    requires data != [] && data[0] == END
    ensures Store(false, Wire(data, x, y)) == Stored(false, data + [x, y])
  {
    hide Stuff, StuffByte;
    var tail := data[1..] + [x, y];
    StuffTwo(data[1..], x, y);
    StoreInvertsStuff(tail);
    var s := [data[0]] + Stuff(tail);
    assert s[1..] == Stuff(tail);
    assert Wire(data, x, y) == s;
    assert data + [x, y] == [data[0]] + tail;
  }

  /** What `send` puts on the wire: the CRC low byte first, and nothing for no data. */
  function SendBytes(data: seq<byte>): (s: seq<byte>) {
    if data == [] then []
    else Wire(data, LowByte(Crc16(data[1..])), HighByte(Crc16(data[1..])))
  }

  /** A message this program sends passes its own check only if both bytes of the CRC
      are equal, because `send` and `get_crc` order them differently. */
  lemma OwnFrameAccepted(cmd: byte, data: seq<byte>)
    requires |data| < 0x1_0000
    ensures var f := Store(false, SendBytes([END] + Body(cmd, data))).out;
            var crc := Crc16(Body(cmd, data));
            IsFrame(f) && (CheckCrc(f) <==> LowByte(crc) == HighByte(crc))
  {
    var body := Body(cmd, data);
    var lo, hi := LowByte(Crc16(body)), HighByte(Crc16(body));
    assert ([END] + body)[1..] == body;
    WireRecovered([END] + body, lo, hi);
    SwappedTrailer(cmd, data, lo, hi);
  }

  lemma SwappedTrailer(cmd: byte, data: seq<byte>, lo: byte, hi: byte)
    requires |data| < 0x1_0000
    requires ToBits(lo, 8) == Crc16(Body(cmd, data))[8..] && ToBits(hi, 8) == Crc16(Body(cmd, data))[..8]
    ensures var f := [END] + Body(cmd, data) + [lo, hi];
            IsFrame(f) && (CheckCrc(f) <==> lo == hi)
  {
    hide Crc16, ToBits;
    var body := Body(cmd, data);
    var f, n := [END] + body + [lo, hi], 4 + |data|;
    assert f[2] == PutLe16(|data|)[0] && f[3] == PutLe16(|data|)[1];
    assert f[1..n] == body;
    assert f[n] == lo && f[n + 1] == hi;
    SwappedBytes(lo, hi, Crc16(body));
  }

  lemma SwappedBytes(lo: byte, hi: byte, crc: seq<bool>)
    requires Register(crc) && ToBits(lo, 8) == crc[8..] && ToBits(hi, 8) == crc[..8]
    ensures ToBits(lo, 8) + ToBits(hi, 8) == crc <==> lo == hi
  {
    hide ToBits;
    assert crc == crc[..8] + crc[8..];
    if ToBits(lo, 8) + ToBits(hi, 8) == crc {
      assert ToBits(lo, 8) == crc[..8];
      SameByte(lo, hi);
    }
  }
}
