/** The CRC constants of omnicomm/utils.cpp and the recurrence they satisfy. */
module CrcTable {
  import opened Bytes

  /** The 256 constants of the source, sixteen to a row. */
  const CRC_TABLE: seq<seq<uint16>> := [
    [0x0000, 0x1021, 0x2042, 0x3063, 0x4084, 0x50A5, 0x60C6, 0x70E7,
     0x8108, 0x9129, 0xA14A, 0xB16B, 0xC18C, 0xD1AD, 0xE1CE, 0xF1EF],
    [0x1231, 0x0210, 0x3273, 0x2252, 0x52B5, 0x4294, 0x72F7, 0x62D6,
     0x9339, 0x8318, 0xB37B, 0xA35A, 0xD3BD, 0xC39C, 0xF3FF, 0xE3DE],
    [0x2462, 0x3443, 0x0420, 0x1401, 0x64E6, 0x74C7, 0x44A4, 0x5485,
     0xA56A, 0xB54B, 0x8528, 0x9509, 0xE5EE, 0xF5CF, 0xC5AC, 0xD58D],
    [0x3653, 0x2672, 0x1611, 0x0630, 0x76D7, 0x66F6, 0x5695, 0x46B4,
     0xB75B, 0xA77A, 0x9719, 0x8738, 0xF7DF, 0xE7FE, 0xD79D, 0xC7BC],
    [0x48C4, 0x58E5, 0x6886, 0x78A7, 0x0840, 0x1861, 0x2802, 0x3823,
     0xC9CC, 0xD9ED, 0xE98E, 0xF9AF, 0x8948, 0x9969, 0xA90A, 0xB92B],
    [0x5AF5, 0x4AD4, 0x7AB7, 0x6A96, 0x1A71, 0x0A50, 0x3A33, 0x2A12,
     0xDBFD, 0xCBDC, 0xFBBF, 0xEB9E, 0x9B79, 0x8B58, 0xBB3B, 0xAB1A],
    [0x6CA6, 0x7C87, 0x4CE4, 0x5CC5, 0x2C22, 0x3C03, 0x0C60, 0x1C41,
     0xEDAE, 0xFD8F, 0xCDEC, 0xDDCD, 0xAD2A, 0xBD0B, 0x8D68, 0x9D49],
    [0x7E97, 0x6EB6, 0x5ED5, 0x4EF4, 0x3E13, 0x2E32, 0x1E51, 0x0E70,
     0xFF9F, 0xEFBE, 0xDFDD, 0xCFFC, 0xBF1B, 0xAF3A, 0x9F59, 0x8F78],
    [0x9188, 0x81A9, 0xB1CA, 0xA1EB, 0xD10C, 0xC12D, 0xF14E, 0xE16F,
     0x1080, 0x00A1, 0x30C2, 0x20E3, 0x5004, 0x4025, 0x7046, 0x6067],
    [0x83B9, 0x9398, 0xA3FB, 0xB3DA, 0xC33D, 0xD31C, 0xE37F, 0xF35E,
     0x02B1, 0x1290, 0x22F3, 0x32D2, 0x4235, 0x5214, 0x6277, 0x7256],
    [0xB5EA, 0xA5CB, 0x95A8, 0x8589, 0xF56E, 0xE54F, 0xD52C, 0xC50D,
     0x34E2, 0x24C3, 0x14A0, 0x0481, 0x7466, 0x6447, 0x5424, 0x4405],
    [0xA7DB, 0xB7FA, 0x8799, 0x97B8, 0xE75F, 0xF77E, 0xC71D, 0xD73C,
     0x26D3, 0x36F2, 0x0691, 0x16B0, 0x6657, 0x7676, 0x4615, 0x5634],
    [0xD94C, 0xC96D, 0xF90E, 0xE92F, 0x99C8, 0x89E9, 0xB98A, 0xA9AB,
     0x5844, 0x4865, 0x7806, 0x6827, 0x18C0, 0x08E1, 0x3882, 0x28A3],
    [0xCB7D, 0xDB5C, 0xEB3F, 0xFB1E, 0x8BF9, 0x9BD8, 0xABBB, 0xBB9A,
     0x4A75, 0x5A54, 0x6A37, 0x7A16, 0x0AF1, 0x1AD0, 0x2AB3, 0x3A92],
    [0xFD2E, 0xED0F, 0xDD6C, 0xCD4D, 0xBDAA, 0xAD8B, 0x9DE8, 0x8DC9,
     0x7C26, 0x6C07, 0x5C64, 0x4C45, 0x3CA2, 0x2C83, 0x1CE0, 0x0CC1],
    [0xEF1F, 0xFF3E, 0xCF5D, 0xDF7C, 0xAF9B, 0xBFBA, 0x8FD9, 0x9FF8,
     0x6E17, 0x7E36, 0x4E55, 0x5E74, 0x2E93, 0x3EB2, 0x0ED1, 0x1EF0]]

  predicate Square(t: seq<seq<uint16>>) {
    |t| == 16 && forall i :: 0 <= i < 16 ==> |t[i]| == 16
  }

  lemma TableShape()
    ensures Square(CRC_TABLE)
  {
  }

  function Entry(t: seq<seq<uint16>>, i: byte): uint16
    requires Square(t)
  {
    t[i / 16][i % 16]
  }

  function TableEntry(i: byte): uint16 {
    TableShape();
    Entry(CRC_TABLE, i)
  }

  /** Exclusive or with the generator flips bits 0, 5 and 12. */
  function AddGenerator(n: nat): int {
    n + (if n % 2 == 1 then -1 else 1)
      + (if n / 0x20 % 2 == 1 then -0x20 else 0x20)
      + (if n / 0x1000 % 2 == 1 then -0x1000 else 0x1000)
  }

  /** One step on the number a register stands for. */
  function FeedNat(n: nat): int {
    if n < 0x8000 then 2 * n else AddGenerator(2 * (n - 0x8000))
  }

  /** Each entry fixes the two entries at twice its index. */
  predicate Doubles(n: uint16, even: uint16, odd: uint16) {
    even == FeedNat(n) && odd == AddGenerator(even)
  }

  predicate RowDoubles(a: seq<uint16>, k: nat, b: seq<uint16>, m: nat)
    requires |a| == |b| == 16 && k <= 12 && m <= 8
  {
    && Doubles(a[k], b[m], b[m + 1]) && Doubles(a[k + 1], b[m + 2], b[m + 3])
    && Doubles(a[k + 2], b[m + 4], b[m + 5]) && Doubles(a[k + 3], b[m + 6], b[m + 7])
  }

  // Four entries to a lemma, named by the index of the first in hexadecimal.

  lemma EntriesFrom00()
    ensures RowDoubles(CRC_TABLE[0], 0, CRC_TABLE[0], 0)
  {}

  lemma EntriesFrom04()
    ensures RowDoubles(CRC_TABLE[0], 4, CRC_TABLE[0], 8)
  {}

  lemma EntriesFrom08()
    ensures RowDoubles(CRC_TABLE[0], 8, CRC_TABLE[1], 0)
  {}

  lemma EntriesFrom0C()
    ensures RowDoubles(CRC_TABLE[0], 12, CRC_TABLE[1], 8)
  {}

  lemma EntriesFrom10()
    ensures RowDoubles(CRC_TABLE[1], 0, CRC_TABLE[2], 0)
  {}

  lemma EntriesFrom14()
    ensures RowDoubles(CRC_TABLE[1], 4, CRC_TABLE[2], 8)
  {}

  lemma EntriesFrom18()
    ensures RowDoubles(CRC_TABLE[1], 8, CRC_TABLE[3], 0)
  {}

  lemma EntriesFrom1C()
    ensures RowDoubles(CRC_TABLE[1], 12, CRC_TABLE[3], 8)
  {}

  lemma EntriesFrom20()
    ensures RowDoubles(CRC_TABLE[2], 0, CRC_TABLE[4], 0)
  {}

  lemma EntriesFrom24()
    ensures RowDoubles(CRC_TABLE[2], 4, CRC_TABLE[4], 8)
  {}

  lemma EntriesFrom28()
    ensures RowDoubles(CRC_TABLE[2], 8, CRC_TABLE[5], 0)
  {}

  lemma EntriesFrom2C()
    ensures RowDoubles(CRC_TABLE[2], 12, CRC_TABLE[5], 8)
  {}

  lemma EntriesFrom30()
    ensures RowDoubles(CRC_TABLE[3], 0, CRC_TABLE[6], 0)
  {}

  lemma EntriesFrom34()
    ensures RowDoubles(CRC_TABLE[3], 4, CRC_TABLE[6], 8)
  {}

  lemma EntriesFrom38()
    ensures RowDoubles(CRC_TABLE[3], 8, CRC_TABLE[7], 0)
  {}

  lemma EntriesFrom3C()
    ensures RowDoubles(CRC_TABLE[3], 12, CRC_TABLE[7], 8)
  {}

  lemma EntriesFrom40()
    ensures RowDoubles(CRC_TABLE[4], 0, CRC_TABLE[8], 0)
  {}

  lemma EntriesFrom44()
    ensures RowDoubles(CRC_TABLE[4], 4, CRC_TABLE[8], 8)
  {}

  lemma EntriesFrom48()
    ensures RowDoubles(CRC_TABLE[4], 8, CRC_TABLE[9], 0)
  {}

  lemma EntriesFrom4C()
    ensures RowDoubles(CRC_TABLE[4], 12, CRC_TABLE[9], 8)
  {}

  lemma EntriesFrom50()
    ensures RowDoubles(CRC_TABLE[5], 0, CRC_TABLE[10], 0)
  {}

  lemma EntriesFrom54()
    ensures RowDoubles(CRC_TABLE[5], 4, CRC_TABLE[10], 8)
  {}

  lemma EntriesFrom58()
    ensures RowDoubles(CRC_TABLE[5], 8, CRC_TABLE[11], 0)
  {}

  lemma EntriesFrom5C()
    ensures RowDoubles(CRC_TABLE[5], 12, CRC_TABLE[11], 8)
  {}

  lemma EntriesFrom60()
    ensures RowDoubles(CRC_TABLE[6], 0, CRC_TABLE[12], 0)
  {}

  lemma EntriesFrom64()
    ensures RowDoubles(CRC_TABLE[6], 4, CRC_TABLE[12], 8)
  {}

  lemma EntriesFrom68()
    ensures RowDoubles(CRC_TABLE[6], 8, CRC_TABLE[13], 0)
  {}

  lemma EntriesFrom6C()
    ensures RowDoubles(CRC_TABLE[6], 12, CRC_TABLE[13], 8)
  {}

  lemma EntriesFrom70()
    ensures RowDoubles(CRC_TABLE[7], 0, CRC_TABLE[14], 0)
  {}

  lemma EntriesFrom74()
    ensures RowDoubles(CRC_TABLE[7], 4, CRC_TABLE[14], 8)
  {}

  lemma EntriesFrom78()
    ensures RowDoubles(CRC_TABLE[7], 8, CRC_TABLE[15], 0)
  {}

  lemma EntriesFrom7C()
    ensures RowDoubles(CRC_TABLE[7], 12, CRC_TABLE[15], 8)
  {}

  lemma RowFacts(r: nat)
    requires r < 8
    ensures RowDoubles(CRC_TABLE[r], 0, CRC_TABLE[2 * r], 0)
    ensures RowDoubles(CRC_TABLE[r], 4, CRC_TABLE[2 * r], 8)
    ensures RowDoubles(CRC_TABLE[r], 8, CRC_TABLE[2 * r + 1], 0)
    ensures RowDoubles(CRC_TABLE[r], 12, CRC_TABLE[2 * r + 1], 8)
  {
    hide RowDoubles;
    match r
    case 0 =>
      EntriesFrom00();
      EntriesFrom04();
      EntriesFrom08();
      EntriesFrom0C();
    case 1 =>
      EntriesFrom10();
      EntriesFrom14();
      EntriesFrom18();
      EntriesFrom1C();
    case 2 =>
      EntriesFrom20();
      EntriesFrom24();
      EntriesFrom28();
      EntriesFrom2C();
    case 3 =>
      EntriesFrom30();
      EntriesFrom34();
      EntriesFrom38();
      EntriesFrom3C();
    case 4 =>
      EntriesFrom40();
      EntriesFrom44();
      EntriesFrom48();
      EntriesFrom4C();
    case 5 =>
      EntriesFrom50();
      EntriesFrom54();
      EntriesFrom58();
      EntriesFrom5C();
    case 6 =>
      EntriesFrom60();
      EntriesFrom64();
      EntriesFrom68();
      EntriesFrom6C();
    case 7 =>
      EntriesFrom70();
      EntriesFrom74();
      EntriesFrom78();
      EntriesFrom7C();
  }

  /** Sixteen entries fix the thirty-two at twice their indices. */
  lemma InRow(a: seq<uint16>, b: seq<uint16>, b': seq<uint16>, c: nat)
    requires |a| == |b| == |b'| == 16 && c < 16
    requires RowDoubles(a, 0, b, 0) && RowDoubles(a, 4, b, 8)
    requires RowDoubles(a, 8, b', 0) && RowDoubles(a, 12, b', 8)
    ensures c < 8 ==> Doubles(a[c], b[2 * c], b[2 * c + 1])
    ensures c >= 8 ==> Doubles(a[c], b'[2 * c - 16], b'[2 * c - 15])
  {
    hide Doubles;
  }

  lemma EntryAt(t: seq<seq<uint16>>, r: nat, c: nat)
    requires Square(t) && r < 16 && c < 16
    ensures Entry(t, 16 * r + c) == t[r][c]
  {
    assert (16 * r + c) / 16 == r && (16 * r + c) % 16 == c;
  }

  lemma LeftHalf(t: seq<seq<uint16>>, r: nat, c: nat)
    requires Square(t) && r < 8 && c < 8
    requires Doubles(t[r][c], t[2 * r][2 * c], t[2 * r][2 * c + 1])
    ensures Doubles(Entry(t, 16 * r + c), Entry(t, 2 * (16 * r + c)), Entry(t, 2 * (16 * r + c) + 1))
  {
    hide Doubles;
    EntryAt(t, r, c);
    EntryAt(t, 2 * r, 2 * c);
    EntryAt(t, 2 * r, 2 * c + 1);
  }

  lemma RightHalf(t: seq<seq<uint16>>, r: nat, c: nat)
    requires Square(t) && r < 8 && 8 <= c < 16
    requires Doubles(t[r][c], t[2 * r + 1][2 * c - 16], t[2 * r + 1][2 * c - 15])
    ensures Doubles(Entry(t, 16 * r + c), Entry(t, 2 * (16 * r + c)), Entry(t, 2 * (16 * r + c) + 1))
  {
    hide Doubles;
    EntryAt(t, r, c);
    EntryAt(t, 2 * r + 1, 2 * c - 16);
    EntryAt(t, 2 * r + 1, 2 * c - 15);
  }

  lemma EntriesDouble(t: seq<seq<uint16>>, i: nat)
    requires Square(t) && i < 128
    requires RowDoubles(t[i / 16], 0, t[2 * (i / 16)], 0) && RowDoubles(t[i / 16], 4, t[2 * (i / 16)], 8)
    requires RowDoubles(t[i / 16], 8, t[2 * (i / 16) + 1], 0) && RowDoubles(t[i / 16], 12, t[2 * (i / 16) + 1], 8)
    ensures Doubles(Entry(t, i), Entry(t, 2 * i), Entry(t, 2 * i + 1))
  {
    hide Doubles;
    var r, c := i / 16, i % 16;
    InRow(t[r], t[2 * r], t[2 * r + 1], c);
    if c < 8 {
      LeftHalf(t, r, c);
    } else {
      RightHalf(t, r, c);
    }
  }

  lemma EntryDoubles(i: nat)
    requires i < 128
    ensures Doubles(TableEntry(i), TableEntry(2 * i), TableEntry(2 * i + 1))
  {
    TableShape();
    RowFacts(i / 16);
    EntriesDouble(CRC_TABLE, i);
  }

  lemma FirstEntries()
    ensures TableEntry(0) == 0 && TableEntry(1) == 0x1021
  {
  }
}
