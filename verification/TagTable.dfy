// The decoder's tag table.

module TagTable {
  import opened Bytes
  import opened Format

  /** The table of the source, one row a line.  Per tag: the length in bits 0-7, the high part of a
      one-byte offset in bits 8-10, and the number of bytes after the tag in bits 11-13. */
  const ROWS: seq<seq<nat>> := [
    [0x0001, 0x0804, 0x1001, 0x2001, 0x0002, 0x0805, 0x1002, 0x2002],
    [0x0003, 0x0806, 0x1003, 0x2003, 0x0004, 0x0807, 0x1004, 0x2004],
    [0x0005, 0x0808, 0x1005, 0x2005, 0x0006, 0x0809, 0x1006, 0x2006],
    [0x0007, 0x080a, 0x1007, 0x2007, 0x0008, 0x080b, 0x1008, 0x2008],
    [0x0009, 0x0904, 0x1009, 0x2009, 0x000a, 0x0905, 0x100a, 0x200a],
    [0x000b, 0x0906, 0x100b, 0x200b, 0x000c, 0x0907, 0x100c, 0x200c],
    [0x000d, 0x0908, 0x100d, 0x200d, 0x000e, 0x0909, 0x100e, 0x200e],
    [0x000f, 0x090a, 0x100f, 0x200f, 0x0010, 0x090b, 0x1010, 0x2010],
    [0x0011, 0x0a04, 0x1011, 0x2011, 0x0012, 0x0a05, 0x1012, 0x2012],
    [0x0013, 0x0a06, 0x1013, 0x2013, 0x0014, 0x0a07, 0x1014, 0x2014],
    [0x0015, 0x0a08, 0x1015, 0x2015, 0x0016, 0x0a09, 0x1016, 0x2016],
    [0x0017, 0x0a0a, 0x1017, 0x2017, 0x0018, 0x0a0b, 0x1018, 0x2018],
    [0x0019, 0x0b04, 0x1019, 0x2019, 0x001a, 0x0b05, 0x101a, 0x201a],
    [0x001b, 0x0b06, 0x101b, 0x201b, 0x001c, 0x0b07, 0x101c, 0x201c],
    [0x001d, 0x0b08, 0x101d, 0x201d, 0x001e, 0x0b09, 0x101e, 0x201e],
    [0x001f, 0x0b0a, 0x101f, 0x201f, 0x0020, 0x0b0b, 0x1020, 0x2020],
    [0x0021, 0x0c04, 0x1021, 0x2021, 0x0022, 0x0c05, 0x1022, 0x2022],
    [0x0023, 0x0c06, 0x1023, 0x2023, 0x0024, 0x0c07, 0x1024, 0x2024],
    [0x0025, 0x0c08, 0x1025, 0x2025, 0x0026, 0x0c09, 0x1026, 0x2026],
    [0x0027, 0x0c0a, 0x1027, 0x2027, 0x0028, 0x0c0b, 0x1028, 0x2028],
    [0x0029, 0x0d04, 0x1029, 0x2029, 0x002a, 0x0d05, 0x102a, 0x202a],
    [0x002b, 0x0d06, 0x102b, 0x202b, 0x002c, 0x0d07, 0x102c, 0x202c],
    [0x002d, 0x0d08, 0x102d, 0x202d, 0x002e, 0x0d09, 0x102e, 0x202e],
    [0x002f, 0x0d0a, 0x102f, 0x202f, 0x0030, 0x0d0b, 0x1030, 0x2030],
    [0x0031, 0x0e04, 0x1031, 0x2031, 0x0032, 0x0e05, 0x1032, 0x2032],
    [0x0033, 0x0e06, 0x1033, 0x2033, 0x0034, 0x0e07, 0x1034, 0x2034],
    [0x0035, 0x0e08, 0x1035, 0x2035, 0x0036, 0x0e09, 0x1036, 0x2036],
    [0x0037, 0x0e0a, 0x1037, 0x2037, 0x0038, 0x0e0b, 0x1038, 0x2038],
    [0x0039, 0x0f04, 0x1039, 0x2039, 0x003a, 0x0f05, 0x103a, 0x203a],
    [0x003b, 0x0f06, 0x103b, 0x203b, 0x003c, 0x0f07, 0x103c, 0x203c],
    [0x0801, 0x0f08, 0x103d, 0x203d, 0x1001, 0x0f09, 0x103e, 0x203e],
    [0x1801, 0x0f0a, 0x103f, 0x203f, 0x2001, 0x0f0b, 0x1040, 0x2040]
  ]

  /** What the format says the entry of a copy tag is. */
  function Entry(tag: nat): nat {
    if tag % 4 == 1 then tag / 4 % 8 + 4 + 256 * (tag / 32) + 2048
    else if tag % 4 == 2 then tag / 4 + 1 + 2 * 2048
    else tag / 4 + 1 + 4 * 2048
  }

  ghost predicate RowOk(row: seq<nat>, r: nat) {
    && |row| == 8
    && row[1] == Entry(8 * r + 1) && row[2] == Entry(8 * r + 2) && row[3] == Entry(8 * r + 3)
    && row[5] == Entry(8 * r + 5) && row[6] == Entry(8 * r + 6) && row[7] == Entry(8 * r + 7)
  }

  // The rows, a few at a time.

  lemma Rows0To3(r: nat)
    requires 0 <= r < 4
    ensures |ROWS| == 32 && RowOk(ROWS[r], r)
  {
    match r
    case 0 =>
    case 1 =>
    case 2 =>
    case 3 =>
    case _ =>
  }

  lemma Rows4To7(r: nat)
    requires 4 <= r < 8
    ensures |ROWS| == 32 && RowOk(ROWS[r], r)
  {
    match r
    case 4 =>
    case 5 =>
    case 6 =>
    case 7 =>
    case _ =>
  }

  lemma Rows8To11(r: nat)
    requires 8 <= r < 12
    ensures |ROWS| == 32 && RowOk(ROWS[r], r)
  {
    match r
    case 8 =>
    case 9 =>
    case 10 =>
    case 11 =>
    case _ =>
  }

  lemma Rows12To15(r: nat)
    requires 12 <= r < 16
    ensures |ROWS| == 32 && RowOk(ROWS[r], r)
  {
    match r
    case 12 =>
    case 13 =>
    case 14 =>
    case 15 =>
    case _ =>
  }

  lemma Rows16To19(r: nat)
    requires 16 <= r < 20
    ensures |ROWS| == 32 && RowOk(ROWS[r], r)
  {
    match r
    case 16 =>
    case 17 =>
    case 18 =>
    case 19 =>
    case _ =>
  }

  lemma Rows20To23(r: nat)
    requires 20 <= r < 24
    ensures |ROWS| == 32 && RowOk(ROWS[r], r)
  {
    match r
    case 20 =>
    case 21 =>
    case 22 =>
    case 23 =>
    case _ =>
  }

  lemma Rows24To27(r: nat)
    requires 24 <= r < 28
    ensures |ROWS| == 32 && RowOk(ROWS[r], r)
  {
    match r
    case 24 =>
    case 25 =>
    case 26 =>
    case 27 =>
    case _ =>
  }

  lemma Rows28To31(r: nat)
    requires 28 <= r < 32
    ensures |ROWS| == 32 && RowOk(ROWS[r], r)
  {
    match r
    case 28 =>
    case 29 =>
    case 30 =>
    case 31 =>
    case _ =>
  }

  lemma RowsAgree(r: nat)
    requires r < 32
    ensures |ROWS| == 32 && RowOk(ROWS[r], r)
  {
    hide ROWS, RowOk;
    if r < 4 {
      Rows0To3(r);
    } else if r < 8 {
      Rows4To7(r);
    } else if r < 12 {
      Rows8To11(r);
    } else if r < 16 {
      Rows12To15(r);
    } else if r < 20 {
      Rows16To19(r);
    } else if r < 24 {
      Rows20To23(r);
    } else if r < 28 {
      Rows24To27(r);
    } else {
      Rows28To31(r);
    }
  }

  /** char_table. */
  function CharTable(tag: byte): nat {
    RowsAgree(tag / 8);
    ROWS[tag / 8][tag % 8]
  }

  lemma RowColumn(row: seq<nat>, r: nat, c: nat)
    requires RowOk(row, r) && c < 8 && c % 4 != 0
    ensures row[c] == Entry(8 * r + c)
  {
    hide Entry;
    assert c == 1 || c == 2 || c == 3 || c == 5 || c == 6 || c == 7;
  }

  lemma TableCell(r: nat, c: nat)
    requires r < 32 && c < 8 && c % 4 != 0
    ensures |ROWS| == 32 && |ROWS[r]| == 8 && ROWS[r][c] == Entry(8 * r + c)
  {
    hide ROWS;
    RowsAgree(r);
    RowColumn(ROWS[r], r, c);
  }

  lemma TagSplit(tag: byte)
    ensures tag / 8 < 32 && tag == 8 * (tag / 8) + tag % 8 && tag % 8 % 4 == tag % 4
  {
  }

  lemma TableEntry(tag: byte)
    requires tag % 4 != 0
    ensures CharTable(tag) == Entry(tag)
  {
    hide ROWS, Entry, RowOk;
    TagSplit(tag);
    TableCell(tag / 8, tag % 8);
  }

  // The fields of an entry: `opword & 0xff`, `opword & 0x700` and `opword >> 11`.

  function LengthField(opword: nat): nat {
    opword % 256
  }

  function OffsetField(opword: nat): nat {
    opword / 256 % 8 * 256
  }

  function ExtraField(opword: nat): nat {
    opword / 2048
  }

  /** Looking a copy tag up yields what the format says: the number of bytes that follow, the length,
      and the part of the offset that the tag holds; together with the trailer it fits a word. */
  lemma TableIsFormat(tag: byte, field: nat)
    requires tag % 4 != 0
    ensures ExtraField(CharTable(tag)) == ExtraBytes(tag)
    ensures Copy(field + OffsetField(CharTable(tag)), LengthField(CharTable(tag))) == CopyElement(tag, field)
    ensures 1 <= LengthField(CharTable(tag)) <= 64
    ensures field < Pow256(ExtraBytes(tag)) ==> field + OffsetField(CharTable(tag)) < 0x1_0000_0000
  {
    hide CharTable, ROWS, RowOk;
    TableEntry(tag);
    EntryFields(tag);
    Pow256Values();
    hide Entry;
  }

  lemma EntryFields(tag: byte)
    requires tag % 4 != 0
    ensures Entry(tag) / 2048 == ExtraBytes(tag)
    ensures Entry(tag) / 256 % 8 == if tag % 4 == 1 then tag / 32 else 0
    ensures Entry(tag) % 256 == if tag % 4 == 1 then tag / 4 % 8 + 4 else tag / 4 + 1
  {
    if tag % 4 == 1 {
      PackedEntry(tag / 4 % 8 + 4, tag / 32, 1);
    } else if tag % 4 == 2 {
      PackedEntry(tag / 4 + 1, 0, 2);
    } else {
      PackedEntry(tag / 4 + 1, 0, 4);
    }
  }

  lemma PackedEntry(len: nat, high: nat, extra: nat)
    requires len < 256 && high < 8
    ensures (len + 256 * high + 2048 * extra) / 2048 == extra
    ensures (len + 256 * high + 2048 * extra) / 256 % 8 == high
    ensures (len + 256 * high + 2048 * extra) % 256 == len
  {
    var w := len + 256 * high + 2048 * extra;
    assert w / 256 == high + 8 * extra;
  }
}
