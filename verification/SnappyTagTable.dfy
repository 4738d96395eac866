/**
 `char_table`: the decoder's lookup table, against the meaning of the tag byte.
 */
module SnappyTagTable {
  import opened Bytes
  import opened SnappyFormat

  const ROW_0: seq<uint16> := [
    0x0001, 0x0804, 0x1001, 0x2001, 0x0002, 0x0805, 0x1002, 0x2002,
    0x0003, 0x0806, 0x1003, 0x2003, 0x0004, 0x0807, 0x1004, 0x2004]
  const ROW_1: seq<uint16> := [
    0x0005, 0x0808, 0x1005, 0x2005, 0x0006, 0x0809, 0x1006, 0x2006,
    0x0007, 0x080a, 0x1007, 0x2007, 0x0008, 0x080b, 0x1008, 0x2008]
  const ROW_2: seq<uint16> := [
    0x0009, 0x0904, 0x1009, 0x2009, 0x000a, 0x0905, 0x100a, 0x200a,
    0x000b, 0x0906, 0x100b, 0x200b, 0x000c, 0x0907, 0x100c, 0x200c]
  const ROW_3: seq<uint16> := [
    0x000d, 0x0908, 0x100d, 0x200d, 0x000e, 0x0909, 0x100e, 0x200e,
    0x000f, 0x090a, 0x100f, 0x200f, 0x0010, 0x090b, 0x1010, 0x2010]
  const ROW_4: seq<uint16> := [
    0x0011, 0x0a04, 0x1011, 0x2011, 0x0012, 0x0a05, 0x1012, 0x2012,
    0x0013, 0x0a06, 0x1013, 0x2013, 0x0014, 0x0a07, 0x1014, 0x2014]
  const ROW_5: seq<uint16> := [
    0x0015, 0x0a08, 0x1015, 0x2015, 0x0016, 0x0a09, 0x1016, 0x2016,
    0x0017, 0x0a0a, 0x1017, 0x2017, 0x0018, 0x0a0b, 0x1018, 0x2018]
  const ROW_6: seq<uint16> := [
    0x0019, 0x0b04, 0x1019, 0x2019, 0x001a, 0x0b05, 0x101a, 0x201a,
    0x001b, 0x0b06, 0x101b, 0x201b, 0x001c, 0x0b07, 0x101c, 0x201c]
  const ROW_7: seq<uint16> := [
    0x001d, 0x0b08, 0x101d, 0x201d, 0x001e, 0x0b09, 0x101e, 0x201e,
    0x001f, 0x0b0a, 0x101f, 0x201f, 0x0020, 0x0b0b, 0x1020, 0x2020]
  const ROW_8: seq<uint16> := [
    0x0021, 0x0c04, 0x1021, 0x2021, 0x0022, 0x0c05, 0x1022, 0x2022,
    0x0023, 0x0c06, 0x1023, 0x2023, 0x0024, 0x0c07, 0x1024, 0x2024]
  const ROW_9: seq<uint16> := [
    0x0025, 0x0c08, 0x1025, 0x2025, 0x0026, 0x0c09, 0x1026, 0x2026,
    0x0027, 0x0c0a, 0x1027, 0x2027, 0x0028, 0x0c0b, 0x1028, 0x2028]
  const ROW_10: seq<uint16> := [
    0x0029, 0x0d04, 0x1029, 0x2029, 0x002a, 0x0d05, 0x102a, 0x202a,
    0x002b, 0x0d06, 0x102b, 0x202b, 0x002c, 0x0d07, 0x102c, 0x202c]
  const ROW_11: seq<uint16> := [
    0x002d, 0x0d08, 0x102d, 0x202d, 0x002e, 0x0d09, 0x102e, 0x202e,
    0x002f, 0x0d0a, 0x102f, 0x202f, 0x0030, 0x0d0b, 0x1030, 0x2030]
  const ROW_12: seq<uint16> := [
    0x0031, 0x0e04, 0x1031, 0x2031, 0x0032, 0x0e05, 0x1032, 0x2032,
    0x0033, 0x0e06, 0x1033, 0x2033, 0x0034, 0x0e07, 0x1034, 0x2034]
  const ROW_13: seq<uint16> := [
    0x0035, 0x0e08, 0x1035, 0x2035, 0x0036, 0x0e09, 0x1036, 0x2036,
    0x0037, 0x0e0a, 0x1037, 0x2037, 0x0038, 0x0e0b, 0x1038, 0x2038]
  const ROW_14: seq<uint16> := [
    0x0039, 0x0f04, 0x1039, 0x2039, 0x003a, 0x0f05, 0x103a, 0x203a,
    0x003b, 0x0f06, 0x103b, 0x203b, 0x003c, 0x0f07, 0x103c, 0x203c]
  const ROW_15: seq<uint16> := [
    0x0801, 0x0f08, 0x103d, 0x203d, 0x1001, 0x0f09, 0x103e, 0x203e,
    0x1801, 0x0f0a, 0x103f, 0x203f, 0x2001, 0x0f0b, 0x1040, 0x2040]

  const CHAR_TABLE: seq<seq<uint16>> := [
    ROW_0, ROW_1, ROW_2, ROW_3, ROW_4, ROW_5, ROW_6, ROW_7,
    ROW_8, ROW_9, ROW_10, ROW_11, ROW_12, ROW_13, ROW_14, ROW_15
  ]

  /** char_table[c] */
  function CharTable(c: byte): uint16 {
    CHAR_TABLE[c / 16][c % 16]
  }

  /** Bits 0..7: length; bits 8..10: offset / 256; bits 11..13: bytes after the tag. */
  function Entry(c: byte): nat {
    var length := if c % 4 != LITERAL then CopyLength(c) else if c / 4 < 60 then c / 4 + 1 else 1;
    length + (if c % 4 == COPY_1_BYTE_OFFSET then 256 * (c / 32) else 0) + 2048 * TrailerSize(c)
  }

  lemma Row0(c: byte)
    requires c / 16 == 0
    ensures |ROW_0| == 16 && ROW_0[c % 16] == Entry(c)
  {
  }

  lemma Row1(c: byte)
    requires c / 16 == 1
    ensures |ROW_1| == 16 && ROW_1[c % 16] == Entry(c)
  {
  }

  lemma Row2(c: byte)
    requires c / 16 == 2
    ensures |ROW_2| == 16 && ROW_2[c % 16] == Entry(c)
  {
  }

  lemma Row3(c: byte)
    requires c / 16 == 3
    ensures |ROW_3| == 16 && ROW_3[c % 16] == Entry(c)
  {
  }

  lemma Row4(c: byte)
    requires c / 16 == 4
    ensures |ROW_4| == 16 && ROW_4[c % 16] == Entry(c)
  {
  }

  lemma Row5(c: byte)
    requires c / 16 == 5
    ensures |ROW_5| == 16 && ROW_5[c % 16] == Entry(c)
  {
  }

  lemma Row6(c: byte)
    requires c / 16 == 6
    ensures |ROW_6| == 16 && ROW_6[c % 16] == Entry(c)
  {
  }

  lemma Row7(c: byte)
    requires c / 16 == 7
    ensures |ROW_7| == 16 && ROW_7[c % 16] == Entry(c)
  {
  }

  lemma Row8(c: byte)
    requires c / 16 == 8
    ensures |ROW_8| == 16 && ROW_8[c % 16] == Entry(c)
  {
  }

  lemma Row9(c: byte)
    requires c / 16 == 9
    ensures |ROW_9| == 16 && ROW_9[c % 16] == Entry(c)
  {
  }

  lemma Row10(c: byte)
    requires c / 16 == 10
    ensures |ROW_10| == 16 && ROW_10[c % 16] == Entry(c)
  {
  }

  lemma Row11(c: byte)
    requires c / 16 == 11
    ensures |ROW_11| == 16 && ROW_11[c % 16] == Entry(c)
  {
  }

  lemma Row12(c: byte)
    requires c / 16 == 12
    ensures |ROW_12| == 16 && ROW_12[c % 16] == Entry(c)
  {
  }

  lemma Row13(c: byte)
    requires c / 16 == 13
    ensures |ROW_13| == 16 && ROW_13[c % 16] == Entry(c)
  {
  }

  lemma Row14(c: byte)
    requires c / 16 == 14
    ensures |ROW_14| == 16 && ROW_14[c % 16] == Entry(c)
  {
  }

  lemma Row15(c: byte)
    requires c / 16 == 15
    ensures |ROW_15| == 16 && ROW_15[c % 16] == Entry(c)
  {
  }

  /** Every entry of the table is what the format says about that tag byte. */
  lemma TableMatchesFormat(c: byte)
    ensures CharTable(c) == Entry(c)
  {
    hide Entry, ROW_0, ROW_1, ROW_2, ROW_3, ROW_4, ROW_5, ROW_6, ROW_7, ROW_8, ROW_9, ROW_10, ROW_11, ROW_12, ROW_13,
      ROW_14, ROW_15;
    match c / 16
    case 0 => Row0(c);
    case 1 => Row1(c);
    case 2 => Row2(c);
    case 3 => Row3(c);
    case 4 => Row4(c);
    case 5 => Row5(c);
    case 6 => Row6(c);
    case 7 => Row7(c);
    case 8 => Row8(c);
    case 9 => Row9(c);
    case 10 => Row10(c);
    case 11 => Row11(c);
    case 12 => Row12(c);
    case 13 => Row13(c);
    case 14 => Row14(c);
    case _ => Row15(c);
  }

  lemma PackedFields(length: nat, high: nat, extra: nat)
    requires length < 256 && high < 8
    ensures var entry := length + 256 * high + 2048 * extra;
      entry / 2048 == extra && entry % 256 == length && entry / 256 % 8 == high
  {
  }

  /** entry >> 11 */
  function Extra(entry: uint16): nat {
    entry / 2048
  }

  /** entry & 0xff */
  function Length(entry: uint16): nat {
    entry % 256
  }

  /** entry & 0x700 */
  function HighOffset(entry: uint16): nat {
    256 * (entry / 256 % 8)
  }

  /** The three fields the decoder takes out of an entry. */
  lemma TableFields(c: byte)
    ensures Extra(CharTable(c)) == TrailerSize(c) <= 4
    ensures c % 4 != LITERAL ==> Length(CharTable(c)) == CopyLength(c)
    ensures c % 4 != LITERAL ==>
      HighOffset(CharTable(c)) == if c % 4 == COPY_1_BYTE_OFFSET then 256 * (c / 32) else 0
  {
    hide CharTable;
    TableMatchesFormat(c);
    var length := if c % 4 != LITERAL then CopyLength(c) else if c / 4 < 60 then c / 4 + 1 else 1;
    PackedFields(length, if c % 4 == COPY_1_BYTE_OFFSET then c / 32 else 0, TrailerSize(c));
  }
}
