/** The tag lookup table of the decoder, entry by entry, and the proof that it is the format. */
module SnappyTagTable {
  import opened Basics
  import opened SnappyFormat

  /** `char_table`, in eight parts of 32 tag bytes, one line for four entries. */
  function CharTable(c: byte): nat {
    if c < 128 then
      if c < 64 then if c < 32 then Part0(c) else Part1(c - 32)
      else if c < 96 then Part2(c - 64) else Part3(c - 96)
    else
      if c < 192 then if c < 160 then Part4(c - 128) else Part5(c - 160)
      else if c < 224 then Part6(c - 192) else Part7(c - 224)
  }

  function Part0(c: byte): nat {
    match c
    case 0 => 0x0001 case 1 => 0x0804 case 2 => 0x1001 case 3 => 0x2001
    case 4 => 0x0002 case 5 => 0x0805 case 6 => 0x1002 case 7 => 0x2002
    case 8 => 0x0003 case 9 => 0x0806 case 10 => 0x1003 case 11 => 0x2003
    case 12 => 0x0004 case 13 => 0x0807 case 14 => 0x1004 case 15 => 0x2004
    case 16 => 0x0005 case 17 => 0x0808 case 18 => 0x1005 case 19 => 0x2005
    case 20 => 0x0006 case 21 => 0x0809 case 22 => 0x1006 case 23 => 0x2006
    case 24 => 0x0007 case 25 => 0x080a case 26 => 0x1007 case 27 => 0x2007
    case 28 => 0x0008 case 29 => 0x080b case 30 => 0x1008 case _ => 0x2008
  }

  function Part1(c: byte): nat {
    match c
    case 0 => 0x0009 case 1 => 0x0904 case 2 => 0x1009 case 3 => 0x2009
    case 4 => 0x000a case 5 => 0x0905 case 6 => 0x100a case 7 => 0x200a
    case 8 => 0x000b case 9 => 0x0906 case 10 => 0x100b case 11 => 0x200b
    case 12 => 0x000c case 13 => 0x0907 case 14 => 0x100c case 15 => 0x200c
    case 16 => 0x000d case 17 => 0x0908 case 18 => 0x100d case 19 => 0x200d
    case 20 => 0x000e case 21 => 0x0909 case 22 => 0x100e case 23 => 0x200e
    case 24 => 0x000f case 25 => 0x090a case 26 => 0x100f case 27 => 0x200f
    case 28 => 0x0010 case 29 => 0x090b case 30 => 0x1010 case _ => 0x2010
  }

  function Part2(c: byte): nat {
    match c
    case 0 => 0x0011 case 1 => 0x0a04 case 2 => 0x1011 case 3 => 0x2011
    case 4 => 0x0012 case 5 => 0x0a05 case 6 => 0x1012 case 7 => 0x2012
    case 8 => 0x0013 case 9 => 0x0a06 case 10 => 0x1013 case 11 => 0x2013
    case 12 => 0x0014 case 13 => 0x0a07 case 14 => 0x1014 case 15 => 0x2014
    case 16 => 0x0015 case 17 => 0x0a08 case 18 => 0x1015 case 19 => 0x2015
    case 20 => 0x0016 case 21 => 0x0a09 case 22 => 0x1016 case 23 => 0x2016
    case 24 => 0x0017 case 25 => 0x0a0a case 26 => 0x1017 case 27 => 0x2017
    case 28 => 0x0018 case 29 => 0x0a0b case 30 => 0x1018 case _ => 0x2018
  }

  function Part3(c: byte): nat {
    match c
    case 0 => 0x0019 case 1 => 0x0b04 case 2 => 0x1019 case 3 => 0x2019
    case 4 => 0x001a case 5 => 0x0b05 case 6 => 0x101a case 7 => 0x201a
    case 8 => 0x001b case 9 => 0x0b06 case 10 => 0x101b case 11 => 0x201b
    case 12 => 0x001c case 13 => 0x0b07 case 14 => 0x101c case 15 => 0x201c
    case 16 => 0x001d case 17 => 0x0b08 case 18 => 0x101d case 19 => 0x201d
    case 20 => 0x001e case 21 => 0x0b09 case 22 => 0x101e case 23 => 0x201e
    case 24 => 0x001f case 25 => 0x0b0a case 26 => 0x101f case 27 => 0x201f
    case 28 => 0x0020 case 29 => 0x0b0b case 30 => 0x1020 case _ => 0x2020
  }

  function Part4(c: byte): nat {
    match c
    case 0 => 0x0021 case 1 => 0x0c04 case 2 => 0x1021 case 3 => 0x2021
    case 4 => 0x0022 case 5 => 0x0c05 case 6 => 0x1022 case 7 => 0x2022
    case 8 => 0x0023 case 9 => 0x0c06 case 10 => 0x1023 case 11 => 0x2023
    case 12 => 0x0024 case 13 => 0x0c07 case 14 => 0x1024 case 15 => 0x2024
    case 16 => 0x0025 case 17 => 0x0c08 case 18 => 0x1025 case 19 => 0x2025
    case 20 => 0x0026 case 21 => 0x0c09 case 22 => 0x1026 case 23 => 0x2026
    case 24 => 0x0027 case 25 => 0x0c0a case 26 => 0x1027 case 27 => 0x2027
    case 28 => 0x0028 case 29 => 0x0c0b case 30 => 0x1028 case _ => 0x2028
  }

  function Part5(c: byte): nat {
    match c
    case 0 => 0x0029 case 1 => 0x0d04 case 2 => 0x1029 case 3 => 0x2029
    case 4 => 0x002a case 5 => 0x0d05 case 6 => 0x102a case 7 => 0x202a
    case 8 => 0x002b case 9 => 0x0d06 case 10 => 0x102b case 11 => 0x202b
    case 12 => 0x002c case 13 => 0x0d07 case 14 => 0x102c case 15 => 0x202c
    case 16 => 0x002d case 17 => 0x0d08 case 18 => 0x102d case 19 => 0x202d
    case 20 => 0x002e case 21 => 0x0d09 case 22 => 0x102e case 23 => 0x202e
    case 24 => 0x002f case 25 => 0x0d0a case 26 => 0x102f case 27 => 0x202f
    case 28 => 0x0030 case 29 => 0x0d0b case 30 => 0x1030 case _ => 0x2030
  }

  function Part6(c: byte): nat {
    match c
    case 0 => 0x0031 case 1 => 0x0e04 case 2 => 0x1031 case 3 => 0x2031
    case 4 => 0x0032 case 5 => 0x0e05 case 6 => 0x1032 case 7 => 0x2032
    case 8 => 0x0033 case 9 => 0x0e06 case 10 => 0x1033 case 11 => 0x2033
    case 12 => 0x0034 case 13 => 0x0e07 case 14 => 0x1034 case 15 => 0x2034
    case 16 => 0x0035 case 17 => 0x0e08 case 18 => 0x1035 case 19 => 0x2035
    case 20 => 0x0036 case 21 => 0x0e09 case 22 => 0x1036 case 23 => 0x2036
    case 24 => 0x0037 case 25 => 0x0e0a case 26 => 0x1037 case 27 => 0x2037
    case 28 => 0x0038 case 29 => 0x0e0b case 30 => 0x1038 case _ => 0x2038
  }

  function Part7(c: byte): nat {
    match c
    case 0 => 0x0039 case 1 => 0x0f04 case 2 => 0x1039 case 3 => 0x2039
    case 4 => 0x003a case 5 => 0x0f05 case 6 => 0x103a case 7 => 0x203a
    case 8 => 0x003b case 9 => 0x0f06 case 10 => 0x103b case 11 => 0x203b
    case 12 => 0x003c case 13 => 0x0f07 case 14 => 0x103c case 15 => 0x203c
    case 16 => 0x0801 case 17 => 0x0f08 case 18 => 0x103d case 19 => 0x203d
    case 20 => 0x1001 case 21 => 0x0f09 case 22 => 0x103e case 23 => 0x203e
    case 24 => 0x1801 case 25 => 0x0f0a case 26 => 0x103f case 27 => 0x203f
    case 28 => 0x2001 case 29 => 0x0f0b case 30 => 0x1040 case _ => 0x2040
  }

  /** The entry the format calls for: bits 0 to 7 hold the length, bits 8 to 10 the offset
      divided by 256, bits 11 and up the number of extra bytes. A long literal has length 1. */
  function Entry(c: byte): nat {
    TagExtra(c) * 2048
    + (if c % 4 == 1 then c / 32 * 256 else 0)
    + (if c % 4 != 0 then CopyLength(c) else if c / 4 < 60 then c / 4 + 1 else 1)
  }

  lemma Part0IsFormat(c: byte)
    requires c < 32
    ensures Part0(c) == Entry(c + 0)
  {
  }

  lemma Part1IsFormat(c: byte)
    requires c < 32
    ensures Part1(c) == Entry(c + 32)
  {
  }

  lemma Part2IsFormat(c: byte)
    requires c < 32
    ensures Part2(c) == Entry(c + 64)
  {
  }

  lemma Part3IsFormat(c: byte)
    requires c < 32
    ensures Part3(c) == Entry(c + 96)
  {
  }

  lemma Part4IsFormat(c: byte)
    requires c < 32
    ensures Part4(c) == Entry(c + 128)
  {
  }

  lemma Part5IsFormat(c: byte)
    requires c < 32
    ensures Part5(c) == Entry(c + 160)
  {
  }

  lemma Part6IsFormat(c: byte)
    requires c < 32
    ensures Part6(c) == Entry(c + 192)
  {
  }

  lemma Part7IsFormat(c: byte)
    requires c < 32
    ensures Part7(c) == Entry(c + 224)
  {
  }

  /** Every entry of the table is what the format calls for. */
  lemma TableIsFormat(c: byte)
    ensures CharTable(c) == Entry(c)
    ensures CharTable(c) / 2048 == TagExtra(c)
    ensures c % 4 != 0 ==> CharTable(c) % 256 == CopyLength(c)
    ensures c % 4 != 0 ==> CharTable(c) / 256 % 8 * 256 == (if c % 4 == 1 then c / 32 * 256 else 0)
  {
    hide Entry, TagExtra, CopyLength, Part0, Part1, Part2, Part3, Part4, Part5, Part6, Part7;
    if c < 32 { Part0IsFormat(c); }
    else if c < 64 { Part1IsFormat(c - 32); }
    else if c < 96 { Part2IsFormat(c - 64); }
    else if c < 128 { Part3IsFormat(c - 96); }
    else if c < 160 { Part4IsFormat(c - 128); }
    else if c < 192 { Part5IsFormat(c - 160); }
    else if c < 224 { Part6IsFormat(c - 192); }
    else { Part7IsFormat(c - 224); }
    EntryFields(c);
  }

  lemma EntryFields(c: byte)
    ensures Entry(c) / 2048 == TagExtra(c)
    ensures c % 4 != 0 ==> Entry(c) % 256 == CopyLength(c)
    ensures c % 4 != 0 ==> Entry(c) / 256 % 8 * 256 == (if c % 4 == 1 then c / 32 * 256 else 0)
  {
    hide TagExtra;
    Fields(TagExtra(c), if c % 4 == 1 then c / 32 else 0,
           if c % 4 != 0 then CopyLength(c) else if c / 4 < 60 then c / 4 + 1 else 1);
  }

  lemma Fields(extra: nat, high: nat, len: nat)
    requires high < 8 && len < 256
    ensures var e := extra * 2048 + high * 256 + len; e / 2048 == extra && e % 256 == len && e / 256 % 8 == high
  {
  }
}
