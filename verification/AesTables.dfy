/** The substitution tables of AES, which undo each other. */
module AesTables {
  import opened Bits

  /** Entry i of a row of sixteen. */
  function Row(i: nat, c0: byte, c1: byte, c2: byte, c3: byte, c4: byte, c5: byte, c6: byte, c7: byte,
               c8: byte, c9: byte, c10: byte, c11: byte, c12: byte, c13: byte, c14: byte, c15: byte): byte {
    if i < 8 then
      (if i < 4 then (if i < 2 then (if i < 1 then c0 else c1) else (if i < 3 then c2 else c3))
       else (if i < 6 then (if i < 5 then c4 else c5) else (if i < 7 then c6 else c7)))
    else
      (if i < 12 then (if i < 10 then (if i < 9 then c8 else c9) else (if i < 11 then c10 else c11))
       else (if i < 14 then (if i < 13 then c12 else c13) else (if i < 15 then c14 else c15)))
  }

  /** The table sbox. */
  function Sbox(x: byte): byte {
    match x / 16
    case 0 => Row(x % 16, 0x63, 0x7c, 0x77, 0x7b, 0xf2, 0x6b, 0x6f, 0xc5, 0x30, 0x01, 0x67, 0x2b, 0xfe, 0xd7, 0xab, 0x76)
    case 1 => Row(x % 16, 0xca, 0x82, 0xc9, 0x7d, 0xfa, 0x59, 0x47, 0xf0, 0xad, 0xd4, 0xa2, 0xaf, 0x9c, 0xa4, 0x72, 0xc0)
    case 2 => Row(x % 16, 0xb7, 0xfd, 0x93, 0x26, 0x36, 0x3f, 0xf7, 0xcc, 0x34, 0xa5, 0xe5, 0xf1, 0x71, 0xd8, 0x31, 0x15)
    case 3 => Row(x % 16, 0x04, 0xc7, 0x23, 0xc3, 0x18, 0x96, 0x05, 0x9a, 0x07, 0x12, 0x80, 0xe2, 0xeb, 0x27, 0xb2, 0x75)
    case 4 => Row(x % 16, 0x09, 0x83, 0x2c, 0x1a, 0x1b, 0x6e, 0x5a, 0xa0, 0x52, 0x3b, 0xd6, 0xb3, 0x29, 0xe3, 0x2f, 0x84)
    case 5 => Row(x % 16, 0x53, 0xd1, 0x00, 0xed, 0x20, 0xfc, 0xb1, 0x5b, 0x6a, 0xcb, 0xbe, 0x39, 0x4a, 0x4c, 0x58, 0xcf)
    case 6 => Row(x % 16, 0xd0, 0xef, 0xaa, 0xfb, 0x43, 0x4d, 0x33, 0x85, 0x45, 0xf9, 0x02, 0x7f, 0x50, 0x3c, 0x9f, 0xa8)
    case 7 => Row(x % 16, 0x51, 0xa3, 0x40, 0x8f, 0x92, 0x9d, 0x38, 0xf5, 0xbc, 0xb6, 0xda, 0x21, 0x10, 0xff, 0xf3, 0xd2)
    case 8 => Row(x % 16, 0xcd, 0x0c, 0x13, 0xec, 0x5f, 0x97, 0x44, 0x17, 0xc4, 0xa7, 0x7e, 0x3d, 0x64, 0x5d, 0x19, 0x73)
    case 9 => Row(x % 16, 0x60, 0x81, 0x4f, 0xdc, 0x22, 0x2a, 0x90, 0x88, 0x46, 0xee, 0xb8, 0x14, 0xde, 0x5e, 0x0b, 0xdb)
    case 10 => Row(x % 16, 0xe0, 0x32, 0x3a, 0x0a, 0x49, 0x06, 0x24, 0x5c, 0xc2, 0xd3, 0xac, 0x62, 0x91, 0x95, 0xe4, 0x79)
    case 11 => Row(x % 16, 0xe7, 0xc8, 0x37, 0x6d, 0x8d, 0xd5, 0x4e, 0xa9, 0x6c, 0x56, 0xf4, 0xea, 0x65, 0x7a, 0xae, 0x08)
    case 12 => Row(x % 16, 0xba, 0x78, 0x25, 0x2e, 0x1c, 0xa6, 0xb4, 0xc6, 0xe8, 0xdd, 0x74, 0x1f, 0x4b, 0xbd, 0x8b, 0x8a)
    case 13 => Row(x % 16, 0x70, 0x3e, 0xb5, 0x66, 0x48, 0x03, 0xf6, 0x0e, 0x61, 0x35, 0x57, 0xb9, 0x86, 0xc1, 0x1d, 0x9e)
    case 14 => Row(x % 16, 0xe1, 0xf8, 0x98, 0x11, 0x69, 0xd9, 0x8e, 0x94, 0x9b, 0x1e, 0x87, 0xe9, 0xce, 0x55, 0x28, 0xdf)
    case _ => Row(x % 16, 0x8c, 0xa1, 0x89, 0x0d, 0xbf, 0xe6, 0x42, 0x68, 0x41, 0x99, 0x2d, 0x0f, 0xb0, 0x54, 0xbb, 0x16)
  }

  /** The table rsbox. */
  function InvSbox(x: byte): byte {
    match x / 16
    case 0 => Row(x % 16, 0x52, 0x09, 0x6a, 0xd5, 0x30, 0x36, 0xa5, 0x38, 0xbf, 0x40, 0xa3, 0x9e, 0x81, 0xf3, 0xd7, 0xfb)
    case 1 => Row(x % 16, 0x7c, 0xe3, 0x39, 0x82, 0x9b, 0x2f, 0xff, 0x87, 0x34, 0x8e, 0x43, 0x44, 0xc4, 0xde, 0xe9, 0xcb)
    case 2 => Row(x % 16, 0x54, 0x7b, 0x94, 0x32, 0xa6, 0xc2, 0x23, 0x3d, 0xee, 0x4c, 0x95, 0x0b, 0x42, 0xfa, 0xc3, 0x4e)
    case 3 => Row(x % 16, 0x08, 0x2e, 0xa1, 0x66, 0x28, 0xd9, 0x24, 0xb2, 0x76, 0x5b, 0xa2, 0x49, 0x6d, 0x8b, 0xd1, 0x25)
    case 4 => Row(x % 16, 0x72, 0xf8, 0xf6, 0x64, 0x86, 0x68, 0x98, 0x16, 0xd4, 0xa4, 0x5c, 0xcc, 0x5d, 0x65, 0xb6, 0x92)
    case 5 => Row(x % 16, 0x6c, 0x70, 0x48, 0x50, 0xfd, 0xed, 0xb9, 0xda, 0x5e, 0x15, 0x46, 0x57, 0xa7, 0x8d, 0x9d, 0x84)
    case 6 => Row(x % 16, 0x90, 0xd8, 0xab, 0x00, 0x8c, 0xbc, 0xd3, 0x0a, 0xf7, 0xe4, 0x58, 0x05, 0xb8, 0xb3, 0x45, 0x06)
    case 7 => Row(x % 16, 0xd0, 0x2c, 0x1e, 0x8f, 0xca, 0x3f, 0x0f, 0x02, 0xc1, 0xaf, 0xbd, 0x03, 0x01, 0x13, 0x8a, 0x6b)
    case 8 => Row(x % 16, 0x3a, 0x91, 0x11, 0x41, 0x4f, 0x67, 0xdc, 0xea, 0x97, 0xf2, 0xcf, 0xce, 0xf0, 0xb4, 0xe6, 0x73)
    case 9 => Row(x % 16, 0x96, 0xac, 0x74, 0x22, 0xe7, 0xad, 0x35, 0x85, 0xe2, 0xf9, 0x37, 0xe8, 0x1c, 0x75, 0xdf, 0x6e)
    case 10 => Row(x % 16, 0x47, 0xf1, 0x1a, 0x71, 0x1d, 0x29, 0xc5, 0x89, 0x6f, 0xb7, 0x62, 0x0e, 0xaa, 0x18, 0xbe, 0x1b)
    case 11 => Row(x % 16, 0xfc, 0x56, 0x3e, 0x4b, 0xc6, 0xd2, 0x79, 0x20, 0x9a, 0xdb, 0xc0, 0xfe, 0x78, 0xcd, 0x5a, 0xf4)
    case 12 => Row(x % 16, 0x1f, 0xdd, 0xa8, 0x33, 0x88, 0x07, 0xc7, 0x31, 0xb1, 0x12, 0x10, 0x59, 0x27, 0x80, 0xec, 0x5f)
    case 13 => Row(x % 16, 0x60, 0x51, 0x7f, 0xa9, 0x19, 0xb5, 0x4a, 0x0d, 0x2d, 0xe5, 0x7a, 0x9f, 0x93, 0xc9, 0x9c, 0xef)
    case 14 => Row(x % 16, 0xa0, 0xe0, 0x3b, 0x4d, 0xae, 0x2a, 0xf5, 0xb0, 0xc8, 0xeb, 0xbb, 0x3c, 0x83, 0x53, 0x99, 0x61)
    case _ => Row(x % 16, 0x17, 0x2b, 0x04, 0x7e, 0xba, 0x77, 0xd6, 0x26, 0xe1, 0x69, 0x14, 0x63, 0x55, 0x21, 0x0c, 0x7d)
  }

  /** The table Rcon. */
  function Rcon(i: nat): byte
    requires i <= 10
  {
    if i == 0 then 0x8d else Row(i - 1, 0x01, 0x02, 0x04, 0x08, 0x10, 0x20, 0x40, 0x80, 0x1b, 0x36, 0, 0, 0, 0, 0, 0)
  }

  /** Each table undoes the other. */
  lemma SboxInverse(x: byte)
    ensures InvSbox(Sbox(x)) == x
    ensures Sbox(InvSbox(x)) == x
  {
    match x / 16
    case 0 => Entries0(x);
    case 1 => Entries16(x);
    case 2 => Entries32(x);
    case 3 => Entries48(x);
    case 4 => Entries64(x);
    case 5 => Entries80(x);
    case 6 => Entries96(x);
    case 7 => Entries112(x);
    case 8 => Entries128(x);
    case 9 => Entries144(x);
    case 10 => Entries160(x);
    case 11 => Entries176(x);
    case 12 => Entries192(x);
    case 13 => Entries208(x);
    case 14 => Entries224(x);
    case _ => Entries240(x);
  }

  lemma Entries0(x: byte)
    requires x < 16
    ensures InvSbox(Sbox(x)) == x && Sbox(InvSbox(x)) == x
  {
  }

  lemma Entries16(x: byte)
    requires 16 <= x < 32
    ensures InvSbox(Sbox(x)) == x && Sbox(InvSbox(x)) == x
  {
  }

  lemma Entries32(x: byte)
    requires 32 <= x < 48
    ensures InvSbox(Sbox(x)) == x && Sbox(InvSbox(x)) == x
  {
  }

  lemma Entries48(x: byte)
    requires 48 <= x < 64
    ensures InvSbox(Sbox(x)) == x && Sbox(InvSbox(x)) == x
  {
  }

  lemma Entries64(x: byte)
    requires 64 <= x < 80
    ensures InvSbox(Sbox(x)) == x && Sbox(InvSbox(x)) == x
  {
  }

  lemma Entries80(x: byte)
    requires 80 <= x < 96
    ensures InvSbox(Sbox(x)) == x && Sbox(InvSbox(x)) == x
  {
  }

  lemma Entries96(x: byte)
    requires 96 <= x < 112
    ensures InvSbox(Sbox(x)) == x && Sbox(InvSbox(x)) == x
  {
  }

  lemma Entries112(x: byte)
    requires 112 <= x < 128
    ensures InvSbox(Sbox(x)) == x && Sbox(InvSbox(x)) == x
  {
  }

  lemma Entries128(x: byte)
    requires 128 <= x < 144
    ensures InvSbox(Sbox(x)) == x && Sbox(InvSbox(x)) == x
  {
  }

  lemma Entries144(x: byte)
    requires 144 <= x < 160
    ensures InvSbox(Sbox(x)) == x && Sbox(InvSbox(x)) == x
  {
  }

  lemma Entries160(x: byte)
    requires 160 <= x < 176
    ensures InvSbox(Sbox(x)) == x && Sbox(InvSbox(x)) == x
  {
  }

  lemma Entries176(x: byte)
    requires 176 <= x < 192
    ensures InvSbox(Sbox(x)) == x && Sbox(InvSbox(x)) == x
  {
  }

  lemma Entries192(x: byte)
    requires 192 <= x < 208
    ensures InvSbox(Sbox(x)) == x && Sbox(InvSbox(x)) == x
  {
  }

  lemma Entries208(x: byte)
    requires 208 <= x < 224
    ensures InvSbox(Sbox(x)) == x && Sbox(InvSbox(x)) == x
  {
  }

  lemma Entries224(x: byte)
    requires 224 <= x < 240
    ensures InvSbox(Sbox(x)) == x && Sbox(InvSbox(x)) == x
  {
  }

  lemma Entries240(x: byte)
    requires 240 <= x
    ensures InvSbox(Sbox(x)) == x && Sbox(InvSbox(x)) == x
  {
  }
}
