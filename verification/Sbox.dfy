/** The S-box of AES: every entry is the affine image of an inverse in GF(2^8), so it is undone by the inverse S-box. */
module Sbox {
  import opened ByteField

  const SBOX: seq<bv8> :=
    ([0x63, 0x7c, 0x77, 0x7b, 0xf2, 0x6b, 0x6f, 0xc5, 0x30, 0x01, 0x67, 0x2b, 0xfe, 0xd7, 0xab, 0x76]
     + [0xca, 0x82, 0xc9, 0x7d, 0xfa, 0x59, 0x47, 0xf0, 0xad, 0xd4, 0xa2, 0xaf, 0x9c, 0xa4, 0x72, 0xc0]
     + [0xb7, 0xfd, 0x93, 0x26, 0x36, 0x3f, 0xf7, 0xcc, 0x34, 0xa5, 0xe5, 0xf1, 0x71, 0xd8, 0x31, 0x15]
     + [0x04, 0xc7, 0x23, 0xc3, 0x18, 0x96, 0x05, 0x9a, 0x07, 0x12, 0x80, 0xe2, 0xeb, 0x27, 0xb2, 0x75])
    + ([0x09, 0x83, 0x2c, 0x1a, 0x1b, 0x6e, 0x5a, 0xa0, 0x52, 0x3b, 0xd6, 0xb3, 0x29, 0xe3, 0x2f, 0x84]
     + [0x53, 0xd1, 0x00, 0xed, 0x20, 0xfc, 0xb1, 0x5b, 0x6a, 0xcb, 0xbe, 0x39, 0x4a, 0x4c, 0x58, 0xcf]
     + [0xd0, 0xef, 0xaa, 0xfb, 0x43, 0x4d, 0x33, 0x85, 0x45, 0xf9, 0x02, 0x7f, 0x50, 0x3c, 0x9f, 0xa8]
     + [0x51, 0xa3, 0x40, 0x8f, 0x92, 0x9d, 0x38, 0xf5, 0xbc, 0xb6, 0xda, 0x21, 0x10, 0xff, 0xf3, 0xd2])
    + ([0xcd, 0x0c, 0x13, 0xec, 0x5f, 0x97, 0x44, 0x17, 0xc4, 0xa7, 0x7e, 0x3d, 0x64, 0x5d, 0x19, 0x73]
     + [0x60, 0x81, 0x4f, 0xdc, 0x22, 0x2a, 0x90, 0x88, 0x46, 0xee, 0xb8, 0x14, 0xde, 0x5e, 0x0b, 0xdb]
     + [0xe0, 0x32, 0x3a, 0x0a, 0x49, 0x06, 0x24, 0x5c, 0xc2, 0xd3, 0xac, 0x62, 0x91, 0x95, 0xe4, 0x79]
     + [0xe7, 0xc8, 0x37, 0x6d, 0x8d, 0xd5, 0x4e, 0xa9, 0x6c, 0x56, 0xf4, 0xea, 0x65, 0x7a, 0xae, 0x08])
    + ([0xba, 0x78, 0x25, 0x2e, 0x1c, 0xa6, 0xb4, 0xc6, 0xe8, 0xdd, 0x74, 0x1f, 0x4b, 0xbd, 0x8b, 0x8a]
     + [0x70, 0x3e, 0xb5, 0x66, 0x48, 0x03, 0xf6, 0x0e, 0x61, 0x35, 0x57, 0xb9, 0x86, 0xc1, 0x1d, 0x9e]
     + [0xe1, 0xf8, 0x98, 0x11, 0x69, 0xd9, 0x8e, 0x94, 0x9b, 0x1e, 0x87, 0xe9, 0xce, 0x55, 0x28, 0xdf]
     + [0x8c, 0xa1, 0x89, 0x0d, 0xbf, 0xe6, 0x42, 0x68, 0x41, 0x99, 0x2d, 0x0f, 0xb0, 0x54, 0xbb, 0x16])

  function Sub(b: bv8): bv8 {
    assert |SBOX| == 256;
    SBOX[b as int]
  }

  // ---- Section 5.1.1 ----

  function RotateLeft(y: bv8, n: bv4): bv8
    requires n <= 8
  {
    (y << n) | (y >> (8 - n))
  }

  function Affine(y: bv8): bv8 {
    y ^ RotateLeft(y, 1) ^ RotateLeft(y, 2) ^ RotateLeft(y, 3) ^ RotateLeft(y, 4) ^ 0x63
  }

  // Section 5.3.2
  function AffineBack(v: bv8): bv8 { RotateLeft(v, 1) ^ RotateLeft(v, 3) ^ RotateLeft(v, 6) ^ 0x05 }

  lemma AffineBackOf(y: bv8)
    ensures AffineBack(Affine(y)) == y
  {}

  // y is the inverse of b, or both are 0
  predicate Inverses(b: bv8, y: bv8) { if b == 0 then y == 0 else Mul(b, y) == 1 }

  // The entry of b is as section 5.1.1 says: the affine image of its inverse
  ghost predicate Entry(b: bv8) { exists y :: Inverses(b, y) && Sub(b) == Affine(y) }

  // ---- Entry by entry ----

  predicate Inverts(i: nat, y: bv8) { i < 256 && Inverses(i as bv8, y) }

  ghost predicate EntryAt(t: seq<bv8>, i: nat) { i < |t| && exists y :: Inverts(i, y) && t[i] == Affine(y) }

  // The 16 entries from b on
  ghost predicate RowAt(t: seq<bv8>, b: nat) { forall i: nat :: b <= i < b + 16 && i < |t| ==> EntryAt(t, i) }

  lemma OneEntry(t: seq<bv8>, i: nat, y: bv8)
    requires i < |t| && Inverts(i, y) && t[i] == Affine(y)
    ensures EntryAt(t, i)
  {}

  lemma Assemble(t: seq<bv8>, b: nat, y0: bv8, y1: bv8, y2: bv8, y3: bv8, y4: bv8, y5: bv8, y6: bv8, y7: bv8,
                 y8: bv8, y9: bv8, ya: bv8, yb: bv8, yc: bv8, yd: bv8, ye: bv8, yf: bv8)
    requires b + 16 <= |t|
    requires t[b..b + 16] == [
      Affine(y0), Affine(y1), Affine(y2), Affine(y3), Affine(y4), Affine(y5), Affine(y6), Affine(y7),
      Affine(y8), Affine(y9), Affine(ya), Affine(yb), Affine(yc), Affine(yd), Affine(ye), Affine(yf)]
    requires Inverts(b, y0) && Inverts(b + 1, y1) && Inverts(b + 2, y2) && Inverts(b + 3, y3)
    requires Inverts(b + 4, y4) && Inverts(b + 5, y5) && Inverts(b + 6, y6) && Inverts(b + 7, y7)
    requires Inverts(b + 8, y8) && Inverts(b + 9, y9) && Inverts(b + 10, ya) && Inverts(b + 11, yb)
    requires Inverts(b + 12, yc) && Inverts(b + 13, yd) && Inverts(b + 14, ye) && Inverts(b + 15, yf)
    ensures RowAt(t, b)
  {
    hide Affine, Inverts, EntryAt;
    var row := t[b..b + 16];
    assert row[0] == t[b] && row[1] == t[b + 1] && row[2] == t[b + 2] && row[3] == t[b + 3];
    assert row[4] == t[b + 4] && row[5] == t[b + 5] && row[6] == t[b + 6] && row[7] == t[b + 7];
    assert row[8] == t[b + 8] && row[9] == t[b + 9] && row[10] == t[b + 10] && row[11] == t[b + 11];
    assert row[12] == t[b + 12] && row[13] == t[b + 13] && row[14] == t[b + 14] && row[15] == t[b + 15];
    OneEntry(t, b, y0); OneEntry(t, b + 1, y1); OneEntry(t, b + 2, y2); OneEntry(t, b + 3, y3);
    OneEntry(t, b + 4, y4); OneEntry(t, b + 5, y5); OneEntry(t, b + 6, y6); OneEntry(t, b + 7, y7);
    OneEntry(t, b + 8, y8); OneEntry(t, b + 9, y9); OneEntry(t, b + 10, ya); OneEntry(t, b + 11, yb);
    OneEntry(t, b + 12, yc); OneEntry(t, b + 13, yd); OneEntry(t, b + 14, ye); OneEntry(t, b + 15, yf);
  }

  lemma Images0()
    ensures SBOX[0x00..0x00 + 16] == [
      Affine(0x00), Affine(0x01), Affine(0x8d), Affine(0xf6), Affine(0xcb), Affine(0x52), Affine(0x7b), Affine(0xd1),
      Affine(0xe8), Affine(0x4f), Affine(0x29), Affine(0xc0), Affine(0xb0), Affine(0xe1), Affine(0xe5), Affine(0xc7)]
  {}

  lemma Inverses0()
    ensures Inverts(0x00, 0x00) && Inverts(0x01, 0x01) && Inverts(0x02, 0x8d) && Inverts(0x03, 0xf6)
    ensures Inverts(0x04, 0xcb) && Inverts(0x05, 0x52) && Inverts(0x06, 0x7b) && Inverts(0x07, 0xd1)
    ensures Inverts(0x08, 0xe8) && Inverts(0x09, 0x4f) && Inverts(0x0a, 0x29) && Inverts(0x0b, 0xc0)
    ensures Inverts(0x0c, 0xb0) && Inverts(0x0d, 0xe1) && Inverts(0x0e, 0xe5) && Inverts(0x0f, 0xc7)
  {}

  lemma Row0()
    ensures RowAt(SBOX, 0x00)
  {
    hide Affine, Inverts;
    Images0();
    Inverses0();
    Assemble(SBOX, 0x00, 0x00, 0x01, 0x8d, 0xf6, 0xcb, 0x52, 0x7b, 0xd1,
             0xe8, 0x4f, 0x29, 0xc0, 0xb0, 0xe1, 0xe5, 0xc7);
  }

  lemma Images1()
    ensures SBOX[0x10..0x10 + 16] == [
      Affine(0x74), Affine(0xb4), Affine(0xaa), Affine(0x4b), Affine(0x99), Affine(0x2b), Affine(0x60), Affine(0x5f),
      Affine(0x58), Affine(0x3f), Affine(0xfd), Affine(0xcc), Affine(0xff), Affine(0x40), Affine(0xee), Affine(0xb2)]
  {}

  lemma Inverses1()
    ensures Inverts(0x10, 0x74) && Inverts(0x11, 0xb4) && Inverts(0x12, 0xaa) && Inverts(0x13, 0x4b)
    ensures Inverts(0x14, 0x99) && Inverts(0x15, 0x2b) && Inverts(0x16, 0x60) && Inverts(0x17, 0x5f)
    ensures Inverts(0x18, 0x58) && Inverts(0x19, 0x3f) && Inverts(0x1a, 0xfd) && Inverts(0x1b, 0xcc)
    ensures Inverts(0x1c, 0xff) && Inverts(0x1d, 0x40) && Inverts(0x1e, 0xee) && Inverts(0x1f, 0xb2)
  {}

  lemma Row1()
    ensures RowAt(SBOX, 0x10)
  {
    hide Affine, Inverts;
    Images1();
    Inverses1();
    Assemble(SBOX, 0x10, 0x74, 0xb4, 0xaa, 0x4b, 0x99, 0x2b, 0x60, 0x5f,
             0x58, 0x3f, 0xfd, 0xcc, 0xff, 0x40, 0xee, 0xb2);
  }

  lemma Images2()
    ensures SBOX[0x20..0x20 + 16] == [
      Affine(0x3a), Affine(0x6e), Affine(0x5a), Affine(0xf1), Affine(0x55), Affine(0x4d), Affine(0xa8), Affine(0xc9),
      Affine(0xc1), Affine(0x0a), Affine(0x98), Affine(0x15), Affine(0x30), Affine(0x44), Affine(0xa2), Affine(0xc2)]
  {}

  lemma Inverses2()
    ensures Inverts(0x20, 0x3a) && Inverts(0x21, 0x6e) && Inverts(0x22, 0x5a) && Inverts(0x23, 0xf1)
    ensures Inverts(0x24, 0x55) && Inverts(0x25, 0x4d) && Inverts(0x26, 0xa8) && Inverts(0x27, 0xc9)
    ensures Inverts(0x28, 0xc1) && Inverts(0x29, 0x0a) && Inverts(0x2a, 0x98) && Inverts(0x2b, 0x15)
    ensures Inverts(0x2c, 0x30) && Inverts(0x2d, 0x44) && Inverts(0x2e, 0xa2) && Inverts(0x2f, 0xc2)
  {}

  lemma Row2()
    ensures RowAt(SBOX, 0x20)
  {
    hide Affine, Inverts;
    Images2();
    Inverses2();
    Assemble(SBOX, 0x20, 0x3a, 0x6e, 0x5a, 0xf1, 0x55, 0x4d, 0xa8, 0xc9,
             0xc1, 0x0a, 0x98, 0x15, 0x30, 0x44, 0xa2, 0xc2);
  }

  lemma Images3()
    ensures SBOX[0x30..0x30 + 16] == [
      Affine(0x2c), Affine(0x45), Affine(0x92), Affine(0x6c), Affine(0xf3), Affine(0x39), Affine(0x66), Affine(0x42),
      Affine(0xf2), Affine(0x35), Affine(0x20), Affine(0x6f), Affine(0x77), Affine(0xbb), Affine(0x59), Affine(0x19)]
  {}

  lemma Inverses3()
    ensures Inverts(0x30, 0x2c) && Inverts(0x31, 0x45) && Inverts(0x32, 0x92) && Inverts(0x33, 0x6c)
    ensures Inverts(0x34, 0xf3) && Inverts(0x35, 0x39) && Inverts(0x36, 0x66) && Inverts(0x37, 0x42)
    ensures Inverts(0x38, 0xf2) && Inverts(0x39, 0x35) && Inverts(0x3a, 0x20) && Inverts(0x3b, 0x6f)
    ensures Inverts(0x3c, 0x77) && Inverts(0x3d, 0xbb) && Inverts(0x3e, 0x59) && Inverts(0x3f, 0x19)
  {}

  lemma Row3()
    ensures RowAt(SBOX, 0x30)
  {
    hide Affine, Inverts;
    Images3();
    Inverses3();
    Assemble(SBOX, 0x30, 0x2c, 0x45, 0x92, 0x6c, 0xf3, 0x39, 0x66, 0x42,
             0xf2, 0x35, 0x20, 0x6f, 0x77, 0xbb, 0x59, 0x19);
  }

  lemma Images4()
    ensures SBOX[0x40..0x40 + 16] == [
      Affine(0x1d), Affine(0xfe), Affine(0x37), Affine(0x67), Affine(0x2d), Affine(0x31), Affine(0xf5), Affine(0x69),
      Affine(0xa7), Affine(0x64), Affine(0xab), Affine(0x13), Affine(0x54), Affine(0x25), Affine(0xe9), Affine(0x09)]
  {}

  lemma Inverses4()
    ensures Inverts(0x40, 0x1d) && Inverts(0x41, 0xfe) && Inverts(0x42, 0x37) && Inverts(0x43, 0x67)
    ensures Inverts(0x44, 0x2d) && Inverts(0x45, 0x31) && Inverts(0x46, 0xf5) && Inverts(0x47, 0x69)
    ensures Inverts(0x48, 0xa7) && Inverts(0x49, 0x64) && Inverts(0x4a, 0xab) && Inverts(0x4b, 0x13)
    ensures Inverts(0x4c, 0x54) && Inverts(0x4d, 0x25) && Inverts(0x4e, 0xe9) && Inverts(0x4f, 0x09)
  {}

  lemma Row4()
    ensures RowAt(SBOX, 0x40)
  {
    hide Affine, Inverts;
    Images4();
    Inverses4();
    Assemble(SBOX, 0x40, 0x1d, 0xfe, 0x37, 0x67, 0x2d, 0x31, 0xf5, 0x69,
             0xa7, 0x64, 0xab, 0x13, 0x54, 0x25, 0xe9, 0x09);
  }

  lemma Images5()
    ensures SBOX[0x50..0x50 + 16] == [
      Affine(0xed), Affine(0x5c), Affine(0x05), Affine(0xca), Affine(0x4c), Affine(0x24), Affine(0x87), Affine(0xbf),
      Affine(0x18), Affine(0x3e), Affine(0x22), Affine(0xf0), Affine(0x51), Affine(0xec), Affine(0x61), Affine(0x17)]
  {}

  lemma Inverses5()
    ensures Inverts(0x50, 0xed) && Inverts(0x51, 0x5c) && Inverts(0x52, 0x05) && Inverts(0x53, 0xca)
    ensures Inverts(0x54, 0x4c) && Inverts(0x55, 0x24) && Inverts(0x56, 0x87) && Inverts(0x57, 0xbf)
    ensures Inverts(0x58, 0x18) && Inverts(0x59, 0x3e) && Inverts(0x5a, 0x22) && Inverts(0x5b, 0xf0)
    ensures Inverts(0x5c, 0x51) && Inverts(0x5d, 0xec) && Inverts(0x5e, 0x61) && Inverts(0x5f, 0x17)
  {}

  lemma Row5()
    ensures RowAt(SBOX, 0x50)
  {
    hide Affine, Inverts;
    Images5();
    Inverses5();
    Assemble(SBOX, 0x50, 0xed, 0x5c, 0x05, 0xca, 0x4c, 0x24, 0x87, 0xbf,
             0x18, 0x3e, 0x22, 0xf0, 0x51, 0xec, 0x61, 0x17);
  }

  lemma Images6()
    ensures SBOX[0x60..0x60 + 16] == [
      Affine(0x16), Affine(0x5e), Affine(0xaf), Affine(0xd3), Affine(0x49), Affine(0xa6), Affine(0x36), Affine(0x43),
      Affine(0xf4), Affine(0x47), Affine(0x91), Affine(0xdf), Affine(0x33), Affine(0x93), Affine(0x21), Affine(0x3b)]
  {}

  lemma Inverses6()
    ensures Inverts(0x60, 0x16) && Inverts(0x61, 0x5e) && Inverts(0x62, 0xaf) && Inverts(0x63, 0xd3)
    ensures Inverts(0x64, 0x49) && Inverts(0x65, 0xa6) && Inverts(0x66, 0x36) && Inverts(0x67, 0x43)
    ensures Inverts(0x68, 0xf4) && Inverts(0x69, 0x47) && Inverts(0x6a, 0x91) && Inverts(0x6b, 0xdf)
    ensures Inverts(0x6c, 0x33) && Inverts(0x6d, 0x93) && Inverts(0x6e, 0x21) && Inverts(0x6f, 0x3b)
  {}

  lemma Row6()
    ensures RowAt(SBOX, 0x60)
  {
    hide Affine, Inverts;
    Images6();
    Inverses6();
    Assemble(SBOX, 0x60, 0x16, 0x5e, 0xaf, 0xd3, 0x49, 0xa6, 0x36, 0x43,
             0xf4, 0x47, 0x91, 0xdf, 0x33, 0x93, 0x21, 0x3b);
  }

  lemma Images7()
    ensures SBOX[0x70..0x70 + 16] == [
      Affine(0x79), Affine(0xb7), Affine(0x97), Affine(0x85), Affine(0x10), Affine(0xb5), Affine(0xba), Affine(0x3c),
      Affine(0xb6), Affine(0x70), Affine(0xd0), Affine(0x06), Affine(0xa1), Affine(0xfa), Affine(0x81), Affine(0x82)]
  {}

  lemma Inverses7()
    ensures Inverts(0x70, 0x79) && Inverts(0x71, 0xb7) && Inverts(0x72, 0x97) && Inverts(0x73, 0x85)
    ensures Inverts(0x74, 0x10) && Inverts(0x75, 0xb5) && Inverts(0x76, 0xba) && Inverts(0x77, 0x3c)
    ensures Inverts(0x78, 0xb6) && Inverts(0x79, 0x70) && Inverts(0x7a, 0xd0) && Inverts(0x7b, 0x06)
    ensures Inverts(0x7c, 0xa1) && Inverts(0x7d, 0xfa) && Inverts(0x7e, 0x81) && Inverts(0x7f, 0x82)
  {}

  lemma Row7()
    ensures RowAt(SBOX, 0x70)
  {
    hide Affine, Inverts;
    Images7();
    Inverses7();
    Assemble(SBOX, 0x70, 0x79, 0xb7, 0x97, 0x85, 0x10, 0xb5, 0xba, 0x3c,
             0xb6, 0x70, 0xd0, 0x06, 0xa1, 0xfa, 0x81, 0x82);
  }

  lemma Images8()
    ensures SBOX[0x80..0x80 + 16] == [
      Affine(0x83), Affine(0x7e), Affine(0x7f), Affine(0x80), Affine(0x96), Affine(0x73), Affine(0xbe), Affine(0x56),
      Affine(0x9b), Affine(0x9e), Affine(0x95), Affine(0xd9), Affine(0xf7), Affine(0x02), Affine(0xb9), Affine(0xa4)]
  {}

  lemma Inverses8()
    ensures Inverts(0x80, 0x83) && Inverts(0x81, 0x7e) && Inverts(0x82, 0x7f) && Inverts(0x83, 0x80)
    ensures Inverts(0x84, 0x96) && Inverts(0x85, 0x73) && Inverts(0x86, 0xbe) && Inverts(0x87, 0x56)
    ensures Inverts(0x88, 0x9b) && Inverts(0x89, 0x9e) && Inverts(0x8a, 0x95) && Inverts(0x8b, 0xd9)
    ensures Inverts(0x8c, 0xf7) && Inverts(0x8d, 0x02) && Inverts(0x8e, 0xb9) && Inverts(0x8f, 0xa4)
  {}

  lemma Row8()
    ensures RowAt(SBOX, 0x80)
  {
    hide Affine, Inverts;
    Images8();
    Inverses8();
    Assemble(SBOX, 0x80, 0x83, 0x7e, 0x7f, 0x80, 0x96, 0x73, 0xbe, 0x56,
             0x9b, 0x9e, 0x95, 0xd9, 0xf7, 0x02, 0xb9, 0xa4);
  }

  lemma Images9()
    ensures SBOX[0x90..0x90 + 16] == [
      Affine(0xde), Affine(0x6a), Affine(0x32), Affine(0x6d), Affine(0xd8), Affine(0x8a), Affine(0x84), Affine(0x72),
      Affine(0x2a), Affine(0x14), Affine(0x9f), Affine(0x88), Affine(0xf9), Affine(0xdc), Affine(0x89), Affine(0x9a)]
  { assert |SBOX| == 256; }

  lemma Inverses9()
    ensures Inverts(0x90, 0xde) && Inverts(0x91, 0x6a) && Inverts(0x92, 0x32) && Inverts(0x93, 0x6d)
    ensures Inverts(0x94, 0xd8) && Inverts(0x95, 0x8a) && Inverts(0x96, 0x84) && Inverts(0x97, 0x72)
    ensures Inverts(0x98, 0x2a) && Inverts(0x99, 0x14) && Inverts(0x9a, 0x9f) && Inverts(0x9b, 0x88)
    ensures Inverts(0x9c, 0xf9) && Inverts(0x9d, 0xdc) && Inverts(0x9e, 0x89) && Inverts(0x9f, 0x9a)
  {}

  lemma Row9()
    ensures RowAt(SBOX, 0x90)
  {
    hide Affine, Inverts;
    Images9();
    Inverses9();
    Assemble(SBOX, 0x90, 0xde, 0x6a, 0x32, 0x6d, 0xd8, 0x8a, 0x84, 0x72,
             0x2a, 0x14, 0x9f, 0x88, 0xf9, 0xdc, 0x89, 0x9a);
  }

  lemma ImagesA()
    ensures SBOX[0xA0..0xA0 + 16] == [
      Affine(0xfb), Affine(0x7c), Affine(0x2e), Affine(0xc3), Affine(0x8f), Affine(0xb8), Affine(0x65), Affine(0x48),
      Affine(0x26), Affine(0xc8), Affine(0x12), Affine(0x4a), Affine(0xce), Affine(0xe7), Affine(0xd2), Affine(0x62)]
  { assert |SBOX| == 256; }

  lemma InversesA()
    ensures Inverts(0xa0, 0xfb) && Inverts(0xa1, 0x7c) && Inverts(0xa2, 0x2e) && Inverts(0xa3, 0xc3)
    ensures Inverts(0xa4, 0x8f) && Inverts(0xa5, 0xb8) && Inverts(0xa6, 0x65) && Inverts(0xa7, 0x48)
    ensures Inverts(0xa8, 0x26) && Inverts(0xa9, 0xc8) && Inverts(0xaa, 0x12) && Inverts(0xab, 0x4a)
    ensures Inverts(0xac, 0xce) && Inverts(0xad, 0xe7) && Inverts(0xae, 0xd2) && Inverts(0xaf, 0x62)
  {}

  lemma RowA()
    ensures RowAt(SBOX, 0xA0)
  {
    hide Affine, Inverts;
    ImagesA();
    InversesA();
    Assemble(SBOX, 0xA0, 0xfb, 0x7c, 0x2e, 0xc3, 0x8f, 0xb8, 0x65, 0x48,
             0x26, 0xc8, 0x12, 0x4a, 0xce, 0xe7, 0xd2, 0x62);
  }

  lemma ImagesB()
    ensures SBOX[0xB0..0xB0 + 16] == [
      Affine(0x0c), Affine(0xe0), Affine(0x1f), Affine(0xef), Affine(0x11), Affine(0x75), Affine(0x78), Affine(0x71),
      Affine(0xa5), Affine(0x8e), Affine(0x76), Affine(0x3d), Affine(0xbd), Affine(0xbc), Affine(0x86), Affine(0x57)]
  { assert |SBOX| == 256; }

  lemma InversesB()
    ensures Inverts(0xb0, 0x0c) && Inverts(0xb1, 0xe0) && Inverts(0xb2, 0x1f) && Inverts(0xb3, 0xef)
    ensures Inverts(0xb4, 0x11) && Inverts(0xb5, 0x75) && Inverts(0xb6, 0x78) && Inverts(0xb7, 0x71)
    ensures Inverts(0xb8, 0xa5) && Inverts(0xb9, 0x8e) && Inverts(0xba, 0x76) && Inverts(0xbb, 0x3d)
    ensures Inverts(0xbc, 0xbd) && Inverts(0xbd, 0xbc) && Inverts(0xbe, 0x86) && Inverts(0xbf, 0x57)
  {}

  lemma RowB()
    ensures RowAt(SBOX, 0xB0)
  {
    hide Affine, Inverts;
    ImagesB();
    InversesB();
    Assemble(SBOX, 0xB0, 0x0c, 0xe0, 0x1f, 0xef, 0x11, 0x75, 0x78, 0x71,
             0xa5, 0x8e, 0x76, 0x3d, 0xbd, 0xbc, 0x86, 0x57);
  }

  lemma ImagesC()
    ensures SBOX[0xC0..0xC0 + 16] == [
      Affine(0x0b), Affine(0x28), Affine(0x2f), Affine(0xa3), Affine(0xda), Affine(0xd4), Affine(0xe4), Affine(0x0f),
      Affine(0xa9), Affine(0x27), Affine(0x53), Affine(0x04), Affine(0x1b), Affine(0xfc), Affine(0xac), Affine(0xe6)]
  { assert |SBOX| == 256; }

  lemma InversesC()
    ensures Inverts(0xc0, 0x0b) && Inverts(0xc1, 0x28) && Inverts(0xc2, 0x2f) && Inverts(0xc3, 0xa3)
    ensures Inverts(0xc4, 0xda) && Inverts(0xc5, 0xd4) && Inverts(0xc6, 0xe4) && Inverts(0xc7, 0x0f)
    ensures Inverts(0xc8, 0xa9) && Inverts(0xc9, 0x27) && Inverts(0xca, 0x53) && Inverts(0xcb, 0x04)
    ensures Inverts(0xcc, 0x1b) && Inverts(0xcd, 0xfc) && Inverts(0xce, 0xac) && Inverts(0xcf, 0xe6)
  {}

  lemma RowC()
    ensures RowAt(SBOX, 0xC0)
  {
    hide Affine, Inverts;
    ImagesC();
    InversesC();
    Assemble(SBOX, 0xC0, 0x0b, 0x28, 0x2f, 0xa3, 0xda, 0xd4, 0xe4, 0x0f,
             0xa9, 0x27, 0x53, 0x04, 0x1b, 0xfc, 0xac, 0xe6);
  }

  lemma ImagesD()
    ensures SBOX[0xD0..0xD0 + 16] == [
      Affine(0x7a), Affine(0x07), Affine(0xae), Affine(0x63), Affine(0xc5), Affine(0xdb), Affine(0xe2), Affine(0xea),
      Affine(0x94), Affine(0x8b), Affine(0xc4), Affine(0xd5), Affine(0x9d), Affine(0xf8), Affine(0x90), Affine(0x6b)]
  { assert |SBOX| == 256; }

  lemma InversesD()
    ensures Inverts(0xd0, 0x7a) && Inverts(0xd1, 0x07) && Inverts(0xd2, 0xae) && Inverts(0xd3, 0x63)
    ensures Inverts(0xd4, 0xc5) && Inverts(0xd5, 0xdb) && Inverts(0xd6, 0xe2) && Inverts(0xd7, 0xea)
    ensures Inverts(0xd8, 0x94) && Inverts(0xd9, 0x8b) && Inverts(0xda, 0xc4) && Inverts(0xdb, 0xd5)
    ensures Inverts(0xdc, 0x9d) && Inverts(0xdd, 0xf8) && Inverts(0xde, 0x90) && Inverts(0xdf, 0x6b)
  {}

  lemma RowD()
    ensures RowAt(SBOX, 0xD0)
  {
    hide Affine, Inverts;
    ImagesD();
    InversesD();
    Assemble(SBOX, 0xD0, 0x7a, 0x07, 0xae, 0x63, 0xc5, 0xdb, 0xe2, 0xea,
             0x94, 0x8b, 0xc4, 0xd5, 0x9d, 0xf8, 0x90, 0x6b);
  }

  lemma ImagesE()
    ensures SBOX[0xE0..0xE0 + 16] == [
      Affine(0xb1), Affine(0x0d), Affine(0xd6), Affine(0xeb), Affine(0xc6), Affine(0x0e), Affine(0xcf), Affine(0xad),
      Affine(0x08), Affine(0x4e), Affine(0xd7), Affine(0xe3), Affine(0x5d), Affine(0x50), Affine(0x1e), Affine(0xb3)]
  { assert |SBOX| == 256; }

  lemma InversesE()
    ensures Inverts(0xe0, 0xb1) && Inverts(0xe1, 0x0d) && Inverts(0xe2, 0xd6) && Inverts(0xe3, 0xeb)
    ensures Inverts(0xe4, 0xc6) && Inverts(0xe5, 0x0e) && Inverts(0xe6, 0xcf) && Inverts(0xe7, 0xad)
    ensures Inverts(0xe8, 0x08) && Inverts(0xe9, 0x4e) && Inverts(0xea, 0xd7) && Inverts(0xeb, 0xe3)
    ensures Inverts(0xec, 0x5d) && Inverts(0xed, 0x50) && Inverts(0xee, 0x1e) && Inverts(0xef, 0xb3)
  {}

  lemma RowE()
    ensures RowAt(SBOX, 0xE0)
  {
    hide Affine, Inverts;
    ImagesE();
    InversesE();
    Assemble(SBOX, 0xE0, 0xb1, 0x0d, 0xd6, 0xeb, 0xc6, 0x0e, 0xcf, 0xad,
             0x08, 0x4e, 0xd7, 0xe3, 0x5d, 0x50, 0x1e, 0xb3);
  }

  lemma ImagesF()
    ensures SBOX[0xF0..0xF0 + 16] == [
      Affine(0x5b), Affine(0x23), Affine(0x38), Affine(0x34), Affine(0x68), Affine(0x46), Affine(0x03), Affine(0x8c),
      Affine(0xdd), Affine(0x9c), Affine(0x7d), Affine(0xa0), Affine(0xcd), Affine(0x1a), Affine(0x41), Affine(0x1c)]
  { assert |SBOX| == 256; }

  lemma InversesF()
    ensures Inverts(0xf0, 0x5b) && Inverts(0xf1, 0x23) && Inverts(0xf2, 0x38) && Inverts(0xf3, 0x34)
    ensures Inverts(0xf4, 0x68) && Inverts(0xf5, 0x46) && Inverts(0xf6, 0x03) && Inverts(0xf7, 0x8c)
    ensures Inverts(0xf8, 0xdd) && Inverts(0xf9, 0x9c) && Inverts(0xfa, 0x7d) && Inverts(0xfb, 0xa0)
    ensures Inverts(0xfc, 0xcd) && Inverts(0xfd, 0x1a) && Inverts(0xfe, 0x41) && Inverts(0xff, 0x1c)
  {}

  lemma RowF()
    ensures RowAt(SBOX, 0xF0)
  {
    hide Affine, Inverts;
    ImagesF();
    InversesF();
    Assemble(SBOX, 0xF0, 0x5b, 0x23, 0x38, 0x34, 0x68, 0x46, 0x03, 0x8c,
             0xdd, 0x9c, 0x7d, 0xa0, 0xcd, 0x1a, 0x41, 0x1c);
  }

  lemma AnyRow(t: seq<bv8>, i: nat)
    requires i < |t| == 256
    requires RowAt(t, 0x00) && RowAt(t, 0x10) && RowAt(t, 0x20) && RowAt(t, 0x30)
    requires RowAt(t, 0x40) && RowAt(t, 0x50) && RowAt(t, 0x60) && RowAt(t, 0x70)
    requires RowAt(t, 0x80) && RowAt(t, 0x90) && RowAt(t, 0xA0) && RowAt(t, 0xB0)
    requires RowAt(t, 0xC0) && RowAt(t, 0xD0) && RowAt(t, 0xE0) && RowAt(t, 0xF0)
    ensures EntryAt(t, i)
  {
    hide EntryAt;
  }

  lemma SboxEntry(b: bv8)
    ensures Entry(b)
  {
    hide RowAt, EntryAt;
    Row0();
    Row1();
    Row2();
    Row3();
    Row4();
    Row5();
    Row6();
    Row7();
    Row8();
    Row9();
    RowA();
    RowB();
    RowC();
    RowD();
    RowE();
    RowF();
    assert |SBOX| == 256;
    AnyRow(SBOX, b as int);
    EntryOf(b);
  }

  lemma EntryOf(b: bv8)
    requires EntryAt(SBOX, b as int)
    ensures Entry(b)
  {
    hide Affine, Inverses;
    assert (b as int) as bv8 == b;
  }

  // ---- The inverse S-box: section 5.3.2 ----

  lemma InverseUnique(y: bv8, b: bv8, c: bv8)
    requires Inverses(b, y) && Inverses(y, c)
    ensures b == c
  {
    hide Mul;
    MulZero(b);
    MulZero(y);
    MulCommutes(b, y);
    MulSwaps(b, c, y);
    MulCommutes(y, c);
    MulByOne(b);
    MulByOne(c);
    MulCommutes(0, y);
  }

  ghost function InverseOf(y: bv8): (b: bv8)
    ensures Inverses(y, b)
  {
    SboxEntry(y);
    var b :| Inverses(y, b);
    b
  }

  ghost function InvSub(v: bv8): bv8 { InverseOf(AffineBack(v)) }

  lemma InvSubOf(b: bv8)
    ensures InvSub(Sub(b)) == b
  {
    hide Affine, AffineBack, Inverses, Sub;
    SboxEntry(b);
    var y :| Inverses(b, y) && Sub(b) == Affine(y);
    AffineBackOf(y);
    InverseUnique(y, b, InverseOf(y));
  }
}
