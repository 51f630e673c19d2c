/**
 The Huffman code table of this repository, and that it meets every hypothesis of the Huffman
 results. Its rows 17 to 19 and 26 to 30 are permuted against Appendix B of RFC 7541; the code is
 canonical all the same: the codes of one length are consecutive numbers, and each length begins
 where the one before it ends.
*/
module HuffmanTable {
  import opened BitStrings
  import opened HuffmanCode
  import opened Tables

  /** Codes by symbol. */
  function CodeAt(i: nat): nat
    requires i < 256
  {
    if i < 16 then Pick(i, 0x1ff8, 0x7fffd8, 0xfffffe2, 0xfffffe3, 0xfffffe4, 0xfffffe5, 0xfffffe6, 0xfffffe7,
      0xfffffe8, 0xffffea, 0x3ffffffc, 0xfffffe9, 0xfffffea, 0x3ffffffd, 0xfffffeb, 0xfffffec)
    else if i < 32 then Pick(i - 16, 0xfffffed, 0xfffffef, 0xffffff0, 0xfffffee, 0xffffff1, 0xffffff2,
      0x3ffffffe, 0xffffff3,
      0xffffff4, 0xffffff5, 0xffffff7, 0xffffff8, 0xffffff9, 0xffffffa, 0xffffff6, 0xffffffb)
    else if i < 48 then Pick(i - 32, 0x14, 0x3f8, 0x3f9, 0xffa, 0x1ff9, 0x15, 0xf8, 0x7fa,
      0x3fa, 0x3fb, 0xf9, 0x7fb, 0xfa, 0x16, 0x17, 0x18)
    else if i < 64 then Pick(i - 48, 0x0, 0x1, 0x2, 0x19, 0x1a, 0x1b, 0x1c, 0x1d,
      0x1e, 0x1f, 0x5c, 0xfb, 0x7ffc, 0x20, 0xffb, 0x3fc)
    else if i < 80 then Pick(i - 64, 0x1ffa, 0x21, 0x5d, 0x5e, 0x5f, 0x60, 0x61, 0x62,
      0x63, 0x64, 0x65, 0x66, 0x67, 0x68, 0x69, 0x6a)
    else if i < 96 then Pick(i - 80, 0x6b, 0x6c, 0x6d, 0x6e, 0x6f, 0x70, 0x71, 0x72,
      0xfc, 0x73, 0xfd, 0x1ffb, 0x7fff0, 0x1ffc, 0x3ffc, 0x22)
    else if i < 112 then Pick(i - 96, 0x7ffd, 0x3, 0x23, 0x4, 0x24, 0x5, 0x25, 0x26,
      0x27, 0x6, 0x74, 0x75, 0x28, 0x29, 0x2a, 0x7)
    else if i < 128 then Pick(i - 112, 0x2b, 0x76, 0x2c, 0x8, 0x9, 0x2d, 0x77, 0x78,
      0x79, 0x7a, 0x7b, 0x7ffe, 0x7fc, 0x3ffd, 0x1ffd, 0xffffffc)
    else if i < 144 then Pick(i - 128, 0xfffe6, 0x3fffd2, 0xfffe7, 0xfffe8, 0x3fffd3, 0x3fffd4, 0x3fffd5, 0x7fffd9,
      0x3fffd6, 0x7fffda, 0x7fffdb, 0x7fffdc, 0x7fffdd, 0x7fffde, 0xffffeb, 0x7fffdf)
    else if i < 160 then Pick(i - 144, 0xffffec, 0xffffed, 0x3fffd7, 0x7fffe0, 0xffffee, 0x7fffe1, 0x7fffe2, 0x7fffe3,
      0x7fffe4, 0x1fffdc, 0x3fffd8, 0x7fffe5, 0x3fffd9, 0x7fffe6, 0x7fffe7, 0xffffef)
    else if i < 176 then Pick(i - 160, 0x3fffda, 0x1fffdd, 0xfffe9, 0x3fffdb, 0x3fffdc, 0x7fffe8, 0x7fffe9, 0x1fffde,
      0x7fffea, 0x3fffdd, 0x3fffde, 0xfffff0, 0x1fffdf, 0x3fffdf, 0x7fffeb, 0x7fffec)
    else if i < 192 then Pick(i - 176, 0x1fffe0, 0x1fffe1, 0x3fffe0, 0x1fffe2, 0x7fffed, 0x3fffe1, 0x7fffee, 0x7fffef,
      0xfffea, 0x3fffe2, 0x3fffe3, 0x3fffe4, 0x7ffff0, 0x3fffe5, 0x3fffe6, 0x7ffff1)
    else if i < 208 then Pick(i - 192, 0x3ffffe0, 0x3ffffe1, 0xfffeb, 0x7fff1, 0x3fffe7, 0x7ffff2, 0x3fffe8, 0x1ffffec,
      0x3ffffe2, 0x3ffffe3, 0x3ffffe4, 0x7ffffde, 0x7ffffdf, 0x3ffffe5, 0xfffff1, 0x1ffffed)
    else if i < 224 then Pick(i - 208, 0x7fff2, 0x1fffe3, 0x3ffffe6, 0x7ffffe0, 0x7ffffe1, 0x3ffffe7,
      0x7ffffe2, 0xfffff2,
      0x1fffe4, 0x1fffe5, 0x3ffffe8, 0x3ffffe9, 0xffffffd, 0x7ffffe3, 0x7ffffe4, 0x7ffffe5)
    else if i < 240 then Pick(i - 224, 0xfffec, 0xfffff3, 0xfffed, 0x1fffe6, 0x3fffe9, 0x1fffe7, 0x1fffe8, 0x7ffff3,
      0x3fffea, 0x3fffeb, 0x1ffffee, 0x1ffffef, 0xfffff4, 0xfffff5, 0x3ffffea, 0x7ffff4)
    else Pick(i - 240, 0x3ffffeb, 0x7ffffe6, 0x3ffffec, 0x3ffffed, 0x7ffffe7, 0x7ffffe8, 0x7ffffe9, 0x7ffffea,
      0x7ffffeb, 0xffffffe, 0x7ffffec, 0x7ffffed, 0x7ffffee, 0x7ffffef, 0x7fffff0, 0x3ffffee)
  }

  /** Code lengths by symbol. */
  function LenAt(i: nat): nat
    requires i < 256
  {
    if i < 16 then Pick(i, 13, 23, 28, 28, 28, 28, 28, 28, 28, 24, 30, 28, 28, 30, 28, 28)
    else if i < 32 then Pick(i - 16, 28, 28, 28, 28, 28, 28, 30, 28, 28, 28, 28, 28, 28, 28, 28, 28)
    else if i < 48 then Pick(i - 32, 6, 10, 10, 12, 13, 6, 8, 11, 10, 10, 8, 11, 8, 6, 6, 6)
    else if i < 64 then Pick(i - 48, 5, 5, 5, 6, 6, 6, 6, 6, 6, 6, 7, 8, 15, 6, 12, 10)
    else if i < 80 then Pick(i - 64, 13, 6, 7, 7, 7, 7, 7, 7, 7, 7, 7, 7, 7, 7, 7, 7)
    else if i < 96 then Pick(i - 80, 7, 7, 7, 7, 7, 7, 7, 7, 8, 7, 8, 13, 19, 13, 14, 6)
    else if i < 112 then Pick(i - 96, 15, 5, 6, 5, 6, 5, 6, 6, 6, 5, 7, 7, 6, 6, 6, 5)
    else if i < 128 then Pick(i - 112, 6, 7, 6, 5, 5, 6, 7, 7, 7, 7, 7, 15, 11, 14, 13, 28)
    else if i < 144 then Pick(i - 128, 20, 22, 20, 20, 22, 22, 22, 23, 22, 23, 23, 23, 23, 23, 24, 23)
    else if i < 160 then Pick(i - 144, 24, 24, 22, 23, 24, 23, 23, 23, 23, 21, 22, 23, 22, 23, 23, 24)
    else if i < 176 then Pick(i - 160, 22, 21, 20, 22, 22, 23, 23, 21, 23, 22, 22, 24, 21, 22, 23, 23)
    else if i < 192 then Pick(i - 176, 21, 21, 22, 21, 23, 22, 23, 23, 20, 22, 22, 22, 23, 22, 22, 23)
    else if i < 208 then Pick(i - 192, 26, 26, 20, 19, 22, 23, 22, 25, 26, 26, 26, 27, 27, 26, 24, 25)
    else if i < 224 then Pick(i - 208, 19, 21, 26, 27, 27, 26, 27, 24, 21, 21, 26, 26, 28, 27, 27, 27)
    else if i < 240 then Pick(i - 224, 20, 24, 20, 21, 22, 21, 21, 23, 22, 22, 25, 25, 24, 24, 26, 23)
    else Pick(i - 240, 26, 27, 26, 26, 27, 27, 27, 27, 27, 28, 27, 27, 27, 27, 27, 26)
  }

  /** The symbols, shorter codes first, and codes of one length in increasing order. */
  function Order(i: nat): nat
    requires i < 256
  {
    if i < 16 then Pick(i, 48, 49, 50, 97, 99, 101, 105, 111, 115, 116, 32, 37, 45, 46, 47, 51)
    else if i < 32 then Pick(i - 16, 52, 53, 54, 55, 56, 57, 61, 65, 95, 98, 100, 102, 103, 104, 108, 109)
    else if i < 48 then Pick(i - 32, 110, 112, 114, 117, 58, 66, 67, 68, 69, 70, 71, 72, 73, 74, 75, 76)
    else if i < 64 then Pick(i - 48, 77, 78, 79, 80, 81, 82, 83, 84, 85, 86, 87, 89, 106, 107, 113, 118)
    else if i < 80 then Pick(i - 64, 119, 120, 121, 122, 38, 42, 44, 59, 88, 90, 33, 34, 40, 41, 63, 39)
    else if i < 96 then Pick(i - 80, 43, 124, 35, 62, 0, 36, 64, 91, 93, 126, 94, 125, 60, 96, 123, 92)
    else if i < 112 then Pick(i - 96, 195, 208, 128, 130, 131, 162, 184, 194, 224, 226, 153, 161, 167, 172, 176, 177)
    else if i < 128 then Pick(i - 112, 179, 209, 216, 217, 227, 229, 230, 129, 132, 133, 134, 136, 146, 154, 156, 160)
    else if i < 144 then Pick(i - 128, 163, 164, 169, 170, 173, 178, 181, 185, 186, 187, 189, 190, 196, 198, 228, 232)
    else if i < 160 then Pick(i - 144, 233, 1, 135, 137, 138, 139, 140, 141, 143, 147, 149, 150, 151, 152, 155, 157)
    else if i < 176 then Pick(i - 160, 158, 165, 166, 168, 174, 175, 180, 182, 183, 188, 191, 197, 231, 239, 9, 142)
    else if i < 192 then Pick(i - 176, 144, 145, 148, 159, 171, 206, 215, 225, 236, 237, 199, 207, 234, 235, 192, 193)
    else if i < 208 then Pick(i - 192, 200, 201, 202, 205, 210, 213, 218, 219, 238, 240, 242, 243, 255, 203, 204, 211)
    else if i < 224 then Pick(i - 208, 212, 214, 221, 222, 223, 241, 244, 245, 246, 247, 248, 250, 251, 252, 253, 254)
    else if i < 240 then Pick(i - 224, 2, 3, 4, 5, 6, 7, 8, 11, 12, 14, 15, 16, 19, 17, 18, 20)
    else Pick(i - 240, 21, 23, 24, 25, 30, 26, 27, 28, 29, 31, 127, 220, 249, 10, 13, 22)
  }

  /** The first code of a length. */
  function First(len: nat): nat {
    if len == 5 then 0x0 else if len == 6 then 0x14 else if len == 7 then 0x5c else if len == 8 then 0xf8 else
    if len == 9 then 0x1fc else if len == 10 then 0x3f8 else if len == 11 then 0x7fa else if len == 12 then 0xffa else
    if len == 13 then 0x1ff8 else if len == 14 then 0x3ffc else
    if len == 15 then 0x7ffc else if len == 16 then 0xfffe else
    if len == 17 then 0x1fffc else if len == 18 then 0x3fff8 else
    if len == 19 then 0x7fff0 else if len == 20 then 0xfffe6 else
    if len == 21 then 0x1fffdc else if len == 22 then 0x3fffd2 else
    if len == 23 then 0x7fffd8 else if len == 24 then 0xffffea else
    if len == 25 then 0x1ffffec else if len == 26 then 0x3ffffe0 else
    if len == 27 then 0x7ffffde else if len == 28 then 0xfffffe2 else
    if len == 29 then 0x1ffffffe else 0x3ffffffc
  }

  /** How many codes have a length. */
  function Count(len: nat): nat {
    if len == 5 then 10 else if len == 6 then 26 else if len == 7 then 32 else if len == 8 then 6 else
    if len == 9 then 0 else if len == 10 then 5 else if len == 11 then 3 else if len == 12 then 2 else
    if len == 13 then 6 else if len == 14 then 2 else if len == 15 then 3 else if len == 16 then 0 else
    if len == 17 then 0 else if len == 18 then 0 else if len == 19 then 3 else if len == 20 then 8 else
    if len == 21 then 13 else if len == 22 then 26 else if len == 23 then 29 else if len == 24 then 12 else
    if len == 25 then 4 else if len == 26 then 15 else if len == 27 then 19 else if len == 28 then 29 else
    if len == 29 then 0 else 3
  }

  /** How many codes are shorter. */
  function Base(len: nat): nat {
    if len == 5 then 0 else if len == 6 then 10 else if len == 7 then 36 else if len == 8 then 68 else
    if len == 9 then 74 else if len == 10 then 74 else if len == 11 then 79 else if len == 12 then 82 else
    if len == 13 then 84 else if len == 14 then 90 else if len == 15 then 92 else if len == 16 then 95 else
    if len == 17 then 95 else if len == 18 then 95 else if len == 19 then 95 else if len == 20 then 98 else
    if len == 21 then 106 else if len == 22 then 119 else if len == 23 then 145 else if len == 24 then 174 else
    if len == 25 then 186 else if len == 26 then 190 else if len == 27 then 205 else if len == 28 then 224 else
    if len == 29 then 253 else 253
  }

  /** A symbol's code is one of those of its length, and `Order` leads from it back to the symbol. */
  predicate Placed(s: nat)
    requires s < 256
  {
    var l, c := LenAt(s), CodeAt(s);
    && 5 <= l <= 30 && First(l) <= c < First(l) + Count(l) && Base(l) + (c - First(l)) < 256
    && Order(Base(l) + (c - First(l))) == s
  }

  predicate PlacedFrom(lo: nat, hi: nat)
    requires lo <= hi <= 256
    decreases hi - lo
  {
    lo == hi || (Placed(lo) && PlacedFrom(lo + 1, hi))
  }

  // Each row is computed with all its constants, so few of them fit into one proof.
  lemma Rows0() ensures PlacedFrom(0, 4) { }
  lemma Rows4() ensures PlacedFrom(4, 8) { }
  lemma Rows8() ensures PlacedFrom(8, 12) { }
  lemma Rows12() ensures PlacedFrom(12, 16) { }
  lemma Rows16() ensures PlacedFrom(16, 20) { }
  lemma Rows20() ensures PlacedFrom(20, 24) { }
  lemma Rows24() ensures PlacedFrom(24, 28) { }
  lemma Rows28() ensures PlacedFrom(28, 32) { }
  lemma Rows32() ensures PlacedFrom(32, 36) { }
  lemma Rows36() ensures PlacedFrom(36, 40) { }
  lemma Rows40() ensures PlacedFrom(40, 44) { }
  lemma Rows44() ensures PlacedFrom(44, 48) { }
  lemma Rows48() ensures PlacedFrom(48, 52) { }
  lemma Rows52() ensures PlacedFrom(52, 56) { }
  lemma Rows56() ensures PlacedFrom(56, 60) { }
  lemma Rows60() ensures PlacedFrom(60, 64) { }
  lemma Rows64() ensures PlacedFrom(64, 68) { }
  lemma Rows68() ensures PlacedFrom(68, 72) { }
  lemma Rows72() ensures PlacedFrom(72, 76) { }
  lemma Rows76() ensures PlacedFrom(76, 80) { }
  lemma Rows80() ensures PlacedFrom(80, 84) { }
  lemma Rows84() ensures PlacedFrom(84, 88) { }
  lemma Rows88() ensures PlacedFrom(88, 92) { }
  lemma Rows92() ensures PlacedFrom(92, 96) { }
  lemma Rows96() ensures PlacedFrom(96, 100) { }
  lemma Rows100() ensures PlacedFrom(100, 104) { }
  lemma Rows104() ensures PlacedFrom(104, 108) { }
  lemma Rows108() ensures PlacedFrom(108, 112) { }
  lemma Rows112() ensures PlacedFrom(112, 116) { }
  lemma Rows116() ensures PlacedFrom(116, 120) { }
  lemma Rows120() ensures PlacedFrom(120, 124) { }
  lemma Rows124() ensures PlacedFrom(124, 128) { }
  lemma Rows128() ensures PlacedFrom(128, 132) { }
  lemma Rows132() ensures PlacedFrom(132, 136) { }
  lemma Rows136() ensures PlacedFrom(136, 140) { }
  lemma Rows140() ensures PlacedFrom(140, 144) { }
  lemma Rows144() ensures PlacedFrom(144, 148) { }
  lemma Rows148() ensures PlacedFrom(148, 152) { }
  lemma Rows152() ensures PlacedFrom(152, 156) { }
  lemma Rows156() ensures PlacedFrom(156, 160) { }
  lemma Rows160() ensures PlacedFrom(160, 164) { }
  lemma Rows164() ensures PlacedFrom(164, 168) { }
  lemma Rows168() ensures PlacedFrom(168, 172) { }
  lemma Rows172() ensures PlacedFrom(172, 176) { }
  lemma Rows176() ensures PlacedFrom(176, 180) { }
  lemma Rows180() ensures PlacedFrom(180, 184) { }
  lemma Rows184() ensures PlacedFrom(184, 188) { }
  lemma Rows188() ensures PlacedFrom(188, 192) { }
  lemma Rows192() ensures PlacedFrom(192, 196) { }
  lemma Rows196() ensures PlacedFrom(196, 200) { }
  lemma Rows200() ensures PlacedFrom(200, 204) { }
  lemma Rows204() ensures PlacedFrom(204, 208) { }
  lemma Rows208() ensures PlacedFrom(208, 212) { }
  lemma Rows212() ensures PlacedFrom(212, 216) { }
  lemma Rows216() ensures PlacedFrom(216, 220) { }
  lemma Rows220() ensures PlacedFrom(220, 224) { }
  lemma Rows224() ensures PlacedFrom(224, 228) { }
  lemma Rows228() ensures PlacedFrom(228, 232) { }
  lemma Rows232() ensures PlacedFrom(232, 236) { }
  lemma Rows236() ensures PlacedFrom(236, 240) { }
  lemma Rows240() ensures PlacedFrom(240, 244) { }
  lemma Rows244() ensures PlacedFrom(244, 248) { }
  lemma Rows248() ensures PlacedFrom(248, 252) { }
  lemma Rows252() ensures PlacedFrom(252, 256) { }

  lemma {:induction false} PlacedAt(lo: nat, hi: nat, s: nat)
    requires lo <= s < hi <= 256 && PlacedFrom(lo, hi)
    ensures Placed(s)
    decreases hi - lo
  {
    hide Placed;
    if s > lo {
      PlacedAt(lo + 1, hi, s);
    }
  }

  lemma RowsFrom(j: nat)
    requires j < 64
    ensures PlacedFrom(4 * j, 4 * j + 4)
  {
    hide *;
    if j == 0 { Rows0(); } else if j == 1 { Rows4(); } else if j == 2 { Rows8(); } else if j == 3 { Rows12(); } else
    if j == 4 { Rows16(); } else if j == 5 { Rows20(); } else if j == 6 { Rows24(); } else if j == 7 { Rows28(); } else
    if j == 8 { Rows32(); } else if j == 9 { Rows36(); } else
    if j == 10 { Rows40(); } else if j == 11 { Rows44(); } else
    if j == 12 { Rows48(); } else if j == 13 { Rows52(); } else
    if j == 14 { Rows56(); } else if j == 15 { Rows60(); } else
    if j == 16 { Rows64(); } else if j == 17 { Rows68(); } else
    if j == 18 { Rows72(); } else if j == 19 { Rows76(); } else
    if j == 20 { Rows80(); } else if j == 21 { Rows84(); } else
    if j == 22 { Rows88(); } else if j == 23 { Rows92(); } else
    if j == 24 { Rows96(); } else if j == 25 { Rows100(); } else
    if j == 26 { Rows104(); } else if j == 27 { Rows108(); } else
    if j == 28 { Rows112(); } else if j == 29 { Rows116(); } else
    if j == 30 { Rows120(); } else if j == 31 { Rows124(); } else
    if j == 32 { Rows128(); } else if j == 33 { Rows132(); } else
    if j == 34 { Rows136(); } else if j == 35 { Rows140(); } else
    if j == 36 { Rows144(); } else if j == 37 { Rows148(); } else
    if j == 38 { Rows152(); } else if j == 39 { Rows156(); } else
    if j == 40 { Rows160(); } else if j == 41 { Rows164(); } else
    if j == 42 { Rows168(); } else if j == 43 { Rows172(); } else
    if j == 44 { Rows176(); } else if j == 45 { Rows180(); } else
    if j == 46 { Rows184(); } else if j == 47 { Rows188(); } else
    if j == 48 { Rows192(); } else if j == 49 { Rows196(); } else
    if j == 50 { Rows200(); } else if j == 51 { Rows204(); } else
    if j == 52 { Rows208(); } else if j == 53 { Rows212(); } else
    if j == 54 { Rows216(); } else if j == 55 { Rows220(); } else
    if j == 56 { Rows224(); } else if j == 57 { Rows228(); } else
    if j == 58 { Rows232(); } else if j == 59 { Rows236(); } else
    if j == 60 { Rows240(); } else if j == 61 { Rows244(); } else
    if j == 62 { Rows248(); } else if j == 63 { Rows252(); }
  }

  lemma AllPlaced(s: nat)
    requires s < 256
    ensures Placed(s)
  {
    hide *;
    RowsFrom(s / 4);
    PlacedAt(s / 4 * 4, s / 4 * 4 + 4, s);
  }

  // ---------------------------------------------------------------- prefix-free

  /** A number of len bits, moved up to the top of 30 bits. */
  function Aligned(code: nat, len: nat): nat
    requires len <= 30
    decreases 30 - len
  {
    if len == 30 then code else Aligned(2 * code, len + 1)
  }

  lemma {:induction false} AlignedMonotone(a: nat, b: nat, len: nat)
    requires len <= 30
    ensures a <= b ==> Aligned(a, len) <= Aligned(b, len)
    ensures a < b ==> Aligned(a, len) < Aligned(b, len)
    decreases 30 - len
  {
    if len < 30 {
      AlignedMonotone(2 * a, 2 * b, len + 1);
    }
  }

  /** The code is canonical: the next length begins where this one ends. */
  lemma Canonical(len: nat)
    requires 5 <= len < 30
    ensures First(len + 1) == 2 * (First(len) + Count(len))
  {
  }

  /** So in 30-bit terms the codes of a shorter length end before those of a longer one begin. */
  lemma {:induction false} LengthsApart(l: nat, m: nat)
    requires 5 <= l < m <= 30
    ensures Aligned(First(l) + Count(l), l) <= Aligned(First(m), m)
    decreases m
  {
    hide First, Count;
    Canonical(m - 1);
    if m == l + 1 {
    } else {
      LengthsApart(l, m - 1);
      AlignedMonotone(First(m - 1), First(m - 1) + Count(m - 1), m - 1);
    }
  }

  /** Whatever follows a bit string, the number stays within the string's share of the 30-bit range. */
  lemma {:induction false} Extension(x: Bits, y: Bits)
    requires |x| + |y| <= 30
    ensures Aligned(FromBits(x), |x|) <= Aligned(FromBits(x + y), |x + y|)
    ensures Aligned(FromBits(x + y) + 1, |x + y|) <= Aligned(FromBits(x) + 1, |x|)
  {
    if |y| == 0 {
      assert x + y == x;
    } else {
      var z := x + y[..|y| - 1];
      Extension(x, y[..|y| - 1]);
      assert (x + y)[..|x + y| - 1] == z;
      AlignedMonotone(2 * FromBits(z), FromBits(x + y), |x + y|);
      AlignedMonotone(FromBits(x + y) + 1, 2 * (FromBits(z) + 1), |x + y|);
    }
  }

  const TABLE: CodeTable :=
    CodeTable(seq(256, i requires 0 <= i < 256 => CodeAt(i)), seq(256, i requires 0 <= i < 256 => LenAt(i)))

  lemma TableRow(s: Byte)
    ensures |TABLE.codes| == |TABLE.lens| == 256 && TABLE.codes[s] == CodeAt(s) && TABLE.lens[s] == LenAt(s)
  {
    hide CodeAt, LenAt;
  }

  /** First codes and counts stay below the number of codes of a length. */
  lemma {:induction false} LengthsFit(l: nat)
    requires 5 <= l <= 30
    ensures Aligned(First(l) + Count(l), l) <= 0x3fff_ffff
  {
    hide First, Count;
    LastLength();
    if l < 30 {
      LengthsApart(l, 30);
      AlignedMonotone(First(30), First(30) + Count(30), 30);
    }
  }

  lemma LastLength()
    ensures First(30) + Count(30) == 0x3fff_ffff
  {
  }

  lemma CodeSpan(s: Byte)
    ensures 5 <= LenAt(s) <= 30 && First(LenAt(s)) <= CodeAt(s) < First(LenAt(s)) + Count(LenAt(s))
    ensures Aligned(CodeAt(s) + 1, LenAt(s)) <= 0x3fff_ffff
  {
    hide CodeAt, LenAt, First, Count, Order;
    AllPlaced(s);
    LengthsFit(LenAt(s));
    AlignedMonotone(CodeAt(s) + 1, First(LenAt(s)) + Count(LenAt(s)), LenAt(s));
  }

  /** In the order of their bits, a code comes before every longer one. */
  lemma ShorterFirst(a: Byte, b: Byte)
    requires LenAt(a) < LenAt(b)
    ensures LenAt(b) <= 30 && Aligned(CodeAt(a) + 1, LenAt(a)) <= Aligned(CodeAt(b), LenAt(b))
  {
    hide CodeAt, LenAt, First, Count, Aligned;
    CodeSpan(a);
    CodeSpan(b);
    var l, m := LenAt(a), LenAt(b);
    AlignedMonotone(CodeAt(a) + 1, First(l) + Count(l), l);
    LengthsApart(l, m);
    AlignedMonotone(First(m), CodeAt(b), m);
  }

  lemma {:induction false} AlignedTop(len: nat)
    requires len <= 30
    ensures Aligned(Shl(1, len), len) == 0x4000_0000
    decreases 30 - len
  {
    if len < 30 {
      AlignedTop(len + 1);
    } else {
      ShlUp(0);
      ShlUp(5);
      ShlUp(10);
      ShlUp(15);
      ShlUp(20);
      ShlUp(25);
    }
  }

  /** A code and its successor still fit the code's length. */
  lemma CodeFits(s: Byte)
    ensures CodeAt(s) + 1 < Shl(1, LenAt(s)) && Low(CodeAt(s), LenAt(s)) == CodeAt(s)
  {
    hide *;
    CodeSpan(s);
    AlignedTop(LenAt(s));
    AlignedMonotone(Shl(1, LenAt(s)), CodeAt(s) + 1, LenAt(s));
    LowIsSmall(CodeAt(s), LenAt(s));
  }

  lemma TableShape()
    ensures Shape(TABLE)
  {
    hide CodeAt, LenAt, Low;
    forall s: Byte ensures RowOk(TABLE.codes[s], TABLE.lens[s]) {
      TableRow(s);
      CodeSpan(s);
      CodeFits(s);
    }
  }

  lemma TableCode(s: Byte)
    requires Shape(TABLE)
    ensures Code(TABLE, s) == ToBits(CodeAt(s), LenAt(s)) && FromBits(Code(TABLE, s)) == CodeAt(s)
  {
    hide CodeAt, LenAt, ToBits, FromBits, Low;
    TableRow(s);
    CodeFits(s);
    FromToBits(CodeAt(s), LenAt(s));
  }

  lemma SameLength(a: Byte, b: Byte)
    requires LenAt(a) == LenAt(b) && CodeAt(a) == CodeAt(b)
    ensures a == b
  {
    hide CodeAt, LenAt, Order, First, Base, Count;
    AllPlaced(a);
    AllPlaced(b);
  }

  lemma NoPrefix(a: Byte, b: Byte)
    requires Shape(TABLE) && Code(TABLE, a) <= Code(TABLE, b)
    ensures a == b
  {
    hide *;
    TableCode(a);
    TableCode(b);
    var ca, cb := Code(TABLE, a), Code(TABLE, b);
    CodeSpan(a);
    CodeSpan(b);
    var la, lb := LenAt(a), LenAt(b);
    if la == lb {
      assert ca == cb;
      SameLength(a, b);
    } else {
      var y := cb[la..];
      assert ca + y == cb;
      Extension(ca, y);
      LengthsApart(la, lb);
      AlignedMonotone(CodeAt(a) + 1, First(la) + Count(la), la);
      AlignedMonotone(First(lb), CodeAt(b), lb);
      AlignedMonotone(CodeAt(b), CodeAt(b) + 1, lb);
    }
  }

  lemma {:induction false} FromOnes(n: nat)
    ensures FromBits(Ones(n)) + 1 == Shl(1, n)
  {
    if n > 0 {
      FromOnes(n - 1);
      assert Ones(n)[..n - 1] == Ones(n - 1);
    }
  }

  /** A symbol whose code begins the padding byte of k ones, or begins with it. */
  lemma LeadsTo(k: nat, s: Byte)
    requires Shape(TABLE) && k <= 8 && Comparable(ToBits(CodeAt(s), LenAt(s)), PaddingByte(k))
    ensures HuffmanCode.Leads(TABLE, k)
  {
    hide ToBits, CodeAt, LenAt, PaddingByte, Comparable, Shape, Code;
    TableCode(s);
  }

  lemma Leads1()
    ensures Comparable(ToBits(CodeAt(61), LenAt(61)), PaddingByte(1))
  {
    assert ToBits(0x20, 6) == [true, false, false, false, false, false];
  }

  lemma Leads2()
    ensures Comparable(ToBits(CodeAt(69), LenAt(69)), PaddingByte(2))
  {
    assert ToBits(0x60, 7) == [true, true, false, false, false, false, false];
  }

  lemma Leads3()
    ensures Comparable(ToBits(CodeAt(85), LenAt(85)), PaddingByte(3))
  {
    assert ToBits(0x70, 7) == [true, true, true, false, false, false, false];
  }

  lemma Leads4()
    ensures Comparable(ToBits(CodeAt(119), LenAt(119)), PaddingByte(4))
  {
    assert ToBits(0x78, 7) == [true, true, true, true, false, false, false];
  }

  lemma Leads5()
    ensures Comparable(ToBits(CodeAt(38), LenAt(38)), PaddingByte(5))
  {
    assert ToBits(0xf8, 8) == [true, true, true, true, true, false, false, false];
  }

  lemma Leads6()
    ensures Comparable(ToBits(CodeAt(88), LenAt(88)), PaddingByte(6))
  {
    assert ToBits(0xfc, 8) == [true, true, true, true, true, true, false, false];
  }

  lemma Leads7()
    ensures Comparable(ToBits(CodeAt(33), LenAt(33)), PaddingByte(7))
  {
    assert ToBits(0x3f8, 10) == [true, true, true, true, true, true, true, false, false, false];
  }

  lemma ShortPaddings()
    requires Shape(TABLE)
    ensures HuffmanCode.Leads(TABLE, 1) && HuffmanCode.Leads(TABLE, 2) && HuffmanCode.Leads(TABLE, 3)
  {
    hide CodeAt, LenAt, ToBits, PaddingByte, Comparable, Shape, Code, HuffmanCode.Leads;
    Leads1();
    LeadsTo(1, 61);
    Leads2();
    LeadsTo(2, 69);
    Leads3();
    LeadsTo(3, 85);
  }

  lemma LongPaddings()
    requires Shape(TABLE)
    ensures HuffmanCode.Leads(TABLE, 4) && HuffmanCode.Leads(TABLE, 5)
    ensures HuffmanCode.Leads(TABLE, 6) && HuffmanCode.Leads(TABLE, 7)
  {
    hide CodeAt, LenAt, ToBits, PaddingByte, Comparable, Shape, Code, HuffmanCode.Leads;
    Leads4();
    LeadsTo(4, 119);
    Leads5();
    LeadsTo(5, 38);
    Leads6();
    LeadsTo(6, 88);
    Leads7();
    LeadsTo(7, 33);
  }

  /** Every padding leads towards some code, so every text comes back. */
  lemma PaddingSymbols()
    requires Shape(TABLE)
    ensures PaddingLeadsSomewhere(TABLE)
  {
    hide CodeAt, LenAt, Shape, Code, Enc, HuffmanCode.Leads;
    ShortPaddings();
    LongPaddings();
  }

  /** The Huffman results hold of this repository's table. */
  lemma TableIsValid()
    ensures CompleteTable(TABLE)
  {
    hide Code, CodeAt, LenAt, Shape, PaddingLeadsSomewhere;
    TableShape();
    forall a: Byte, b: Byte | Code(TABLE, a) <= Code(TABLE, b) ensures a == b {
      NoPrefix(a, b);
    }
    forall s: Byte ensures Code(TABLE, s) != Ones(|Code(TABLE, s)|) {
      NoCodeIsOnes(s);
    }
    PaddingSymbols();
  }

  lemma NoCodeIsOnes(s: Byte)
    requires Shape(TABLE)
    ensures Code(TABLE, s) != Ones(|Code(TABLE, s)|)
  {
    hide Code, CodeAt, LenAt, Shape;
    TableCode(s);
    CodeFits(s);
    FromOnes(|Code(TABLE, s)|);
  }
}
