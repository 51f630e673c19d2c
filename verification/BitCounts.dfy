/**
 The bit counts the page bitmap code is built on, as the fallback implementations compute them from
 tables, and that they mean what module Words says.
*/
module BitCounts {
  import opened BitStrings
  import Words
  import opened Tables

  const U64: nat := Words.U64

  /** The number of bits needed for x. */
  function BitLen(x: nat): nat { if x == 0 then 0 else 1 + BitLen(x / 2) }

  lemma {:induction false} BitLenShr(x: nat, k: nat)
    ensures Shr(x, k) > 0 ==> BitLen(x) == k + BitLen(Shr(x, k))
  {
    if k > 0 {
      BitLenShr(x / 2, k - 1);
      assert x == 0 ==> Shr(0, k) == 0 by { ShrZero(k); }
    }
  }

  lemma {:induction false} ShrZero(k: nat)
    ensures Shr(0, k) == 0
  {
    if k > 0 {
      ShrZero(k - 1);
    }
  }

  lemma {:induction false} ShrShr(x: nat, j: nat, k: nat)
    ensures Shr(Shr(x, j), k) == Shr(x, j + k)
  {
    if j > 0 {
      ShrShr(x / 2, j - 1, k);
    }
  }

  lemma ShrConstants(x: nat)
    ensures Shr(x, 8) == x / 0x100 && Shr(x, 16) == x / 0x1_0000 && Shr(x, 32) == x / 0x1_0000_0000
  {
    ShrFour(x);
    ShrFour(x / 0x10);
    ShrShr(x, 4, 4);
    ShrFour(x / 0x100);
    ShrFour(x / 0x1000);
    ShrShr(x / 0x100, 4, 4);
    ShrShr(x, 8, 8);
    ShrSixteen(x / 0x1_0000);
    ShrShr(x, 16, 16);
  }

  lemma ShrSixteen(x: nat)
    ensures Shr(x, 16) == x / 0x1_0000
  {
    ShrFour(x);
    ShrFour(x / 0x10);
    ShrShr(x, 4, 4);
    ShrFour(x / 0x100);
    ShrFour(x / 0x1000);
    ShrShr(x / 0x100, 4, 4);
    ShrShr(x, 8, 8);
  }

  lemma ShrFour(x: nat)
    ensures Shr(x, 4) == x / 0x10
  {
    assert Shr(x, 4) == Shr(x / 2 / 2, 2);
    assert Shr(x / 2 / 2, 2) == Shr(x / 2 / 2 / 2, 1) == Shr(x / 2 / 2 / 2 / 2, 0);
  }

  /** Bit lengths below 256. */
  function Len8(i: nat): nat
    requires i < 256
  {
    if i < 16 then Pick(i, 0, 1, 2, 2, 3, 3, 3, 3, 4, 4, 4, 4, 4, 4, 4, 4)
    else if i < 32 then 5 else if i < 64 then 6 else if i < 128 then 7 else 8
  }

  lemma Len8Exact(i: nat)
    requires i < 256
    ensures Len8(i) == BitLen(i)
  {
    hide Pick;
    if i >= 16 {
      ShrFour(i);
      BitLenShr(i, 4);
      LowLengths(i / 16);
    } else {
      LowLengths(i);
    }
  }

  lemma LowLengths(i: nat)
    requires i < 16
    ensures BitLen(i) == Pick(i, 0, 1, 2, 2, 3, 3, 3, 3, 4, 4, 4, 4, 4, 4, 4, 4)
    ensures 1 <= i ==> BitLen(i) == if i < 2 then 1 else if i < 4 then 2 else if i < 8 then 3 else 4
  {
    var h, q, e := i / 2, i / 4, i / 8;
    assert BitLen(e) == e && e <= 1;
    assert BitLen(q) == if q == 0 then 0 else 1 + BitLen(e);
    assert BitLen(h) == if h == 0 then 0 else 1 + BitLen(q);
  }

  method Len64(x0: nat) returns (n: nat)
    requires x0 < U64
    ensures n == BitLen(x0)
  {
    var x := x0;
    n := 0;
    ShrConstants(x);
    if x >= 0x1_0000_0000 {
      BitLenShr(x, 32);
      x := x / 0x1_0000_0000;
      n := 32;
    }
    ShrConstants(x);
    if x >= 0x1_0000 {
      BitLenShr(x, 16);
      x := x / 0x1_0000;
      n := n + 16;
    }
    ShrConstants(x);
    if x >= 0x100 {
      BitLenShr(x, 8);
      x := x / 0x100;
      n := n + 8;
    }
    Len8Exact(x);
    n := n + Len8(x);
  }

  /** A word's bit length is what its leading zeros leave of 64. */
  lemma LengthOfWord(x: Words.Word)
    ensures BitLen(Words.Value(x)) == 64 - Words.LeadingZeros(x)
  {
    LengthOf(x, Words.LeadingZeros(x));
  }

  lemma {:induction false} LengthOf(bits: seq<bool>, z: nat)
    requires z <= |bits| && (forall i | |bits| - z <= i < |bits| :: !bits[i]) && (z < |bits| ==> bits[|bits| - z - 1])
    ensures BitLen(Words.Value(bits)) == |bits| - z
  {
    hide Words.Pow2;
    if z == |bits| {
      ZeroValue(bits);
    } else if z < |bits| - 1 {
      LengthOf(bits[1..], z);
      OneBitMore(Words.Value(bits[1..]), if bits[0] then 1 else 0);
    } else {
      ZeroValue(bits[1..]);
    }
  }

  lemma OneBitMore(v: nat, bit: nat)
    requires v > 0 && bit <= 1
    ensures BitLen(2 * v + bit) == 1 + BitLen(v)
  {
    assert (2 * v + bit) / 2 == v;
  }

  lemma {:induction false} ZeroValue(bits: seq<bool>)
    requires forall i | 0 <= i < |bits| :: !bits[i]
    ensures Words.Value(bits) == 0
  {
    if |bits| > 0 {
      ZeroValue(bits[1..]);
    }
  }

  method LeadingZeros64(x: nat) returns (n: int)
    requires x < U64
    ensures n == Words.LeadingZeros(Words.WordOf(x))
  {
    ghost var w := Words.WordOf(x);
    Words.WordsAreNumbers(x, w);
    var l := Len64(x);
    LengthOfWord(w);
    n := 64 - l;
  }

  // ---------------------------------------------------------------- trailing zeros

  /** The number of zero bits below the lowest one. */
  function Tz(x: nat): nat
    requires x > 0
  {
    if x % 2 == 1 then 0 else 1 + Tz(x / 2)
  }

  /** A number and its complement have no bit in common. */
  lemma {:induction false} AndComplement(y: nat, n: nat)
    requires y < Shl(1, n)
    ensures BitAnd(y, Shl(1, n) - 1 - y) == 0
  {
    if n > 0 && y > 0 {
      AndComplement(y / 2, n - 1);
      assert (Shl(1, n) - 1 - y) / 2 == Shl(1, n - 1) - 1 - y / 2;
    }
  }

  /** `x & -x` keeps the lowest one bit. */
  lemma {:induction false} LowestBit(x: nat, n: nat)
    requires 0 < x < Shl(1, n)
    ensures BitAnd(x, Shl(1, n) - x) == Shl(1, Tz(x))
  {
    var h := Shl(1, n - 1);
    if x % 2 == 0 {
      LowestBit(x / 2, n - 1);
      assert (2 * h - x) / 2 == h - x / 2;
    } else {
      AndComplement(x / 2, n - 1);
      assert (2 * h - x) / 2 == h - 1 - x / 2;
    }
  }

  const DE_BRUIJN: nat := 0x03f79d71b4ca8b09

  function DeBruijnTab(i: nat): nat
    requires i < 64
  {
    if i < 8 then Pick8(i, 0, 1, 56, 2, 57, 49, 28, 3)
    else if i < 16 then Pick8(i - 8, 61, 58, 42, 50, 38, 29, 17, 4)
    else if i < 24 then Pick8(i - 16, 62, 47, 59, 36, 45, 43, 51, 22)
    else if i < 32 then Pick8(i - 24, 53, 39, 33, 30, 24, 18, 12, 5)
    else if i < 40 then Pick8(i - 32, 63, 55, 48, 27, 60, 41, 37, 16)
    else if i < 48 then Pick8(i - 40, 46, 35, 44, 21, 52, 32, 23, 11)
    else if i < 56 then Pick8(i - 48, 54, 26, 40, 15, 34, 20, 31, 10)
    else Pick8(i - 56, 25, 14, 19, 9, 13, 8, 7, 6)
  }

  /** What the table has for a 64-bit number: the entry of its top six bits. */
  function LookUp(v: nat): nat
    requires v < U64
  {
    DeBruijnTab(v / 0x0400_0000_0000_0000)
  }

  /** If v is the constant shifted k places, the table finds k, and so it does for the next three places. */
  predicate Quad(k: nat, v: nat)
    requires v < U64
  {
    LookUp(v) == k && LookUp(2 * v % U64) == k + 1 && LookUp(4 * v % U64) == k + 2 && LookUp(8 * v % U64) == k + 3
  }

  lemma Quad0() ensures Quad(0, 0x03f79d71b4ca8b09) { }
  lemma Quad4() ensures Quad(4, 0x3f79d71b4ca8b090) { }
  lemma Quad8() ensures Quad(8, 0xf79d71b4ca8b0900) { }
  lemma Quad12() ensures Quad(12, 0x79d71b4ca8b09000) { }
  lemma Quad16() ensures Quad(16, 0x9d71b4ca8b090000) { }
  lemma Quad20() ensures Quad(20, 0xd71b4ca8b0900000) { }
  lemma Quad24() ensures Quad(24, 0x71b4ca8b09000000) { }
  lemma Quad28() ensures Quad(28, 0x1b4ca8b090000000) { }
  lemma Quad32() ensures Quad(32, 0xb4ca8b0900000000) { }
  lemma Quad36() ensures Quad(36, 0x4ca8b09000000000) { }
  lemma Quad40() ensures Quad(40, 0xca8b090000000000) { }
  lemma Quad44() ensures Quad(44, 0xa8b0900000000000) { }
  lemma Quad48() ensures Quad(48, 0x8b09000000000000) { }
  lemma Quad52() ensures Quad(52, 0xb090000000000000) { }
  lemma Quad56() ensures Quad(56, 0x0900000000000000) { }
  lemma Quad60() ensures Quad(60, 0x9000000000000000) { }

  /** The constant times a power of two, in 64 bits. */
  function Shifted(k: nat): (r: nat)
    ensures r < U64
  {
    Shl(1, k) * DE_BRUIJN % U64
  }

  lemma ShiftedNext(k: nat)
    ensures Shifted(k + 1) == 2 * Shifted(k) % U64
  {
    var p := Shl(1, k);
    assert Shl(1, k + 1) == 2 * p;
    assert 2 * p * DE_BRUIJN == 2 * (p * DE_BRUIJN);
    Doubled(p * DE_BRUIJN);
  }

  lemma Doubled(a: nat)
    ensures 2 * a % U64 == 2 * (a % U64) % U64
  {
    var q, r := a / U64, 2 * (a % U64);
    RemainderIs(2 * q + r / U64, r % U64);
    assert 2 * a == U64 * (2 * q + r / U64) + r % U64;
  }

  lemma RemainderIs(q: nat, r: nat)
    requires r < U64
    ensures (U64 * q + r) % U64 == r
  {
  }

  lemma ShiftedOn(k: nat)
    ensures Shifted(k + 2) == 4 * Shifted(k) % U64
    ensures Shifted(k + 3) == 8 * Shifted(k) % U64
    ensures Shifted(k + 4) == 16 * Shifted(k) % U64
  {
    hide Shifted;
    var v := Shifted(k);
    ShiftedNext(k);
    ShiftedNext(k + 1);
    ShiftedNext(k + 2);
    ShiftedNext(k + 3);
    Doubled(2 * v);
    Doubled(4 * v);
    Doubled(8 * v);
  }

  lemma FoundFrom(k: nat, v: nat, i: nat)
    requires v < U64 && v == Shifted(k) && Quad(k, v) && k <= i < k + 4
    ensures LookUp(Shifted(i)) == i
  {
    hide Shifted, LookUp;
    ShiftedNext(k);
    ShiftedOn(k);
  }

  /** From one row of shifts to the next. */
  lemma NextRow(k: nat, v: nat, next: nat)
    requires Shifted(k) == v && next == 16 * v % U64
    ensures Shifted(k + 4) == next
  {
    hide Shifted;
    ShiftedOn(k);
  }

  lemma RowStarts()
    ensures Shifted(0) == 0x03f79d71b4ca8b09
    ensures Shifted(4) == 0x3f79d71b4ca8b090
    ensures Shifted(8) == 0xf79d71b4ca8b0900
    ensures Shifted(12) == 0x79d71b4ca8b09000
    ensures Shifted(16) == 0x9d71b4ca8b090000
    ensures Shifted(20) == 0xd71b4ca8b0900000
    ensures Shifted(24) == 0x71b4ca8b09000000
    ensures Shifted(28) == 0x1b4ca8b090000000
    ensures Shifted(32) == 0xb4ca8b0900000000
    ensures Shifted(36) == 0x4ca8b09000000000
    ensures Shifted(40) == 0xca8b090000000000
    ensures Shifted(44) == 0xa8b0900000000000
    ensures Shifted(48) == 0x8b09000000000000
    ensures Shifted(52) == 0xb090000000000000
    ensures Shifted(56) == 0x0900000000000000
    ensures Shifted(60) == 0x9000000000000000
  {
    hide Shifted;
    ShiftedZero();
    NextRow(0, 0x03f79d71b4ca8b09, 0x3f79d71b4ca8b090);
    NextRow(4, 0x3f79d71b4ca8b090, 0xf79d71b4ca8b0900);
    NextRow(8, 0xf79d71b4ca8b0900, 0x79d71b4ca8b09000);
    NextRow(12, 0x79d71b4ca8b09000, 0x9d71b4ca8b090000);
    NextRow(16, 0x9d71b4ca8b090000, 0xd71b4ca8b0900000);
    NextRow(20, 0xd71b4ca8b0900000, 0x71b4ca8b09000000);
    NextRow(24, 0x71b4ca8b09000000, 0x1b4ca8b090000000);
    NextRow(28, 0x1b4ca8b090000000, 0xb4ca8b0900000000);
    NextRow(32, 0xb4ca8b0900000000, 0x4ca8b09000000000);
    NextRow(36, 0x4ca8b09000000000, 0xca8b090000000000);
    NextRow(40, 0xca8b090000000000, 0xa8b0900000000000);
    NextRow(44, 0xa8b0900000000000, 0x8b09000000000000);
    NextRow(48, 0x8b09000000000000, 0xb090000000000000);
    NextRow(52, 0xb090000000000000, 0x0900000000000000);
    NextRow(56, 0x0900000000000000, 0x9000000000000000);
  }

  /** The top six bits of a product with a power of two give away the exponent. */
  lemma DeBruijnFinds(i: nat)
    requires i < 64
    ensures LookUp(Shifted(i)) == i
  {
    hide *;
    RowStarts();
    if i < 4 { Quad0(); FoundFrom(0, 0x03f79d71b4ca8b09, i); }
    else if i < 8 { Quad4(); FoundFrom(4, 0x3f79d71b4ca8b090, i); }
    else if i < 12 { Quad8(); FoundFrom(8, 0xf79d71b4ca8b0900, i); }
    else if i < 16 { Quad12(); FoundFrom(12, 0x79d71b4ca8b09000, i); }
    else if i < 20 { Quad16(); FoundFrom(16, 0x9d71b4ca8b090000, i); }
    else if i < 24 { Quad20(); FoundFrom(20, 0xd71b4ca8b0900000, i); }
    else if i < 28 { Quad24(); FoundFrom(24, 0x71b4ca8b09000000, i); }
    else if i < 32 { Quad28(); FoundFrom(28, 0x1b4ca8b090000000, i); }
    else if i < 36 { Quad32(); FoundFrom(32, 0xb4ca8b0900000000, i); }
    else if i < 40 { Quad36(); FoundFrom(36, 0x4ca8b09000000000, i); }
    else if i < 44 { Quad40(); FoundFrom(40, 0xca8b090000000000, i); }
    else if i < 48 { Quad44(); FoundFrom(44, 0xa8b0900000000000, i); }
    else if i < 52 { Quad48(); FoundFrom(48, 0x8b09000000000000, i); }
    else if i < 56 { Quad52(); FoundFrom(52, 0xb090000000000000, i); }
    else if i < 60 { Quad56(); FoundFrom(56, 0x0900000000000000, i); }
    else { Quad60(); FoundFrom(60, 0x9000000000000000, i); }
  }

  lemma ShiftedZero()
    ensures Shifted(0) == 0x03f79d71b4ca8b09
  {
  }

  lemma {:induction false} TzBound(x: nat, n: nat)
    requires 0 < x < Shl(1, n)
    ensures Tz(x) < n
  {
    if x % 2 == 0 {
      TzBound(x / 2, n - 1);
    }
  }

  lemma WordSize()
    ensures Shl(1, 64) == U64
  {
    ShlUp(0);
    ShlUp(5);
    ShlUp(10);
    ShlUp(15);
    ShlUp(20);
    ShlUp(25);
    ShlUp(30);
    ShlUp(35);
    ShlUp(40);
    ShlUp(45);
    ShlUp(50);
    ShlUp(55);
    assert Shl(1, 62) == 4 * Shl(1, 60);
    assert Shl(1, 64) == 4 * Shl(1, 62);
  }

  /** A word's trailing zeros, seen as a number's. */
  lemma {:induction false} TzOfWord(bits: seq<bool>, z: nat)
    requires z < |bits| && bits[z] && forall i | 0 <= i < z :: !bits[i]
    ensures Words.Value(bits) > 0 && Tz(Words.Value(bits)) == z
  {
    if z > 0 {
      TzOfWord(bits[1..], z - 1);
    }
  }

  method TrailingZeros64(x: nat) returns (n: nat)
    requires x < U64
    ensures n == Words.TrailingZeros(Words.WordOf(x))
  {
    hide Tz, BitAnd, Words.Value, Words.WordOf, Shl, LookUp;
    ghost var w := Words.WordOf(x);
    Words.WordsAreNumbers(x, w);
    if x == 0 {
      ZeroWord(w);
      return 64;
    }
    WordSize();
    LowestBit(x, 64);
    TzBound(x, 64);
    DeBruijnFinds(Tz(x));
    NonZeroWord(w);
    n := LookUp(BitAnd(x, U64 - x) * DE_BRUIJN % U64);
  }

  lemma NonZeroWord(w: Words.Word)
    requires Words.Value(w) > 0
    ensures Tz(Words.Value(w)) == Words.TrailingZeros(w)
  {
    if Words.TrailingZeros(w) == 64 {
      ZeroValue(w);
    } else {
      TzOfWord(w, Words.TrailingZeros(w));
    }
  }

  lemma ZeroWord(w: Words.Word)
    requires Words.Value(w) == 0
    ensures Words.TrailingZeros(w) == 64
  {
    if Words.TrailingZeros(w) < 64 {
      TzOfWord(w, Words.TrailingZeros(w));
    }
  }
}
