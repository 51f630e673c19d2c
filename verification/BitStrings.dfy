/**
 Unsigned machine arithmetic seen as bit strings. A bit string is written most significant bit
 first; shifts and masks are defined by halving and doubling so that no power of two is needed.
*/
module BitStrings {

  type Bits = seq<bool>
  type Byte = b: nat | b < 256

  function Shr(v: nat, m: nat): nat { if m == 0 then v else Shr(v / 2, m - 1) }

  function Shl(v: nat, m: nat): nat { if m == 0 then v else 2 * Shl(v, m - 1) }

  /** n ones: `1<<n - 1`. */
  function Mask(n: nat): (r: nat)
    ensures r + 1 == Shl(1, n)
  {
    if n == 0 then 0 else 2 * Mask(n - 1) + 1
  }

  /** v modulo 2^n: truncation to n bits. */
  function Low(v: nat, n: nat): (r: nat)
    ensures r <= v
  {
    if n == 0 then 0 else 2 * Low(v / 2, n - 1) + v % 2
  }

  function BitOr(a: nat, b: nat): nat {
    if a == 0 && b == 0 then 0
    else 2 * BitOr(a / 2, b / 2) + if a % 2 == 1 || b % 2 == 1 then 1 else 0
  }

  function BitAnd(a: nat, b: nat): nat {
    if a == 0 || b == 0 then 0
    else 2 * BitAnd(a / 2, b / 2) + if a % 2 == 1 && b % 2 == 1 then 1 else 0
  }

  /** The low n bits of v. */
  function ToBits(v: nat, n: nat): (r: Bits)
    ensures |r| == n
  {
    if n == 0 then [] else ToBits(v / 2, n - 1) + [v % 2 == 1]
  }

  function FromBits(b: Bits): nat {
    if |b| == 0 then 0 else 2 * FromBits(b[..|b| - 1]) + if b[|b| - 1] then 1 else 0
  }

  function Ones(n: nat): (r: Bits)
    ensures |r| == n && forall i | 0 <= i < n :: r[i]
  {
    seq(n, _ => true)
  }

  function Zeros(n: nat): (r: Bits)
    ensures |r| == n && forall i | 0 <= i < n :: !r[i]
  {
    seq(n, _ => false)
  }

  lemma {:induction false} SplitBits(v: nat, n: nat, m: nat)
    ensures ToBits(v, n + m) == ToBits(Shr(v, m), n) + ToBits(v, m)
  {
    if m > 0 {
      SplitBits(v / 2, n, m - 1);
    }
  }

  lemma {:induction false} LowBits(v: nat, n: nat, k: nat)
    requires k <= n
    ensures ToBits(Low(v, n), k) == ToBits(v, k)
  {
    if k > 0 {
      LowBits(v / 2, n - 1, k - 1);
      assert Low(v, n) / 2 == Low(v / 2, n - 1);
    }
  }

  lemma {:induction false} ShlBits(v: nat, m: nat, n: nat)
    ensures ToBits(Shl(v, m), n + m) == ToBits(v, n) + Zeros(m)
  {
    if m > 0 {
      ShlBits(v, m - 1, n);
      assert Shl(v, m) / 2 == Shl(v, m - 1);
      assert Zeros(m) == Zeros(m - 1) + [false];
    } else {
      assert Zeros(0) == [];
    }
  }

  lemma {:induction false} OrBits(a: nat, b: nat, n: nat)
    ensures forall i | 0 <= i < n :: ToBits(BitOr(a, b), n)[i] == (ToBits(a, n)[i] || ToBits(b, n)[i])
  {
    if n > 0 {
      OrBits(a / 2, b / 2, n - 1);
      var c := BitOr(a, b);
      assert c / 2 == BitOr(a / 2, b / 2);
      assert (c % 2 == 1) == (a % 2 == 1 || b % 2 == 1);
    }
  }

  lemma {:induction false} AndBits(a: nat, b: nat, n: nat)
    ensures forall i | 0 <= i < n :: ToBits(BitAnd(a, b), n)[i] == (ToBits(a, n)[i] && ToBits(b, n)[i])
  {
    if n > 0 {
      AndBits(a / 2, b / 2, n - 1);
      var c := BitAnd(a, b);
      assert c / 2 == BitAnd(a / 2, b / 2);
      assert (c % 2 == 1) == (a % 2 == 1 && b % 2 == 1);
    }
  }

  lemma {:induction false} ZeroBits(n: nat)
    ensures ToBits(0, n) == Zeros(n)
  {
    if n > 0 {
      ZeroBits(n - 1);
    }
  }

  lemma {:induction false} FromToBits(v: nat, n: nat)
    ensures FromBits(ToBits(v, n)) == Low(v, n)
  {
    if n > 0 {
      FromToBits(v / 2, n - 1);
      assert ToBits(v, n)[..n - 1] == ToBits(v / 2, n - 1);
    }
  }

  lemma {:induction false} ToFromBits(b: Bits)
    ensures ToBits(FromBits(b), |b|) == b
  {
    if |b| > 0 {
      ToFromBits(b[..|b| - 1]);
      assert FromBits(b) / 2 == FromBits(b[..|b| - 1]);
      assert b == b[..|b| - 1] + [b[|b| - 1]];
    }
  }

  /** `x << m | c` in a 64-bit word appends the m bits of c, as long as the bits that count stay inside it. */
  lemma ShiftIn64(x: nat, m: nat, c: nat, n: nat)
    requires Low(c, m) == c && n + m <= 64
    ensures ToBits(BitOr(Low(Shl(x, m), 64), c), n + m) == ToBits(x, n) + ToBits(c, m)
  {
    hide Shl, Low, BitOr, ToBits;
    ShlBits(x, m, n);
    LowBits(Shl(x, m), 64, n + m);
    OrBits(Low(Shl(x, m), 64), c, n + m);
    HighBits(c, m, n);
  }

  lemma {:induction false} HighBits(c: nat, m: nat, n: nat)
    requires Low(c, m) == c
    ensures ToBits(c, n + m) == Zeros(n) + ToBits(c, m)
  {
    if m > 0 {
      assert Low(c, m) / 2 == Low(c / 2, m - 1);
      HighBits(c / 2, m - 1, n);
    } else {
      ZeroBits(n);
    }
  }

  lemma {:induction false} LowLow(v: nat, n: nat, m: nat)
    requires m <= n
    ensures Low(Low(v, n), m) == Low(v, m)
  {
    if m > 0 {
      LowLow(v / 2, n - 1, m - 1);
      assert Low(v, n) / 2 == Low(v / 2, n - 1);
    }
  }

  lemma {:induction false} LowShl(v: nat, m: nat, n: nat)
    ensures Low(Shl(v, m), n + m) == Shl(Low(v, n), m)
  {
    if m > 0 {
      LowShl(v, m - 1, n);
      assert Shl(v, m) / 2 == Shl(v, m - 1);
    }
  }

  lemma {:induction false} ShrFits(v: nat, m: nat, n: nat)
    requires Low(v, n + m) == v
    ensures Low(Shr(v, m), n) == Shr(v, m)
  {
    if m > 0 {
      assert Low(v, n + m) / 2 == Low(v / 2, n + m - 1);
      ShrFits(v / 2, m - 1, n);
    }
  }

  /** The numbers whose high part is r are an interval. */
  lemma {:induction false} ShlInterval(i: nat, r: nat, m: nat)
    ensures Shl(r, m) <= i < Shl(r, m) + Shl(1, m) <==> Shr(i, m) == r
  {
    if m > 0 {
      ShlInterval(i / 2, r, m - 1);
    }
  }

  /** Equal bits, equal numbers. */
  lemma SameBits(a: nat, b: nat, n: nat)
    ensures ToBits(a, n) == ToBits(b, n) <==> Low(a, n) == Low(b, n)
  {
    FromToBits(a, n);
    FromToBits(b, n);
    LowBits(a, n, n);
    LowBits(b, n, n);
  }

  // ---------------------------------------------------------------- bytes

  function BytesBits(v: seq<Byte>): (r: Bits)
    ensures |r| == 8 * |v|
  {
    if |v| == 0 then [] else BytesBits(v[..|v| - 1]) + ToBits(v[|v| - 1], 8)
  }

  function PackBytes(b: Bits): (r: seq<Byte>)
    requires |b| % 8 == 0
    ensures |r| == |b| / 8
  {
    if |b| == 0 then []
    else
      assert |b| >= 8;
      ByteRange(b[|b| - 8..]);
      PackBytes(b[..|b| - 8]) + [FromBits(b[|b| - 8..])]
  }

  lemma ByteRange(b: Bits)
    requires |b| == 8
    ensures FromBits(b) < 256
  {
    FromBitsBound(b[..7]);
    FromBitsBound(b);
  }

  lemma {:induction false} FromBitsBound(b: Bits)
    ensures FromBits(b) < Shl(1, |b|)
  {
    if |b| > 0 {
      FromBitsBound(b[..|b| - 1]);
    }
  }

  lemma {:induction false} BytesBitsConcat(a: seq<Byte>, b: seq<Byte>)
    ensures BytesBits(a + b) == BytesBits(a) + BytesBits(b)
  {
    if |b| == 0 {
      assert a + b == a;
    } else {
      BytesBitsConcat(a, b[..|b| - 1]);
      assert (a + b)[..|a + b| - 1] == a + b[..|b| - 1];
    }
  }

  lemma BytesBitsSnoc(v: seq<Byte>, c: Byte)
    ensures BytesBits(v + [c]) == BytesBits(v) + ToBits(c, 8)
  {
    hide ToBits;
    assert (v + [c])[..|v|] == v;
  }

  lemma {:induction false} BytesOfPacked(b: Bits)
    requires |b| % 8 == 0
    ensures BytesBits(PackBytes(b)) == b
  {
    hide ToBits, FromBits, PackBytes, BytesBits;
    if |b| > 0 {
      var init, last := b[..|b| - 8], b[|b| - 8..];
      BytesOfPacked(init);
      ToFromBits(last);
      ByteRange(last);
      PackedSnoc(b);
      BytesBitsSnoc(PackBytes(init), FromBits(last));
      assert b == init + last;
    }
  }

  lemma PackedSnoc(b: Bits)
    requires |b| % 8 == 0 && |b| > 0
    ensures FromBits(b[|b| - 8..]) < 256 && PackBytes(b) == PackBytes(b[..|b| - 8]) + [FromBits(b[|b| - 8..])]
  {
    hide FromBits;
    ByteRange(b[|b| - 8..]);
  }

  lemma {:induction false} PackedBytes(v: seq<Byte>)
    ensures PackBytes(BytesBits(v)) == v
  {
    hide ToBits, FromBits, Low;
    if |v| > 0 {
      var init, last := v[..|v| - 1], v[|v| - 1];
      PackedBytes(init);
      var b := BytesBits(v);
      assert b[..|b| - 8] == BytesBits(init);
      assert b[|b| - 8..] == ToBits(last, 8);
      FromToBits(last, 8);
      LowByte(last);
      assert v == init + [last];
    }
  }

  lemma LowByte(b: Byte)
    ensures Low(b, 8) == b
  {
    LowIsSmall(b, 8);
  }

  lemma ShlUp(m: nat)
    ensures Shl(1, m + 5) == 32 * Shl(1, m)
  {
    assert Shl(1, m + 2) == 4 * Shl(1, m);
    assert Shl(1, m + 4) == 4 * Shl(1, m + 2);
  }

  lemma {:induction false} LowIsSmall(v: nat, n: nat)
    ensures v < Shl(1, n) <==> Low(v, n) == v
  {
    if n > 0 {
      LowIsSmall(v / 2, n - 1);
    }
  }
}
