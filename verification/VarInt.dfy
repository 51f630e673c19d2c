/**
 HPACK integers (section 5.1 of RFC 7541): an n-bit prefix, then little-endian groups of seven
 bits with a continuation flag.
*/
module VarInt {
  import opened BitStrings

  const U64: nat := 0x1_0000_0000_0000_0000
  const LIMIT: nat := 0x8000_0000_0000_0000      // 2^63

  datatype ReadError = NeedMore | Overflow
  datatype ReadResult = Read(value: nat, rest: seq<Byte>) | Failed(error: ReadError)

  /** 2^n - 1 for a prefix of n bits. */
  function PrefixMax(n: nat): (k: nat)
    requires 1 <= n <= 8
    ensures 1 <= k <= 255
  {
    if n == 1 then 1 else if n == 2 then 3 else if n == 3 then 7 else if n == 4 then 15
    else if n == 5 then 31 else if n == 6 then 63 else if n == 7 then 127 else 255
  }

  // ---------------------------------------------------------------- writing

  /** The groups that follow a full prefix. */
  function Groups(i: nat): (r: seq<Byte>)
    ensures |r| > 0
  {
    if i < 128 then [i] else [128 + i % 128] + Groups(i / 128)
  }

  /** The octets of i with an n-bit prefix whose other bits are zero. */
  function Encoded(n: nat, i: nat): (r: seq<Byte>)
    requires 1 <= n <= 8
    ensures |r| > 0 && r[0] <= PrefixMax(n)
  {
    var k := PrefixMax(n);
    if i < k then [i] else [k] + Groups(i - k)
  }

  method AppendVarInt(dst: seq<Byte>, n: nat, i: nat) returns (r: seq<Byte>)
    requires 1 <= n <= 8 && i < U64
    ensures r == dst + Encoded(n, i)
  {
    hide PrefixMax;
    var k := PrefixMax(n);
    if i < k {
      return dst + [i];
    }
    r := dst + [k];
    var x: nat := i - k;
    ghost var all := r + Groups(x);
    assert all == dst + Encoded(n, i);
    while x >= 128
      invariant r + Groups(x) == all
    {
      MoreGroups(r, x);
      r := r + [128 + x % 128];
      x := x / 128;
    }
    r := r + [x];
  }

  lemma MoreGroups(r: seq<Byte>, x: nat)
    requires x >= 128
    ensures r + Groups(x) == r + [128 + x % 128] + Groups(x / 128)
  {
  }

  // ---------------------------------------------------------------- reading

  /** 2^(7j): the weight of group j. */
  function Weight(j: nat): (w: nat)
    requires j <= 9
    ensures 1 <= w
  {
    if j == 0 then 1 else 128 * Weight(j - 1)
  }

  /** Reads groups j, j+1, ... onto the value v; the ninth continuation is one too many. */
  function ReadGroups(v: nat, j: nat, p: seq<Byte>): ReadResult
    requires j <= 8
    decreases |p|
  {
    if |p| == 0 then Failed(NeedMore)
    else
      var v' := (v + p[0] % 128 * Weight(j)) % U64;
      if p[0] < 128 then Read(v', p[1..])
      else if j + 1 >= 9 then Failed(Overflow)
      else ReadGroups(v', j + 1, p[1..])
  }

  function ReadSpec(n: nat, p: seq<Byte>): ReadResult
    requires 1 <= n <= 8
  {
    if |p| == 0 then Failed(NeedMore)
    else
      var i := if n < 8 then p[0] % (PrefixMax(n) + 1) else p[0];
      if i < PrefixMax(n) then Read(i, p[1..]) else ReadGroups(i, 0, p[1..])
  }

  method ReadVarInt(n: nat, p: seq<Byte>) returns (r: ReadResult)
    requires 1 <= n <= 8
    ensures r == ReadSpec(n, p)
  {
    if |p| == 0 {
      return Failed(NeedMore);
    }
    var i: nat := p[0];
    if n < 8 {
      i := i % (PrefixMax(n) + 1);
    }
    if i < PrefixMax(n) {
      return Read(i, p[1..]);
    }
    var q := p[1..];
    var j := 0;                         // m == 7 * j
    while |q| > 0
      invariant 0 <= j <= 8 && i >= 0
      invariant ReadSpec(n, p) == ReadGroups(i, j, q)
      decreases |q|
    {
      var b := q[0];
      q := q[1..];
      i := (i + b % 128 * Weight(j)) % U64;
      if b < 128 {
        return Read(i, q);
      }
      j := j + 1;
      if j >= 9 {
        return Failed(Overflow);
      }
    }
    return Failed(NeedMore);
  }

  // ---------------------------------------------------------------- round trip

  lemma {:induction false} WeightMul(x: nat, j: nat)
    requires j < 9
    ensures x * Weight(j) == x % 128 * Weight(j) + x / 128 * Weight(j + 1)
  {
    var w := Weight(j);
    assert x == x % 128 + 128 * (x / 128);
    assert x * w == (x % 128) * w + (128 * (x / 128)) * w;
    assert (128 * (x / 128)) * w == (x / 128) * (128 * w);
  }

  lemma Weights()
    ensures Weight(9) == LIMIT
    ensures forall j | 0 <= j < 9 :: 128 * Weight(j) == Weight(j + 1)
  {
    assert Weight(3) == 2097152;
    assert Weight(6) == 4398046511104;
  }

  lemma NextFits(x: nat, j: nat)
    requires j <= 8 && x < Weight(9 - j)
    ensures if j == 8 then x < 128 else x / 128 < Weight(8 - j)
  {
    assert Weight(9 - j) == 128 * Weight(8 - j);
  }

  lemma Unwrapped(v: nat, j: nat, x: nat)
    requires j <= 8 && v + x * Weight(j) < U64
    ensures (v + x % 128 * Weight(j)) % U64 == v + x % 128 * Weight(j)
    ensures v + x % 128 * Weight(j) + x / 128 * Weight(j + 1) == v + x * Weight(j)
  {
    hide Weight;
    WeightMul(x, j);
    Reduced(v + x % 128 * Weight(j), x / 128 * Weight(j + 1));
  }

  lemma Reduced(a: nat, b: nat)
    requires a + b < U64
    ensures a % U64 == a
  {
  }

  /** Whatever fits into the groups that are left is read back, and no addition wraps. */
  lemma {:induction false} ReadBack(v: nat, j: nat, x: nat, suffix: seq<Byte>)
    requires j <= 8 && x < Weight(9 - j) && v + x * Weight(j) < U64
    ensures ReadGroups(v, j, Groups(x) + suffix) == Read(v + x * Weight(j), suffix)
    decreases x
  {
    hide Weight;
    var g := Groups(x) + suffix;
    Unwrapped(v, j, x);
    NextFits(x, j);
    assert g[0] % 128 == x % 128;
    if x < 128 {
      assert g[1..] == suffix;
    } else {
      assert g[1..] == Groups(x / 128) + suffix;
      ReadBack(v + x % 128 * Weight(j), j + 1, x / 128, suffix);
    }
  }

  /** A strict prefix of the groups is not enough, as long as all of them would be read. */
  lemma {:induction false} ReadShort(v: nat, j: nat, x: nat, n: nat)
    requires j <= 8 && x < Weight(9 - j) && n < |Groups(x)|
    ensures ReadGroups(v, j, Groups(x)[..n]) == Failed(NeedMore)
    decreases x
  {
    hide Weight;
    NextFits(x, j);
    var g := Groups(x)[..n];
    if n > 0 && x >= 128 {
      assert g[1..] == Groups(x / 128)[..n - 1];
      assert g[0] >= 128;
      ReadShort((v + g[0] % 128 * Weight(j)) % U64, j + 1, x / 128, n - 1);
    }
  }

  /** More than 63 bits of groups overflow, whatever follows. */
  lemma {:induction false} ReadTooBig(v: nat, j: nat, x: nat, suffix: seq<Byte>)
    requires j <= 8 && x >= Weight(9 - j)
    ensures ReadGroups(v, j, Groups(x) + suffix) == Failed(Overflow)
    decreases x
  {
    hide Weight;
    var g := Groups(x) + suffix;
    TooBigNext(x, j);
    assert g[0] >= 128;
    if j < 8 {
      assert g[1..] == Groups(x / 128) + suffix;
      ReadTooBig((v + g[0] % 128 * Weight(j)) % U64, j + 1, x / 128, suffix);
    }
  }

  lemma TooBigNext(x: nat, j: nat)
    requires j <= 8 && x >= Weight(9 - j)
    ensures x >= 128 && (j < 8 ==> x / 128 >= Weight(8 - j))
  {
    assert Weight(9 - j) == 128 * Weight(8 - j);
  }

  /** The first octet with flag bits set above the prefix. */
  predicate Flagged(n: nat, plain: Byte, b: Byte)
    requires 1 <= n <= 8
  {
    plain <= PrefixMax(n) && (if n < 8 then b % (PrefixMax(n) + 1) == plain else b == plain)
  }

  /** The octets of i, with flags in the first one. */
  predicate FlaggedEncoding(n: nat, i: nat, p: seq<Byte>)
    requires 1 <= n <= 8
  {
    var e := Encoded(n, i);
    |p| == |e| && Flagged(n, e[0], p[0]) && p[1..] == e[1..]
  }

  /** What one integer of the format can hold: 2^63 values beyond the prefix. */
  function MaxValue(n: nat): nat
    requires 1 <= n <= 8
  {
    LIMIT + PrefixMax(n)
  }

  /**
   Reading what was written gives the integer and exactly what follows it, when it is below
   2^63 + 2^n - 1; for a larger integer it reports an overflow.
  */
  lemma RoundTrip(n: nat, i: nat, p: seq<Byte>, suffix: seq<Byte>)
    requires 1 <= n <= 8 && FlaggedEncoding(n, i, p)
    ensures ReadSpec(n, p + suffix) == if i < MaxValue(n) then Read(i, suffix) else Failed(Overflow)
  {
    Weights();
    hide Weight;
    var k := PrefixMax(n);
    var q := p + suffix;
    assert q[0] == p[0] && q[1..] == p[1..] + suffix;
    if i < k {
      assert q[1..] == suffix;
    } else {
      var e := Encoded(n, i);
      assert e[1..] == Groups(i - k);
      assert Weight(0) == 1 by { WeightZero(); }
      if i < MaxValue(n) {
        ReadBack(k, 0, i - k, suffix);
      } else {
        ReadTooBig(k, 0, i - k, suffix);
      }
    }
  }

  lemma WeightZero()
    ensures Weight(0) == 1
  {
  }

  /** Every strict prefix of a readable integer asks for more input. */
  lemma StrictPrefix(n: nat, i: nat, p: seq<Byte>, m: nat)
    requires 1 <= n <= 8 && FlaggedEncoding(n, i, p) && i < MaxValue(n) && m < |p|
    ensures ReadSpec(n, p[..m]) == Failed(NeedMore)
  {
    Weights();
    hide Weight;
    var k := PrefixMax(n);
    if m > 0 {
      var e := Encoded(n, i);
      assert p[..m][0] == p[0];
      assert i >= k && e[1..] == Groups(i - k);
      assert p[..m][1..] == Groups(i - k)[..m - 1];
      ReadShort(k, 0, i - k, m - 1);
    }
  }

  /** The examples of section C.1 of RFC 7541: 10 and 1337 with a prefix of five bits, 42 with one of eight. */
  lemma ExamplesOfTheStandard()
    ensures Encoded(5, 10) == [10] && Encoded(5, 1337) == [31, 154, 10] && Encoded(8, 42) == [42]
  {
    assert Groups(1337 - 31) == [154] + Groups(10) == [154, 10];
  }

  // ---------------------------------------------------------------- more input

  /** The result on more input, unless the input so far asked for it. */
  function Extended(r: ReadResult, q: seq<Byte>): ReadResult {
    match r
    case Read(v, rest) => Read(v, rest + q)
    case Failed(_) => r
  }

  lemma {:induction false} GroupsExtend(v: nat, j: nat, p: seq<Byte>, q: seq<Byte>)
    requires j <= 8
    ensures var r := ReadGroups(v, j, p);
            && (r.Read? ==> |r.rest| < |p|)
            && (r != Failed(NeedMore) ==> ReadGroups(v, j, p + q) == Extended(r, q))
    decreases |p|
  {
    if |p| > 0 {
      assert (p + q)[1..] == p[1..] + q;
      if p[0] >= 128 && j < 8 {
        GroupsExtend((v + p[0] % 128 * Weight(j)) % U64, j + 1, p[1..], q);
      }
    }
  }

  /** What reading makes of some input does not change when more input follows, unless it asked for more. */
  lemma ReadExtends(n: nat, p: seq<Byte>, q: seq<Byte>)
    requires 1 <= n <= 8
    ensures var r := ReadSpec(n, p);
            && (r.Read? ==> |r.rest| < |p|)
            && (r != Failed(NeedMore) ==> ReadSpec(n, p + q) == Extended(r, q))
  {
    hide ReadGroups;
    if |p| > 0 {
      assert (p + q)[1..] == p[1..] + q;
      GroupsExtend(if n < 8 then p[0] % (PrefixMax(n) + 1) else p[0], 0, p[1..], q);
    }
  }
}
