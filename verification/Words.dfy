/**
 64-bit machine words as sequences of 64 bits, bit 0 (least significant) first, with the
 operations the page bitmap code applies to them.
*/
module Words {
  import opened Runs

  type Word = w: seq<bool> | |w| == 64 witness seq(64, _ => false)

  predicate IsZero(x: Word) { forall i | 0 <= i < 64 :: !x[i] }

  function Not(x: Word): Word { seq(64, i requires 0 <= i < 64 => !x[i]) }

  function And(x: Word, y: Word): Word { seq(64, i requires 0 <= i < 64 => x[i] && y[i]) }

  function Or(x: Word, y: Word): Word { seq(64, i requires 0 <= i < 64 => x[i] || y[i]) }

  function Shr(x: Word, k: nat): Word { seq(64, i requires 0 <= i < 64 => i + k < 64 && x[i + k]) }

  /** x + 1 modulo 2^64: a carry reaches bit i exactly when every lower bit is set. */
  function Inc(x: Word): Word { seq(64, i requires 0 <= i < 64 => x[i] != AllSet(x[..i])) }

  predicate AllSet(bits: seq<bool>) { forall j | 0 <= j < |bits| :: bits[j] }

  function Pow2(n: nat): (r: nat)
    ensures r > 0
  {
    if n == 0 then 1 else 2 * Pow2(n - 1)
  }

  /** The number a bit string denotes, bit 0 first. */
  function Value(bits: seq<bool>): (r: nat)
    ensures r < Pow2(|bits|)
  {
    if |bits| == 0 then 0 else (if bits[0] then 1 else 0) + 2 * Value(bits[1..])
  }

  const U64: nat := 0x1_0000_0000_0000_0000

  /** The n lowest bits of x, bit 0 first. */
  function BitsOf(x: nat, n: nat): (r: seq<bool>)
    ensures |r| == n
  {
    if n == 0 then [] else [x % 2 == 1] + BitsOf(x / 2, n - 1)
  }

  /** The word that denotes a 64-bit number. */
  function WordOf(x: nat): Word
    requires x < U64
  {
    BitsOf(x, 64)
  }

  lemma {:induction false} BitsValue(x: nat, n: nat)
    requires x < Pow2(n)
    ensures Value(BitsOf(x, n)) == x
  {
    if n > 0 {
      BitsValue(x / 2, n - 1);
    }
  }

  lemma {:induction false} ValueBits(bits: seq<bool>)
    ensures BitsOf(Value(bits), |bits|) == bits
  {
    if |bits| > 0 {
      ValueBits(bits[1..]);
      assert Value(bits) / 2 == Value(bits[1..]);
    }
  }

  lemma {:induction false} Doubled(n: nat, k: nat)
    ensures Pow2(n + k) == Pow2(n) * Pow2(k)
  {
    if k > 0 {
      Doubled(n, k - 1);
    }
  }

  /** Words and 64-bit numbers correspond one to one. */
  lemma WordsAreNumbers(x: nat, w: Word)
    requires x < U64
    ensures Value(WordOf(x)) == x
    ensures Value(w) < U64 && WordOf(Value(w)) == w
  {
    hide Pow2, BitsOf, Value;
    WordSize();
    BitsValue(x, 64);
    ValueBits(w);
  }

  lemma WordSize()
    ensures Pow2(64) == U64
  {
    hide Pow2;
    ByteSize();
    Doubled(8, 8);
    Doubled(16, 16);
    Doubled(32, 32);
  }

  lemma ByteSize()
    ensures Pow2(8) == 256
  {
  }

  /** Adding the carry `c` to a bit string, ripple fashion. */
  function Ripple(bits: seq<bool>, c: bool): (r: seq<bool>)
    ensures |r| == |bits|
  {
    if |bits| == 0 then [] else [bits[0] != c] + Ripple(bits[1..], bits[0] && c)
  }

  lemma {:induction false} RippleValue(bits: seq<bool>, c: bool)
    ensures
      var sum := Value(bits) + if c then 1 else 0;
      Value(Ripple(bits, c)) == if sum == Pow2(|bits|) then 0 else sum
  {
    if |bits| > 0 {
      RippleValue(bits[1..], bits[0] && c);
      assert Ripple(bits, c)[1..] == Ripple(bits[1..], bits[0] && c);
    }
  }

  lemma {:induction false} RippleBits(bits: seq<bool>, c: bool, i: nat)
    requires i < |bits|
    ensures Ripple(bits, c)[i] == (bits[i] != (c && AllSet(bits[..i])))
  {
    if i > 0 {
      RippleBits(bits[1..], bits[0] && c, i - 1);
      assert bits[..i] == [bits[0]] + bits[1..][..i - 1];
      assert AllSet(bits[..i]) == (bits[0] && AllSet(bits[1..][..i - 1])) by {
        assert bits[1..][..i - 1] == bits[..i][1..];
        assert forall j | 1 <= j < i :: bits[..i][j] == bits[..i][1..][j - 1];
      }
    }
  }

  /** Inc is addition of one modulo 2^64. */
  lemma IncIsPlusOne(x: Word)
    ensures Value(Inc(x)) == (Value(x) + 1) % Pow2(|x|)
  {
    forall i: nat | i < 64 ensures Ripple(x, true)[i] == Inc(x)[i] {
      RippleBits(x, true, i);
    }
    assert Ripple(x, true) == Inc(x);
    RippleModulo(x);
  }

  lemma RippleModulo(bits: seq<bool>)
    ensures Value(Ripple(bits, true)) == (Value(bits) + 1) % Pow2(|bits|)
  {
    hide *;
    RippleValue(bits, true);
    WrapAround(Value(bits), Pow2(|bits|), Value(Ripple(bits, true)));
  }

  lemma WrapAround(v: nat, p: nat, r: nat)
    requires v < p && r == if v + 1 == p then 0 else v + 1
    ensures r == (v + 1) % p
  {
  }

  /** The count of zero bits below the lowest set bit; 64 for zero. */
  function TrailingZeros(x: Word): (n: nat)
    ensures IsStart(x, n) && n <= 64
  {
    TrailingZerosFrom(x, 0)
  }

  function TrailingZerosFrom(x: Word, i: nat): (n: nat)
    requires i <= 64 && forall j | 0 <= j < i :: !x[j]
    ensures IsStart(x, n) && n <= 64
    decreases 64 - i
  {
    if i == 64 || x[i] then i else TrailingZerosFrom(x, i + 1)
  }

  /** The count of zero bits above the highest set bit; 64 for zero. */
  function LeadingZeros(x: Word): (n: nat)
    ensures IsEnd(x, n) && n <= 64
  {
    LeadingZerosFrom(x, 0)
  }

  function LeadingZerosFrom(x: Word, i: nat): (n: nat)
    requires i <= 64 && Free(x, 64 - i, i)
    ensures IsEnd(x, n) && n <= 64
    decreases 64 - i
  {
    if i == 64 || x[63 - i] then i else LeadingZerosFrom(x, i + 1)
  }

  /** The test `x & (x+1) == 0`. */
  predicate OnesAtBottom(x: Word) { IsZero(And(x, Inc(x))) }

  /** The test holds exactly when no zero bit has a set bit above it. */
  lemma OnesAtBottomMeaning(x: Word)
    ensures OnesAtBottom(x) <==> forall i, j | 0 <= i < j < 64 :: x[j] ==> x[i]
  {
    var y := Inc(x);
    forall j | 0 <= j < 64 ensures And(x, y)[j] == (x[j] && !AllSet(x[..j])) {
      assert y[j] == (x[j] != AllSet(x[..j]));
    }
    if forall i, j | 0 <= i < j < 64 :: x[j] ==> x[i] {
      assert forall j | 0 <= j < 64 :: x[j] ==> AllSet(x[..j]);
    } else {
      var i, j :| 0 <= i < j < 64 && x[j] && !x[i];
      assert !x[..j][i];
      assert And(x, y)[j];
    }
  }
}
