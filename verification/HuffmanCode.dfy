/**
 A Huffman code table for bytes, and the bit strings and byte strings it assigns to a text.
*/
module HuffmanCode {
  import opened BitStrings

  datatype CodeTable = CodeTable(codes: seq<nat>, lens: seq<nat>)

  /** 256 rows, every code of 5 to 30 bits and fitting in its length. */
  predicate Shape(t: CodeTable) {
    && |t.codes| == |t.lens| == 256
    && forall s: Byte :: RowOk(t.codes[s], t.lens[s])
  }

  predicate RowOk(code: nat, len: nat) { 5 <= len <= 30 && Low(code, len) == code }

  /** The code of one symbol. */
  function Code(t: CodeTable, s: Byte): (r: Bits)
    requires Shape(t)
    ensures |r| == t.lens[s]
  {
    ToBits(t.codes[s], t.lens[s])
  }

  /** No code is a prefix of the code of another symbol. */
  ghost predicate PrefixFree(t: CodeTable)
    requires Shape(t)
  {
    forall a: Byte, b: Byte :: Code(t, a) <= Code(t, b) ==> a == b
  }

  /** No code of fewer than eight bits is all ones, so padding is never a symbol. */
  ghost predicate PaddingIsNoCode(t: CodeTable)
    requires Shape(t)
  {
    forall s: Byte :: |Code(t, s)| <= 7 ==> Code(t, s) != Ones(|Code(t, s)|)
  }

  /** The byte the decoder indexes the root with when k ones of padding are left. */
  function PaddingByte(k: nat): Bits
    requires k <= 8
  {
    Ones(k) + Zeros(8 - k)
  }

  /** That byte leads towards some code. */
  ghost predicate Leads(t: CodeTable, k: nat)
    requires Shape(t) && k <= 8
  {
    exists s: Byte :: Comparable(Code(t, s), PaddingByte(k))
  }

  /** The padding of a text's encoding, if it has any, leads towards some code. */
  ghost predicate PaddingAccepted(t: CodeTable, s: seq<Byte>)
    requires Shape(t)
  {
    var k := PadLength(|Enc(t, s)|);
    k == 0 || Leads(t, k)
  }

  /** Whatever padding an encoding can end with leads towards some code. */
  ghost predicate PaddingLeadsSomewhere(t: CodeTable)
    requires Shape(t)
  {
    forall s: seq<Byte> :: PaddingAccepted(t, s)
  }

  predicate Comparable(a: Bits, b: Bits) { a <= b || b <= a }

  ghost predicate ValidTable(t: CodeTable) { Shape(t) && PrefixFree(t) && PaddingIsNoCode(t) }

  /** A table every text comes back through. */
  ghost predicate CompleteTable(t: CodeTable) { ValidTable(t) && PaddingLeadsSomewhere(t) }

  /** The codes of a text, one after the other. */
  function Enc(t: CodeTable, s: seq<Byte>): Bits
    requires Shape(t)
  {
    if |s| == 0 then [] else Enc(t, s[..|s| - 1]) + Code(t, s[|s| - 1])
  }

  /** The number of one bits that fill up the last byte. */
  function PadLength(n: nat): (k: nat)
    ensures k < 8 && (n + k) % 8 == 0
  {
    (8 - n % 8) % 8
  }

  /** The Huffman-encoded octets of a text: its codes, padded with ones to a whole byte. */
  function HuffmanString(t: CodeTable, s: seq<Byte>): (r: seq<Byte>)
    requires Shape(t)
  {
    PackBytes(Enc(t, s) + Ones(PadLength(|Enc(t, s)|)))
  }

  lemma HuffmanBits(t: CodeTable, s: seq<Byte>)
    requires Shape(t)
    ensures BytesBits(HuffmanString(t, s)) == Enc(t, s) + Ones(PadLength(|Enc(t, s)|))
  {
    BytesOfPacked(Enc(t, s) + Ones(PadLength(|Enc(t, s)|)));
  }

  /** Octets that read as the codes of a text and fewer than eight ones are its encoding. */
  lemma OnlyEncoding(t: CodeTable, s: seq<Byte>, v: seq<Byte>, k: nat)
    requires Shape(t) && k < 8 && BytesBits(v) == Enc(t, s) + Ones(k)
    ensures v == HuffmanString(t, s)
  {
    hide Enc, BytesBits, PackBytes;
    assert |BytesBits(v)| == |Enc(t, s)| + k;
    assert k == PadLength(|Enc(t, s)|);
    PackedBytes(v);
  }

  lemma {:induction false} EncConcat(t: CodeTable, a: seq<Byte>, b: seq<Byte>)
    requires Shape(t)
    ensures Enc(t, a + b) == Enc(t, a) + Enc(t, b)
  {
    if |b| == 0 {
      assert a + b == a;
    } else {
      EncConcat(t, a, b[..|b| - 1]);
      assert (a + b)[..|a + b| - 1] == a + b[..|b| - 1];
    }
  }

  /** Splitting off the next symbol. */
  lemma EncNext(t: CodeTable, s: seq<Byte>, j: nat)
    requires Shape(t) && j < |s|
    ensures Enc(t, s[j..]) == Code(t, s[j]) + Enc(t, s[j + 1..])
  {
    EncConcat(t, [s[j]], s[j + 1..]);
    assert s[j..] == [s[j]] + s[j + 1..];
    assert [s[j]][..0] == [];
    assert Enc(t, [s[j]]) == Code(t, s[j]);
  }

  lemma PrefixesComparable(a: Bits, b: Bits, c: Bits)
    requires a <= c && b <= c
    ensures Comparable(a, b)
  {
    if |a| <= |b| {
      assert a == c[..|a|] == b[..|a|];
    } else {
      assert b == c[..|b|] == a[..|b|];
    }
  }

  /** What is left of an encoded text begins with the code of at most one symbol: the next one. */
  lemma NextSymbol(t: CodeTable, s: seq<Byte>, j: nat, k: nat, sym: Byte)
    requires ValidTable(t) && j <= |s| && k < 8
    requires Code(t, sym) <= Enc(t, s[j..]) + Ones(k)
    ensures j < |s| && sym == s[j]
  {
    hide Code, Enc, Shape;
    EmptyEnc(t);
    assert j == |s| ==> s[j..] == [];
    assert j == |s| ==> Enc(t, s[j..]) + Ones(k) == Ones(k);
    NotPadding(t, sym, k);
    EncNext(t, s, j);
    var rest := Enc(t, s[j..]) + Ones(k);
    assert Code(t, s[j]) <= rest;
    PrefixesComparable(Code(t, s[j]), Code(t, sym), rest);
  }

  lemma NotPadding(t: CodeTable, sym: Byte, k: nat)
    requires ValidTable(t) && k < 8
    ensures !(Code(t, sym) <= Ones(k))
  {
    hide Code;
    assert Code(t, sym) <= Ones(k) ==> Code(t, sym) == Ones(|Code(t, sym)|);
  }

  lemma EmptyEnc(t: CodeTable)
    requires Shape(t)
    ensures Enc(t, []) == []
  {
  }

  // ---------------------------------------------------------------- a table that leads nowhere

  /** Every symbol as itself, in nine bits. */
  function Nines(): CodeTable {
    CodeTable(seq(256, i requires 0 <= i < 256 => i), seq(256, _ => 9))
  }

  lemma NineBits(s: Byte)
    ensures Low(s, 9) == s && !ToBits(s, 9)[0]
  {
    LowByte(s);
    SplitBits(s, 1, 8);
    ShrByte(s);
    LowIsSmall(s, 8);
    LowIsSmall(s, 9);
    assert Shl(1, 9) == 2 * Shl(1, 8);
  }

  lemma ShrByte(s: Byte)
    ensures Shr(s, 8) == 0
  {
    LowByte(s);
    ShrFits(s, 8, 0);
  }

  /** This table is valid, and no text of one symbol comes back through it: its padding leads nowhere. */
  lemma PaddingCanLeadNowhere(s: Byte)
    ensures ValidTable(Nines()) && !PaddingAccepted(Nines(), [s])
  {
    hide Low, ToBits, Shl, Shr;
    var t := Nines();
    forall a: Byte ensures RowOk(t.codes[a], t.lens[a]) {
      NineBits(a);
    }
    forall a: Byte, b: Byte | Code(t, a) <= Code(t, b) ensures a == b {
      SameBits(a, b, 9);
      NineBits(a);
      NineBits(b);
    }
    assert [s][..0] == [];
    assert |Enc(t, [s])| == 9;
    forall a: Byte ensures !Comparable(Code(t, a), PaddingByte(7)) {
      NineBits(a);
      assert PaddingByte(7)[0];
    }
  }
}
