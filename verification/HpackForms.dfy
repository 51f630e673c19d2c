/**
 Which form the encoder chooses for a field and for a string, told from the octets, and what the
 decoder does with what it does not take.
*/
module HpackForms {
  import opened BitStrings
  import opened HuffmanCode
  import HuffmanTable
  import opened VarInt
  import opened HeaderTable
  import opened DynamicTables
  import opened Hpack

  // ---------------------------------------------------------------- the encoder's choices

  /** An entry takes its name, its value and 32 octets (section 4.1 of RFC 7541). */
  lemma EntrySize(f: HeaderField)
    requires |f.name| + |f.value| + 32 < U32
    ensures Total([f]) == |f.name| + |f.value| + 32
  {
    assert Total([f]) == Size(f) + Total([]);
  }

  /**
   The first octet tells how a field was sent (section 6 of RFC 7541): as one index exactly when it
   may be indexed and an entry has its name and value; to be indexed exactly when it may be, no entry is it and
   it fits the table; never to be indexed exactly when it is sensitive. A literal refers to its
   name exactly when some entry has it.
  */
  lemma FormOf(t: CodeTable, st: seq<HeaderField>, dyn: seq<HeaderField>, maxSize: nat, f: HeaderField)
    requires Shape(t) && |f.name| + |f.value| + 32 < U32
    ensures
      var r := Representation(t, st, dyn, maxSize, f);
      var known, fits := exists i: nat :: PairAt(st, dyn, i, f), |f.name| + |f.value| + 32 <= maxSize;
      && |r| > 0
      && (r[0] >= 128 <==> !f.sensitive && known)
      && (r[0] / 64 == 1 <==> !f.sensitive && !known && fits)
      && (r[0] / 16 == 0 <==> !f.sensitive && !known && !fits)
      && (r[0] / 16 == 1 <==> f.sensitive)
      && (r[0] < 128 ==>
            ((exists i: nat :: NameAt(st, dyn, i, f)) <==> r[0] % (if r[0] / 64 == 1 then 64 else 16) != 0))
  {
    FullMatch(st, dyn, f);
    NameMatch(st, dyn, f);
    hide StringOctets, SearchBoth, PairAt, NameAt, Shape, Groups;
  }

  /** A string is Huffman-coded exactly when that is strictly shorter, and the flag says so. */
  lemma StringForm(t: CodeTable, s: Str)
    requires Shape(t)
    ensures
      var h, r := HuffmanString(t, s), StringOctets(t, s);
      var body := if |h| < |s| then h else s;
      && |r| > |body| && r[|r| - |body|..] == body
      && (r[0] >= 128 <==> |h| < |s|)
      && r[..|r| - |body|] == LengthOctets(t, s)
  {
    hide HuffmanString, Shape, Groups;
  }

  /** What comes before the body of a string literal. */
  function LengthOctets(t: CodeTable, s: Str): seq<Byte>
    requires Shape(t)
  {
    var h := HuffmanString(t, s);
    if |h| < |s| then WithFlag(Encoded(7, |h|), 0x80) else Encoded(7, |s|)
  }

  // ---------------------------------------------------------------- what the decoder refuses

  /**
   A string over the decoder's limit. If its octets are over the limit too it is refused as soon as its length
   is known. If they are not, because it is Huffman-coded, it is read as the empty string: the
   code drops the error.
  */
  lemma StringOverLimit(t: CodeTable, maxStrLen: nat, s: Str, rest: seq<Byte>)
    requires CompleteTable(t) && 0 < maxStrLen < |s| && Fits(|s|)
    ensures
      var h := HuffmanString(t, s);
      if |h| > maxStrLen || |h| >= |s|
      then ReadString(maxStrLen, LengthOctets(t, s) + rest) == StringError(StringTooLong)
      else
        var r := ReadString(maxStrLen, StringOctets(t, s) + rest);
        r.Raw? && r.rest == rest && Text(t, maxStrLen, r.isHuff, r.b) == []
  {
    hide HuffmanString, HuffText, ReadSpec, Encoded, PrefixFree, PaddingIsNoCode, PaddingAccepted, Shape;
    var h := HuffmanString(t, s);
    var n, flag := if |h| < |s| then |h| else |s|, if |h| < |s| then 0x80 else 0;
    FlagKept(7, n, flag);
    var e := WithFlag(Encoded(7, n), flag);
    assert WithFlag(Encoded(7, n), 0) == Encoded(7, n);
    if |h| > maxStrLen || |h| >= |s| {
      RoundTrip(7, n, e, rest);
    } else {
      assert StringOctets(t, s) + rest == e + (h + rest);
      RoundTrip(7, n, e, h + rest);
      assert (h + rest)[..n] == h && (h + rest)[n..] == rest;
      assert (e + (h + rest))[0] == e[0];
      NoText(t, maxStrLen, s);
    }
  }

  lemma NoText(t: CodeTable, maxStrLen: nat, s: Str)
    requires ValidTable(t) && 0 < maxStrLen < |s|
    ensures HuffText(t, maxStrLen, HuffmanString(t, s)) == []
  {
    hide HuffmanString, PrefixFree, PaddingIsNoCode, PaddingAccepted, Shape;
    forall r: Str ensures !Readable(t, maxStrLen, HuffmanString(t, s), r) {
      if HuffmanString(t, s) == HuffmanString(t, r) {
        HuffmanInjective(t, s, r);
      }
    }
  }

  /** Index 0 and indices beyond both tables are refused, in an indexed field and as a literal's name. */
  lemma BadIndex(t: CodeTable, st: seq<HeaderField>, dyn: seq<HeaderField>, c: Config, it: IndexType, i: nat,
                 rest: seq<Byte>)
    requires Shape(t) && Fits(i) && (i == 0 || i > |st| + |dyn|)
    ensures
      var buf := WithFlag(Encoded(7, i), 0x80) + rest;
      ParseField(t, st, dyn, c, buf) == Outcome(Error(InvalidIndex(i)), buf, dyn, [])
    ensures
      var buf := WithFlag(Encoded(PrefixOf(it), i), TypeByte(it)) + rest;
      i > 0 ==> ParseField(t, st, dyn, c, buf) == Outcome(Error(InvalidIndex(i)), buf, dyn, [])
  {
    hide ReadSpec, Encoded, Shape, ParseValue;
    FlagKept(7, i, 0x80);
    var e := WithFlag(Encoded(7, i), 0x80);
    RoundTrip(7, i, e, rest);
    assert (e + rest)[0] == e[0] >= 128;
    var n, flag := PrefixOf(it), TypeByte(it);
    FlagKept(n, i, flag);
    var d := WithFlag(Encoded(n, i), flag);
    RoundTrip(n, i, d, rest);
    assert (d + rest)[0] == d[0];
  }

  /** An index, a length or a size from 2^63 + 2^n - 1 on is an overflow, wherever it stands. */
  lemma BigNumbers(t: CodeTable, st: seq<HeaderField>, dyn: seq<HeaderField>, c: Config, it: IndexType, i: nat,
                   rest: seq<Byte>)
    requires Shape(t) && 0x8000_0000_0000_0000 + 127 <= i < U64
    ensures
      var buf := WithFlag(Encoded(7, i), 0x80) + rest;
      ParseField(t, st, dyn, c, buf) == Outcome(Error(VarintOverflow), buf, dyn, [])
    ensures
      var buf := WithFlag(Encoded(PrefixOf(it), i), TypeByte(it)) + rest;
      ParseField(t, st, dyn, c, buf) == Outcome(Error(VarintOverflow), buf, dyn, [])
    ensures ReadString(c.maxStrLen, Encoded(7, i) + rest) == StringError(VarintOverflow)
    ensures ReadString(c.maxStrLen, WithFlag(Encoded(7, i), 0x80) + rest) == StringError(VarintOverflow)
    ensures ParseUpdate(dyn, i, true, UpdateOctets(i) + rest) == Malformed(VarintOverflow)
  {
    hide ReadSpec, Encoded, Shape, ParseValue, EvictTo, Counted;
    FlagKept(7, i, 0x80);
    var e := WithFlag(Encoded(7, i), 0x80);
    RoundTrip(7, i, e, rest);
    assert (e + rest)[0] == e[0] >= 128;
    FlagKept(7, i, 0);
    assert WithFlag(Encoded(7, i), 0) == Encoded(7, i);
    RoundTrip(7, i, Encoded(7, i), rest);
    var n, flag := PrefixOf(it), TypeByte(it);
    FlagKept(n, i, flag);
    var d := WithFlag(Encoded(n, i), flag);
    RoundTrip(n, i, d, rest);
    assert (d + rest)[0] == d[0];
    FlagKept(5, i, 0x20);
    RoundTrip(5, i, UpdateOctets(i), rest);
  }

  /** An indexed field is handed out unless its entry is over the limit on strings, and then it is an error. */
  lemma IndexedOverLimit(t: CodeTable, st: seq<HeaderField>, dyn: seq<HeaderField>, c: Config, i: nat, rest: seq<Byte>)
    requires Shape(t) && 0 < i && Fits(i) && At(st, dyn, i).Entry?
    ensures
      var o, f := ParseField(t, st, dyn, c, WithFlag(Encoded(7, i), 0x80) + rest), At(st, dyn, i).field;
      && o.rest == rest && o.dyn == dyn
      && if c.maxStrLen > 0 && (|f.name| > c.maxStrLen || |f.value| > c.maxStrLen)
         then o.status == Error(StringTooLong) && o.emitted == []
         else o.status == Done && o.emitted == Shown(c, [HeaderField(f.name, f.value, false)])
  {
    hide ReadSpec, Encoded, Shape, At, ParseLiteral;
    FlagKept(7, i, 0x80);
    var e := WithFlag(Encoded(7, i), 0x80);
    RoundTrip(7, i, e, rest);
    assert (e + rest)[0] == e[0] >= 128;
  }

  /** No code is all ones. */
  ghost predicate NoOnes(t: CodeTable)
    requires Shape(t)
  {
    forall s: Byte :: Code(t, s) != Ones(|Code(t, s)|)
  }

  /** Eight ones are the encoding of no text. */
  lemma OnesEncodeNothing(t: CodeTable, s: Str)
    requires Shape(t) && NoOnes(t)
    ensures HuffmanString(t, s) != [255]
  {
    hide Enc, Code, HuffmanString, Shape;
    if HuffmanString(t, s) == [255] {
      HuffmanBits(t, s);
      AllOnes();
      var k := PadLength(|Enc(t, s)|);
      if |s| == 0 {
        EmptyEnc(t);
      } else {
        EncNext(t, s, 0);
        assert s[0..] == s;
        assert Code(t, s[0]) + (Enc(t, s[1..]) + Ones(k)) == Ones(8);
        OnesInFront(Code(t, s[0]), Enc(t, s[1..]) + Ones(k));
      }
    }
  }

  lemma OnesInFront(c: Bits, rest: Bits)
    requires c + rest == Ones(8)
    ensures c == Ones(|c|)
  {
    assert c == Ones(8)[..|c|];
  }

  lemma AllOnes()
    ensures BytesBits([255]) == Ones(8)
  {
  }

  /** A value that is not Huffman-coded at all is handed out as the empty string: the code drops the error. */
  lemma DroppedError(t: CodeTable, st: seq<HeaderField>, dyn: seq<HeaderField>)
    requires Shape(t) && NoOnes(t)
    ensures ParseField(t, st, dyn, Config(true, 0), [0, 0, 129, 255])
            == Outcome(Done, [], dyn, [HeaderField([], [], false)])
  {
    hide HuffmanString, ReadString, PaddingAccepted, Shape, NoOnes;
    TwoLiterals();
    forall s: Str ensures HuffmanString(t, s) != [255] {
      OnesEncodeNothing(t, s);
    }
  }

  lemma TwoLiterals()
    ensures ReadString(0, [129, 255]) == Raw(true, [255], [])
    ensures ReadString(0, [0, 129, 255]) == Raw(false, [], [129, 255])
  {
  }

  /** This repository's table has no such code. */
  lemma TableHasNoOnes()
    ensures Shape(HuffmanTable.TABLE) && NoOnes(HuffmanTable.TABLE)
  {
    hide Code, Shape, HuffmanTable.TABLE;
    HuffmanTable.TableShape();
    forall s: Byte ensures Code(HuffmanTable.TABLE, s) != Ones(|Code(HuffmanTable.TABLE, s)|) {
      HuffmanTable.NoCodeIsOnes(s);
    }
  }
}
