/**
 The Huffman string codec: the encoder batches 32 bits at a time, the decoder walks the trie a
 byte at a time. They are inverse to each other, in both directions.
*/
module Huffman {
  import opened BitStrings
  import opened HuffmanCode
  import opened HuffmanTrie

  datatype Error = InvalidHuffman | StringLength
  datatype Result = Ok(value: seq<Byte>) | Err(error: Error)

  // ---------------------------------------------------------------- reading the trie

  /** What the decoder finds in slot i of the node at path p. */
  lemma LookUp(t: CodeTable, nodes: seq<Node>, tree: Paths, p: seq<Byte>, i: Byte)
    requires Shape(t) && TrieFor(t, 256, [], nodes, tree) && p in tree
    ensures
      var c, P := Child(nodes, tree, p, i), BytesBits(p + [i]);
      && NIL <= c < |nodes|
      && (c == NIL ==> forall s: Byte :: !EndsIn(t, P, s) && !Strict(P, Code(t, s)))
      && (c != NIL && nodes[c].Leaf? ==>
            EndsIn(t, P, nodes[c].sym) && |Code(t, nodes[c].sym)| == 8 * |p| + nodes[c].codeLen)
      && (c != NIL && nodes[c].Internal? ==> p + [i] in tree && tree[p + [i]] == c)
  {
    hide Shape, Code, BytesBits, Strict, EndsIn;
    var c, P := Child(nodes, tree, p, i), BytesBits(p + [i]);
    assert SlotOk(t, 256, [], tree, p, i, c);
    if c != NIL && p + [i] !in tree {
      var s: Byte :| s < 256 && c == LeafAt(s) && EndsIn(t, P, s);
      assert nodes[c] == LeafOf(t, s);
      PathLength(p, i);
      LeafLength(t, P, |p|, s);
    }
  }

  lemma LeafLength(t: CodeTable, P: Bits, m: nat, s: Byte)
    requires Shape(t) && EndsIn(t, P, s) && |P| == 8 * m + 8
    ensures |Code(t, s)| == 8 * m + LeafOf(t, s).codeLen
  {
    hide *;
    EndLength(t, P, s);
    HopCount(|Code(t, s)|, m);
  }

  lemma PathLength(p: seq<Byte>, i: Byte)
    ensures |BytesBits(p + [i])| == 8 * |p| + 8
  {
  }

  lemma EndLength(t: CodeTable, P: Bits, s: Byte)
    requires Shape(t) && EndsIn(t, P, s)
    ensures |P| < |Code(t, s)| + 8 && |Code(t, s)| <= |P| && |Code(t, s)| > 0
            && LeafOf(t, s).codeLen == LastLen(|Code(t, s)|)
  {
  }

  lemma HopCount(len: nat, m: nat)
    requires 8 * m < len <= 8 * m + 8
    ensures len == 8 * m + LastLen(len)
  {
  }

  /** A code that is not longer than the path walked so far does not begin with it. */
  lemma NodeIsInside(t: CodeTable, nodes: seq<Node>, tree: Paths, p: seq<Byte>, s: Byte)
    requires ValidTable(t) && TrieFor(t, 256, [], nodes, tree) && p in tree
    ensures !(Code(t, s) <= BytesBits(p))
    ensures |p| <= 3
  {
    hide Code, BytesBits, SlotOk;
    if p != [] {
      assert LeadsOn(t, 256, [], BytesBits(p));
      assert BytesBits(p) != [];
      var s': Byte :| s' < 256 && Strict(BytesBits(p), Code(t, s'));
      if Code(t, s) <= BytesBits(p) {
        PrefixStrict(Code(t, s), BytesBits(p), Code(t, s'));
      }
    }
  }

  // ---------------------------------------------------------------- what the output so far commits to

  /** Every text that encodes to v begins with `out`. */
  ghost predicate Toward(t: CodeTable, v: seq<Byte>, out: seq<Byte>)
    requires Shape(t)
  {
    forall s: seq<Byte> :: v == HuffmanString(t, s) ==> out <= s
  }

  /** v is the encoding of no text. */
  ghost predicate Refuted(t: CodeTable, v: seq<Byte>)
    requires Shape(t)
  {
    forall s: seq<Byte> :: v != HuffmanString(t, s)
  }

  /** v starts with the codes of `out`, and R is what follows them. */
  predicate Reads(t: CodeTable, v: seq<Byte>, out: seq<Byte>, R: Bits)
    requires Shape(t)
  {
    BytesBits(v) == Enc(t, out) + R
  }

  /** What follows the codes of `out` in the encoding of a text s that begins with it. */
  lemma Remaining(t: CodeTable, v: seq<Byte>, out: seq<Byte>, R: Bits, s: seq<Byte>) returns (k: nat)
    requires Shape(t) && Reads(t, v, out, R) && v == HuffmanString(t, s) && out <= s
    ensures k < 8 && R == Enc(t, s[|out|..]) + Ones(k)
  {
    hide Shape, Enc, BytesBits, HuffmanString;
    k := PadLength(|Enc(t, s)|);
    HuffmanBits(t, s);
    EncConcat(t, out, s[|out|..]);
    assert s == out + s[|out|..];
    assert Enc(t, out) + (Enc(t, s[|out|..]) + Ones(k)) == Enc(t, out) + R;
    var a, b, n := Enc(t, s[|out|..]) + Ones(k), R, |Enc(t, out)|;
    assert a == (Enc(t, out) + a)[n..] && b == (Enc(t, out) + b)[n..];
  }

  /** Decoding one more symbol keeps the commitment. */
  lemma OneMore(t: CodeTable, v: seq<Byte>, out: seq<Byte>, R: Bits, sym: Byte)
    requires ValidTable(t) && Toward(t, v, out) && Reads(t, v, out, R) && Code(t, sym) <= R
    ensures Toward(t, v, out + [sym]) && Reads(t, v, out + [sym], R[|Code(t, sym)|..])
  {
    hide Code, Enc, BytesBits, HuffmanString, Shape, PrefixFree, PaddingIsNoCode;
    forall s: seq<Byte> | v == HuffmanString(t, s) ensures out + [sym] <= s {
      var k := Remaining(t, v, out, R, s);
      NextSymbol(t, s, |out|, k, sym);
    }
    EncSnoc(t, out, sym);
    assert Enc(t, out) + R == Enc(t, out) + Code(t, sym) + R[|Code(t, sym)|..];
  }

  lemma EncSnoc(t: CodeTable, out: seq<Byte>, sym: Byte)
    requires Shape(t)
    ensures Enc(t, out + [sym]) == Enc(t, out) + Code(t, sym)
  {
    assert (out + [sym])[..|out|] == out;
  }

  /** No code begins R. */
  ghost predicate NoMore(t: CodeTable, R: Bits)
    requires Shape(t)
  {
    forall sym: Byte :: !(Code(t, sym) <= R)
  }

  /** Every text whose codes v begins with is a part of `out`. */
  ghost predicate Longest(t: CodeTable, v: seq<Byte>, out: seq<Byte>)
    requires Shape(t)
  {
    forall s: seq<Byte> :: Enc(t, s) <= BytesBits(v) ==> s <= out
  }

  lemma LongestRead(t: CodeTable, v: seq<Byte>, out: seq<Byte>, R: Bits)
    requires ValidTable(t) && Reads(t, v, out, R) && NoMore(t, R)
    ensures Longest(t, v, out)
  {
    hide Code, Enc, BytesBits, Shape, Reads, NoMore, PrefixFree, PaddingIsNoCode;
    forall s: seq<Byte> | Enc(t, s) <= BytesBits(v) ensures s <= out {
      ReadAlike(t, v, out, R, s, |s|);
      assert s[..|s|] == s;
    }
  }

  lemma {:induction false} ReadAlike(t: CodeTable, v: seq<Byte>, out: seq<Byte>, R: Bits, s: seq<Byte>, k: nat)
    requires ValidTable(t) && Reads(t, v, out, R) && NoMore(t, R) && Enc(t, s) <= BytesBits(v) && k <= |s|
    ensures k <= |out| && s[..k] == out[..k]
  {
    hide Code, Enc, BytesBits, Shape, PaddingIsNoCode;
    if k > 0 {
      var j := k - 1;
      ReadAlike(t, v, out, R, s, j);
      var pre := Enc(t, s[..j]);
      assert out[..j] == s[..j] && (j == |out| ==> out[..j] == out && (pre + R)[|pre|..] == R);
      CodeBehind(t, s, j, BytesBits(v));
      var X := BytesBits(v)[|pre|..];
      if j < |out| {
        CodeBehind(t, out, j, BytesBits(v));
        PrefixesComparable(Code(t, s[j]), Code(t, out[j]), X);
      }
    }
  }

  /** The code of symbol j of a text stands behind those of the symbols before it. */
  lemma CodeBehind(t: CodeTable, s: seq<Byte>, j: nat, bits: Bits)
    requires Shape(t) && j < |s| && Enc(t, s) <= bits
    ensures |Enc(t, s[..j])| <= |bits| && Code(t, s[j]) <= bits[|Enc(t, s[..j])|..]
  {
    hide Code, Enc, Shape;
    EncConcat(t, s[..j], s[j..]);
    assert s == s[..j] + s[j..];
    EncNext(t, s, j);
    var pre, c, rest := Enc(t, s[..j]), Code(t, s[j]), Enc(t, s[j + 1..]);
    assert bits == (pre + (c + rest)) + bits[|Enc(t, s)|..];
    assert bits[|pre|..] == c + (rest + bits[|Enc(t, s)|..]);
  }

  /** In an encoding, what follows `out` is the code of the next symbol, or fewer than eight ones. */
  lemma WhatFollows(t: CodeTable, v: seq<Byte>, out: seq<Byte>, R: Bits, s: seq<Byte>)
    requires Shape(t) && Reads(t, v, out, R) && v == HuffmanString(t, s) && out <= s
    ensures if |out| < |s| then Code(t, s[|out|]) <= R else |R| < 8 && R == Ones(|R|)
  {
    hide Code, Enc, BytesBits, HuffmanString, Shape, Reads;
    var k := Remaining(t, v, out, R, s);
    if |out| < |s| {
      EncNext(t, s, |out|);
    } else {
      EmptyEnc(t);
      assert s[|out|..] == [];
    }
  }

  /** A nil slot on bits that were all read from the input: no text encodes to v. */
  lemma NilRefutes(t: CodeTable, v: seq<Byte>, out: seq<Byte>, nodes: seq<Node>, tree: Paths, p: seq<Byte>, i: Byte,
                   R: Bits)
    requires ValidTable(t) && TrieFor(t, 256, [], nodes, tree) && p in tree && Child(nodes, tree, p, i) == NIL
    requires Toward(t, v, out) && Reads(t, v, out, R) && BytesBits(p + [i]) <= R
    ensures Refuted(t, v) && NoMore(t, R)
  {
    hide Code, Enc, BytesBits, HuffmanString, Shape, Reads, TrieFor, PrefixFree, PaddingIsNoCode;
    var P := BytesBits(p + [i]);
    LookUp(t, nodes, tree, p, i);
    forall sym: Byte ensures !(Code(t, sym) <= R) {
      if Code(t, sym) <= R {
        NotNil(t, nodes, tree, p, i, R, sym);
      }
    }
    forall s: seq<Byte> ensures v != HuffmanString(t, s) {
      if v == HuffmanString(t, s) {
        WhatFollows(t, v, out, R, s);
      }
    }
  }

  lemma ShortPrefix(c: Bits, w: Bits, P: Bits)
    ensures c <= P && w <= P && |c| <= |w| ==> c <= w
  {
  }

  /** The slot for bits that begin a code is not nil. */
  lemma NotNil(t: CodeTable, nodes: seq<Node>, tree: Paths, p: seq<Byte>, i: Byte, R: Bits, s: Byte)
    requires ValidTable(t) && TrieFor(t, 256, [], nodes, tree) && p in tree
    requires Comparable(BytesBits(p + [i]), R) && Code(t, s) <= R
    ensures Child(nodes, tree, p, i) != NIL
  {
    hide Code, BytesBits, Shape, TrieFor, PrefixFree, PaddingIsNoCode;
    var P, c := BytesBits(p + [i]), Code(t, s);
    LookUp(t, nodes, tree, p, i);
    NodeIsInside(t, nodes, tree, p, s);
    Extend(p, i);
    ShortPrefix(c, P, R);
    ShortPrefix(P, c, R);
    ShortPrefix(c, R, P);
    ShortPrefix(c, BytesBits(p), P);
    assert P <= c ==> P == c || Strict(P, c);
  }

  // ---------------------------------------------------------------- the end of the input

  /** Only `out` can encode to v, and what is left over is fewer than eight ones. */
  ghost predicate AtEnd(t: CodeTable, v: seq<Byte>, out: seq<Byte>, R: Bits)
    requires Shape(t)
  {
    forall s: seq<Byte> :: v == HuffmanString(t, s) ==> s == out && |R| < 8 && R == Ones(|R|)
  }

  /** Nothing left but whole bytes that were walked: they do not contain another code. */
  lemma EndOnNode(t: CodeTable, v: seq<Byte>, out: seq<Byte>, nodes: seq<Node>, tree: Paths, p: seq<Byte>)
    requires ValidTable(t) && TrieFor(t, 256, [], nodes, tree) && p in tree
    requires Toward(t, v, out) && Reads(t, v, out, BytesBits(p))
    ensures AtEnd(t, v, out, BytesBits(p)) && NoMore(t, BytesBits(p))
  {
    hide Code, Enc, BytesBits, HuffmanString, Shape, Reads, TrieFor, PrefixFree, PaddingIsNoCode;
    forall sym: Byte ensures !(Code(t, sym) <= BytesBits(p)) {
      NodeIsInside(t, nodes, tree, p, sym);
    }
    forall s: seq<Byte> | v == HuffmanString(t, s)
      ensures s == out && |BytesBits(p)| < 8 && BytesBits(p) == Ones(|BytesBits(p)|)
    {
      WhatFollows(t, v, out, BytesBits(p), s);
      NodeIsInside(t, nodes, tree, p, if |out| < |s| then s[|out|] else 0);
    }
  }

  /** Fewer than eight bits left, zero-filled to a byte, lead to an internal node or a longer code. */
  lemma EndInByte(t: CodeTable, v: seq<Byte>, out: seq<Byte>, nodes: seq<Node>, tree: Paths, p: seq<Byte>, i: Byte,
                  R: Bits)
    requires ValidTable(t) && TrieFor(t, 256, [], nodes, tree) && p in tree && Child(nodes, tree, p, i) != NIL
    requires Toward(t, v, out) && Reads(t, v, out, R) && R <= BytesBits(p + [i])
    requires var n := nodes[Child(nodes, tree, p, i)]; n.Internal? || 8 * |p| + n.codeLen > |R|
    ensures AtEnd(t, v, out, R) && NoMore(t, R)
  {
    hide Code, Enc, BytesBits, HuffmanString, Shape, Reads, TrieFor, PaddingIsNoCode;
    var P := BytesBits(p + [i]);
    LookUp(t, nodes, tree, p, i);
    forall sym: Byte ensures !(Code(t, sym) <= R) {
      NoCodeAtEnd(t, nodes, tree, p, i, R, sym);
    }
    forall s: seq<Byte> | v == HuffmanString(t, s) ensures s == out && |R| < 8 && R == Ones(|R|) {
      WhatFollows(t, v, out, R, s);
      if |out| < |s| {
        NoCodeAtEnd(t, nodes, tree, p, i, R, s[|out|]);
      }
    }
  }

  lemma NoCodeAtEnd(t: CodeTable, nodes: seq<Node>, tree: Paths, p: seq<Byte>, i: Byte, R: Bits, s: Byte)
    requires ValidTable(t) && TrieFor(t, 256, [], nodes, tree) && p in tree && Child(nodes, tree, p, i) != NIL
    requires R <= BytesBits(p + [i])
    requires var n := nodes[Child(nodes, tree, p, i)]; n.Internal? || 8 * |p| + n.codeLen > |R|
    ensures !(Code(t, s) <= R)
  {
    hide Code, BytesBits, Shape, SlotOk, LeadsOn, PaddingIsNoCode;
    LookUp(t, nodes, tree, p, i);
    var P, n := BytesBits(p + [i]), nodes[Child(nodes, tree, p, i)];
    ShortPrefix(Code(t, s), R, P);
    if Code(t, s) <= R {
      assert Code(t, s) <= P;
      if n.Internal? {
        NodeIsInside(t, nodes, tree, p + [i], s);
      } else {
        PrefixesComparable(Code(t, s), Code(t, n.sym), P);
      }
    }
  }

  /** If any text encodes to v it is `out`, and its padding leads nowhere. */
  ghost predicate Stuck(t: CodeTable, v: seq<Byte>, out: seq<Byte>)
    requires Shape(t)
  {
    forall s: seq<Byte> :: v == HuffmanString(t, s) ==> s == out && !PaddingAccepted(t, s)
  }

  /** A nil slot for the last, zero-filled byte: v is no encoding, or one whose padding leads nowhere. */
  lemma NilAtEnd(t: CodeTable, v: seq<Byte>, out: seq<Byte>, nodes: seq<Node>, tree: Paths, p: seq<Byte>, i: Byte,
                 last: Bits)
    requires ValidTable(t) && TrieFor(t, 256, [], nodes, tree) && p in tree && Child(nodes, tree, p, i) == NIL
    requires Toward(t, v, out) && Reads(t, v, out, BytesBits(p) + last)
    requires 0 < |last| < 8 && ToBits(i, 8) == last + Zeros(8 - |last|)
    ensures Stuck(t, v, out) && NoMore(t, BytesBits(p) + last)
  {
    hide Code, Enc, BytesBits, HuffmanString, Shape, Reads, TrieFor, PrefixFree, PaddingIsNoCode, ToBits, Leads,
        PadLength;
    var P, R := BytesBits(p + [i]), BytesBits(p) + last;
    LookUp(t, nodes, tree, p, i);
    Extend(p, i);
    assert R <= P;
    forall sym: Byte ensures !(Code(t, sym) <= R) {
      if Code(t, sym) <= R {
        NotNil(t, nodes, tree, p, i, R, sym);
      }
    }
    forall s: seq<Byte> | v == HuffmanString(t, s) ensures s == out && !PaddingAccepted(t, s) {
      WhatFollows(t, v, out, R, s);
      if |out| >= |s| {
        PadIs(t, v, out, R);
        PaddingSlot(t, nodes, tree, i, |last|);
      }
    }
  }

  /** What is left of an encoding behind its text is its padding. */
  lemma PadIs(t: CodeTable, v: seq<Byte>, out: seq<Byte>, R: Bits)
    requires Shape(t) && Reads(t, v, out, R) && |R| < 8
    ensures PadLength(|Enc(t, out)|) == |R|
  {
    hide Shape, Enc, BytesBits;
    assert 8 * |v| == |Enc(t, out)| + |R|;
  }

  /** The slot for a padding byte is taken exactly when the padding leads towards some code. */
  lemma PaddingSlot(t: CodeTable, nodes: seq<Node>, tree: Paths, i: Byte, k: nat)
    requires ValidTable(t) && TrieFor(t, 256, [], nodes, tree) && 1 <= k <= 7 && ToBits(i, 8) == PaddingByte(k)
    ensures Child(nodes, tree, [], i) != NIL <==> Leads(t, k)
  {
    hide Code, BytesBits, Shape, SlotOk, PrefixFree, PaddingIsNoCode, ToBits, PaddingByte;
    LookUp(t, nodes, tree, [], i);
    Extend([], i);
    assert BytesBits([]) == [];
    assert BytesBits([] + [i]) == PaddingByte(k);
    forall s: Byte | Comparable(Code(t, s), PaddingByte(k)) ensures Child(nodes, tree, [], i) != NIL {
      NodeIsInside(t, nodes, tree, [], s);
    }
  }

  // ---------------------------------------------------------------- the decoder

  /** The bits of the input not yet turned into output: the walked bytes, the buffer, the unread bytes. */
  function Pending(v: seq<Byte>, i: nat, p: seq<Byte>, cur: nat, cbits: nat): Bits
    requires i <= |v|
  {
    BytesBits(p) + ToBits(cur, cbits) + BytesBits(v[i..])
  }

  /** Between two steps: the decoder stands on the node named p, with cbits bits buffered. */
  ghost predicate Decoding(t: CodeTable, v: seq<Byte>, i: nat, out: seq<Byte>, p: seq<Byte>, cur: nat, cbits: nat)
    requires Shape(t) && i <= |v|
  {
    Toward(t, v, out) && Reads(t, v, out, Pending(v, i, p, cur, cbits))
  }

  lemma DecodingStarts(t: CodeTable, v: seq<Byte>)
    requires Shape(t)
    ensures Decoding(t, v, 0, [], [], 0, 0)
  {
    assert v[0..] == v;
    assert Enc(t, []) + Pending(v, 0, [], 0, 0) == BytesBits(v);
  }

  /** `cur = cur<<8 | b`. */
  lemma FeedByte(t: CodeTable, v: seq<Byte>, i: nat, out: seq<Byte>, p: seq<Byte>, cur: nat, cbits: nat)
    requires Shape(t) && i < |v| && cbits < 8 && Decoding(t, v, i, out, p, cur, cbits)
    ensures Decoding(t, v, i + 1, out, p, BitOr(Low(Shl(cur, 8), 64), v[i]), cbits + 8)
  {
    hide Shape, ToBits, BytesBits, Low, Shl, BitOr, Reads, Toward;
    LowByte(v[i]);
    ShiftIn64(cur, 8, v[i], cbits);
    BytesBitsConcat([v[i]], v[i + 1..]);
    assert v[i..] == [v[i]] + v[i + 1..];
    Extend([], v[i]);
    assert [] + [v[i]] == [v[i]];
    EmptyBytes();
    assert Pending(v, i, p, cur, cbits)
        == Pending(v, i + 1, p, BitOr(Low(Shl(cur, 8), 64), v[i]), cbits + 8);
  }

  lemma EmptyBytes()
    ensures BytesBits([]) == []
  {
  }

  /** The byte `byte(cur >> (cbits - 8))` is the next eight pending bits. */
  lemma NextByte(v: seq<Byte>, i: nat, p: seq<Byte>, cur: nat, cbits: nat, idx: Byte)
    requires i <= |v| && cbits >= 8 && idx == Low(Shr(cur, cbits - 8), 8)
    ensures Pending(v, i, p, cur, cbits) == Pending(v, i, p + [idx], cur, cbits - 8)
    ensures BytesBits(p + [idx]) <= Pending(v, i, p, cur, cbits)
  {
    hide ToBits, BytesBits, Low, Shr;
    SplitBits(cur, 8, cbits - 8);
    LowBits(Shr(cur, cbits - 8), 8, 8);
    Extend(p, idx);
  }

  /** A leaf: its code is consumed and the walk starts again at the root. */
  lemma ConsumeLeaf(t: CodeTable, v: seq<Byte>, i: nat, out: seq<Byte>, p: seq<Byte>, cur: nat, cbits: nat, sym: Byte,
                    n: nat)
    requires ValidTable(t) && i <= |v| && Decoding(t, v, i, out, p, cur, cbits)
    requires n <= cbits && |Code(t, sym)| == 8 * |p| + n && Code(t, sym) <= Pending(v, i, p, cur, cbits)
    ensures Decoding(t, v, i, out + [sym], [], cur, cbits - n)
  {
    hide Shape, Code, ToBits, BytesBits, Reads, Toward, PrefixFree, PaddingIsNoCode;
    var R := Pending(v, i, p, cur, cbits);
    OneMore(t, v, out, R, sym);
    SplitBits(cur, n, cbits - n);
    EmptyBytes();
    var head := BytesBits(p) + ToBits(Shr(cur, cbits - n), n);
    assert R == head + Pending(v, i, [], cur, cbits - n);
    assert R[|Code(t, sym)|..] == Pending(v, i, [], cur, cbits - n);
  }

  /** What the walked leaf says about the pending bits. */
  lemma LeafFits(t: CodeTable, nodes: seq<Node>, tree: Paths, p: seq<Byte>, i: Byte, R: Bits)
    requires Shape(t) && TrieFor(t, 256, [], nodes, tree) && p in tree && Child(nodes, tree, p, i) != NIL
    requires var n := nodes[Child(nodes, tree, p, i)];
      n.Leaf? && 8 * |p| + n.codeLen <= |R| && Comparable(R, BytesBits(p + [i]))
    ensures
      var n := nodes[Child(nodes, tree, p, i)];
      |Code(t, n.sym)| == 8 * |p| + n.codeLen && Code(t, n.sym) <= R
  {
    hide Shape, Code, ToBits, BytesBits, SlotOk, LeadsOn;
    LookUp(t, nodes, tree, p, i);
    var c, P := Code(t, nodes[Child(nodes, tree, p, i)].sym), BytesBits(p + [i]);
    assert c == P[..|c|];
    assert c <= R by {
      if |P| <= |R| { assert P == R[..|P|]; } else { assert R == P[..|R|]; }
    }
  }

  /** `cur & mask == mask` with a mask of k ones: the last k bits are all ones. */
  lemma {:induction false} MaskTest(cur: nat, k: nat)
    ensures BitAnd(cur, Mask(k)) == Mask(k) <==> ToBits(cur, k) == Ones(k)
  {
    if k > 0 {
      MaskTest(cur / 2, k - 1);
      assert Ones(k) == Ones(k - 1) + [true];
      assert ToBits(cur, k) == Ones(k) <==> ToBits(cur / 2, k - 1) == Ones(k - 1) && cur % 2 == 1 by {
        assert ToBits(cur, k)[..k - 1] == ToBits(cur / 2, k - 1);
        assert ToBits(cur, k)[k - 1] == (cur % 2 == 1);
      }
    }
  }

  /** `byte(cur << (8 - cbits))`: the last bits, zero-filled. */
  lemma LastByte(cur: nat, cbits: nat)
    requires 0 < cbits < 8
    ensures ToBits(Low(Low(Shl(cur, 8 - cbits), 64), 8), 8) == ToBits(cur, cbits) + Zeros(8 - cbits)
  {
    hide ToBits, Low, Shl;
    LowBits(Low(Shl(cur, 8 - cbits), 64), 8, 8);
    LowBits(Shl(cur, 8 - cbits), 64, 8);
    ShlBits(cur, 8 - cbits, cbits);
  }

  /** The decoder's node pointer n is the internal node named p. */
  ghost predicate AtNode(t: CodeTable, trie: Trie, p: seq<Byte>, n: nat)
    reads trie
  {
    trie.Complete(t) && p in trie.tree && trie.tree[p] == n
  }

  lemma AtRoot(t: CodeTable, trie: Trie)
    requires trie.Complete(t)
    ensures AtNode(t, trie, [], 0)
  {
  }

  /** The slot the pointer is followed through exists, and its leaf, if it is one, ends in it. */
  lemma Slot(t: CodeTable, trie: Trie, p: seq<Byte>, n: nat, idx: Byte)
    requires AtNode(t, trie, p, n)
    ensures n < |trie.nodes| && trie.nodes[n].Internal? && |trie.nodes[n].children| == 256
    ensures NIL <= trie.nodes[n].children[idx] < |trie.nodes|
    ensures trie.nodes[n].children[idx] == Child(trie.nodes, trie.tree, p, idx)
    ensures
      var next := trie.nodes[n].children[idx];
      && (next != NIL && trie.nodes[next].Leaf? ==> 1 <= trie.nodes[next].codeLen <= 8)
      && (next != NIL && trie.nodes[next].Internal? ==> AtNode(t, trie, p + [idx], next))
  {
    hide Shape, Code, BytesBits, SlotOk, LeadsOn;
    LookUp(t, trie.nodes, trie.tree, p, idx);
  }

  /** One turn of the main loop, on a whole byte of pending bits. */
  lemma Step(t: CodeTable, trie: Trie, v: seq<Byte>, i: nat, out: seq<Byte>, p: seq<Byte>, n: nat, cur: nat,
             cbits: nat, idx: Byte)
    requires ValidTable(t) && AtNode(t, trie, p, n) && i <= |v| && Decoding(t, v, i, out, p, cur, cbits)
    requires cbits >= 8 && idx == Low(Shr(cur, cbits - 8), 8)
    ensures n < |trie.nodes| && trie.nodes[n].Internal? && |trie.nodes[n].children| == 256
    ensures
      var next := trie.nodes[n].children[idx];
      && (next == NIL || 0 <= next) && next < |trie.nodes|
      && (next == NIL ==> Refuted(t, v) && Longest(t, v, out))
      && (next != NIL && trie.nodes[next].Leaf? ==>
            1 <= trie.nodes[next].codeLen <= 8
            && Decoding(t, v, i, out + [trie.nodes[next].sym], [], cur, cbits - trie.nodes[next].codeLen))
      && (next != NIL && trie.nodes[next].Internal? ==>
            AtNode(t, trie, p + [idx], next) && Decoding(t, v, i, out, p + [idx], cur, cbits - 8))
  {
    hide Shape, Code, BytesBits, ToBits, SlotOk, LeadsOn, Low, Shr, TrieFor, Pending, Reads, Toward, Refuted, NoMore,
      Longest, PrefixFree, PaddingIsNoCode;
    Slot(t, trie, p, n, idx);
    var next, R := trie.nodes[n].children[idx], Pending(v, i, p, cur, cbits);
    NextByte(v, i, p, cur, cbits, idx);
    if next == NIL {
      NilRefutes(t, v, out, trie.nodes, trie.tree, p, idx, R);
      LongestRead(t, v, out, R);
    } else if trie.nodes[next].Leaf? {
      Extend(p, idx);
      LeafFits(t, trie.nodes, trie.tree, p, idx, R);
      ConsumeLeaf(t, v, i, out, p, cur, cbits, trie.nodes[next].sym, trie.nodes[next].codeLen);
    }
  }

  /** One turn of the closing loop, on fewer than eight pending bits. */
  lemma LastStep(t: CodeTable, trie: Trie, v: seq<Byte>, out: seq<Byte>, p: seq<Byte>, n: nat, cur: nat, cbits: nat,
                 idx: Byte)
    requires ValidTable(t) && AtNode(t, trie, p, n) && Decoding(t, v, |v|, out, p, cur, cbits)
    requires 0 < cbits < 8 && idx == Low(Low(Shl(cur, 8 - cbits), 64), 8)
    ensures n < |trie.nodes| && trie.nodes[n].Internal? && |trie.nodes[n].children| == 256
    ensures
      var next := trie.nodes[n].children[idx];
      && (next == NIL || 0 <= next) && next < |trie.nodes|
      && (next == NIL ==> Stuck(t, v, out) && Longest(t, v, out))
      && (next != NIL && (trie.nodes[next].Internal? || trie.nodes[next].codeLen > cbits) ==>
            AtEnd(t, v, out, Pending(v, |v|, p, cur, cbits)) && Longest(t, v, out))
      && (next != NIL && p == [] && ToBits(cur, cbits) == Ones(cbits) ==> Leads(t, cbits))
      && (next != NIL && trie.nodes[next].Leaf? && trie.nodes[next].codeLen <= cbits ==>
            1 <= trie.nodes[next].codeLen
            && Decoding(t, v, |v|, out + [trie.nodes[next].sym], [], cur, cbits - trie.nodes[next].codeLen))
  {
    hide Shape, Code, BytesBits, ToBits, SlotOk, LeadsOn, Low, Shl, TrieFor, Reads, Toward, Stuck, AtEnd, Leads, NoMore,
      Longest, PrefixFree, PaddingIsNoCode;
    Slot(t, trie, p, n, idx);
    var next, last := trie.nodes[n].children[idx], ToBits(cur, cbits);
    var R := Pending(v, |v|, p, cur, cbits);
    EmptyBytes();
    assert v[|v|..] == [];
    assert R == BytesBits(p) + last;
    LastByte(cur, cbits);
    Extend(p, idx);
    assert R <= BytesBits(p + [idx]);
    if p == [] && last == Ones(cbits) {
      PaddingSlot(t, trie.nodes, trie.tree, idx, cbits);
    }
    if next == NIL {
      NilAtEnd(t, v, out, trie.nodes, trie.tree, p, idx, last);
      LongestRead(t, v, out, R);
    } else if trie.nodes[next].Internal? || trie.nodes[next].codeLen > cbits {
      EndInByte(t, v, out, trie.nodes, trie.tree, p, idx, R);
      LongestRead(t, v, out, R);
    } else {
      LeafFits(t, trie.nodes, trie.tree, p, idx, R);
      ConsumeLeaf(t, v, |v|, out, p, cur, cbits, trie.nodes[next].sym, trie.nodes[next].codeLen);
    }
  }

  /** The two final checks accept exactly when v is the encoding of `out`. */
  lemma FinalChecks(t: CodeTable, v: seq<Byte>, out: seq<Byte>, p: seq<Byte>, cur: nat, cbits: nat)
    requires ValidTable(t) && Decoding(t, v, |v|, out, p, cur, cbits)
    requires AtEnd(t, v, out, Pending(v, |v|, p, cur, cbits))
    requires 0 < cbits < 8 && p == [] && ToBits(cur, cbits) == Ones(cbits) ==> Leads(t, cbits)
    ensures
      if 8 * |p| + cbits <= 7 && BitAnd(cur, Mask(cbits)) == Mask(cbits)
      then
        && v == HuffmanString(t, out) && PaddingAccepted(t, out)
        && forall s: seq<Byte> :: v == HuffmanString(t, s) ==> s == out
      else Refuted(t, v)
  {
    hide Shape, Enc, BytesBits, ToBits, HuffmanString, Toward, BitAnd, Mask, Leads, PadLength;
    var R := Pending(v, |v|, p, cur, cbits);
    EmptyBytes();
    assert v[|v|..] == [];
    assert R == BytesBits(p) + ToBits(cur, cbits);
    MaskTest(cur, cbits);
    if 8 * |p| + cbits <= 7 {
      assert p == [];
      assert R == ToBits(cur, cbits);
      if R == Ones(cbits) {
        OnlyEncoding(t, out, v, cbits);
        PadIs(t, v, out, R);
      }
    }
  }

  function LowByteOf(x: nat): (r: Byte)
    ensures r == Low(x, 8)
  {
    LowByteRange(x);
    Low(x, 8)
  }

  /** With the output at its limit, a text that is longer than that is refused for its length. */
  lemma TooLong(t: CodeTable, maxLen: nat, v: seq<Byte>, out: seq<Byte>, sym: Byte)
    requires Shape(t) && Toward(t, v, out + [sym]) && |out| == maxLen != 0
    ensures forall s: seq<Byte> :: v == HuffmanString(t, s) ==> Decoded(t, maxLen, s) == Err(StringLength)
  {
    hide Enc, BytesBits, Shape;
  }

  lemma OneTooMany(t: CodeTable, maxLen: nat, v: seq<Byte>, out: seq<Byte>, sym: Byte)
    requires Shape(t) && Enc(t, out + [sym]) <= BytesBits(v) && |out| == maxLen != 0
    ensures TooMany(t, maxLen, v)
  {
    hide Enc, BytesBits, Shape;
    assert |out + [sym]| == maxLen + 1;
  }

  /** v begins with the codes of more symbols than the limit allows. */
  ghost predicate TooMany(t: CodeTable, maxLen: nat, v: seq<Byte>)
    requires Shape(t)
  {
    maxLen != 0 && exists s: seq<Byte> :: |s| == maxLen + 1 && Enc(t, s) <= BytesBits(v)
  }

  lemma NotTooMany(t: CodeTable, maxLen: nat, v: seq<Byte>, out: seq<Byte>)
    requires Shape(t) && Longest(t, v, out) && (maxLen == 0 || |out| <= maxLen)
    ensures !TooMany(t, maxLen, v)
  {
    hide Enc, BytesBits, Shape;
  }

  lemma DecodingToward(t: CodeTable, v: seq<Byte>, i: nat, out: seq<Byte>, p: seq<Byte>, cur: nat, cbits: nat)
    requires Shape(t) && i <= |v| && Decoding(t, v, i, out, p, cur, cbits)
    ensures Toward(t, v, out) && Enc(t, out) <= BytesBits(v)
  {
    hide Enc, BytesBits, Shape, Toward, Pending;
  }

  lemma NothingLeft(t: CodeTable, trie: Trie, v: seq<Byte>, out: seq<Byte>, p: seq<Byte>, n: nat, cur: nat)
    requires ValidTable(t) && AtNode(t, trie, p, n) && Decoding(t, v, |v|, out, p, cur, 0)
    ensures AtEnd(t, v, out, Pending(v, |v|, p, cur, 0)) && Longest(t, v, out)
  {
    hide Shape, Enc, BytesBits, HuffmanString, TrieFor, Reads, Toward, AtEnd, NoMore, Longest, PrefixFree,
      PaddingIsNoCode;
    EmptyBytes();
    assert v[|v|..] == [];
    assert Pending(v, |v|, p, cur, 0) == BytesBits(p);
    EndOnNode(t, v, out, trie.nodes, trie.tree, p);
    LongestRead(t, v, out, BytesBits(p));
  }

  lemma RefutedAny(t: CodeTable, v: seq<Byte>)
    requires Shape(t) && Refuted(t, v)
    ensures forall s: seq<Byte> :: v != HuffmanString(t, s)
  {
  }

  /** What becomes of the encoding of s. */
  ghost function Decoded(t: CodeTable, maxLen: nat, s: seq<Byte>): Result
    requires Shape(t)
  {
    if maxLen != 0 && |s| > maxLen then Err(StringLength)
    else if PaddingAccepted(t, s) then Ok(s)
    else Err(InvalidHuffman)
  }

  lemma StuckMeans(t: CodeTable, maxLen: nat, v: seq<Byte>, out: seq<Byte>)
    requires Shape(t) && Stuck(t, v, out) && (maxLen == 0 || |out| <= maxLen)
    ensures forall s: seq<Byte> :: v == HuffmanString(t, s) ==> Decoded(t, maxLen, s) == Err(InvalidHuffman)
  {
  }

  lemma AcceptedMeans(t: CodeTable, maxLen: nat, s: seq<Byte>)
    requires Shape(t) && PaddingAccepted(t, s) && (maxLen == 0 || |s| <= maxLen)
    ensures Decoded(t, maxLen, s) == Ok(s)
  {
  }

  /**
   Decodes v through the trie of the table, with an optional limit on the output length. Whatever
   it accepts is the encoding of its output. Every encoding is decoded back unless it is refused for
   its length or its padding leads towards no code, and then it is refused. Whatever the input, the
   error is about the length exactly when it begins with the codes of too many symbols.
  */
  method HuffmanDecode(trie: Trie, ghost t: CodeTable, maxLen: nat, v: seq<Byte>) returns (r: Result)
    requires ValidTable(t) && trie.Complete(t)
    ensures r.Ok? ==> v == HuffmanString(t, r.value) && (maxLen == 0 || |r.value| <= maxLen)
    ensures forall s: seq<Byte> :: v == HuffmanString(t, s) ==> r == Decoded(t, maxLen, s)
    ensures r == Err(StringLength) <==> TooMany(t, maxLen, v)
  {
    hide *;
    TableShape(t);
    var out: seq<Byte> := [];
    var n: nat, cur: nat, cbits: nat, sbits: nat := 0, 0, 0, 0;
    ghost var p: seq<Byte> := [];
    DecodingStarts(t, v);
    AtRoot(t, trie);
    for i := 0 to |v|
      invariant AtNode(t, trie, p, n) && Decoding(t, v, i, out, p, cur, cbits)
      invariant cbits < 8 && sbits == 8 * |p| + cbits && (maxLen == 0 || |out| <= maxLen)
    {
      FeedByte(t, v, i, out, p, cur, cbits);
      cur := BitOr(Low(Shl(cur, 8), 64), v[i]);
      cbits, sbits := cbits + 8, sbits + 8;
      while cbits >= 8
        invariant AtNode(t, trie, p, n) && Decoding(t, v, i + 1, out, p, cur, cbits)
        invariant cbits < 16 && sbits == 8 * |p| + cbits && (maxLen == 0 || |out| <= maxLen)
        decreases cbits
      {
        var idx := LowByteOf(Shr(cur, cbits - 8));
        Step(t, trie, v, i + 1, out, p, n, cur, cbits, idx);
        var next := trie.nodes[n].children[idx];
        if next == NIL {
          NotTooMany(t, maxLen, v, out);
          RefutedAny(t, v);
          return Err(InvalidHuffman);
        }
        if trie.nodes[next].Leaf? {
          var sym, codeLen := trie.nodes[next].sym, trie.nodes[next].codeLen;
          if maxLen != 0 && |out| == maxLen {
            DecodingToward(t, v, i + 1, out + [sym], [], cur, cbits - codeLen);
            TooLong(t, maxLen, v, out, sym);
            OneTooMany(t, maxLen, v, out, sym);
            return Err(StringLength);
          }
          out := out + [sym];
          cbits := cbits - codeLen;
          n, p := 0, [];
          AtRoot(t, trie);
          sbits := cbits;
        } else {
          n, p := next, p + [idx];
          cbits := cbits - 8;
        }
      }
    }
    while cbits > 0
      invariant AtNode(t, trie, p, n) && Decoding(t, v, |v|, out, p, cur, cbits)
      invariant cbits < 8 && sbits == 8 * |p| + cbits && (maxLen == 0 || |out| <= maxLen)
      decreases cbits
    {
      var idx := LowByteOf(Low(Shl(cur, 8 - cbits), 64));
      LastStep(t, trie, v, out, p, n, cur, cbits, idx);
      var next := trie.nodes[n].children[idx];
      if next == NIL {
        NotTooMany(t, maxLen, v, out);
        StuckMeans(t, maxLen, v, out);
        return Err(InvalidHuffman);
      }
      if trie.nodes[next].Internal? || trie.nodes[next].codeLen > cbits {
        break;
      }
      var sym, codeLen := trie.nodes[next].sym, trie.nodes[next].codeLen;
      if maxLen != 0 && |out| == maxLen {
        DecodingToward(t, v, |v|, out + [sym], [], cur, cbits - codeLen);
        TooLong(t, maxLen, v, out, sym);
        OneTooMany(t, maxLen, v, out, sym);
        return Err(StringLength);
      }
      out := out + [sym];
      cbits := cbits - codeLen;
      n, p := 0, [];
      AtRoot(t, trie);
      sbits := cbits;
    }
    if cbits == 0 {
      NothingLeft(t, trie, v, out, p, n, cur);
    }
    NotTooMany(t, maxLen, v, out);
    FinalChecks(t, v, out, p, cur, cbits);
    if sbits > 7 {
      RefutedAny(t, v);
      return Err(InvalidHuffman);
    }
    var mask := Mask(cbits);
    if BitAnd(cur, mask) != mask {
      RefutedAny(t, v);
      return Err(InvalidHuffman);
    }
    AcceptedMeans(t, maxLen, out);
    r := Ok(out);
  }

  // ---------------------------------------------------------------- the encoder

  /** Four bytes of a 32-bit word, most significant first. */
  function WordBytes(y: nat): seq<Byte> {
    [LowByteOf(Shr(y, 24)), LowByteOf(Shr(y, 16)), LowByteOf(Shr(y, 8)), LowByteOf(y)]
  }

  /** One byte more in front of n bits. */
  lemma ByteInFront(y: nat, n: nat, rest: seq<Byte>)
    requires BytesBits(rest) == ToBits(y, n)
    ensures BytesBits([LowByteOf(Shr(y, n))] + rest) == ToBits(y, 8 + n)
  {
    hide ToBits, BytesBits, Shr, Low;
    var b := LowByteOf(Shr(y, n));
    SplitBits(y, 8, n);
    LowBits(Shr(y, n), 8, 8);
    BytesBitsConcat([b], rest);
    OneByte(b);
  }

  lemma OneByte(b: Byte)
    ensures BytesBits([b]) == ToBits(b, 8)
  {
    Extend([], b);
    assert [] + [b] == [b];
  }

  lemma LastByteBits(y: nat)
    ensures BytesBits([LowByteOf(y)]) == ToBits(y, 8)
  {
    hide ToBits, BytesBits, Low;
    OneByte(LowByteOf(y));
    LowBits(y, 8, 8);
  }

  lemma TwoBytes(y: nat)
    ensures BytesBits([LowByteOf(Shr(y, 8)), LowByteOf(y)]) == ToBits(y, 16)
  {
    hide ToBits, BytesBits, Shr, LowByteOf;
    LastByteBits(y);
    ByteInFront(y, 8, [LowByteOf(y)]);
    assert [LowByteOf(Shr(y, 8))] + [LowByteOf(y)] == [LowByteOf(Shr(y, 8)), LowByteOf(y)];
  }

  lemma FourBytes(y: nat)
    ensures BytesBits(WordBytes(y)) == ToBits(y, 32)
  {
    hide ToBits, BytesBits, Shr, LowByteOf;
    TwoBytes(y);
    var b2 := [LowByteOf(Shr(y, 8)), LowByteOf(y)];
    ByteInFront(y, 16, b2);
    var b3 := [LowByteOf(Shr(y, 16))] + b2;
    ByteInFront(y, 24, b3);
    assert [LowByteOf(Shr(y, 24))] + b3 == WordBytes(y);
  }

  const EOS_PAD_BYTE: nat := 0xFF   // eosCode >> (eosNBits - 8)

  /** The padding bits taken from the end-of-string code are ones. */
  lemma PadBits(over: nat)
    requires over < 8
    ensures ToBits(Shr(EOS_PAD_BYTE, over), 8 - over) == Ones(8 - over)
    ensures Low(Shr(EOS_PAD_BYTE, over), 8 - over) == Shr(EOS_PAD_BYTE, over)
  {
    hide ToBits, Shr, Low;
    AllOnesByte();
    SplitBits(EOS_PAD_BYTE, 8 - over, over);
    LowByte(EOS_PAD_BYTE);
    ShrFits(EOS_PAD_BYTE, over, 8 - over);
    assert Ones(8)[..8 - over] == Ones(8 - over);
  }

  lemma AllOnesByte()
    ensures ToBits(255, 8) == Ones(8)
  {
    assert ToBits(3, 2) == [true, true];
    assert ToBits(15, 4) == ToBits(3, 2) + [true, true];
    assert ToBits(63, 6) == ToBits(15, 4) + [true, true];
    assert ToBits(255, 8) == ToBits(63, 6) + [true, true];
  }

  /** The encoder's buffer: everything written so far and the n buffered bits are the codes of `s`. */
  predicate Buffered(t: CodeTable, s: seq<Byte>, acc: seq<Byte>, x: nat, n: nat)
    requires Shape(t)
  {
    BytesBits(acc) + ToBits(x, n) == Enc(t, s)
  }

  /** `x = x<<len | code`. */
  lemma BufferCode(t: CodeTable, s: seq<Byte>, i: nat, acc: seq<Byte>, x: nat, n: nat)
    requires Shape(t) && i < |s| && n < 32 && Buffered(t, s[..i], acc, x, n)
    ensures Buffered(t, s[..i + 1], acc, BitOr(Low(Shl(x, t.lens[s[i]] % 64), 64), t.codes[s[i]]), n + t.lens[s[i]])
  {
    hide ToBits, BytesBits, Low, Shl, BitOr, Enc;
    ShiftIn64(x, t.lens[s[i]], t.codes[s[i]], n);
    EncSnoc(t, s[..i], s[i]);
    assert s[..i] + [s[i]] == s[..i + 1];
  }

  /** Writing out the top 32 of the buffered bits. */
  lemma FlushWord(t: CodeTable, s: seq<Byte>, acc: seq<Byte>, x: nat, n: nat)
    requires Shape(t) && n >= 32 && Buffered(t, s, acc, x, n)
    ensures Buffered(t, s, acc + WordBytes(Low(Shr(x, n - 32), 32)), x, n - 32)
  {
    hide ToBits, BytesBits, Low, Shr, Enc, WordBytes;
    var y := Low(Shr(x, n - 32), 32);
    SplitBits(x, 32, n - 32);
    LowBits(Shr(x, n - 32), 32, 32);
    FourBytes(y);
    BytesBitsConcat(acc, WordBytes(y));
  }

  /** Padding fills the buffer up to whole bytes; what is then written is the encoding. */
  lemma Padded(t: CodeTable, s: seq<Byte>, acc: seq<Byte>, x: nat, n: nat, x': nat, n': nat, tail: seq<Byte>)
    requires Shape(t) && n < 32 && Buffered(t, s, acc, x, n) && BytesBits(tail) == ToBits(x', n')
    requires
      var over := n % 8;
      if over > 0 then x' == BitOr(Low(Shl(x, 8 - over), 64), Shr(EOS_PAD_BYTE, over)) && n' == n + (8 - over)
      else x' == x && n' == n
    ensures acc + tail == HuffmanString(t, s)
  {
    hide ToBits, BytesBits, Low, Shl, Shr, BitOr, Enc, HuffmanString;
    var over := n % 8;
    var k := if over > 0 then 8 - over else 0;
    if over > 0 {
      PadBits(over);
      ShiftIn64(x, 8 - over, Shr(EOS_PAD_BYTE, over), n);
    }
    assert ToBits(x', n') == ToBits(x, n) + Ones(k);
    BytesBitsConcat(acc, tail);
    assert BytesBits(acc + tail) == Enc(t, s) + Ones(k);
    OnlyEncoding(t, s, acc + tail, k);
  }

  /** Appends the encoding of s, through a 64-bit buffer that is written out 32 bits at a time. */
  method AppendHuffmanString(t: CodeTable, dst: seq<Byte>, s: seq<Byte>) returns (r: seq<Byte>)
    requires Shape(t)
    ensures r == dst + HuffmanString(t, s)
  {
    hide *;
    var x: nat, n: nat := 0, 0;
    ghost var acc: seq<Byte> := [];
    r := dst;
    NothingBuffered(t);
    assert s[..0] == [];
    for i := 0 to |s|
      invariant n < 32 && r == dst + acc && Buffered(t, s[..i], acc, x, n)
    {
      var c := s[i];
      BufferCode(t, s, i, acc, x, n);
      Row(t, c);
      n := n + t.lens[c];
      x := Low(Shl(x, t.lens[c] % 64), 64);
      x := BitOr(x, t.codes[c]);
      if n >= 32 {
        FlushWord(t, s[..i + 1], acc, x, n);
        n := n % 32;
        var y := Low(Shr(x, n), 32);
        r := r + WordBytes(y);
        acc := acc + WordBytes(y);
      }
    }
    assert s[..|s|] == s;
    ghost var x0, n0 := x, n;
    var over := n % 8;
    if over > 0 {
      var pad := 8 - over;
      x := BitOr(Low(Shl(x, pad), 64), Shr(EOS_PAD_BYTE, over));
      n := n + pad;
    }
    var tail := TailBytes(x, n);
    Padded(t, s, acc, x0, n0, x, n, tail);
    assert dst + acc + tail == dst + (acc + tail);
    r := r + tail;
  }

  lemma Row(t: CodeTable, c: Byte)
    requires Shape(t)
    ensures |t.codes| == |t.lens| == 256 && 5 <= t.lens[c] <= 30
  {
  }

  lemma NothingBuffered(t: CodeTable)
    requires Shape(t)
    ensures Buffered(t, [], [], 0, 0)
  {
  }

  /** The last batch: n is 0, 8, 16, 24 or 32. */
  method TailBytes(x: nat, n: nat) returns (tail: seq<Byte>)
    requires n % 8 == 0 && n <= 32
    ensures BytesBits(tail) == ToBits(x, n)
  {
    hide ToBits, BytesBits, Low, Shr, LowByteOf, WordBytes;
    if n / 8 == 0 {
      EmptyBytes();
      assert ToBits(x, 0) == [];
      tail := [];
    } else if n / 8 == 1 {
      LastByteBits(x);
      tail := [LowByteOf(x)];
    } else if n / 8 == 2 {
      var y := Low(x, 16);
      TwoBytes(y);
      LowBits(x, 16, 16);
      tail := [LowByteOf(Shr(y, 8)), LowByteOf(y)];
    } else if n / 8 == 3 {
      var y := Low(Shr(x, 8), 16);
      TwoBytes(y);
      LowBits(Shr(x, 8), 16, 16);
      SplitBits(x, 16, 8);
      LastByteBits(x);
      BytesBitsConcat([LowByteOf(Shr(y, 8)), LowByteOf(y)], [LowByteOf(x)]);
      tail := [LowByteOf(Shr(y, 8)), LowByteOf(y)] + [LowByteOf(x)];
    } else {
      var y := Low(x, 32);
      FourBytes(y);
      LowBits(x, 32, 32);
      tail := WordBytes(y);
    }
  }

  /** The number of bytes the encoding of s takes. */
  method HuffmanEncodeLength(t: CodeTable, s: seq<Byte>) returns (r: nat)
    requires Shape(t)
    ensures r == |HuffmanString(t, s)|
  {
    hide Code;
    var n := 0;
    assert s[..0] == [];
    for i := 0 to |s|
      invariant n == |Enc(t, s[..i])|
    {
      EncSnoc(t, s[..i], s[i]);
      assert s[..i] + [s[i]] == s[..i + 1];
      n := n + t.lens[s[i]];
    }
    assert s[..|s|] == s;
    r := (n + 7) / 8;
  }
}
