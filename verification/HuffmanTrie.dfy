/**
 The decoding trie: internal nodes with 256 children, indexed by whole bytes of input, and one
 leaf per symbol that fills every slot its last, partial byte can be completed to. Nodes live
 in an arena; a pointer is an index into it, with -1 for nil and 0 for the root.
*/
module HuffmanTrie {
  import opened BitStrings
  import opened HuffmanCode

  datatype Node = Internal(children: seq<int>) | Leaf(codeLen: nat, sym: Byte)

  const NIL: int := -1

  function EmptyInternal(): Node { Internal(seq(256, _ => NIL)) }

  /** Arena index of the leaf allocated for a symbol. */
  function LeafAt(s: Byte): nat { 1 + s }

  /** How many whole bytes of the code precede its last byte. */
  function Hops(len: nat): nat
    requires len > 0
  {
    (len - 1) / 8
  }

  /** Bits of the code in its last byte. */
  function LastLen(len: nat): nat
    requires len > 0
  {
    len - 8 * Hops(len)
  }

  /** The finished leaf of a symbol. */
  function LeafOf(t: CodeTable, s: Byte): (r: Node)
    requires Shape(t)
    ensures r.Leaf?
  {
    Leaf(LastLen(t.lens[s]), s)
  }

  predicate Strict(a: Bits, b: Bits) { |a| < |b| && a == b[..|a|] }

  /** The code of s ends within the last byte of the byte-aligned bits P. */
  predicate EndsIn(t: CodeTable, P: Bits, s: Byte)
    requires Shape(t)
  {
    Code(t, s) <= P && |Code(t, s)| + 8 > |P|
  }

  /** P leads on: some code among the first k symbols continues past it, or it lies on the walk w. */
  ghost predicate LeadsOn(t: CodeTable, k: nat, w: Bits, P: Bits)
    requires Shape(t)
  {
    P <= w || exists s: Byte :: s < k && Strict(P, Code(t, s))
  }

  type Paths = map<seq<Byte>, nat>

  /** What child c of the node at path p, in slot i, has to be. */
  ghost predicate SlotOk(t: CodeTable, k: nat, w: Bits, tree: Paths, p: seq<Byte>, i: Byte, c: int)
    requires Shape(t) && k <= 256
  {
    var P := BytesBits(p + [i]);
    && (p + [i] in tree <==> LeadsOn(t, k, w, P))
    && (p + [i] in tree ==> c == tree[p + [i]])
    && (p + [i] !in tree ==> c == NIL || exists s: Byte :: s < k && c == LeafAt(s) && EndsIn(t, P, s))
    && (c == NIL ==> forall s: Byte :: s < k ==> !EndsIn(t, P, s))
  }

  /** Child i of the node at path p. */
  function Child(nodes: seq<Node>, tree: Paths, p: seq<Byte>, i: Byte): int
    requires ArenaOk(nodes, tree) && p in tree
  {
    nodes[tree[p]].children[i]
  }

  /** Where the internal nodes are and what they look like. */
  predicate ArenaOk(nodes: seq<Node>, tree: Paths) {
    && |nodes| >= 257 && [] in tree && tree[[]] == 0
    && (forall p | p in tree ::
          tree[p] < |nodes| && nodes[tree[p]].Internal? && |nodes[tree[p]].children| == 256)
    && (forall p, q | p in tree && q in tree && tree[p] == tree[q] :: p == q)
    && forall s: Byte :: nodes[LeafAt(s)].Leaf?
  }

  /**
   The arena holds the trie of the first k symbols, plus the internal nodes along the walk w.
   `tree` names each internal node by the bytes that lead to it.
  */
  ghost predicate TrieFor(t: CodeTable, k: nat, w: Bits, nodes: seq<Node>, tree: Paths)
    requires Shape(t) && k <= 256
  {
    && ArenaOk(nodes, tree)
    && (forall s: Byte :: s < k ==> nodes[LeafAt(s)] == LeafOf(t, s))
    && (forall p | p in tree :: p == [] || LeadsOn(t, k, w, BytesBits(p)))
    && forall p, i: Byte | p in tree :: SlotOk(t, k, w, tree, p, i, Child(nodes, tree, p, i))
  }

  lemma Extend(p: seq<Byte>, i: Byte)
    ensures BytesBits(p + [i]) == BytesBits(p) + ToBits(i, 8)
  {
    assert (p + [i])[..|p + [i]| - 1] == p;
  }

  /** Byte paths with the same bits are the same path. */
  lemma SamePath(p: seq<Byte>, q: seq<Byte>)
    requires BytesBits(p) == BytesBits(q)
    ensures p == q
  {
    PackedBytes(p);
    PackedBytes(q);
  }

  /** Prefixes of the longer walk that end on a byte boundary are those of the shorter one and itself. */
  lemma WalkPrefixes(w: Bits, w': Bits, P: Bits)
    requires |w| % 8 == 0 && |w'| == |w| + 8 && w <= w' && |P| % 8 == 0
    ensures P <= w' <==> P <= w || P == w'
  {
    if P <= w' && P != w' {
      assert |P| <= |w|;
      assert P == w'[..|P|] == w[..|P|];
    }
  }

  /** The walk for symbol k goes down into an existing child. */
  lemma WalkDown(t: CodeTable, k: Byte, nodes: seq<Node>, tree: Paths, p: seq<Byte>, i: Byte)
    requires ValidTable(t) && p in tree && TrieFor(t, k, BytesBits(p), nodes, tree)
    requires Strict(BytesBits(p + [i]), Code(t, k)) && nodes[tree[p]].children[i] != NIL
    ensures p + [i] in tree && tree[p + [i]] == nodes[tree[p]].children[i]
    ensures TrieFor(t, k, BytesBits(p + [i]), nodes, tree)
  {
    hide Shape, Low, ToBits, Code, BytesBits, PaddingIsNoCode;
    var w, w' := BytesBits(p), BytesBits(p + [i]);
    Extend(p, i);
    assert SlotOk(t, k, w, tree, p, i, Child(nodes, tree, p, i));
    assert forall s: Byte :: EndsIn(t, w', s) ==> Code(t, s) <= Code(t, k);
    forall q, j: Byte | q in tree ensures SlotOk(t, k, w', tree, q, j, Child(nodes, tree, q, j)) {
      assert SlotOk(t, k, w, tree, q, j, Child(nodes, tree, q, j));
      LeadsOnLonger(t, k, w, p, i, q, j, tree);
    }
    forall q | q in tree ensures q == [] || LeadsOn(t, k, w', BytesBits(q)) {
      assert q == [] || LeadsOn(t, k, w, BytesBits(q));
      assert w <= w';
    }
  }

  /** Once p + [i] is a node, lengthening the walk to it changes nothing else. */
  lemma LeadsOnLonger(t: CodeTable, k: nat, w: Bits, p: seq<Byte>, i: Byte, q: seq<Byte>, j: Byte, tree: Paths)
    requires Shape(t) && w == BytesBits(p)
    ensures
      var w', P := BytesBits(p + [i]), BytesBits(q + [j]);
      LeadsOn(t, k, w', P) <==> LeadsOn(t, k, w, P) || q + [j] == p + [i]
  {
    hide *;
    Extend(p, i);
    Extend(q, j);
    LongerWalk(t, k, w, BytesBits(p + [i]), BytesBits(q + [j]));
    if BytesBits(q + [j]) == BytesBits(p + [i]) {
      SamePath(q + [j], p + [i]);
    }
  }

  lemma LongerWalk(t: CodeTable, k: nat, w: Bits, w': Bits, P: Bits)
    requires Shape(t) && |w| % 8 == 0 && |w'| == |w| + 8 && w <= w' && |P| % 8 == 0
    ensures LeadsOn(t, k, w', P) <==> LeadsOn(t, k, w, P) || P == w'
  {
    hide Shape, Code, Strict;
    WalkPrefixes(w, w', P);
  }

  /** The walk for symbol k makes the internal node it misses. */
  lemma WalkCreate(t: CodeTable, k: Byte, nodes: seq<Node>, tree: Paths, p: seq<Byte>, i: Byte,
                   nodes': seq<Node>, tree': Paths)
    requires ValidTable(t) && p in tree && TrieFor(t, k, BytesBits(p), nodes, tree)
    requires Strict(BytesBits(p + [i]), Code(t, k)) && nodes[tree[p]].children[i] == NIL
    requires nodes' == nodes[tree[p] := Internal(nodes[tree[p]].children[i := |nodes|])] + [EmptyInternal()]
    requires tree' == tree[p + [i] := |nodes|]
    ensures TrieFor(t, k, BytesBits(p + [i]), nodes', tree')
  {
    hide Shape, Low, ToBits, Code, BytesBits, EndsIn, Strict, PrefixFree, PaddingIsNoCode;
    var w, w' := BytesBits(p), BytesBits(p + [i]);
    Extend(p, i);
    assert SlotOk(t, k, w, tree, p, i, Child(nodes, tree, p, i));
    CreateArena(nodes, tree, p, i, nodes', tree');
    forall q, j: Byte | q in tree' ensures SlotOk(t, k, w', tree', q, j, Child(nodes', tree', q, j)) {
      CreateSlot(t, k, nodes, tree, p, i, nodes', tree', q, j);
    }
    forall q | q in tree' ensures q == [] || LeadsOn(t, k, w', BytesBits(q)) {
      assert q in tree ==> q == [] || LeadsOn(t, k, w, BytesBits(q));
      assert w <= w';
    }
  }

  lemma CreateArena(nodes: seq<Node>, tree: Paths, p: seq<Byte>, i: Byte, nodes': seq<Node>, tree': Paths)
    requires ArenaOk(nodes, tree) && p in tree && p + [i] !in tree
    requires nodes' == nodes[tree[p] := Internal(nodes[tree[p]].children[i := |nodes|])] + [EmptyInternal()]
    requires tree' == tree[p + [i] := |nodes|]
    ensures ArenaOk(nodes', tree')
  {
  }

  lemma CreateSlot(t: CodeTable, k: Byte, nodes: seq<Node>, tree: Paths, p: seq<Byte>, i: Byte,
                   nodes': seq<Node>, tree': Paths, q: seq<Byte>, j: Byte)
    requires Shape(t) && p in tree && TrieFor(t, k, BytesBits(p), nodes, tree) && p + [i] !in tree
    requires nodes' == nodes[tree[p] := Internal(nodes[tree[p]].children[i := |nodes|])] + [EmptyInternal()]
    requires tree' == tree[p + [i] := |nodes|]
    requires ArenaOk(nodes', tree') && q in tree'
    ensures SlotOk(t, k, BytesBits(p + [i]), tree', q, j, Child(nodes', tree', q, j))
  {
    hide Shape, Low, ToBits, Code, BytesBits, EndsIn, Strict, LeadsOn;
    var w := BytesBits(p);
    assert SlotOk(t, k, w, tree, p, i, Child(nodes, tree, p, i));
    LeadsOnLonger(t, k, w, p, i, q, j, tree);
    if q == p + [i] {
      NewNodeSlot(t, k, w, p, i, j, tree);
      assert |q + [j]| != |p + [i]|;
    } else {
      assert SlotOk(t, k, w, tree, q, j, Child(nodes, tree, q, j));
      assert tree'[q] == tree[q] && (q == p || tree[q] != tree[p]);
      assert (q + [j])[..|q|] == q && (p + [i])[..|p|] == p;
    }
  }

  /** Nothing among the first k symbols goes through a node that did not exist yet. */
  lemma NewNodeSlot(t: CodeTable, k: nat, w: Bits, p: seq<Byte>, i: Byte, j: Byte, tree: Paths)
    requires Shape(t) && w == BytesBits(p) && !LeadsOn(t, k, w, BytesBits(p + [i]))
    requires forall q | q in tree :: q == [] || LeadsOn(t, k, w, BytesBits(q))
    ensures
      var P := BytesBits(p + [i] + [j]);
      && p + [i] + [j] !in tree && !LeadsOn(t, k, w, P)
      && forall s: Byte :: s < k ==> !EndsIn(t, P, s)
  {
    hide Shape, Low, ToBits, Code;
    Extend(p, i);
    Extend(p + [i], j);
    var w', P := BytesBits(p + [i]), BytesBits(p + [i] + [j]);
    forall s: Byte | s < k ensures !EndsIn(t, P, s) && !Strict(P, Code(t, s)) {
      assert !Strict(w', Code(t, s));
      if |Code(t, s)| > |w'| {
        assert P[..|w'|] == w';
      }
    }
  }

  /** The slots of the node `cur` after the leaf of k has been put wherever its code can be completed to. */
  ghost predicate Filled(t: CodeTable, k: Byte, p: seq<Byte>, old': seq<int>, new': seq<int>)
    requires Shape(t)
  {
    && |old'| == |new'| == 256
    && forall i: Byte :: new'[i] == if EndsIn(t, BytesBits(p + [i]), k) then LeafAt(k) else old'[i]
  }

  /** After the fill the arena holds the trie of one more symbol, and the walk is over. */
  lemma Fill(t: CodeTable, k: Byte, k': nat, nodes: seq<Node>, tree: Paths, p: seq<Byte>, children: seq<int>,
             nodes': seq<Node>)
    requires ValidTable(t) && p in tree && TrieFor(t, k, BytesBits(p), nodes, tree)
    requires Strict(BytesBits(p), Code(t, k)) && |Code(t, k)| <= 8 * |p| + 8
    requires Filled(t, k, p, nodes[tree[p]].children, children)
    requires nodes' == nodes[tree[p] := Internal(children)][LeafAt(k) := LeafOf(t, k)]
    requires k' == k + 1 && |children| == 256
    ensures TrieFor(t, k', [], nodes', tree)
  {
    hide Shape, Code, BytesBits, EndsIn, Strict, LeadsOn, SlotOk, Filled, LeafOf, Child, PrefixFree, PaddingIsNoCode,
        TrieFor, ArenaOk;
    FillLeaves(t, k, k', nodes, tree, p, children, nodes');
    FillSlots(t, k, k', nodes, tree, p, children, nodes');
    FillPaths(t, k, k', nodes, tree, p);
    IsTrie(t, k', [], nodes', tree);
  }

  lemma IsTrie(t: CodeTable, k: nat, w: Bits, nodes: seq<Node>, tree: Paths)
    requires Shape(t) && k <= 256 && ArenaOk(nodes, tree)
    requires forall s: Byte :: s < k ==> nodes[LeafAt(s)] == LeafOf(t, s)
    requires forall p | p in tree :: p == [] || LeadsOn(t, k, w, BytesBits(p))
    requires forall p, i: Byte | p in tree :: SlotOk(t, k, w, tree, p, i, Child(nodes, tree, p, i))
    ensures TrieFor(t, k, w, nodes, tree)
  {
  }

  lemma FillLeaves(t: CodeTable, k: Byte, k': nat, nodes: seq<Node>, tree: Paths, p: seq<Byte>, children: seq<int>,
                   nodes': seq<Node>)
    requires Shape(t) && p in tree && TrieFor(t, k, BytesBits(p), nodes, tree)
    requires |children| == 256 && k' == k + 1
    requires nodes' == nodes[tree[p] := Internal(children)][LeafAt(k) := LeafOf(t, k)]
    ensures ArenaOk(nodes', tree)
    ensures forall s: Byte :: s < k' ==> nodes'[LeafAt(s)] == LeafOf(t, s)
  {
    hide Shape, BytesBits, LeadsOn, SlotOk, LeafOf, Child;
    FillArena(nodes, tree, p, children, LeafAt(k), LeafOf(t, k), nodes');
    forall s: Byte | s < k' ensures nodes'[LeafAt(s)] == LeafOf(t, s) {
      assert s == k || nodes[LeafAt(s)] == LeafOf(t, s);
    }
  }

  lemma FillPaths(t: CodeTable, k: Byte, k': nat, nodes: seq<Node>, tree: Paths, p: seq<Byte>)
    requires Shape(t) && p in tree && TrieFor(t, k, BytesBits(p), nodes, tree)
    requires Strict(BytesBits(p), Code(t, k)) && |Code(t, k)| <= 8 * |p| + 8 && k' == k + 1
    ensures forall q | q in tree :: q == [] || LeadsOn(t, k', [], BytesBits(q))
  {
    hide Shape, Code, BytesBits, Strict, LeadsOn, SlotOk, ArenaOk, Child;
    forall q | q in tree && q != [] ensures LeadsOn(t, k', [], BytesBits(q)) {
      assert LeadsOn(t, k, BytesBits(p), BytesBits(q));
      assert |q| > 0;
      WalkOverPath(t, k, k', p, q);
    }
  }

  lemma FillSlots(t: CodeTable, k: Byte, k': nat, nodes: seq<Node>, tree: Paths, p: seq<Byte>, children: seq<int>,
                  nodes': seq<Node>)
    requires ValidTable(t) && p in tree && TrieFor(t, k, BytesBits(p), nodes, tree) && ArenaOk(nodes', tree)
    requires Strict(BytesBits(p), Code(t, k)) && |Code(t, k)| <= 8 * |p| + 8
    requires Filled(t, k, p, nodes[tree[p]].children, children)
    requires nodes' == nodes[tree[p] := Internal(children)][LeafAt(k) := LeafOf(t, k)]
    requires k' == k + 1
    ensures forall q, i: Byte | q in tree :: SlotOk(t, k', [], tree, q, i, Child(nodes', tree, q, i))
  {
    hide Shape, Code, BytesBits, EndsIn, Strict, LeadsOn, SlotOk, Filled, LeafOf, ArenaOk, Child,
      PrefixFree, PaddingIsNoCode;
    forall q, i: Byte | q in tree ensures SlotOk(t, k', [], tree, q, i, Child(nodes', tree, q, i)) {
      assert SlotOk(t, k, BytesBits(p), tree, q, i, Child(nodes, tree, q, i));
      FillChild(t, k, nodes, tree, p, children, LeafOf(t, k), nodes', q, i);
      FillSlot(t, k, k', tree, p, q, i, Child(nodes, tree, q, i), Child(nodes', tree, q, i));
    }
  }

  lemma FillArena(nodes: seq<Node>, tree: Paths, p: seq<Byte>, children: seq<int>, at: nat, leaf: Node,
                  nodes': seq<Node>)
    requires ArenaOk(nodes, tree) && p in tree && |children| == 256
    requires 1 <= at <= 256 && leaf.Leaf? && nodes' == nodes[tree[p] := Internal(children)][at := leaf]
    ensures ArenaOk(nodes', tree)
    ensures forall q | q in tree :: nodes'[tree[q]] == if q == p then Internal(children) else nodes[tree[q]]
    ensures forall a | 1 <= a <= 256 :: nodes'[a] == if a == at then leaf else nodes[a]
  {
    forall a | 1 <= a <= 256 ensures nodes[a].Leaf? {
      assert nodes[LeafAt(a - 1)].Leaf?;
    }
  }

  /** For byte-aligned bits, lying on the walk of k is being a strict prefix of its code. */
  lemma OnWalk(w: Bits, m: nat, c: Bits, P: Bits, n: nat)
    requires Strict(w, c) && |c| <= |w| + 8 && |w| == 8 * m && |P| == 8 * n
    ensures P <= w <==> Strict(P, c)
  {
    if P <= w {
      assert P == w[..|P|] == c[..|P|];
    }
    if Strict(P, c) {
      assert P == c[..|P|] == w[..|P|];
    }
  }

  lemma FillChild(t: CodeTable, k: Byte, nodes: seq<Node>, tree: Paths, p: seq<Byte>, children: seq<int>, leaf: Node,
                  nodes': seq<Node>, q: seq<Byte>, i: Byte)
    requires Shape(t) && ArenaOk(nodes, tree) && ArenaOk(nodes', tree) && p in tree && q in tree && leaf.Leaf?
    requires Filled(t, k, p, nodes[tree[p]].children, children)
    requires nodes' == nodes[tree[p] := Internal(children)][LeafAt(k) := leaf]
    ensures Child(nodes', tree, q, i) ==
            if q == p && EndsIn(t, BytesBits(q + [i]), k) then LeafAt(k) else Child(nodes, tree, q, i)
  {
    hide Shape, EndsIn, BytesBits;
    assert tree[q] != LeafAt(k) by {
      assert nodes[LeafAt(k)].Leaf?;
    }
  }

  lemma WalkOver(t: CodeTable, k: Byte, k': nat, w: Bits, m: nat, P: Bits, n: nat)
    requires Shape(t) && Strict(w, Code(t, k)) && |Code(t, k)| <= |w| + 8
    requires |w| == 8 * m && |P| == 8 * n && n > 0 && k' == k + 1
    ensures LeadsOn(t, k, w, P) <==> LeadsOn(t, k', [], P)
  {
    hide Shape, Code, Strict;
    OnWalk(w, m, Code(t, k), P, n);
  }

  lemma WalkOverPath(t: CodeTable, k: Byte, k': nat, p: seq<Byte>, q: seq<Byte>)
    requires Shape(t) && Strict(BytesBits(p), Code(t, k)) && |Code(t, k)| <= 8 * |p| + 8
    requires |q| > 0 && k' == k + 1
    ensures LeadsOn(t, k, BytesBits(p), BytesBits(q)) <==> LeadsOn(t, k', [], BytesBits(q))
  {
    hide *;
    WalkOver(t, k, k', BytesBits(p), |p|, BytesBits(q), |q|);
  }

  lemma FillSlot(t: CodeTable, k: Byte, k': nat, tree: Paths, p: seq<Byte>, q: seq<Byte>, i: Byte, c: int, c': int)
    requires ValidTable(t) && k' == k + 1 && SlotOk(t, k, BytesBits(p), tree, q, i, c)
    requires Strict(BytesBits(p), Code(t, k)) && |Code(t, k)| <= 8 * |p| + 8
    requires c' == if q == p && EndsIn(t, BytesBits(q + [i]), k) then LeafAt(k) else c
    ensures SlotOk(t, k', [], tree, q, i, c')
  {
    hide Shape, Code, BytesBits, EndsIn, Strict, LeadsOn, PrefixFree, PaddingIsNoCode;
    var w, P := BytesBits(p), BytesBits(q + [i]);
    WalkOver(t, k, k', w, |p|, P, |q| + 1);
    EndsOnlyHere(t, k, p, q, i);
    LeafExcludes(t, k, w, P);
    UpTo(t, k, k', P);
  }

  lemma UpTo(t: CodeTable, k: Byte, k': nat, P: Bits)
    requires Shape(t) && k' == k + 1
    ensures (forall s: Byte :: s < k' ==> !EndsIn(t, P, s)) <==>
            !EndsIn(t, P, k) && forall s: Byte :: s < k ==> !EndsIn(t, P, s)
  {
    hide Shape, EndsIn;
    assert forall s: Byte :: EndsIn(t, P, s) && s < k' ==> s < k || s == k;
  }

  /** The code of k can end in a slot of the node at the end of its walk only. */
  lemma EndsOnlyHere(t: CodeTable, k: Byte, p: seq<Byte>, q: seq<Byte>, i: Byte)
    requires Shape(t) && Strict(BytesBits(p), Code(t, k)) && |Code(t, k)| <= 8 * |p| + 8
    ensures EndsIn(t, BytesBits(q + [i]), k) ==> q == p
  {
    hide Shape, Low, ToBits, Code, BytesBits;
    Extend(q, i);
    var P, c := BytesBits(q + [i]), Code(t, k);
    if EndsIn(t, P, k) {
      assert |q| == |p|;
      assert BytesBits(q) == P[..8 * |p|] == c[..8 * |p|] == BytesBits(p);
      SamePath(q, p);
    }
  }

  lemma PrefixStrict(c: Bits, P: Bits, x: Bits)
    requires c <= P && Strict(P, x)
    ensures c <= x
  {
    assert c == P[..|c|] == x[..|c|];
  }

  /** Where the code of k ends, no other code ends and none leads on. */
  lemma LeafExcludes(t: CodeTable, k: Byte, w: Bits, P: Bits)
    requires ValidTable(t) && Strict(w, Code(t, k))
    ensures EndsIn(t, P, k) && |P| > |w| ==> !LeadsOn(t, k, w, P)
    ensures EndsIn(t, P, k) ==> forall s: Byte :: s < k ==> !EndsIn(t, P, s)
  {
    hide Shape, Low, ToBits, Code, PaddingIsNoCode, Strict;
    var c := Code(t, k);
    forall s: Byte | EndsIn(t, P, k) && EndsIn(t, P, s) ensures s == k {
      PrefixesComparable(Code(t, s), c, P);
    }
    forall s: Byte | EndsIn(t, P, k) && Strict(P, Code(t, s)) ensures s == k {
      PrefixStrict(c, P, Code(t, s));
    }
  }

  // ---------------------------------------------------------------- building

  /** The next byte of a code on the walk down: `uint8(code >> codeLen)`. */
  lemma HopByte(t: CodeTable, k: Byte, p: seq<Byte>, codeLen: nat, i: Byte)
    requires Shape(t) && Strict(BytesBits(p), Code(t, k)) && t.lens[k] == 8 * |p| + 8 + codeLen && codeLen > 0
    requires i == Low(Shr(t.codes[k], codeLen), 8)
    ensures Strict(BytesBits(p + [i]), Code(t, k))
  {
    HopBits(t.codes[k], 8 * |p|, codeLen, i, BytesBits(p));
    Extend(p, i);
  }

  lemma HopBits(code: nat, n: nat, codeLen: nat, i: Byte, w: Bits)
    requires Strict(w, ToBits(code, n + 8 + codeLen)) && |w| == n && codeLen > 0
    requires i == Low(Shr(code, codeLen), 8)
    ensures Strict(w + ToBits(i, 8), ToBits(code, n + 8 + codeLen))
  {
    hide Low, Shr, ToBits;
    SplitBits(code, n + 8, codeLen);
    SplitBits(Shr(code, codeLen), n, 8);
    LowBits(Shr(code, codeLen), 8, 8);
    var c := ToBits(code, n + 8 + codeLen);
    assert c[..n] == w;
    assert c[n..n + 8] == ToBits(i, 8);
    assert c[..n + 8] == w + ToBits(i, 8);
  }

  /** The slots the leaf goes into are those its last bits can be completed to. */
  lemma SlotRange(t: CodeTable, k: Byte, p: seq<Byte>, m: nat, i: Byte)
    requires Shape(t) && Strict(BytesBits(p), Code(t, k)) && t.lens[k] == 8 * |p| + m && 0 < m <= 8
    ensures
      var start := Low(Low(Shl(t.codes[k], 8 - m), 32), 8);
      EndsIn(t, BytesBits(p + [i]), k) <==> start <= i < start + Shl(1, 8 - m)
  {
    RangeBits(t.codes[k], 8 * |p|, m, i, BytesBits(p));
    Extend(p, i);
  }

  lemma RangeBits(code: nat, n: nat, m: nat, i: Byte, w: Bits)
    requires Strict(w, ToBits(code, n + m)) && |w| == n && 0 < m <= 8
    ensures
      var start := Low(Low(Shl(code, 8 - m), 32), 8);
      ToBits(code, n + m) <= w + ToBits(i, 8) <==> start <= i < start + Shl(1, 8 - m)
  {
    hide Low, Shl, Shr, ToBits;
    var shift := 8 - m;
    LowLow(Shl(code, shift), 32, 8);
    LowShl(code, shift, m);
    ShlInterval(i, Low(code, m), shift);
    LowByte(i);
    ShrFits(i, shift, m);
    SameBits(Shr(i, shift), code, m);
    SplitBits(i, m, shift);
    SplitBits(code, n, m);
    var c, P := ToBits(code, n + m), w + ToBits(i, 8);
    assert c == w + ToBits(code, m) by { assert c[..n] == w && c[n..] == ToBits(code, m); }
    assert P[..n + m] == w + ToBits(Shr(i, shift), m);
    assert (w + ToBits(code, m))[n..] == ToBits(code, m);
    assert (w + ToBits(Shr(i, shift), m))[n..] == ToBits(Shr(i, shift), m);
  }

  lemma LowByteRange(v: nat)
    ensures Low(v, 8) < 256
  {
    LowBound(v, 8);
  }

  lemma {:induction false} LowBound(v: nat, n: nat)
    ensures Low(v, n) < Shl(1, n)
  {
    if n > 0 {
      LowBound(v / 2, n - 1);
    }
  }

  /** The arena before any symbol has been put in: the root and 256 blank leaves. */
  function BlankArena(): (r: seq<Node>)
    ensures |r| == 257 && r[0] == EmptyInternal() && forall a | 1 <= a <= 256 :: r[a] == Leaf(0, 0)
  {
    [EmptyInternal()] + seq(256, _ => Leaf(0, 0))
  }

  lemma BlankTrie(t: CodeTable)
    requires Shape(t)
    ensures TrieFor(t, 0, [], BlankArena(), map[[] := 0])
  {
    hide Code, BytesBits;
    forall i: Byte ensures SlotOk(t, 0, [], map[[] := 0], [], i, NIL) {
      assert |BytesBits([] + [i])| == 8;
    }
  }

  lemma TableShape(t: CodeTable)
    requires ValidTable(t)
    ensures Shape(t)
  {
  }

  class Trie {
    var nodes: seq<Node>
    ghost var tree: Paths

    /** The trie of the whole table. */
    ghost predicate Complete(t: CodeTable)
      reads this
    {
      Shape(t) && TrieFor(t, 256, [], nodes, tree)
    }

    constructor (t: CodeTable)
      requires ValidTable(t)
      ensures Complete(t)
    {
      hide *;
      nodes := BlankArena();
      tree := map[[] := 0];
      new;
      TableShape(t);
      BlankTrie(t);
      for sym := 0 to 256
        invariant TrieFor(t, sym, [], nodes, tree)
      {
        Insert(t, sym);
      }
      TrieComplete(t);
    }

    lemma TrieComplete(t: CodeTable)
      requires Shape(t) && TrieFor(t, 256, [], nodes, tree)
      ensures Complete(t)
    {
    }

    /** One turn of the building loop: walk down whole bytes of the code, then fill slots with its leaf. */
    method Insert(t: CodeTable, sym: Byte)
      requires ValidTable(t) && TrieFor(t, sym, [], nodes, tree)
      modifies this
      ensures TrieFor(t, sym + 1, [], nodes, tree)
    {
      hide Code, ToBits, BytesBits, Low, Shr, TrieFor, PrefixFree, PaddingIsNoCode;
      var codeLen := t.lens[sym];
      var cur := 0;
      ghost var p: seq<Byte> := [];
      WalkStart(t, sym, nodes, tree);
      while codeLen > 8
        invariant codeLen > 0 && t.lens[sym] == 8 * |p| + codeLen
        invariant OnNode(t, sym, p, cur)
      {
        codeLen := codeLen - 8;
        LowByteRange(Shr(t.codes[sym], codeLen));
        var i: Byte := Low(Shr(t.codes[sym], codeLen), 8);
        HopByte(t, sym, p, codeLen, i);
        cur := Descend(t, sym, cur, i, p);
        p := p + [i];
      }
      PlaceLeaf(t, sym, cur, codeLen, p);
    }

    /** The walk for sym stands on the node named p. */
    ghost predicate OnNode(t: CodeTable, sym: Byte, p: seq<Byte>, cur: nat)
      requires Shape(t)
      reads this
    {
      && TrieFor(t, sym, BytesBits(p), nodes, tree) && Strict(BytesBits(p), Code(t, sym))
      && p in tree && tree[p] == cur
    }

    /** Goes to child i, making it first when it is missing. */
    method Descend(t: CodeTable, sym: Byte, cur: nat, i: Byte, ghost p: seq<Byte>) returns (next: nat)
      requires ValidTable(t) && OnNode(t, sym, p, cur) && Strict(BytesBits(p + [i]), Code(t, sym))
      modifies this
      ensures OnNode(t, sym, p + [i], next)
    {
      hide Code, BytesBits, PrefixFree, PaddingIsNoCode, SlotOk, Shape, LeadsOn, Child, EmptyInternal;
      var children := nodes[cur].children;
      if children[i] == NIL {
        ghost var nodes0, tree0 := nodes, tree;
        next := |nodes|;
        nodes := nodes[cur := Internal(children[i := next])] + [EmptyInternal()];
        tree := tree[p + [i] := next];
        WalkCreate(t, sym, nodes0, tree0, p, i, nodes, tree);
      } else {
        WalkDown(t, sym, nodes, tree, p, i);
        next := children[i];
      }
    }

    /** Points every slot the last bits of the code can be completed to at the symbol's leaf. */
    method PlaceLeaf(t: CodeTable, sym: Byte, cur: nat, codeLen: nat, ghost p: seq<Byte>)
      requires ValidTable(t) && OnNode(t, sym, p, cur) && t.lens[sym] == 8 * |p| + codeLen && 0 < codeLen <= 8
      modifies this
      ensures TrieFor(t, sym + 1, [], nodes, tree)
    {
      hide Code, BytesBits, PrefixFree, PaddingIsNoCode, SlotOk, LeadsOn, Child, Low, Shl, EndsIn,
        LeafOf, Strict;
      var shift := 8 - codeLen;
      var start, end := Low(Low(Shl(t.codes[sym], shift), 32), 8), Shl(1, shift);
      RangeInByte(t.codes[sym], codeLen);
      var children := nodes[cur].children;
      for i := start to start + end
        invariant |children| == 256
        invariant forall j | 0 <= j < 256 ::
                  children[j] == if start <= j < i then LeafAt(sym) else nodes[cur].children[j]
      {
        children := children[i := LeafAt(sym)];
      }
      forall i: Byte ensures EndsIn(t, BytesBits(p + [i]), sym) <==> start <= i < start + end {
        SlotRange(t, sym, p, codeLen, i);
      }
      ghost var nodes0 := nodes;
      nodes := nodes[cur := Internal(children)][LeafAt(sym) := LeafOf(t, sym)];
      Fill(t, sym, sym + 1, nodes0, tree, p, children, nodes);
    }
  }

  lemma WalkStart(t: CodeTable, sym: Byte, nodes: seq<Node>, tree: Paths)
    requires Shape(t) && TrieFor(t, sym, [], nodes, tree)
    ensures BytesBits([]) == [] && Strict([], Code(t, sym)) && [] in tree && tree[[]] == 0
  {
  }

  lemma RangeInByte(code: nat, m: nat)
    requires 0 < m <= 8
    ensures Low(Low(Shl(code, 8 - m), 32), 8) + Shl(1, 8 - m) <= 256
  {
    var shift := 8 - m;
    hide Low, Shl;
    LowLow(Shl(code, shift), 32, 8);
    LowShl(code, shift, m);
    LowBound(code, m);
    ShlMonotone(Low(code, m) + 1, Shl(1, m), shift);
    ShlSums(Low(code, m), 1, shift);
    ShlTwice(1, m, shift);
    ByteSize();
  }

  lemma ByteSize()
    ensures Shl(1, 8) == 256
  {
  }

  lemma {:induction false} ShlMonotone(a: nat, b: nat, m: nat)
    requires a <= b
    ensures Shl(a, m) <= Shl(b, m)
  {
    if m > 0 {
      ShlMonotone(a, b, m - 1);
    }
  }

  lemma {:induction false} ShlSums(a: nat, b: nat, m: nat)
    ensures Shl(a + b, m) == Shl(a, m) + Shl(b, m)
  {
    if m > 0 {
      ShlSums(a, b, m - 1);
    }
  }

  lemma {:induction false} ShlTwice(a: nat, m: nat, n: nat)
    ensures Shl(Shl(a, m), n) == Shl(a, m + n)
  {
    if n > 0 {
      ShlTwice(a, m, n - 1);
    }
  }
}
