/**
 The fixed-size allocator: a free list threaded through freed blocks, over a bump pointer into
 chunks of a persistent allocator.
*/
module FixAllocs {
  import opened PersistentAllocs

  const FIX_ALLOC_CHUNK: nat := 16 * 1024

  /** A block has room for a list word. */
  function Raised(size: nat): nat { if size < PTR_SIZE then PTR_SIZE else size }

  class FixAlloc {
    var size: nat
    var list: nat                   // the block freed last, 0 for none
    var nalloc: nat
    var chunk: nat
    var nchunk: nat
    var inuse: nat
    var next: map<nat, nat>         // the first words of freed blocks
    ghost var live: set<nat>
    ghost var freed: seq<nat>       // newest first
    ghost var slots: seq<nat>       // every block ever cut
    ghost var mine: seq<Block>      // the chunks they were cut from

    ghost predicate SizeOk()
      reads this`size, this`nalloc
    {
      PTR_SIZE <= size <= FIX_ALLOC_CHUNK && nalloc == FIX_ALLOC_CHUNK / size * size
    }

    /** A range lies in one of the allocator's chunks. */
    ghost predicate Homed(b: Block)
      reads this`mine
    {
      exists m | m in mine :: Inside(b, m)
    }

    function Slot(a: nat): Block
      reads this`size
    {
      Block(a, size)
    }

    /** Blocks ever cut lie in chunks, apart from each other and from what is not cut yet. */
    ghost predicate SlotsOk()
      reads this`slots, this`mine, this`size, this`chunk, this`nchunk
    {
      && (forall i, j | 0 <= i < j < |slots| :: Apart(Slot(slots[i]), Slot(slots[j])))
      && (forall a | a in slots :: a > 0 && Homed(Slot(a)) && Apart(Slot(a), Block(chunk, nchunk)))
      && (nchunk > 0 ==> chunk > 0 && Homed(Block(chunk, nchunk)))
    }

    ghost predicate FreeOk()
      reads this`freed, this`list, this`next
    {
      && list == (if freed == [] then 0 else freed[0])
      && (forall i, j | 0 <= i < j < |freed| :: freed[i] != freed[j])
      && forall i | 0 <= i < |freed| :: Linked(i)
    }

    ghost predicate Linked(i: nat)
      requires i < |freed|
      reads this`freed, this`next
    {
      freed[i] in next && next[freed[i]] == if i + 1 < |freed| then freed[i + 1] else 0
    }

    /** A block that was cut is either live or freed. */
    ghost predicate Partition()
      reads this`slots, this`live, this`freed
    {
      && (forall a | a in slots :: a in live || a in freed)
      && (forall a | a in live :: a in slots && a !in freed)
      && (forall a | a in freed :: a in slots)
    }

    ghost predicate Valid()
      reads this
    {
      SizeOk() && SlotsOk() && FreeOk() && Partition() && Amounts(inuse, size, live)
    }

    /** The chunks are blocks of p. */
    ghost predicate Backed(p: PersistentAlloc)
      reads this`mine, p`blocks
    {
      forall m | m in mine :: p.Owns(m)
    }

    /** The zero value, as it is before Init. */
    constructor ()
      ensures live == {} && freed == [] && mine == [] && slots == []
    {
      size, list, chunk, nchunk, inuse, nalloc, next := 0, 0, 0, 0, 0, 0, map[];
      live, freed, slots, mine := {}, [], [], [];
    }

    method Init(size: nat)
      requires size <= FIX_ALLOC_CHUNK
      modifies this
      ensures Valid() && this.size == if size < 8 then 8 else size
      ensures live == {} && freed == [] && mine == [] && slots == [] && inuse == 0 && nchunk == 0
      ensures MostOf(nalloc, this.size)
    {
      hide MostOf;
      MostBlocks(Raised(size));
      this.size := Raised(size);
      list, chunk, nchunk, inuse, next := 0, 0, 0, 0, map[];
      nalloc := FIX_ALLOC_CHUNK / this.size * this.size;
      live, freed, slots, mine := {}, [], [], [];
    }

    /** Takes the block freed last off the free list. */
    method Reuse() returns (v: nat)
      requires Valid() && freed != []
      modifies this`list, this`inuse, this`live, this`freed
      ensures Valid() && v == old(freed)[0] && freed == old(freed)[1..]
      ensures live == old(live) + {v} && v !in old(live) && inuse == old(inuse) + size
    {
      hide SizeOk, SlotsOk, Amounts;
      v := list;
      assert Linked(0);
      assert v in freed && v in slots && v !in live;
      list := next[v];
      inuse := inuse + size;
      live := live + {v};
      freed := freed[1..];
      forall i | 0 <= i < |freed| ensures Linked(i) {
        assert old(Linked(i + 1));
      }
      OneMore(old(inuse), size, old(live), v);
    }

    lemma Home(b: Block) returns (m: Block)
      requires Homed(b)
      ensures m in mine && Inside(b, m) && forall a | Inside(a, m) :: Homed(a)
    {
      m :| m in mine && Inside(b, m);
    }

    /** Cuts a block off the current chunk. */
    method Cut() returns (v: nat)
      requires Valid() && nchunk >= size && freed == []
      modifies this`chunk, this`nchunk, this`inuse, this`live, this`slots
      ensures Valid() && v !in old(slots) && v !in old(live) && live == old(live) + {v} && inuse == old(inuse) + size
      ensures v == old(chunk) && chunk == v + size && nchunk == old(nchunk) - size
    {
      hide FreeOk, Apart, Inside, SizeOk, Amounts, Homed;
      NallocOk();
      ghost var rest := Block(chunk, nchunk);
      ghost var m := Home(rest);
      v := chunk;
      chunk := chunk + size;
      nchunk := nchunk - size;
      inuse := inuse + size;
      SplitBlock(rest, size, m);
      forall a | a in slots ensures Homed(Slot(a)) && Apart(Slot(a), Slot(v)) && Apart(Slot(a), Block(chunk, nchunk)) {
        InsideApart(Slot(a), Slot(v), Slot(a), rest);
        InsideApart(Slot(a), Block(chunk, nchunk), Slot(a), rest);
      }
      NotApartFromItself(Slot(v));
      slots := slots + [v];
      live := live + {v};
      assert SlotsOk();
      assert Partition();
      OneMore(old(inuse), size, old(live), v);
    }

    /** Gives up what is left of the current chunk for a new one. */
    method NewChunk(p: PersistentAlloc, os: nat)
      requires Valid() && p.Valid() && Backed(p) && p.FreshFromOs(os, CHUNK)
      modifies p, this`chunk, this`nchunk, this`mine
      ensures Valid() && p.Valid() && Backed(p) && nchunk == nalloc >= size
      ensures mine == old(mine) + [Block(chunk, nchunk)] && |p.blocks| == |old(p.blocks)| + 1
      ensures forall b | b in mine && b !in old(mine) :: !old(p.Owns(b))
      ensures forall b: Block :: old(p.Owns(b)) ==> p.Owns(b)
      ensures p.regions == old(p.regions) || p.regions == old(p.regions) + [Chunk(os)]
    {
      hide FreeOk, Partition, SizeOk, Apart, Inside, Amounts, PersistentAlloc.Valid;
      ghost var was := p.blocks;
      NallocOk();
      chunk := p.Alloc(nalloc, 0, os);
      nchunk := nalloc;
      ghost var b := Block(chunk, nchunk);
      mine := mine + [b];
      p.LastIsNew();
      assert p.blocks[..|was|] == was && p.blocks[|was|].b == b && p.Owns(b);
      forall m: Block | old(p.Owns(m)) ensures p.Owns(m) && Apart(m, b) {
        var q :| q in was && q.b == m;
        assert q in p.blocks;
      }
      assert forall m | m in old(mine) :: old(p.Owns(m));
      SplitBlock(b, 0, b);
      forall a | a in slots ensures Homed(Slot(a)) && Apart(Slot(a), b) {
        assert old(Homed(Slot(a)));
        var m :| m in old(mine) && Inside(Slot(a), m);
        assert m in mine;
        InsideApart(Slot(a), b, m, b);
      }
    }

    lemma NallocOk()
      requires SizeOk()
      ensures PTR_SIZE <= size <= nalloc <= FIX_ALLOC_CHUNK
    {
      WholeBlocks(size);
    }

    /**
     A block of `size` bytes: the one freed last if there is one, and otherwise one that was never
     handed out. It overlaps no live block. A chunk is taken only if nothing is freed and the current one
     has no room for a block. `os` is where the next mapping will be.
    */
    method Alloc(p: PersistentAlloc, os: nat) returns (v: nat)
      requires Valid() && p.Valid() && Backed(p) && p.FreshFromOs(os, CHUNK)
      modifies this, p
      ensures Valid() && p.Valid() && Backed(p) && size == old(size)
      ensures live == old(live) + {v} && v !in old(live) && inuse == old(inuse) + size
      ensures forall a | a in old(live) :: Apart(Slot(a), Slot(v))
      ensures old(freed) != [] ==> v == old(freed)[0] && freed == old(freed)[1..] && mine == old(mine)
      ensures old(freed) == [] ==> v !in old(slots) && freed == []
      ensures old(freed) != [] || old(nchunk) >= size ==>
                mine == old(mine) && p.regions == old(p.regions) && p.blocks == old(p.blocks)
      ensures old(freed) == [] && old(nchunk) >= size ==> v == old(chunk) && chunk == v + size
      ensures old(freed) == [] && old(nchunk) < size ==>
                && mine == old(mine) + [Block(v, nalloc)] && |p.blocks| == |old(p.blocks)| + 1
                && chunk == v + size && nchunk == nalloc - size
      ensures forall b | b in mine && b !in old(mine) :: !old(p.Owns(b))
      ensures forall b | b in old(mine) :: b in mine
      ensures forall b: Block :: old(p.Owns(b)) ==> p.Owns(b)
      ensures p.regions == old(p.regions) || p.regions == old(p.regions) + [Chunk(os)]
    {
      hide Partition, SlotsOk, FreeOk, PersistentAlloc.Valid;
      if list != 0 {
        ListMeansFreed();
        v := Reuse();
      } else {
        ListMeansFreed();
        if nchunk < size {
          NewChunk(p, os);
        }
        v := Cut();
      }
      LiveApart(v);
    }

    lemma ListMeansFreed()
      requires Valid()
      ensures list != 0 <==> freed != []
    {
      assert freed != [] ==> freed[0] in freed && freed[0] in slots;
    }

    /** Live blocks do not overlap. */
    lemma LiveApart(v: nat)
      requires Valid() && v in live
      ensures forall a | a in live && a != v :: Apart(Slot(a), Slot(v))
    {
      var j :| 0 <= j < |slots| && slots[j] == v;
      forall a | a in live && a != v ensures Apart(Slot(a), Slot(v)) {
        var i :| 0 <= i < |slots| && slots[i] == a;
        assert i < j ==> Apart(Slot(slots[i]), Slot(slots[j]));
        assert j < i ==> Apart(Slot(slots[j]), Slot(slots[i]));
      }
    }

    /** Puts a live block at the front of the free list. */
    method Free(v: nat)
      requires Valid() && v in live
      modifies this`inuse, this`next, this`list, this`live, this`freed
      ensures Valid() && live == old(live) - {v} && freed == [v] + old(freed) && inuse == old(inuse) - size
    {
      hide SizeOk, SlotsOk, Amounts;
      OneLess(inuse, size, live, v);
      inuse := inuse - size;
      next := next[v := list];
      list := v;
      live := live - {v};
      freed := [v] + freed;
      forall i | 0 <= i < |freed| ensures Linked(i) {
        assert i > 0 ==> old(Linked(i - 1)) && freed[i] != v;
      }
    }
  }

  /** The chunk size leaves no tail: a whole number of blocks, at least one, and less than a large block. */
  lemma WholeBlocks(size: nat)
    requires PTR_SIZE <= size <= FIX_ALLOC_CHUNK
    ensures size <= FIX_ALLOC_CHUNK / size * size <= FIX_ALLOC_CHUNK
  {
    var q := FIX_ALLOC_CHUNK / size;
    assert q >= 1;
    assert q * size >= 1 * size;
  }

  /** As many blocks as fit. */
  ghost predicate MostOf(n: nat, size: nat) {
    n <= FIX_ALLOC_CHUNK < n + size && exists q: nat :: n == q * size
  }

  lemma MostBlocks(size: nat)
    requires size > 0
    ensures MostOf(FIX_ALLOC_CHUNK / size * size, size)
  {
    var q := FIX_ALLOC_CHUNK / size;
    assert q * size == FIX_ALLOC_CHUNK - FIX_ALLOC_CHUNK % size;
  }

  /** What is cut off a range, and what is left of it. */
  lemma SplitBlock(r: Block, size: nat, m: Block)
    requires size <= r.size && Inside(r, m)
    ensures Inside(Block(r.addr, size), r) && Inside(Block(r.addr + size, r.size - size), r)
    ensures Inside(Block(r.addr, size), m) && Inside(Block(r.addr + size, r.size - size), m)
    ensures Apart(Block(r.addr, size), Block(r.addr + size, r.size - size))
    ensures forall a: Block :: Inside(a, a)
  {
  }

  lemma NotApartFromItself(b: Block)
    requires b.size > 0
    ensures !Apart(b, b)
  {
  }

  /** n bytes are what the live blocks take. */
  ghost predicate Amounts(n: nat, size: nat, live: set<nat>) { n == size * |live| }

  lemma OneMore(n: nat, size: nat, live: set<nat>, v: nat)
    requires Amounts(n, size, live) && v !in live
    ensures Amounts(n + size, size, live + {v})
  {
    assert |live + {v}| == |live| + 1;
  }

  lemma OneLess(n: nat, size: nat, live: set<nat>, v: nat)
    requires Amounts(n, size, live) && v in live
    ensures n >= size && Amounts(n - size, size, live - {v})
  {
    assert |live| == |live - {v}| + 1;
    assert size * |live| == size * |live - {v}| + size;
  }

  /** A live block does not overlap any word the list of chunks runs through. */
  lemma LiveMissesList(f: FixAlloc, p: PersistentAlloc, a: nat, chunk: nat)
    requires f.Valid() && p.Valid() && f.Backed(p) && a in f.live && Chunk(chunk) in p.regions
    ensures Apart(f.Slot(a), Block(chunk, PTR_SIZE))
  {
    hide PersistentAlloc.Valid;
    assert f.Homed(f.Slot(a));
    var m :| m in f.mine && Inside(f.Slot(a), m);
    p.BlocksSafe(m, m, chunk);
    InsideApart(f.Slot(a), Block(chunk, PTR_SIZE), m, Block(chunk, PTR_SIZE));
  }

  /** Live blocks of two allocators that share no chunk do not overlap. */
  lemma AllocatorsApart(f: FixAlloc, g: FixAlloc, p: PersistentAlloc, a: nat, b: nat)
    requires f.Valid() && g.Valid() && p.Valid() && f.Backed(p) && g.Backed(p) && NoShare(f, g)
    requires a in f.live && b in g.live
    ensures Apart(f.Slot(a), g.Slot(b))
  {
    hide PersistentAlloc.Valid;
    assert f.Homed(f.Slot(a)) && g.Homed(g.Slot(b));
    var m :| m in f.mine && Inside(f.Slot(a), m);
    var k :| k in g.mine && Inside(g.Slot(b), k);
    p.OwnedApart(m, k);
    InsideApart(f.Slot(a), g.Slot(b), m, k);
  }

  // ---------------------------------------------------------------- runs of several allocators

  ghost predicate NoShare(f: FixAlloc, g: FixAlloc)
    reads f`mine, g`mine
  {
    forall m | m in f.mine :: m !in g.mine
  }

  /** Any number of allocators over one persistent allocator, none of which shares a chunk with another. */
  ghost predicate Together(p: PersistentAlloc, fs: seq<FixAlloc>)
    reads p, fs
  {
    && p.Valid() && (forall i | 0 <= i < |fs| :: fs[i].Valid() && fs[i].Backed(p))
    && (forall i, j | 0 <= i < |fs| && 0 <= j < |fs| && i != j :: fs[i] != fs[j] && NoShare(fs[i], fs[j]))
  }

  /** A block somebody holds. */
  datatype Held = Held(who: nat, v: nat)

  /** Take a block from an allocator, with the place of the next mapping, or give back one of those held. */
  datatype Choice = Take(who: nat, os: nat) | Give(which: nat)

  /** Whose blocks are held after the choices, by n allocators, when those in `held` were before. */
  function Kept(n: nat, held: seq<nat>, cs: seq<Choice>): seq<nat>
    decreases |cs|
  {
    if |cs| == 0 then held else Kept(n, KeptOne(n, held, cs[0]), cs[1..])
  }

  function KeptOne(n: nat, held: seq<nat>, c: Choice): seq<nat> {
    match c
    case Take(who, _) => if who < n then held + [who] else held
    case Give(which) => if which < |held| then held[..which] + held[which + 1..] else held
  }

  function Owners(held: seq<Held>): (r: seq<nat>)
    ensures |r| == |held| && forall i | 0 <= i < |r| :: r[i] == held[i].who
  {
    seq(|held|, i requires 0 <= i < |held| => held[i].who)
  }

  function BlockOf(fs: seq<FixAlloc>, h: Held): Block
    requires h.who < |fs|
    reads fs
  {
    fs[h.who].Slot(h.v)
  }

  /** The blocks held are the live ones, each held once. */
  ghost predicate Holding(fs: seq<FixAlloc>, held: seq<Held>)
    reads fs
  {
    && (forall h | h in held :: h.who < |fs| && h.v in fs[h.who].live)
    && (forall i, v | 0 <= i < |fs| && v in fs[i].live :: Held(i, v) in held)
    && forall i, j | 0 <= i < j < |held| :: held[i] != held[j]
  }

  /** Mappings to come overlap neither each other nor what is mapped. */
  ghost predicate Mappable(p: PersistentAlloc, cs: seq<Choice>)
    reads p`regions
  {
    && (forall k | 0 <= k < |cs| && cs[k].Take? :: p.FreshFromOs(cs[k].os, CHUNK))
    && forall k, l | 0 <= k < l < |cs| && cs[k].Take? && cs[l].Take? ::
         Apart(Block(cs[k].os, CHUNK), Block(cs[l].os, CHUNK))
  }

  /** New allocators for blocks of the sizes given. */
  method Start(p: PersistentAlloc, sizes: seq<nat>) returns (fs: seq<FixAlloc>)
    requires p.Valid() && forall i | 0 <= i < |sizes| :: sizes[i] <= FIX_ALLOC_CHUNK
    ensures Together(p, fs) && |fs| == |sizes|
    ensures forall i | 0 <= i < |fs| :: fresh(fs[i]) && fs[i].live == {} && fs[i].size == Raised(sizes[i])
  {
    hide FixAlloc.Valid, PersistentAlloc.Valid, Together, MostOf;
    fs := [];
    NoneTogether(p);
    for k := 0 to |sizes|
      invariant Together(p, fs) && |fs| == k
      invariant forall i | 0 <= i < k :: fresh(fs[i]) && fs[i].live == {} && fs[i].size == Raised(sizes[i])
    {
      var f := new FixAlloc();
      f.Init(sizes[k]);
      OneMoreTogether(p, fs, f);
      fs := fs + [f];
    }
  }

  lemma NoneTogether(p: PersistentAlloc)
    requires p.Valid()
    ensures Together(p, [])
  {
  }

  /** An allocator that has no chunk yet. */
  lemma OneMoreTogether(p: PersistentAlloc, fs: seq<FixAlloc>, f: FixAlloc)
    requires Together(p, fs) && f.Valid() && f.mine == [] && f !in fs
    ensures Together(p, fs + [f])
  {
    hide FixAlloc.Valid, PersistentAlloc.Valid, PersistentAlloc.Owns;
  }

  /** One allocator takes a block: the others are as they were, and still share nothing with it. */
  method TakeOne(p: PersistentAlloc, fs: seq<FixAlloc>, i: nat, os: nat) returns (v: nat)
    requires Together(p, fs) && i < |fs| && p.FreshFromOs(os, CHUNK)
    modifies p, fs[i]
    ensures Together(p, fs) && fs[i].live == old(fs[i].live) + {v} && v !in old(fs[i].live)
    ensures p.regions == old(p.regions) || p.regions == old(p.regions) + [Chunk(os)]
  {
    hide FixAlloc.Valid, PersistentAlloc.Valid, PersistentAlloc.Owns;
    v := fs[i].Alloc(p, os);
    forall j | 0 <= j < |fs| && j != i
      ensures fs[j].Valid() && fs[j].Backed(p) && NoShare(fs[i], fs[j]) && NoShare(fs[j], fs[i])
    {
      assert old(fs[j].Backed(p)) && old(NoShare(fs[i], fs[j]));
    }
  }

  method GiveOne(p: PersistentAlloc, fs: seq<FixAlloc>, i: nat, v: nat)
    requires Together(p, fs) && i < |fs| && v in fs[i].live
    modifies fs[i]
    ensures Together(p, fs) && fs[i].live == old(fs[i].live) - {v}
  {
    hide FixAlloc.Valid, PersistentAlloc.Valid, PersistentAlloc.Owns;
    fs[i].Free(v);
    forall j | 0 <= j < |fs| && j != i ensures fs[j].Valid() && fs[j].Backed(p) {
      assert old(fs[j].Backed(p));
    }
  }

  /** What is held overlaps nothing else that is held, and no word of the chunk list. */
  lemma HeldApart(p: PersistentAlloc, fs: seq<FixAlloc>, held: seq<Held>)
    requires Together(p, fs) && Holding(fs, held)
    ensures forall i, j | 0 <= i < j < |held| :: Apart(BlockOf(fs, held[i]), BlockOf(fs, held[j]))
    ensures forall i, r | 0 <= i < |held| && r in p.regions && r.Chunk? ::
              Apart(BlockOf(fs, held[i]), Block(r.addr, PTR_SIZE))
  {
    hide FixAlloc.Valid, PersistentAlloc.Valid, FixAlloc.Backed, NoShare, Apart;
    forall i, j | 0 <= i < j < |held| ensures Apart(BlockOf(fs, held[i]), BlockOf(fs, held[j])) {
      var f, g := fs[held[i].who], fs[held[j].who];
      assert held[i] in held && held[j] in held;
      if held[i].who == held[j].who {
        f.LiveApart(held[j].v);
      } else {
        AllocatorsApart(f, g, p, held[i].v, held[j].v);
      }
    }
    forall i, r | 0 <= i < |held| && r in p.regions && r.Chunk?
      ensures Apart(BlockOf(fs, held[i]), Block(r.addr, PTR_SIZE))
    {
      assert held[i] in held;
      LiveMissesList(fs[held[i].who], p, held[i].v, r.addr);
    }
  }

  /**
   Any run of takes and gives by any number of allocators: as many blocks are held in the end, and of
   the same allocators, as the choices say, and they overlap neither each other nor the list of
   chunks. A choice that names nothing is skipped.
  */
  method Run(p: PersistentAlloc, fs: seq<FixAlloc>, cs: seq<Choice>) returns (held: seq<Held>)
    requires Together(p, fs) && (forall i | 0 <= i < |fs| :: fs[i].live == {}) && Mappable(p, cs)
    modifies p, fs
    ensures Together(p, fs) && Holding(fs, held) && Owners(held) == Kept(|fs|, [], cs)
    ensures forall i, j | 0 <= i < j < |held| :: Apart(BlockOf(fs, held[i]), BlockOf(fs, held[j]))
    ensures forall i, r | 0 <= i < |held| && r in p.regions && r.Chunk? ::
              Apart(BlockOf(fs, held[i]), Block(r.addr, PTR_SIZE))
  {
    hide Together, Holding, Mappable, Apart, FixAlloc.Slot, Owners, KeptOne;
    held := [];
    Nothing(fs);
    for k := 0 to |cs|
      invariant Together(p, fs) && Holding(fs, held) && Mappable(p, cs[k..])
      invariant Kept(|fs|, [], cs) == Kept(|fs|, Owners(held), cs[k..])
    {
      assert cs[k..][0] == cs[k] && cs[k..][1..] == cs[k + 1..];
      held := RunOne(p, fs, cs[k..], held);
    }
    HeldApart(p, fs, held);
  }

  lemma Nothing(fs: seq<FixAlloc>)
    requires forall i | 0 <= i < |fs| :: fs[i].live == {}
    ensures Holding(fs, []) && Owners([]) == []
  {
  }

  lemma MappableRest(p: PersistentAlloc, cs: seq<Choice>)
    requires |cs| > 0 && Mappable(p, cs)
    ensures Mappable(p, cs[1..])
    ensures cs[0].Take? ==> p.FreshFromOs(cs[0].os, CHUNK)
  {
    hide PersistentAlloc.FreshFromOs, Apart;
  }

  /** Takes a block as the first choice says; mappings to come stay clear of the one it may have made. */
  method TakeNext(p: PersistentAlloc, fs: seq<FixAlloc>, cs: seq<Choice>) returns (v: nat)
    requires Together(p, fs) && |cs| > 0 && cs[0].Take? && cs[0].who < |fs| && Mappable(p, cs)
    modifies p, fs[cs[0].who]
    ensures Together(p, fs) && Mappable(p, cs[1..])
    ensures fs[cs[0].who].live == old(fs[cs[0].who].live) + {v} && v !in old(fs[cs[0].who].live)
  {
    hide Together, Apart, FixAlloc.Slot, FixAlloc.Valid, FixAlloc.Backed, PersistentAlloc.Valid;
    v := TakeOne(p, fs, cs[0].who, cs[0].os);
    forall k | 0 <= k < |cs[1..]| && cs[1..][k].Take? ensures p.FreshFromOs(cs[1..][k].os, CHUNK) {
      assert cs[1..][k] == cs[k + 1] && old(p.FreshFromOs(cs[k + 1].os, CHUNK));
    }
  }

  /** Carries out the first of the choices. */
  method RunOne(p: PersistentAlloc, fs: seq<FixAlloc>, cs: seq<Choice>, held0: seq<Held>) returns (held: seq<Held>)
    requires |cs| > 0 && Together(p, fs) && Holding(fs, held0) && Mappable(p, cs)
    modifies p, fs
    ensures Together(p, fs) && Holding(fs, held) && Mappable(p, cs[1..])
    ensures Owners(held) == KeptOne(|fs|, Owners(held0), cs[0])
  {
    hide Together, Mappable, FixAlloc.Slot, FixAlloc.Valid, FixAlloc.Backed, PersistentAlloc.Valid;
    MappableRest(p, cs);
    DistinctOnes(p, fs);
    held := held0;
    match cs[0] {
      case Take(who, os) =>
        if who < |fs| {
          var v := TakeNext(p, fs, cs);
          held := held + [Held(who, v)];
        }
      case Give(which) =>
        if which < |held| {
          var h := held[which];
          assert h in held;
          GiveOne(p, fs, h.who, h.v);
          held := held[..which] + held[which + 1..];
        }
    }
  }

  lemma DistinctOnes(p: PersistentAlloc, fs: seq<FixAlloc>)
    requires Together(p, fs)
    ensures forall i, j | 0 <= i < |fs| && 0 <= j < |fs| && i != j :: fs[i] != fs[j]
  {
  }
}
