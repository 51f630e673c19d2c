/**
 The persistent allocator: a bump pointer over 256 KB chunks, which are kept on a list threaded
 through their first words. Memory is a set of addresses; what the operating system returns is a
 parameter.
*/
module PersistentAllocs {
  import opened BitStrings

  const PTR_SIZE: nat := 8
  const PAGE_SIZE: nat := 8192
  const PHYS_PAGE: nat := 4096             // what mapped memory is aligned to
  const CHUNK: nat := 256 * 1024
  const MAX_BLOCK: nat := 64 * 1024

  datatype Block = Block(addr: nat, size: nat)

  /** Memory taken from the operating system: a chunk, or a block too large for one. */
  datatype Region = Chunk(addr: nat) | Direct(addr: nat, size: nat)

  /** A block handed out, and the region it was cut from. */
  datatype Placed = Placed(b: Block, home: Region)

  function Span(r: Region): Block { if r.Chunk? then Block(r.addr, CHUNK) else Block(r.addr, r.size) }

  predicate Apart(a: Block, b: Block) { a.addr + a.size <= b.addr || b.addr + b.size <= a.addr }

  predicate Inside(a: Block, b: Block) { b.addr <= a.addr && a.addr + a.size <= b.addr + b.size }

  lemma InsideApart(a: Block, b: Block, a': Block, b': Block)
    requires Inside(a, a') && Inside(b, b') && Apart(a', b')
    ensures Apart(a, b)
  {
  }

  predicate PowerOfTwo(a: nat) { a == 1 || (a > 1 && a % 2 == 0 && PowerOfTwo(a / 2)) }

  /** `a&(a-1) == 0` is the test for powers of two. */
  lemma {:induction false} PowerOfTwoTest(a: nat)
    requires a > 0
    ensures BitAnd(a, a - 1) == 0 <==> PowerOfTwo(a)
  {
    if a % 2 == 1 {
      assert (a - 1) / 2 == a / 2;
      AndSelf(a / 2);
    } else {
      assert (a - 1) / 2 == a / 2 - 1;
      PowerOfTwoTest(a / 2);
    }
  }

  lemma {:induction false} AndSelf(a: nat)
    ensures BitAnd(a, a) == a
  {
    if a > 0 {
      AndSelf(a / 2);
    }
  }

  /** n rounded up to a multiple of a; for a power of two, `(n + a - 1) &^ (a - 1)`. */
  function AlignUp(n: nat, a: nat): (r: nat)
    requires a > 0
    ensures n <= r < n + a && r % a == 0
  {
    Rounded(n + a - 1, a);
    (n + a - 1) - (n + a - 1) % a
  }

  lemma Rounded(x: nat, a: nat)
    requires a > 0
    ensures x - x % a >= 0 && (x - x % a) % a == 0 && x - a < x - x % a <= x
  {
    ModIs(x - x % a, a, x / a, 0);
  }

  /** Remainders are unique. */
  lemma ModIs(x: nat, a: nat, q: int, r: nat)
    requires a > 0 && x == a * q + r && r < a
    ensures x % a == r
  {
    var k := q - x / a;
    assert x % a - r == a * k;
    assert k >= 1 ==> a * k >= a;
    assert k <= -1 ==> a * k <= a * -1;
  }

  lemma ModSum(x: nat, y: nat, a: nat)
    requires a > 0 && y % a == 0
    ensures (x + y) % a == x % a
  {
    assert x + y == a * (x / a + y / a) + x % a;
    ModIs(x + y, a, x / a + y / a, x % a);
  }

  lemma ModDouble(x: nat, a: nat)
    requires a > 0
    ensures (2 * x) % (2 * a) == 2 * (x % a)
  {
    assert 2 * x == 2 * a * (x / a) + 2 * (x % a);
    ModIs(2 * x, 2 * a, x / a, 2 * (x % a));
  }

  lemma EvenMultiple(x: nat, l: nat)
    requires l > 0 && l % 2 == 0 && x % l == 0
    ensures x % 2 == 0
  {
    var h, q := l / 2, x / l;
    assert x == 2 * h * q;
    assert x == 2 * (h * q);
  }

  /** What is aligned to a power of two is aligned to every smaller one. */
  lemma {:induction false} PowersAlign(x: nat, a: nat, l: nat)
    requires PowerOfTwo(a) && PowerOfTwo(l) && a <= l && x % l == 0
    ensures x % a == 0
  {
    if a > 1 {
      EvenMultiple(x, l);
      ModDouble(x / 2, l / 2);
      PowersAlign(x / 2, a / 2, l / 2);
      ModDouble(x / 2, a / 2);
    }
  }

  class PersistentAlloc {
    var base: nat                      // the current chunk, 0 for none
    var off: nat
    var persistentChunks: nat          // head of the list of chunks
    var firstWord: map<nat, nat>       // the words the list runs through
    ghost var regions: seq<Region>     // everything taken from the operating system
    ghost var chunks: seq<nat>         // the chunks, newest first
    ghost var blocks: seq<Placed>      // everything handed out

    /**
     A block lies in its region; in a chunk it leaves the first word alone, in the current one it ends below
     `off`.
    */
    ghost predicate Fits(p: Placed)
      reads this`regions, this`base, this`off
    {
      && p.home in regions && Inside(p.b, Span(p.home)) && p.b.size > 0
      && (p.home.Chunk? ==> p.home.addr + PTR_SIZE <= p.b.addr)
      && (p.home == Chunk(base) ==> p.b.addr + p.b.size <= base + off)
    }

    ghost predicate RegionsOk()
      reads this`regions
    {
      && (forall i, j | 0 <= i < j < |regions| :: Apart(Span(regions[i]), Span(regions[j])))
      && forall r | r in regions :: r.addr > 0 && r.addr % PHYS_PAGE == 0 && Span(r).size > 0
    }

    ghost predicate ListOk()
      reads this`chunks, this`regions, this`persistentChunks, this`firstWord
    {
      && persistentChunks == (if chunks == [] then 0 else chunks[0])
      && forall i | 0 <= i < |chunks| :: Linked(i)
    }

    /** The first word of a chunk leads to the next older one. */
    ghost predicate Linked(i: nat)
      requires i < |chunks|
      reads this`chunks, this`regions, this`firstWord
    {
      && Chunk(chunks[i]) in regions && chunks[i] in firstWord
      && firstWord[chunks[i]] == if i + 1 < |chunks| then chunks[i + 1] else 0
    }

    ghost predicate BlocksOk()
      reads this`regions, this`base, this`off, this`blocks
    {
      && (forall p | p in blocks :: Fits(p))
      && forall i, j | 0 <= i < j < |blocks| :: Apart(blocks[i].b, blocks[j].b)
    }

    ghost predicate Valid()
      reads this
    {
      && RegionsOk() && ListOk() && BlocksOk()
      && (base != 0 ==> Chunk(base) in regions && PTR_SIZE <= off)
    }

    constructor ()
      ensures Valid() && blocks == [] && regions == [] && base == 0
    {
      base, off, persistentChunks, firstWord := 0, 0, 0, map[];
      regions, chunks, blocks := [], [], [];
    }

    /** Memory at `os` is mapped, and not yet in use. */
    ghost predicate FreshFromOs(os: nat, size: nat)
      reads this`regions
    {
      os > 0 && os % PHYS_PAGE == 0 && forall r | r in regions :: Apart(Span(r), Block(os, size))
    }

    /** Takes a chunk from the operating system and puts it on the list. */
    method NewChunk(os: nat, align: nat)
      requires Valid() && FreshFromOs(os, CHUNK) && 0 < align <= PAGE_SIZE
      modifies this`base, this`off, this`persistentChunks, this`firstWord, this`regions, this`chunks
      ensures Valid() && base == os && off == AlignUp(PTR_SIZE, align)
      ensures regions == old(regions) + [Chunk(os)] && chunks == [os] + old(chunks)
    {
      ghost var was := this.base;
      base := os;
      firstWord := firstWord[os := persistentChunks];
      persistentChunks := os;
      off := AlignUp(PTR_SIZE, align);
      regions := regions + [Chunk(os)];
      chunks := [os] + chunks;
      forall p | p in blocks ensures Fits(p) {
        assert old(Fits(p));
        assert p.home in old(regions) && Apart(Span(p.home), Block(os, CHUNK));
      }
      forall i | 0 <= i < |chunks| ensures Linked(i) {
        assert i > 0 ==> old(Linked(i - 1)) && Apart(Span(Chunk(chunks[i])), Block(os, CHUNK));
      }
    }

    /** A large block comes straight from the operating system. */
    method AllocDirect(size: nat, os: nat) returns (p: nat)
      requires Valid() && size > 0 && FreshFromOs(os, size)
      modifies this`regions, this`blocks
      ensures Valid() && p == os
      ensures regions == old(regions) + [Direct(os, size)]
      ensures blocks == old(blocks) + [Placed(Block(p, size), Direct(os, size))]
    {
      p := os;
      regions := regions + [Direct(os, size)];
      blocks := blocks + [Placed(Block(os, size), Direct(os, size))];
      assert forall r | r in old(regions) :: r in regions;
      assert Direct(os, size) in regions;
      assert RegionsOk();
      forall i | 0 <= i < |chunks| ensures Linked(i) {
        assert old(Linked(i));
      }
      forall q | q in blocks ensures Fits(q) {
        assert q in old(blocks) ==> old(Fits(q));
      }
      forall i | 0 <= i < |blocks| - 1 ensures Apart(blocks[i].b, Block(os, size)) {
        ghost var q := old(blocks)[i];
        assert old(Fits(q));
        InsideApart(blocks[i].b, Block(os, size), Span(blocks[i].home), Block(os, size));
      }
    }

    /** Cuts a block off the current chunk. */
    method Cut(size: nat) returns (p: nat)
      requires Valid() && base != 0 && size > 0 && off + size <= CHUNK
      modifies this`off, this`blocks
      ensures Valid() && p == base + old(off) && off == old(off) + size
      ensures blocks == old(blocks) + [Placed(Block(p, size), Chunk(base))]
    {
      p := base + off;
      off := off + size;
      blocks := blocks + [Placed(Block(p, size), Chunk(base))];
      forall i | 0 <= i < |blocks| - 1 ensures Apart(blocks[i].b, Block(p, size)) {
        ghost var q := old(blocks)[i];
        assert old(Fits(q));
        if q.home != Chunk(base) {
          HomesApart(q.home, Chunk(base));
          InsideApart(q.b, Block(p, size), Span(q.home), Span(Chunk(base)));
        }
      }
    }

    lemma HomesApart(r: Region, s: Region)
      requires RegionsOk() && r in regions && s in regions && r != s
      ensures Apart(Span(r), Span(s))
    {
      var i :| 0 <= i < |regions| && regions[i] == r;
      var j :| 0 <= j < |regions| && regions[j] == s;
      assert i < j ==> Apart(Span(regions[i]), Span(regions[j]));
      assert j < i ==> Apart(Span(regions[j]), Span(regions[i]));
    }

    /** Moves `off` up to a multiple of align. */
    method AlignOff(align: nat)
      requires Valid() && align > 0
      modifies this`off
      ensures Valid() && off == AlignUp(old(off), align)
    {
      off := AlignUp(off, align);
      assert forall p | p in blocks :: old(Fits(p)) ==> Fits(p);
    }

    /** The current chunk has room for a block. */
    predicate HasRoom(size: nat, align: nat)
      requires align > 0
      reads this`base, this`off
    {
      base != 0 && AlignUp(off, align) + size <= CHUNK
    }

    /** Cuts the block off the current chunk if it has room, right behind the last one, and off a new one otherwise. */
    method AllocInChunk(size: nat, align: nat, os: nat) returns (p: nat)
      requires Valid() && 0 < size < MAX_BLOCK && 0 < align <= PAGE_SIZE && FreshFromOs(os, CHUNK)
      modifies this
      ensures Valid() && base != 0 && p + size == base + off && p % align == base % align
      ensures if old(HasRoom(size, align))
              then regions == old(regions) && base == old(base) && p == base + AlignUp(old(off), align)
              else regions == old(regions) + [Chunk(os)] && base == os && p == base + AlignUp(PTR_SIZE, align)
      ensures blocks == old(blocks) + [Placed(Block(p, size), Chunk(base))]
    {
      hide RegionsOk, ListOk, BlocksOk;
      AlignOff(align);
      if off + size > CHUNK || base == 0 {
        NewChunk(os, align);
      }
      ModSum(base, off, align);
      p := Cut(size);
    }

    /**
     A block of `size` bytes that overlaps no block handed out before and no first word of a chunk,
     aligned as asked if that is no more than mapped memory is, and in any case within its chunk. It
     comes right behind the last one if the current chunk has room for it there, and otherwise is
     the first one of a new chunk. `os` is where the next mapping will be.
    */
    method Alloc(size: nat, align: nat, os: nat) returns (p: nat)
      requires Valid() && size > 0 && (align == 0 || (PowerOfTwo(align) && align <= PAGE_SIZE))
      requires FreshFromOs(os, if size >= MAX_BLOCK then size else CHUNK)
      modifies this
      ensures Valid()
      ensures blocks == old(blocks) +
                        [Placed(Block(p, size), if size >= MAX_BLOCK then Direct(os, size) else Chunk(base))]
      ensures
        var a := if align == 0 then 8 else align;
        && (size < MAX_BLOCK ==> base != 0 && p + size == base + off && p % a == base % a)
        && (align <= PHYS_PAGE ==> p % a == 0)
        && if size >= MAX_BLOCK then
             regions == old(regions) + [Direct(os, size)] && p == os && base == old(base) && off == old(off)
           else if old(HasRoom(size, if align == 0 then 8 else align)) then
             regions == old(regions) && base == old(base) && p == base + AlignUp(old(off), a)
           else
             regions == old(regions) + [Chunk(os)] && base == os && p == base + AlignUp(PTR_SIZE, a)
    {
      hide RegionsOk, ListOk, BlocksOk;
      var align' := Alignment(align);
      if size >= MAX_BLOCK {
        p := AllocDirect(size, os);
        if align <= PHYS_PAGE {
          MappedAligned(p, align');
        }
      } else {
        p := AllocInChunk(size, align', os);
        if align <= PHYS_PAGE {
          BaseMapped();
          MappedAligned(base, align');
        }
      }
    }

    ghost predicate Owns(b: Block)
      reads this`blocks
    {
      exists q | q in blocks :: q.b == b
    }

    /** Different blocks handed out do not overlap. */
    lemma OwnedApart(a: Block, b: Block)
      requires Valid() && Owns(a) && Owns(b)
      ensures a != b ==> Apart(a, b)
    {
      var q :| q in blocks && q.b == a;
      var r :| r in blocks && r.b == b;
      var i :| 0 <= i < |blocks| && blocks[i] == q;
      var j :| 0 <= j < |blocks| && blocks[j] == r;
      assert i < j ==> Apart(blocks[i].b, blocks[j].b);
      assert j < i ==> Apart(blocks[j].b, blocks[i].b);
    }

    /** Blocks handed out overlap neither each other nor the words the list of chunks runs through. */
    lemma BlocksSafe(a: Block, b: Block, chunk: nat)
      requires Valid() && Owns(a) && Owns(b) && Chunk(chunk) in regions
      ensures a != b ==> Apart(a, b)
      ensures Apart(a, Block(chunk, PTR_SIZE))
    {
      OwnedApart(a, b);
      var q :| q in blocks && q.b == a;
      assert Fits(q);
      if q.home != Chunk(chunk) {
        HomesApart(q.home, Chunk(chunk));
        InsideApart(a, Block(chunk, PTR_SIZE), Span(q.home), Span(Chunk(chunk)));
      }
    }

    /** The block handed out last was nobody's before. */
    lemma LastIsNew()
      requires Valid() && blocks != []
      ensures var last := blocks[|blocks| - 1].b;
              && last.addr > 0 && last.size > 0
              && forall q | q in blocks[..|blocks| - 1] :: Apart(q.b, last) && q.b != last
    {
      assert Fits(blocks[|blocks| - 1]);
    }

    lemma BaseMapped()
      requires Valid() && base != 0
      ensures base % PHYS_PAGE == 0
    {
      assert Chunk(base).addr % PHYS_PAGE == 0;
    }
  }

  /** The alignment asked for; 0 asks for the default. */
  function Alignment(align: nat): nat { if align == 0 then 8 else align }

  lemma MappedAligned(x: nat, a: nat)
    requires x % PHYS_PAGE == 0 && (a == 8 || PowerOfTwo(a)) && a <= PHYS_PAGE
    ensures a > 0 && x % a == 0
  {
    assert PowerOfTwo(4096 / 2 / 2 / 2 / 2 / 2 / 2 / 2 / 2 / 2 / 2 / 2 / 2);
    PowersAlign(x, a, PHYS_PAGE);
  }
}
