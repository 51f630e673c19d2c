/**
 The dynamic table: a header table with a size in bytes and a limit (section 4 of RFC 7541).
*/
module DynamicTables {
  import opened HeaderTable

  /** The sum of the entry sizes. */
  function Total(ents: seq<HeaderField>): nat {
    if |ents| == 0 then 0 else Size(ents[0]) + Total(ents[1..])
  }

  lemma {:induction false} TotalConcat(a: seq<HeaderField>, b: seq<HeaderField>)
    ensures Total(a + b) == Total(a) + Total(b)
  {
    if |a| == 0 {
      assert a + b == b;
    } else {
      TotalConcat(a[1..], b);
      assert (a + b)[1..] == a[1..] + b;
    }
  }

  /** The same as the code keeps it, in 32 bits. */
  function Counted(ents: seq<HeaderField>): (n: nat)
    ensures n < U32 && (ents == [] ==> n == 0)
  {
    Total(ents) % U32
  }

  /** Drops oldest entries while the size kept exceeds m. */
  function EvictTo(ents: seq<HeaderField>, m: nat): (r: seq<HeaderField>)
    ensures |r| <= |ents| && Counted(r) <= m
    decreases |ents|
  {
    if Counted(ents) <= m then ents else EvictTo(ents[1..], m)
  }

  /** Dropping entries does not add to the total. */
  lemma {:induction false} TotalShrinks(ents: seq<HeaderField>, k: nat)
    requires k <= |ents|
    ensures Total(ents[k..]) <= Total(ents)
  {
    if k > 0 {
      TotalShrinks(ents[1..], k - 1);
      assert ents[1..][k - 1..] == ents[k..];
    } else {
      assert ents[0..] == ents;
    }
  }

  /** Eviction drops the fewest oldest entries that bring the size kept down to the limit. */
  lemma {:induction false} EvictsFirst(ents: seq<HeaderField>, m: nat)
    ensures
      var n := |ents| - |EvictTo(ents, m)|;
      && EvictTo(ents, m) == ents[n..] && Counted(ents[n..]) <= m
      && forall k: nat | k < n :: Counted(ents[k..]) > m
    decreases |ents|
  {
    hide Counted;
    if Counted(ents) <= m {
      assert ents[0..] == ents;
    } else {
      NothingCounted();
      EvictsFirst(ents[1..], m);
      var n := |ents| - |EvictTo(ents, m)|;
      assert ents[1..][n - 1..] == ents[n..];
      forall k: nat | k < n ensures Counted(ents[k..]) > m {
        if k == 0 {
          assert ents[0..] == ents;
        } else {
          assert ents[1..][k - 1..] == ents[k..];
        }
      }
    }
  }

  lemma NothingCounted()
    ensures Counted([]) == 0
  {
  }

  /**
   While the sum of the entry sizes is below 2^32 the size kept is that sum, so the fewest entries
   go that have to.
  */
  lemma EvictsFewest(ents: seq<HeaderField>, m: nat)
    requires Total(ents) < U32
    ensures
      var n := |ents| - |EvictTo(ents, m)|;
      && EvictTo(ents, m) == ents[n..] && Total(ents[n..]) <= m
      && forall k: nat | k < n :: Total(ents[k..]) > m
  {
    hide EvictTo, Total;
    EvictsFirst(ents, m);
    var n := |ents| - |EvictTo(ents, m)|;
    TotalShrinks(ents, n);
    forall k: nat | k < n ensures Total(ents[k..]) > m {
      TotalShrinks(ents, k);
    }
  }

  /** Evicting to one limit and then to another is evicting to the smaller one. */
  lemma {:induction false} EvictTwice(ents: seq<HeaderField>, a: nat, b: nat)
    ensures EvictTo(EvictTo(ents, a), b) == EvictTo(ents, if a <= b then a else b)
    decreases |ents|
  {
    if Counted(ents) > a {
      EvictTwice(ents[1..], a, b);
    }
  }

  class DynamicTable {
    const table: Table
    var size: nat
    var maxSize: nat
    var allowedMaxSize: nat

    /** The size kept is the sum of the entry sizes, modulo 2^32. */
    ghost predicate Valid()
      reads this, table
    {
      && table.Valid() && !table.isStatic
      && size == Counted(table.ents)
      && maxSize < U32
    }

    constructor (maxSize: nat)
      requires maxSize < U32
      ensures Valid() && fresh(table) && table.ents == [] && this.maxSize == this.allowedMaxSize == maxSize
    {
      table := new Table(false);
      size, this.maxSize, allowedMaxSize := 0, maxSize, maxSize;
    }

    method SetMaxSize(v: nat)
      requires Valid() && v < U32
      modifies this`size, this`maxSize, table
      ensures Valid() && maxSize == v
      ensures table.ents == EvictTo(old(table.ents), v)
    {
      maxSize := v;
      Evict();
    }

    method Add(f: HeaderField)
      requires Valid()
      modifies this`size, this`maxSize, table
      ensures Valid() && maxSize == old(maxSize)
      ensures table.ents == old(table.ents) + [f]
    {
      TotalConcat(table.ents, [f]);
      table.AddEntry(f);
      size := (size + Size(f)) % U32;
    }

    method Evict()
      requires Valid()
      modifies this`size, this`maxSize, table
      ensures Valid() && maxSize == old(maxSize)
      ensures table.ents == EvictTo(old(table.ents), maxSize)
    {
      hide EvictTo, Counted, NamesExact, PairsExact;
      var n := 0;
      ghost var all := table.ents;
      assert all[0..] == all;
      while size > maxSize && n < |table.ents|
        invariant n <= |all| && table.ents == all && table.Valid()
        invariant maxSize == old(maxSize)
        invariant size == Counted(all[n..])
        invariant EvictTo(all, maxSize) == EvictTo(all[n..], maxSize)
        decreases |all| - n
      {
        EvictStep(all, n, maxSize);
        size := (size + U32 - Size(table.ents[n])) % U32;
        n := n + 1;
      }
      EvictDone(all, n, maxSize);
      table.EvictOldest(n);
    }
  }

  lemma EvictStep(ents: seq<HeaderField>, n: nat, m: nat)
    requires n < |ents| && Counted(ents[n..]) > m
    ensures Counted(ents[n + 1..]) == (Counted(ents[n..]) + U32 - Size(ents[n])) % U32
    ensures EvictTo(ents[n..], m) == EvictTo(ents[n + 1..], m)
  {
    assert ents[n..][1..] == ents[n + 1..];
  }

  lemma EvictDone(ents: seq<HeaderField>, n: nat, m: nat)
    requires n <= |ents| && (Counted(ents[n..]) <= m || n == |ents|)
    ensures EvictTo(ents[n..], m) == ents[n..]
  {
  }
}
