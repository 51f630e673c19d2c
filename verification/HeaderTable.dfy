/**
 The header table with its two lookup maps, and the dynamic table with eviction
 (sections 2.3 and 4 of RFC 7541).
*/
module HeaderTable {
  import opened BitStrings

  type Str = seq<Byte>

  const U32: nat := 0x1_0000_0000

  datatype HeaderField = HeaderField(name: Str, value: Str, sensitive: bool)

  type Pair = (Str, Str)

  function PairOf(f: HeaderField): Pair { (f.name, f.value) }

  /** The size of an entry, as the 32-bit number the code keeps. */
  function Size(f: HeaderField): nat { (|f.name| + |f.value| + 32) % U32 }

  // ---------------------------------------------------------------- newest matches

  /** Position of the newest (last) entry with the name, or -1. */
  function NewestName(ents: seq<HeaderField>, name: Str): (k: int)
    ensures -1 <= k < |ents|
    ensures k >= 0 ==> ents[k].name == name
    ensures forall j | k < j < |ents| :: ents[j].name != name
  {
    if |ents| == 0 then -1
    else if ents[|ents| - 1].name == name then |ents| - 1
    else NewestName(ents[..|ents| - 1], name)
  }

  /** Position of the newest (last) entry with the name and the value, or -1. */
  function NewestPair(ents: seq<HeaderField>, p: Pair): (k: int)
    ensures -1 <= k < |ents|
    ensures k >= 0 ==> PairOf(ents[k]) == p
    ensures forall j | k < j < |ents| :: PairOf(ents[j]) != p
  {
    if |ents| == 0 then -1
    else if PairOf(ents[|ents| - 1]) == p then |ents| - 1
    else NewestPair(ents[..|ents| - 1], p)
  }

  /** The map holds exactly the ids of the newest live entries of each name. */
  ghost predicate NamesExact(byName: map<Str, nat>, ents: seq<HeaderField>, evicted: nat, from: nat) {
    && (forall n :: n in byName <==> NewestName(ents, n) >= from)
    && forall n | n in byName :: byName[n] == evicted + NewestName(ents, n) + 1
  }

  ghost predicate PairsExact(byPair: map<Pair, nat>, ents: seq<HeaderField>, evicted: nat, from: nat) {
    && (forall p :: p in byPair <==> NewestPair(ents, p) >= from)
    && forall p | p in byPair :: byPair[p] == evicted + NewestPair(ents, p) + 1
  }

  lemma NewestAfterDrop(ents: seq<HeaderField>, n: nat)
    requires n <= |ents|
    ensures forall name :: NewestName(ents, name) >= n ==> NewestName(ents[n..], name) == NewestName(ents, name) - n
    ensures forall name :: NewestName(ents, name) < n ==> NewestName(ents[n..], name) == -1
    ensures forall p :: NewestPair(ents, p) >= n ==> NewestPair(ents[n..], p) == NewestPair(ents, p) - n
    ensures forall p :: NewestPair(ents, p) < n ==> NewestPair(ents[n..], p) == -1
  {
    var rest := ents[n..];
    forall name
      ensures NewestName(ents, name) >= n ==> NewestName(rest, name) == NewestName(ents, name) - n
      ensures NewestName(ents, name) < n ==> NewestName(rest, name) == -1
    {
      var a, b := NewestName(ents, name), NewestName(rest, name);
      if a >= n { assert rest[a - n] == ents[a]; }
      if b >= 0 { assert ents[b + n] == rest[b]; }
    }
    forall p
      ensures NewestPair(ents, p) >= n ==> NewestPair(rest, p) == NewestPair(ents, p) - n
      ensures NewestPair(ents, p) < n ==> NewestPair(rest, p) == -1
    {
      var a, b := NewestPair(ents, p), NewestPair(rest, p);
      if a >= n { assert rest[a - n] == ents[a]; }
      if b >= 0 { assert ents[b + n] == rest[b]; }
    }
  }

  lemma NewestAfterAdd(ents: seq<HeaderField>, f: HeaderField)
    ensures forall name :: NewestName(ents + [f], name) == if name == f.name then |ents| else NewestName(ents, name)
    ensures forall p :: NewestPair(ents + [f], p) == if p == PairOf(f) then |ents| else NewestPair(ents, p)
  {
    assert (ents + [f])[..|ents|] == ents;
  }

  /** Dropping the oldest entry: its name goes only when no newer entry has it. */
  lemma NameEvicted(byName: map<Str, nat>, ents: seq<HeaderField>, evicted: nat, k: nat)
    requires k < |ents| && NamesExact(byName, ents, evicted, k)
    ensures
      var name := ents[k].name;
      NamesExact(if name in byName && byName[name] == evicted + k + 1 then byName - {name} else byName,
                 ents, evicted, k + 1)
  {
    var name := ents[k].name;
    assert NewestName(ents, name) >= k;
    forall n ensures NewestName(ents, n) == k ==> n == name {
    }
  }

  lemma PairEvicted(byPair: map<Pair, nat>, ents: seq<HeaderField>, evicted: nat, k: nat)
    requires k < |ents| && PairsExact(byPair, ents, evicted, k)
    ensures
      var p := PairOf(ents[k]);
      PairsExact(if p in byPair && byPair[p] == evicted + k + 1 then byPair - {p} else byPair, ents, evicted, k + 1)
  {
    var p := PairOf(ents[k]);
    assert NewestPair(ents, p) >= k;
    forall q ensures NewestPair(ents, q) == k ==> q == p {
    }
  }

  /** With the n oldest entries dropped and as many more evictions counted, the ids are the same. */
  lemma EvictedExact(byName: map<Str, nat>, byPair: map<Pair, nat>, ents: seq<HeaderField>, evicted: nat, n: nat)
    requires n <= |ents| && NamesExact(byName, ents, evicted, n) && PairsExact(byPair, ents, evicted, n)
    ensures NamesExact(byName, ents[n..], evicted + n, 0) && PairsExact(byPair, ents[n..], evicted + n, 0)
  {
    NewestAfterDrop(ents, n);
  }

  // ---------------------------------------------------------------- search, as a function of the entries

  datatype Found = Found(index: nat, full: bool)

  /** HPACK index of position k: newest first in a dynamic table, in order in the static one. */
  function ToIndex(n: nat, isStatic: bool, k: nat): nat
    requires k < n
  {
    if isStatic then k + 1 else n - k
  }

  /** What a search through the maps answers. */
  function Search(ents: seq<HeaderField>, isStatic: bool, f: HeaderField): Found {
    if !f.sensitive && NewestPair(ents, PairOf(f)) >= 0 then
      Found(ToIndex(|ents|, isStatic, NewestPair(ents, PairOf(f))), true)
    else if NewestName(ents, f.name) >= 0 then
      Found(ToIndex(|ents|, isStatic, NewestName(ents, f.name)), false)
    else
      Found(0, false)
  }

  class Table {
    const isStatic: bool
    var ents: seq<HeaderField>
    var evictCount: nat
    var byName: map<Str, nat>
    var byNameValue: map<Pair, nat>

    /** Both maps hold exactly the ids of the newest live matches; id k + evictCount + 1 is entry k. */
    ghost predicate Valid()
      reads this
    {
      && NamesExact(byName, ents, evictCount, 0)
      && PairsExact(byNameValue, ents, evictCount, 0)
    }

    constructor (isStatic: bool)
      ensures Valid() && ents == [] && this.isStatic == isStatic
    {
      this.isStatic := isStatic;
      ents, evictCount := [], 0;
      byName, byNameValue := map[], map[];
    }

    method AddEntry(f: HeaderField)
      requires Valid()
      modifies this
      ensures Valid() && ents == old(ents) + [f] && evictCount == old(evictCount)
    {
      NewestAfterAdd(ents, f);
      var id := |ents| + evictCount + 1;
      byName := byName[f.name := id];
      byNameValue := byNameValue[PairOf(f) := id];
      ents := ents + [f];
    }

    method EvictOldest(n: nat)
      requires Valid() && n <= |ents|
      modifies this
      ensures Valid() && ents == old(ents)[n..] && evictCount == old(evictCount) + n
    {
      hide NamesExact, PairsExact, NewestName, NewestPair, PairOf;
      for k := 0 to n
        invariant ents == old(ents) && evictCount == old(evictCount)
        invariant NamesExact(byName, ents, evictCount, k) && PairsExact(byNameValue, ents, evictCount, k)
      {
        var f := ents[k];
        var id := evictCount + k + 1;
        NameEvicted(byName, ents, evictCount, k);
        PairEvicted(byNameValue, ents, evictCount, k);
        if f.name in byName && byName[f.name] == id {
          byName := byName - {f.name};
        }
        if PairOf(f) in byNameValue && byNameValue[PairOf(f)] == id {
          byNameValue := byNameValue - {PairOf(f)};
        }
      }
      EvictedExact(byName, byNameValue, ents, evictCount, n);
      ents := ents[n..];
      evictCount := evictCount + n;
    }

    /** Finds f through the maps; the ids looked up are never of evicted entries. */
    method Find(f: HeaderField) returns (r: Found)
      requires Valid()
      ensures r == Search(ents, isStatic, f)
    {
      if !f.sensitive {
        if PairOf(f) in byNameValue {
          var i := IdToIndex(byNameValue[PairOf(f)]);
          return Found(i, true);
        }
      }
      if f.name in byName {
        var i := IdToIndex(byName[f.name]);
        return Found(i, false);
      }
      return Found(0, false);
    }

    method IdToIndex(id: nat) returns (i: nat)
      requires evictCount < id <= evictCount + |ents|
      ensures i == ToIndex(|ents|, isStatic, id - evictCount - 1)
    {
      var k := id - evictCount - 1;
      if !isStatic {
        return |ents| - k;
      }
      return k + 1;
    }
  }

  // ---------------------------------------------------------------- the joint index space

  datatype Lookup = Entry(field: HeaderField) | NoEntry

  /** Entry i of the joint index space: the static table, then the dynamic table newest first. */
  function At(st: seq<HeaderField>, dyn: seq<HeaderField>, i: nat): Lookup {
    if i == 0 then NoEntry
    else if i <= |st| then Entry(st[i - 1])
    else if i > |dyn| + |st| then NoEntry
    else Entry(dyn[|dyn| - (i - |st|)])
  }

  /** Newest entry first. */
  function Newest(ents: seq<HeaderField>): (r: seq<HeaderField>)
    ensures |r| == |ents|
  {
    if |ents| == 0 then [] else [ents[|ents| - 1]] + Newest(ents[..|ents| - 1])
  }

  lemma {:induction false} NewestAt(ents: seq<HeaderField>, i: nat)
    requires i < |ents|
    ensures Newest(ents)[i] == ents[|ents| - 1 - i]
  {
    if i > 0 {
      NewestAt(ents[..|ents| - 1], i - 1);
    }
  }

  /**
   Index i leads to entry i, counted from one, of the static table followed by the dynamic one from
   the newest entry on (section 2.3.3 of RFC 7541), and index 0 and those beyond lead nowhere.
  */
  lemma AtJoint(st: seq<HeaderField>, dyn: seq<HeaderField>, i: nat)
    ensures
      var joint := st + Newest(dyn);
      At(st, dyn, i) == if 1 <= i <= |joint| then Entry(joint[i - 1]) else NoEntry
  {
    if |st| < i <= |st| + |dyn| {
      NewestAt(dyn, i - |st| - 1);
    }
  }

  /** a is what is left of b when some of its oldest entries are dropped. */
  predicate Tail(a: seq<HeaderField>, b: seq<HeaderField>) { |a| <= |b| && b[|b| - |a|..] == a }

  /** Indices count from the newest entry, so they mean the same in a table that has older entries as well. */
  lemma AtTail(st: seq<HeaderField>, a: seq<HeaderField>, b: seq<HeaderField>, i: nat)
    requires Tail(a, b) && At(st, a, i).Entry?
    ensures At(st, b, i) == At(st, a, i)
  {
    assert i > |st| ==> b[|b| - |a|..][|a| - (i - |st|)] == b[|b| - (i - |st|)];
  }

  /** The encoder's search over both tables. */
  function SearchBoth(st: seq<HeaderField>, dyn: seq<HeaderField>, f: HeaderField): Found {
    var a := Search(st, true, f);
    if a.full then a
    else
      var b := Search(dyn, false, f);
      if b.full || (a.index == 0 && b.index != 0) then Found(b.index + |st|, b.full) else Found(a.index, false)
  }

  /** What the search reports is there, under the index it reports. */
  lemma SearchIsAt(st: seq<HeaderField>, dyn: seq<HeaderField>, f: HeaderField)
    ensures
      var r := SearchBoth(st, dyn, f);
      && r.index <= |st| + |dyn|
      && (r.index > 0 ==> At(st, dyn, r.index).Entry? && At(st, dyn, r.index).field.name == f.name)
      && (r.full ==> r.index > 0 && !f.sensitive && At(st, dyn, r.index).field.value == f.value)
  {
  }

  /** Index i leads to an entry with the name. */
  predicate NameAt(st: seq<HeaderField>, dyn: seq<HeaderField>, i: nat, f: HeaderField) {
    At(st, dyn, i).Entry? && At(st, dyn, i).field.name == f.name
  }

  /** Index i leads to an entry with the name and the value. */
  predicate PairAt(st: seq<HeaderField>, dyn: seq<HeaderField>, i: nat, f: HeaderField) {
    NameAt(st, dyn, i, f) && At(st, dyn, i).field.value == f.value
  }

  /** Entry k of the static table is index k + 1, and entry k of the dynamic one counts from the newest. */
  lemma Positions(st: seq<HeaderField>, dyn: seq<HeaderField>)
    ensures forall k: nat | k < |st| :: At(st, dyn, k + 1) == Entry(st[k])
    ensures forall k: nat | k < |dyn| :: At(st, dyn, |st| + |dyn| - k) == Entry(dyn[k])
    ensures forall i: nat :: At(st, dyn, i).Entry? <==> 1 <= i <= |st| + |dyn|
    ensures forall i: nat | 1 <= i <= |st| :: At(st, dyn, i) == Entry(st[i - 1])
    ensures forall i: nat | |st| < i <= |st| + |dyn| :: At(st, dyn, i) == Entry(dyn[|st| + |dyn| - i])
  {
  }

  /**
   A full match is reported exactly when the field may be indexed and some entry has its name and
   value: the static one if there is one, and otherwise the newest dynamic one.
  */
  lemma FullMatch(st: seq<HeaderField>, dyn: seq<HeaderField>, f: HeaderField)
    ensures
      var r := SearchBoth(st, dyn, f);
      && (r.full <==> !f.sensitive && exists i: nat :: PairAt(st, dyn, i, f))
      && (r.full ==>
            && PairAt(st, dyn, r.index, f)
            && ((exists i: nat :: i <= |st| && PairAt(st, dyn, i, f)) ==> r.index <= |st|)
            && forall j: nat :: |st| < j < r.index ==> !PairAt(st, dyn, j, f))
  {
    Positions(st, dyn);
    hide At;
    var r, a, b := SearchBoth(st, dyn, f), NewestPair(st, PairOf(f)), NewestPair(dyn, PairOf(f));
    assert a >= 0 ==> PairAt(st, dyn, a + 1, f);
    assert b >= 0 ==> PairAt(st, dyn, |st| + |dyn| - b, f);
    forall i: nat | PairAt(st, dyn, i, f) ensures if i <= |st| then a >= 0 else b >= |st| + |dyn| - i {
      assert i <= |st| ==> PairOf(st[i - 1]) == PairOf(f);
      assert i > |st| ==> PairOf(dyn[|st| + |dyn| - i]) == PairOf(f);
    }
  }

  /**
   An index is reported exactly when some entry has the field's name. Without a full match it is a static
   one if there is one, and otherwise the newest dynamic one.
  */
  lemma NameMatch(st: seq<HeaderField>, dyn: seq<HeaderField>, f: HeaderField)
    ensures
      var r := SearchBoth(st, dyn, f);
      && (r.index > 0 <==> exists i: nat :: NameAt(st, dyn, i, f))
      && (r.index > 0 ==> NameAt(st, dyn, r.index, f))
      && (r.index > 0 && !r.full ==>
            && ((exists i: nat :: i <= |st| && NameAt(st, dyn, i, f)) ==> r.index <= |st|)
            && forall j: nat :: |st| < j < r.index ==> !NameAt(st, dyn, j, f))
  {
    Positions(st, dyn);
    hide At;
    SearchIsAt(st, dyn, f);
    var r, a, b := SearchBoth(st, dyn, f), NewestName(st, f.name), NewestName(dyn, f.name);
    assert a >= 0 ==> NameAt(st, dyn, a + 1, f);
    assert b >= 0 ==> NameAt(st, dyn, |st| + |dyn| - b, f);
    forall i: nat | NameAt(st, dyn, i, f) ensures if i <= |st| then a >= 0 else b >= |st| + |dyn| - i {
      assert i <= |st| ==> st[i - 1].name == f.name;
      assert i > |st| ==> dyn[|st| + |dyn| - i].name == f.name;
    }
    assert NewestPair(st, PairOf(f)) >= 0 ==> st[NewestPair(st, PairOf(f))].name == f.name;
    assert NewestPair(dyn, PairOf(f)) >= 0 ==> dyn[NewestPair(dyn, PairOf(f))].name == f.name;
  }

  /** Of several static entries that match, the last one is reported. */
  lemma LastStatic(st: seq<HeaderField>, dyn: seq<HeaderField>, f: HeaderField, i: nat)
    requires SearchBoth(st, dyn, f).index < i <= |st|
    ensures !PairAt(st, dyn, i, f) || f.sensitive
    ensures SearchBoth(st, dyn, f).full || !NameAt(st, dyn, i, f)
  {
  }

  /** Index 1 is the newest entry of a dynamic table. */
  function FromNewest(ents: seq<HeaderField>, i: nat): HeaderField
    requires 1 <= i <= |ents|
  {
    ents[|ents| - i]
  }

  /** A search agrees with a scan from the newest entry on: the first full match, else the first name. */
  lemma SearchIsScan(ents: seq<HeaderField>, f: HeaderField)
    ensures
      var r := Search(ents, false, f);
      && r.index <= |ents|
      && (r.full <==> !f.sensitive && exists i | 1 <= i <= |ents| :: PairOf(FromNewest(ents, i)) == PairOf(f))
      && (r.full ==> PairOf(FromNewest(ents, r.index)) == PairOf(f))
      && (r.full ==> forall i | 1 <= i < r.index :: PairOf(FromNewest(ents, i)) != PairOf(f))
      && (r.index > 0 <==> r.full || exists i | 1 <= i <= |ents| :: FromNewest(ents, i).name == f.name)
      && (!r.full && r.index > 0 ==> FromNewest(ents, r.index).name == f.name)
      && (!r.full && r.index > 0 ==> forall i | 1 <= i < r.index :: FromNewest(ents, i).name != f.name)
  {
    var r := Search(ents, false, f);
    assert forall k | 0 <= k < |ents| :: ents[k] == FromNewest(ents, |ents| - k);
    if r.full {
      assert PairOf(FromNewest(ents, r.index)) == PairOf(f);
    } else if r.index > 0 {
      assert FromNewest(ents, r.index).name == f.name;
    }
  }
}
