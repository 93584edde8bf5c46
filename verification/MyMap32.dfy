/** The hash map of map/mymap32.cpp over the lists of map/mylist.h. */
module MyMap32 {
  import opened Bits
  import opened MyList
  import opened NodePool
  import opened Options
  import opened Powers

  // ---------- what the fields mean ----------

  /** key & (hash_size - 1), with hash_size 2 to the power of pow2. */
  function Index(k: Key, pow2: nat): (i: nat)
    ensures i < Pow2(pow2)
  {
    LowBits(k, pow2);
    Bitwise(And, k, Pow2(pow2) - 1)
  }

  predicate Heads(rings: map<Ptr, seq<Ptr>>, buckets: nat) {
    && LinkHead in rings && FreeHead in rings && (forall b: nat :: b < buckets ==> Bucket(b) in rings)
    && forall h :: h in rings ==> h == LinkHead || h == FreeHead || (h.Bucket? && h.index < buckets)
  }

  /** A bucket holds exactly the live nodes whose key belongs there, */
  predicate BucketOk(ring: seq<Ptr>, b: nat, live: map<nat, Key>, pow2: nat) {
    && (forall x :: x in ring ==> x.Hash? && x.node in live && Index(live[x.node], pow2) == b)
    && forall n :: n in live && Index(live[n], pow2) == b ==> Hash(n) in ring
  }

  /** and the free list exactly the other nodes in memory, apart from out. */
  predicate FreeOk(ring: seq<Ptr>, live: map<nat, Key>, memory: set<nat>, out: set<nat>) {
    && live.Keys <= memory && out <= memory && out !! live.Keys
    && (forall x :: x in ring ==> x.Link? && x.node in memory && x.node !in live && x.node !in out)
    && forall n :: n in memory ==> n in live || n in out || Link(n) in ring
  }

  /** Nodes 0 to max_size - 1 are the pool; heap nodes lie outside it. */
  predicate PoolOk(place: map<nat, int>, memory: set<nat>, maxSize: nat) {
    && maxSize < 0x8000_0000 && place.Keys == memory && (forall n: nat :: n < maxSize ==> n in memory)
    && forall n :: n in memory ==> if n < maxSize then place[n] == n else !(0 <= place[n] < maxSize)
  }

  /** The key field of a live node is its key. */
  predicate KeysOk(live: map<nat, Key>, key: map<nat, Key>) {
    forall n :: n in live ==> n in key && key[n] == live[n]
  }

  lemma KeysInsert(live: map<nat, Key>, key: map<nat, Key>, n: nat, k: Key)
    requires KeysOk(live, key) && n in key
    ensures KeysOk(live[n := k], key[n := k]) && key[n := k].Keys == key.Keys
  {
  }

  lemma KeysRemove(live: map<nat, Key>, key: map<nat, Key>, n: nat)
    requires KeysOk(live, key) && n !in live
    ensures KeysOk(live, key - {n}) && (key - {n}).Keys == key.Keys - {n}
  {
  }

  lemma KeysForget(live: map<nat, Key>, key: map<nat, Key>, n: nat)
    requires KeysOk(live, key)
    ensures KeysOk(live - {n}, key)
  {
  }

  lemma SameKeys(val: map<nat, Key>, n: nat, v: Key)
    requires n in val
    ensures val[n := v].Keys == val.Keys
  {
  }

  function ContentsOf(at: map<Key, nat>, val: map<nat, Key>): map<Key, Key> {
    map k | k in at && at[k] in val :: val[at[k]]
  }

  lemma ContentsOverwrite(live: map<nat, Key>, at: map<Key, nat>, val: map<nat, Key>, k: Key, v: Key)
    requires Inverse(live, at) && live.Keys <= val.Keys && k in at
    ensures ContentsOf(at, val[at[k] := v]) == ContentsOf(at, val)[k := v] && k in ContentsOf(at, val)
  {
    var was, now := ContentsOf(at, val), ContentsOf(at, val[at[k] := v]);
    assert now.Keys == at.Keys == was.Keys;
  }

  lemma ContentsInsert(live: map<nat, Key>, at: map<Key, nat>, val: map<nat, Key>, val': map<nat, Key>,
                       n: nat, k: Key, v: Key)
    requires Inverse(live, at) && live.Keys <= val.Keys && n !in live && k !in at
    requires forall m :: m in live ==> m in val' && val'[m] == val[m]
    ensures ContentsOf(at[k := n], val'[n := v]) == ContentsOf(at, val)[k := v] && k !in ContentsOf(at, val)
  {
    var was, now := ContentsOf(at, val), ContentsOf(at[k := n], val'[n := v]);
    assert now.Keys == at.Keys + {k} == was.Keys + {k};
  }

  lemma ContentsRemove(at: map<Key, nat>, val: map<nat, Key>, val': map<nat, Key>, live: map<nat, Key>, k: Key)
    requires Inverse(live, at) && live.Keys <= val.Keys && k in at
    requires forall m :: m in live && m != at[k] ==> m in val' && val'[m] == val[m]
    ensures ContentsOf(at - {k}, val') == ContentsOf(at, val) - {k} && k in ContentsOf(at, val)
  {
    var was, now := ContentsOf(at, val), ContentsOf(at - {k}, val');
    assert now.Keys == at.Keys - {k} == was.Keys - {k};
  }

  lemma OneMore(at: map<Key, nat>, k: Key, n: nat)
    requires k !in at
    ensures |at[k := n]| == |at| + 1
  {
  }

  lemma BucketInsert(ring: seq<Ptr>, b: nat, live: map<nat, Key>, pow2: nat, n: nat, k: Key)
    requires BucketOk(ring, b, live, pow2) && n !in live
    ensures BucketOk(if Index(k, pow2) == b then [Hash(n)] + ring else ring, b, live[n := k], pow2)
  {
    hide Index;
  }

  lemma BucketRemove(ring: seq<Ptr>, b: nat, live: map<nat, Key>, pow2: nat, i: nat)
    requires BucketOk(ring, b, live, pow2) && Distinct(Bucket(b), ring) && i < |ring|
    ensures ring[i].Hash? && BucketOk(Removed(ring, i), b, live - {ring[i].node}, pow2)
  {
    hide Removed, Index;
    RemovedMembers(Bucket(b), ring, i);
  }

  lemma BucketKept(ring: seq<Ptr>, b: nat, live: map<nat, Key>, pow2: nat, n: nat)
    requires BucketOk(ring, b, live, pow2) && n in live && Index(live[n], pow2) != b
    ensures BucketOk(ring, b, live - {n}, pow2)
  {
    hide Index;
  }

  lemma FreeTake(ring: seq<Ptr>, live: map<nat, Key>, memory: set<nat>)
    requires FreeOk(ring, live, memory, {}) && ring != [] && Distinct(FreeHead, ring)
    ensures ring[0].Link? && FreeOk(Removed(ring, 0), live, memory, {ring[0].node})
  {
    hide Removed;
    RemovedMembers(FreeHead, ring, 0);
  }

  lemma FreeGive(ring: seq<Ptr>, live: map<nat, Key>, memory: set<nat>, n: nat)
    requires FreeOk(ring, live, memory, {n})
    ensures FreeOk([Link(n)] + ring, live, memory, {})
  {
  }

  lemma FreeAllocate(ring: seq<Ptr>, live: map<nat, Key>, memory: set<nat>, n: nat)
    requires FreeOk(ring, live, memory, {}) && n !in memory
    ensures FreeOk(ring, live, memory + {n}, {n})
  {
  }

  lemma FreeDrop(ring: seq<Ptr>, live: map<nat, Key>, memory: set<nat>, n: nat)
    requires FreeOk(ring, live, memory, {n})
    ensures FreeOk(ring, live, memory - {n}, {})
  {
  }

  lemma FreeInsert(ring: seq<Ptr>, live: map<nat, Key>, memory: set<nat>, n: nat, k: Key)
    requires FreeOk(ring, live, memory, {n})
    ensures FreeOk(ring, live[n := k], memory, {})
  {
  }

  lemma FreeRemove(ring: seq<Ptr>, live: map<nat, Key>, memory: set<nat>, n: nat)
    requires FreeOk(ring, live, memory, {}) && n in live
    ensures FreeOk(ring, live - {n}, memory, {n})
  {
  }

  lemma OutOfLists(ring: seq<Ptr>, live: map<nat, Key>, memory: set<nat>, n: nat)
    requires FreeOk(ring, live, memory, {n})
    ensures n in memory && n !in live
  {
    assert n in {n};
  }

  // ---------- all lists together ----------

  predicate Buckets(rings: map<Ptr, seq<Ptr>>, live: map<nat, Key>, pow2: nat)
    requires Heads(rings, Pow2(pow2))
  {
    forall b: nat :: b < Pow2(pow2) ==> BucketOk(rings[Bucket(b)], b, live, pow2)
  }

  predicate Structure(rings: map<Ptr, seq<Ptr>>, live: map<nat, Key>, at: map<Key, nat>, memory: set<nat>, pow2: nat,
                      out: set<nat>)
  {
    && Heads(rings, Pow2(pow2)) && LinksOk(rings[LinkHead], live) && Buckets(rings, live, pow2)
    && FreeOk(rings[FreeHead], live, memory, out) && Inverse(live, at)
  }

  lemma StructureLive(rings: map<Ptr, seq<Ptr>>, live: map<nat, Key>, at: map<Key, nat>, memory: set<nat>, pow2: nat,
                      out: set<nat>)
    requires Structure(rings, live, at, memory, pow2, out)
    ensures live.Keys <= memory && out !! live.Keys && out <= memory && Inverse(live, at)
    ensures LinkHead in rings && FreeHead in rings
  {
    hide LinksOk, Buckets, Pow2, Inverse;
  }

  function Entered(rings: map<Ptr, seq<Ptr>>, b: Ptr, n: nat): map<Ptr, seq<Ptr>>
    requires b in rings && LinkHead in rings && b != LinkHead
  {
    rings[b := [Hash(n)] + rings[b]][LinkHead := [Link(n)] + rings[LinkHead]]
  }

  lemma StructureInsert(rings: map<Ptr, seq<Ptr>>, live: map<nat, Key>, at: map<Key, nat>, memory: set<nat>, pow2: nat,
                        n: nat, k: Key)
    requires Structure(rings, live, at, memory, pow2, {n}) && k !in at
    ensures n in memory && n !in live
    ensures Bucket(Index(k, pow2)) in rings && LinkHead in rings && FreeHead in rings
    ensures Structure(Entered(rings, Bucket(Index(k, pow2)), n), live[n := k], at[k := n], memory, pow2, {})
  {
    hide LinksOk, BucketOk, FreeOk, Inverse, Index, Pow2;
    var rings' := Entered(rings, Bucket(Index(k, pow2)), n);
    OutOfLists(rings[FreeHead], live, memory, n);
    InverseInsert(live, at, n, k);
    LinksInsert(rings[LinkHead], live, n, k);
    FreeInsert(rings[FreeHead], live, memory, n, k);
    forall b: nat | b < Pow2(pow2) ensures BucketOk(rings'[Bucket(b)], b, live[n := k], pow2) {
      BucketInsert(rings[Bucket(b)], b, live, pow2, n, k);
    }
  }

  lemma StructureTake(rings: map<Ptr, seq<Ptr>>, live: map<nat, Key>, at: map<Key, nat>, memory: set<nat>, pow2: nat)
    requires Structure(rings, live, at, memory, pow2, {})
    requires rings[FreeHead] != [] && Distinct(FreeHead, rings[FreeHead])
    ensures rings[FreeHead][0].Link?
    ensures Structure(rings[FreeHead := Removed(rings[FreeHead], 0)], live, at, memory, pow2, {rings[FreeHead][0].node})
  {
    hide LinksOk, BucketOk, FreeOk, Inverse, Pow2, Removed;
    FreeTake(rings[FreeHead], live, memory);
  }

  lemma StructureAllocate(rings: map<Ptr, seq<Ptr>>, live: map<nat, Key>, at: map<Key, nat>, memory: set<nat>,
                          pow2: nat, n: nat)
    requires Structure(rings, live, at, memory, pow2, {}) && n !in memory
    ensures Structure(rings, live, at, memory + {n}, pow2, {n})
  {
    hide LinksOk, BucketOk, FreeOk, Inverse, Pow2;
    FreeAllocate(rings[FreeHead], live, memory, n);
  }

  lemma StructureGive(rings: map<Ptr, seq<Ptr>>, live: map<nat, Key>, at: map<Key, nat>, memory: set<nat>,
                      pow2: nat, n: nat)
    requires Structure(rings, live, at, memory, pow2, {n})
    ensures FreeHead in rings && Structure(rings[FreeHead := [Link(n)] + rings[FreeHead]], live, at, memory, pow2, {})
  {
    hide LinksOk, BucketOk, FreeOk, Inverse, Pow2;
    FreeGive(rings[FreeHead], live, memory, n);
  }

  lemma StructureDrop(rings: map<Ptr, seq<Ptr>>, live: map<nat, Key>, at: map<Key, nat>, memory: set<nat>,
                      pow2: nat, n: nat)
    requires Structure(rings, live, at, memory, pow2, {n})
    ensures n !in live && Structure(rings, live, at, memory - {n}, pow2, {})
  {
    hide LinksOk, BucketOk, FreeOk, Inverse, Pow2;
    OutOfLists(rings[FreeHead], live, memory, n);
    FreeDrop(rings[FreeHead], live, memory, n);
  }

  function Left(rings: map<Ptr, seq<Ptr>>, b: Ptr, i: nat, j: nat): map<Ptr, seq<Ptr>>
    requires b in rings && LinkHead in rings && b != LinkHead && i < |rings[b]| && j < |rings[LinkHead]|
  {
    rings[b := Removed(rings[b], i)][LinkHead := Removed(rings[LinkHead], j)]
  }

  lemma StructureRemove(rings: map<Ptr, seq<Ptr>>, live: map<nat, Key>, at: map<Key, nat>, memory: set<nat>,
                        pow2: nat, k: Key, i: nat, j: nat)
    requires Structure(rings, live, at, memory, pow2, {}) && k in at
    requires forall h :: h in rings ==> Distinct(h, rings[h])
    requires var b := Bucket(Index(k, pow2));
      && i < |rings[b]| && j < |rings[LinkHead]| && rings[b][i] == Hash(at[k]) && rings[LinkHead][j] == Link(at[k])
    ensures Structure(Left(rings, Bucket(Index(k, pow2)), i, j), live - {at[k]}, at - {k}, memory, pow2, {at[k]})
  {
    hide LinksOk, BucketOk, FreeOk, Index, Pow2, Distinct, Removed;
    var rings', n := Left(rings, Bucket(Index(k, pow2)), i, j), at[k];
    InverseRemove(live, at, k);
    LinksRemove(rings[LinkHead], live, j);
    FreeRemove(rings[FreeHead], live, memory, n);
    forall b: nat | b < Pow2(pow2) ensures BucketOk(rings'[Bucket(b)], b, live - {n}, pow2) {
      if b == Index(k, pow2) {
        BucketRemove(rings[Bucket(b)], b, live, pow2, i);
      } else {
        BucketKept(rings[Bucket(b)], b, live, pow2, n);
      }
    }
  }

  /** Where the node of a key is listed. */
  lemma StructureFinds(rings: map<Ptr, seq<Ptr>>, live: map<nat, Key>, at: map<Key, nat>, memory: set<nat>, pow2: nat,
                       k: Key)
    requires Structure(rings, live, at, memory, pow2, {}) && k in at
    ensures at[k] in live && at[k] in memory && live[at[k]] == k
    ensures LinkHead in rings && Link(at[k]) in rings[LinkHead]
    ensures Bucket(Index(k, pow2)) in rings && Hash(at[k]) in rings[Bucket(Index(k, pow2))]
  {
    hide Index, Pow2;
    assert BucketOk(rings[Bucket(Index(k, pow2))], Index(k, pow2), live, pow2);
  }

  lemma NextInRings(next: Field, prev: Field, rings: map<Ptr, seq<Ptr>>, owner: map<Ptr, Ptr>, h: Ptr, i: nat)
    requires Rings(next, prev, rings, owner) && h in rings && i <= |rings[h]|
    ensures var s := rings[h];
      var from := if i == 0 then h else s[i - 1];
      && from in next && next[from] == (if i < |s| then s[i] else h) && (i < |s| ==> s[i] != h)
  {
    NextInRing(next, prev, h, rings[h], i);
  }

  lemma NextInRing(next: Field, prev: Field, h: Ptr, s: seq<Ptr>, i: nat)
    requires Ring(next, prev, h, s) && Distinct(h, s) && i <= |s|
    ensures Ith(h, s, i) in next && next[Ith(h, s, i)] == Ith(h, s, i + 1)
    ensures if i < |s| then Ith(h, s, i + 1) == s[i] != h else Ith(h, s, i + 1) == h
  {
  }

  /** A node of out is in no list. */
  lemma OutIsUnlinked(next: Field, prev: Field, rings: map<Ptr, seq<Ptr>>, owner: map<Ptr, Ptr>, live: map<nat, Key>,
                      at: map<Key, nat>, memory: set<nat>, pow2: nat, n: nat)
    requires Rings(next, prev, rings, owner) && Structure(rings, live, at, memory, pow2, {n})
    ensures Link(n) !in owner && Hash(n) !in owner
  {
    hide Ring, Index, Pow2;
    assert n in {n};
  }

  /** The first n nodes of the pool are on the free list, in order, and nothing else is listed. */
  ghost predicate PoolStarted(rings: map<Ptr, seq<Ptr>>, key: map<nat, Key>, val: map<nat, Key>, place: map<nat, int>,
                        buckets: nat, n: nat)
  {
    && Heads(rings, buckets)
    && (forall h :: h in rings && h != FreeHead ==> rings[h] == [])
    && |rings[FreeHead]| == n && (forall j :: 0 <= j < n ==> rings[FreeHead][j] == Link(j))
    && (forall m: nat :: m in key <==> m < n) && (forall m: nat :: m in val <==> m < n)
    && (forall m: nat :: m in place <==> m < n) && forall m :: m in place ==> place[m] == m
  }

  lemma PoolBegins(rings: map<Ptr, seq<Ptr>>, buckets: nat)
    requires LinkHead in rings && forall b: nat :: b < buckets ==> Bucket(b) in rings
    requires forall h :: h in rings ==> rings[h] == []
    requires forall h :: h in rings ==> h == LinkHead || h == FreeHead || (h.Bucket? && h.index < buckets)
    ensures PoolStarted(rings[FreeHead := []], map[], map[], map[], buckets, 0)
  {
  }

  lemma PoolGrows(rings: map<Ptr, seq<Ptr>>, key: map<nat, Key>, val: map<nat, Key>, place: map<nat, int>,
                  buckets: nat, n: nat)
    requires PoolStarted(rings, key, val, place, buckets, n)
    ensures FreeHead in rings
    ensures PoolStarted(rings[FreeHead := rings[FreeHead] + [Link(n)]], key[n := 0], val[n := 0], place[n := n],
                        buckets, n + 1)
  {
  }

  lemma PoolReady(rings: map<Ptr, seq<Ptr>>, key: map<nat, Key>, val: map<nat, Key>, place: map<nat, int>,
                  pow2: nat, n: nat)
    requires PoolStarted(rings, key, val, place, Pow2(pow2), n) && n < 0x8000_0000
    ensures Structure(rings, map[], map[], key.Keys, pow2, {}) && PoolOk(place, key.Keys, n)
    ensures val.Keys == key.Keys && KeysOk(map[], key) && ContentsOf(map[], val) == map[]
    ensures forall m: nat :: m in key <==> m < n
  {
    hide Index, Pow2;
    var ring := rings[FreeHead];
    forall m | m in key ensures Link(m) in ring {
      assert ring[m] == Link(m);
    }
    forall b: nat | b < Pow2(pow2) ensures BucketOk(rings[Bucket(b)], b, map[], pow2) {
    }
  }

  lemma PoolFresh(rings: map<Ptr, seq<Ptr>>, key: map<nat, Key>, val: map<nat, Key>, place: map<nat, int>,
                  buckets: nat, n: nat)
    requires PoolStarted(rings, key, val, place, buckets, n)
    ensures LinkHead in rings && rings[LinkHead] == [] && FreeHead in rings
    ensures place == Fresh(n).place && rings[FreeHead] == Fresh(n).free
  {
    assert place.Keys == Below(n);
  }

  class MyMap32 {
    var num: nat
    var hash_size: nat
    var pow2: nat
    var max_size: nat
    const lists: Lists
    var key: map<nat, Key>
    var val: map<nat, Key>
    var place: map<nat, int>
    ghost var live: map<nat, Key>
    ghost var at: map<Key, nat>

    ghost predicate ValidBut(out: set<nat>)
      reads this, lists
    {
      && lists.Valid() && hash_size == Pow2(pow2)
      && Structure(lists.rings, live, at, key.Keys, pow2, out)
      && PoolOk(place, key.Keys, max_size)
      && val.Keys == key.Keys && KeysOk(live, key)
    }

    ghost predicate Valid()
      reads this, lists
    {
      ValidBut({}) && num == |at|
    }

    /** The map that the object stands for. */
    ghost function Contents(): map<Key, Key>
      reads this
    {
      ContentsOf(at, val)
    }

    /** The link list, most recently added node first. */
    ghost function Order(): seq<Ptr>
      reads this, lists
    {
      if LinkHead in lists.rings then lists.rings[LinkHead] else []
    }

    /** The nodes, as far as the pool is concerned. */
    ghost function State(): Pool
      reads this, lists
    {
      Pool(max_size, live, at, place, if FreeHead in lists.rings then lists.rings[FreeHead] else [], Order())
    }

    /** Constructed and not yet through init. */
    ghost predicate Blank()
      reads this, lists
    {
      && lists.Valid() && lists.owner.Keys <= {FreeHead, LinkHead}
      && (forall h :: h in lists.rings ==> lists.rings[h] == [])
    }

    constructor ()
      ensures Blank() && fresh(lists)
    {
      num, hash_size, pow2, max_size := 0, 0, 0, 0;
      key, val, place, live, at := map[], map[], map[], map[], map[];
      lists := new Lists();
      new;
      hide Lists.Valid;
      lists.InitListHead(FreeHead);
      lists.InitListHead(LinkHead);
      assert lists.owner == map[FreeHead := FreeHead, LinkHead := LinkHead];
    }

    /** init: the table gets the first power of two that reaches the requested size. */
    method Init(hashSize: int, maxSize: nat)
      requires Blank() && hashSize <= 0x4000_0000 && maxSize < 0x8000_0000
      modifies this, lists
      ensures Valid() && Contents() == map[] && State() == Fresh(maxSize)
      ensures hashSize <= hash_size && (pow2 == 1 || (pow2 > 1 && Pow2(pow2 - 1) < hashSize))
      ensures forall n: nat :: n in key <==> n < maxSize
    {
      hide Lists.Valid, ValidBut, ContentsOf, PoolStarted, OnlyHeads, Pow2, Fresh, State;
      InitHeads();
      var i := ChoosePower(hashSize);
      num, pow2, hash_size := 0, i, Pow2(i);
      InitBuckets();
      InitPool(maxSize);
      max_size := maxSize;
      live, at := map[], map[];
      Ready();
    }

    lemma Ready()
      requires lists.Valid() && hash_size == Pow2(pow2) && num == 0 && live == map[] && at == map[]
      requires PoolStarted(lists.rings, key, val, place, hash_size, max_size) && max_size < 0x8000_0000
      ensures Valid() && Contents() == map[] && forall n: nat :: n in key <==> n < max_size
      ensures State() == Fresh(max_size)
    {
      hide Lists.Valid, Structure, PoolOk, KeysOk, ContentsOf, PoolStarted, Pow2;
      PoolReady(lists.rings, key, val, place, pow2, max_size);
      PoolFresh(lists.rings, key, val, place, hash_size, max_size);
    }

    /** The loop at the start of init. */
    method ChoosePower(hashSize: int) returns (i: nat)
      requires hashSize <= 0x4000_0000
      ensures hashSize <= Pow2(i) && (i == 1 || (i > 1 && Pow2(i - 1) < hashSize))
    {
      PowersOfWords();
      assert Pow2(30) == 0x4000_0000 by { assert Pow2(31) == 2 * Pow2(30); }
      i := 1;
      while i < 32 && hashSize > Pow2(i)
        invariant 1 <= i <= 30 && (i == 1 || Pow2(i - 1) < hashSize)
        decreases 32 - i
      {
        i := i + 1;
      }
    }

    /** The heads there are, all of them with nothing in their ring. */
    ghost predicate OnlyHeads(buckets: nat)
      reads lists
    {
      && lists.Valid() && LinkHead in lists.rings
      && (forall h :: h in lists.rings ==> lists.rings[h] == [])
      && forall h :: h in lists.owner ==> h == LinkHead || h == FreeHead || (h.Bucket? && h.index < buckets)
    }

    /** The head of the link list. */
    method InitHeads()
      requires Blank()
      modifies lists
      ensures OnlyHeads(0)
    {
      hide Lists.Valid;
      lists.HeadsOnly();
      lists.InitListHead(LinkHead);
    }

    method InitBuckets()
      requires OnlyHeads(0)
      modifies lists
      ensures OnlyHeads(hash_size) && forall b: nat :: b < hash_size ==> Bucket(b) in lists.rings
    {
      hide Rings;
      var i := 0;
      while i < hash_size
        invariant i <= hash_size && OnlyHeads(i)
        invariant forall b: nat :: b < i ==> Bucket(b) in lists.rings
      {
        lists.InitListHead(Bucket(i));
        i := i + 1;
      }
    }

    method InitPool(maxSize: nat)
      requires OnlyHeads(hash_size) && forall b: nat :: b < hash_size ==> Bucket(b) in lists.rings
      modifies `key, `val, `place, lists
      ensures lists.Valid() && PoolStarted(lists.rings, key, val, place, hash_size, maxSize)
    {
      hide Lists.Valid, Heads, PoolStarted;
      key, val, place := map[], map[], map[];
      lists.HeadsOnly();
      PoolBegins(lists.rings, hash_size);
      lists.InitListHead(FreeHead);
      var i := 0;
      while i < maxSize
        invariant i <= maxSize && lists.Valid()
        invariant PoolStarted(lists.rings, key, val, place, hash_size, i)
        invariant forall x :: x in lists.owner && x.Link? ==> x.node < i
      {
        PoolGrows(lists.rings, key, val, place, hash_size, i);
        key, val, place := key[i := 0], val[i := 0], place[i := i];
        lists.ListAddTail(Link(i), FreeHead);
        i := i + 1;
      }
    }

    /** The loop that find, set and del share: walk the bucket of k. */
    method FindNode(k: Key) returns (found: bool, node: nat, ghost i: nat)
      requires Valid()
      ensures found <==> k in at
      ensures found ==> node == at[k] && node in key
      ensures Bucket(Index(k, pow2)) in lists.rings
      ensures found ==>
        var ring := lists.rings[Bucket(Index(k, pow2))];
        i < |ring| && ring[i] == Hash(node)
    {
      hide Rings, Index, Pow2, PoolOk, FreeOk, LinksOk;
      var index := Index(k, pow2);
      ghost var s := lists.rings[Bucket(index)];
      assert BucketOk(s, index, live, pow2);
      NextInRings(lists.next, lists.prev, lists.rings, lists.owner, Bucket(index), 0);
      var pos := lists.next[Bucket(index)];
      i, node, found := 0, 0, false;
      while pos != Bucket(index)
        invariant i <= |s| && pos == if i < |s| then s[i] else Bucket(index)
        invariant pos == Bucket(index) <==> i == |s|
        invariant forall j :: 0 <= j < i ==> live[s[j].node] != k
        decreases |s| - i
      {
        assert pos == s[i];
        node := pos.node;
        if key[node] == k { return true, node, i; }
        NextInRings(lists.next, lists.prev, lists.rings, lists.owner, Bucket(index), i + 1);
        pos := lists.next[pos];
        i := i + 1;
      }
    }

    method Find(k: Key) returns (found: bool, v: Key)
      requires Valid()
      ensures found <==> k in Contents()
      ensures found ==> v == Contents()[k]
    {
      hide Lists.Valid, Structure, PoolOk, KeysOk, Index;
      v := 0;
      var node;
      ghost var i;
      found, node, i := FindNode(k);
      if k in at { StructureFinds(lists.rings, live, at, key.Keys, pow2, k); }
      if found { v := val[node]; }
    }

    /** new Node: the allocator picks a node that is not in memory and puts it outside
        the pool, at some distance from mem. */
    method Allocate(node: nat, where: int)
      requires ValidBut({}) && node !in key && node >= max_size && !(0 <= where < max_size)
      modifies `key, `val, `place
      ensures ValidBut({node})
      ensures key == old(key)[node := 0] && val == old(val)[node := 0] && place == old(place)[node := where]
    {
      hide Lists.Valid, Structure, Pow2;
      StructureAllocate(lists.rings, live, at, key.Keys, pow2, node);
      key, val, place := key[node := 0], val[node := 0], place[node := where];
      assert key.Keys == old(key).Keys + {node};
    }

    /** The part of set that finds a node: the free list first, then the heap. */
    method TakeNode(newNode: nat, where: int) returns (node: nat)
      requires ValidBut({}) && newNode !in key && newNode >= max_size && !(0 <= where < max_size)
      modifies `key, `val, `place, lists
      ensures ValidBut({node})
      ensures lists.rings.Keys == old(lists.rings.Keys) && LinkHead in lists.rings && FreeHead in lists.rings
      ensures lists.rings[LinkHead] == old(lists.rings[LinkHead])
      ensures if old(lists.rings[FreeHead]) == [] then lists.rings[FreeHead] == [] && node == newNode
              else old(lists.rings[FreeHead]) == [Link(node)] + lists.rings[FreeHead]
      ensures place == if old(lists.rings[FreeHead]) == [] then old(place)[newNode := where] else old(place)
      ensures key == old(key) || key == old(key)[newNode := 0]
      ensures val == old(val) || val == old(val)[newNode := 0]
    {
      hide Rings, LinksOk, Buckets, Inverse, FreeOk, PoolOk, Pow2;
      var empty := lists.ListEmpty(FreeHead);
      if empty {
        node := newNode;
        Allocate(newNode, where);
      } else {
        ghost var s := lists.rings[FreeHead];
        FirstOfRing(lists.next, lists.prev, lists.rings, lists.owner, FreeHead);
        StructureTake(lists.rings, live, at, key.Keys, pow2);
        var pos := lists.next[FreeHead];
        lists.ListDel(pos, FreeHead, 0);
        node := pos.node;
        assert Removed(s, 0) == s[1..];
      }
    }

    /** The end of set: the node becomes the node of k, in front of both its lists. */
    method Insert(node: nat, k: Key, v: Key)
      requires ValidBut({node}) && num == |at| && k !in at
      modifies this, lists
      ensures Valid() && live == old(live)[node := k] && at == old(at)[k := node]
      ensures val == old(val)[node := v] && max_size == old(max_size) && place == old(place)
      ensures old(Bucket(Index(k, pow2)) in lists.rings && LinkHead in lists.rings)
      ensures lists.rings == Entered(old(lists.rings), Bucket(Index(k, old(pow2))), node)
    {
      hide Rings, Structure, PoolOk, KeysOk, Index, Pow2;
      StructureInsert(lists.rings, live, at, key.Keys, pow2, node, k);
      OutIsUnlinked(lists.next, lists.prev, lists.rings, lists.owner, live, at, key.Keys, pow2, node);
      KeysInsert(live, key, node, k);
      SameKeys(val, node, v);
      OneMore(at, k, node);
      var index := Index(k, pow2);
      key, val := key[node := k], val[node := v];
      lists.ListAdd(Hash(node), Bucket(index));
      lists.ListAdd(Link(node), LinkHead);
      live, at := live[node := k], at[k := node];
      num := num + 1;
    }

    /** The part of set for a key that is not in the map. */
    method Add(k: Key, v: Key, newNode: nat, where: int)
      requires Valid() && k !in at && newNode !in key && newNode >= max_size && !(0 <= where < max_size)
      modifies this, lists
      ensures Valid() && Contents() == old(Contents())[k := v] && k !in old(Contents())
      ensures k in at && State() == old(State()).AfterSet(k, newNode, where)
    {
      hide Lists.Valid, Structure, PoolOk, KeysOk, Inverse, Index, Pow2, ContentsOf;
      StructureLive(lists.rings, live, at, key.Keys, pow2, {});
      ghost var before := val;
      var node := TakeNode(newNode, where);
      assert node !in live && node in key by {
        StructureLive(lists.rings, live, at, key.Keys, pow2, {node});
        assert node in {node};
      }
      ContentsInsert(live, at, before, val, node, k, v);
      Insert(node, k, v);
    }

    method Set(k: Key, v: Key, newNode: nat, where: int) returns (added: bool)
      requires Valid() && newNode !in key && newNode >= max_size && !(0 <= where < max_size)
      modifies this, lists
      ensures Valid() && max_size == old(max_size)
      ensures Contents() == old(Contents())[k := v]
      ensures added <==> k !in old(Contents())
      ensures if added then k in at && Order() == [Link(at[k])] + old(Order()) else Order() == old(Order())
      ensures State() == old(State()).AfterSet(k, newNode, where)
      ensures State().Total() == old(State().Total()) - if old(State()).Loses(k) then 1 else 0
    {
      hide Lists.Valid, Structure, PoolOk, KeysOk, Inverse, Index, Pow2, ContentsOf, Pool.Ok, Pool.Total, Pool.Loses;
      StateOk();
      SetTotal(State(), k, newNode, where);
      StructureLive(lists.rings, live, at, key.Keys, pow2, {});
      var found, node, _ := FindNode(k);
      if found {
        ContentsOverwrite(live, at, val, k, v);
        SameKeys(val, node, v);
        val := val[node := v];
        return false;
      }
      Add(k, v, newNode, where);
      return true;
    }

    /** The end of del and of each round of clean: back to the pool, or to the heap. */
    method Discard(node: nat)
      requires ValidBut({node})
      modifies `key, `val, `place, lists
      ensures ValidBut({}) && LinkHead in lists.rings && lists.rings.Keys == old(lists.rings.Keys)
      ensures FreeHead in lists.rings && lists.rings[LinkHead] == old(lists.rings[LinkHead])
      ensures node in old(place)
      ensures if TakenForPool(old(place)[node], max_size)
              then lists.rings[FreeHead] == [Link(node)] + old(lists.rings[FreeHead]) && key == old(key)
              else lists.rings == old(lists.rings) && key == old(key) - {node}
      ensures val == old(val) || val == old(val) - {node}
      ensures place == if TakenForPool(old(place)[node], max_size) then old(place) else old(place) - {node}
    {
      hide Rings, Structure, KeysOk, Index, Pow2, TakenForPool;
      StructureLive(lists.rings, live, at, key.Keys, pow2, {node});
      assert node in {node};
      OutIsUnlinked(lists.next, lists.prev, lists.rings, lists.owner, live, at, key.Keys, pow2, node);
      PoolTest(place[node], max_size);
      if TakenForPool(place[node], max_size) {
        StructureGive(lists.rings, live, at, key.Keys, pow2, node);
        lists.ListAdd(Link(node), FreeHead);
      } else {
        StructureDrop(lists.rings, live, at, key.Keys, pow2, node);
        KeysRemove(live, key, node);
        key, val, place := key - {node}, val - {node}, place - {node};
      }
    }

    /** The part of del for a key that is in the map. */
    method TakeOut(node: nat, ghost k: Key, ghost i: nat)
      requires Valid() && k in at && at[k] == node && Bucket(Index(k, pow2)) in lists.rings
      requires i < |lists.rings[Bucket(Index(k, pow2))]| && lists.rings[Bucket(Index(k, pow2))][i] == Hash(node)
      modifies this, lists
      ensures Valid() && Contents() == old(Contents()) - {k} && k in old(Contents())
      ensures State() == old(State()).Gone(node)
    {
      hide Rings, Structure, PoolOk, KeysOk, Inverse, Index, Pow2, ContentsOf, Removed, TakenForPool, Dropped;
      StructureLive(lists.rings, live, at, key.Keys, pow2, {});
      Unhook(node, k, i);
      ghost var before := val;
      Discard(node);
      ContentsRemove(old(at), before, val, old(live), k);
      num := num - 1;
    }

    method Del(k: Key) returns (found: bool)
      requires Valid()
      modifies this, lists
      ensures Valid() && max_size == old(max_size)
      ensures Contents() == old(Contents()) - {k}
      ensures found <==> k in old(Contents())
      ensures State() == old(State()).AfterDel(k)
      ensures State().Total() == old(State().Total()) + if old(State()).Gains(k) then 1 else 0
    {
      hide Lists.Valid, ValidBut, Index, Pow2, ContentsOf, TakenForPool, Pool.Ok, Pool.Total, Pool.Gains;
      StateOk();
      DelTotal(State(), k);
      var node;
      ghost var i;
      found, node, i := FindNode(k);
      if !found {
        NotContained(at, val, k);
        return;
      }
      TakeOut(node, k, i);
    }

    /** The middle of del: out of the bucket, then out of the link list. */
    method Unhook(node: nat, ghost k: Key, ghost i: nat)
      requires Valid() && k in at && at[k] == node && Bucket(Index(k, pow2)) in lists.rings
      requires i < |lists.rings[Bucket(Index(k, pow2))]| && lists.rings[Bucket(Index(k, pow2))][i] == Hash(node)
      modifies `live, `at, lists
      ensures ValidBut({node}) && live == old(live) - {node} && at == old(at) - {k}
      ensures |at| == num - 1 && node in old(live) && old(live)[node] == k
      ensures FreeHead in lists.rings && FreeHead in old(lists.rings)
      ensures lists.rings[FreeHead] == old(lists.rings[FreeHead]) && Order() == Dropped(old(Order()), Link(node))
    {
      hide Dropped, Rings, Structure, PoolOk, KeysOk, Inverse, Index, Pow2, Removed, Distinct;
      StructureLive(lists.rings, live, at, key.Keys, pow2, {});
      StructureFinds(lists.rings, live, at, key.Keys, pow2, k);
      ghost var j :| 0 <= j < |lists.rings[LinkHead]| && lists.rings[LinkHead][j] == Link(node);
      AllDistinct(lists.next, lists.prev, lists.rings, lists.owner);
      Owned(lists.next, lists.prev, lists.rings, lists.owner, Bucket(Index(k, pow2)), i);
      Owned(lists.next, lists.prev, lists.rings, lists.owner, LinkHead, j);
      StructureRemove(lists.rings, live, at, key.Keys, pow2, k, i, j);
      KeysForget(live, key, node);
      DroppedIs(LinkHead, lists.rings[LinkHead], j);
      lists.ListDel(Hash(node), Bucket(Index(k, pow2)), i);
      lists.ListDel(Link(node), LinkHead, j);
      OneLess(at, k);
      live, at := live - {node}, at - {k};
    }

    /** A round of clean, up to the pool test: the first node of the link list leaves it, then
        its bucket, and is then taken out of the link list a second time. */
    method UnhookFirst() returns (node: nat)
      requires ValidBut({}) && LinkHead in lists.rings && lists.rings[LinkHead] != []
      modifies `live, `at, lists
      ensures ValidBut({node}) && LinkHead in lists.rings
      ensures |lists.rings[LinkHead]| < |old(lists.rings[LinkHead])| && old(lists.rings[LinkHead])[0] == Link(node)
      ensures node in old(live) && live == old(live) - {node} && at == old(at) - {old(live)[node]}
      ensures FreeHead in lists.rings && FreeHead in old(lists.rings)
      ensures lists.rings[FreeHead] == old(lists.rings[FreeHead]) && Order() == Dropped(old(Order()), Link(node))
    {
      hide Rings, Structure, PoolOk, KeysOk, Inverse, Index, Pow2, Distinct, Removed, Ith;
      ghost var rings, memory := lists.rings, key.Keys;
      StructureLive(rings, live, at, memory, pow2, {});
      FirstOfRing(lists.next, lists.prev, rings, lists.owner, LinkHead);
      AllDistinct(lists.next, lists.prev, rings, lists.owner);
      var pos := lists.next[LinkHead];
      ghost var i := FirstLive(rings, live, at, memory, pow2);
      node := pos.node;
      ghost var k := live[node];
      ghost var b := Bucket(Index(k, pow2));
      Owned(lists.next, lists.prev, rings, lists.owner, b, i);
      StructureRemove(rings, live, at, memory, pow2, k, i, 0);
      NeighbourKinds(rings, live, at, memory, pow2, Index(k, pow2), i);
      KeysForget(live, key, node);
      RemovedDistinct(LinkHead, rings[LinkHead], 0);
      DroppedIs(LinkHead, rings[LinkHead], 0);
      DelThrice(pos, b, i);
      live, at := live - {node}, at - {k};
    }

    /** The three deletions: the last one finds its neighbours as the first one left them. */
    method DelThrice(pos: Ptr, ghost b: Ptr, ghost i: nat)
      requires lists.Valid() && LinkHead in lists.rings && lists.rings[LinkHead] != [] && b != LinkHead
      requires pos == lists.rings[LinkHead][0] && pos.Link? && pos in lists.owner
      requires b in lists.rings && i < |lists.rings[b]| && lists.rings[b][i] == Hash(pos.node)
      requires Hash(pos.node) in lists.owner
      requires LinkSide(Ith(LinkHead, lists.rings[LinkHead], 0)) && LinkSide(Ith(LinkHead, lists.rings[LinkHead], 2))
      requires !LinkSide(Ith(b, lists.rings[b], i)) && !LinkSide(Ith(b, lists.rings[b], i + 2))
      modifies lists
      ensures lists.Valid() && lists.rings == Left(old(lists.rings), b, i, 0)
    {
      hide Rings, Removed, Ith;
      lists.ListDel(pos, LinkHead, 0);
      lists.ListDel(Hash(pos.node), b, i);
      lists.ListDel(Link(pos.node), LinkHead, 0);
    }

    /** Where the pool's nodes are: see PoolConserved. */
    lemma Conserved() returns (inMap: set<nat>, free: set<nat>)
      requires Valid()
      ensures inMap !! free && Below(max_size) <= inMap + free
      ensures inMap == OfPool(live.Keys, max_size) && State().Total() == |inMap| + |free|
      ensures FreeHead in lists.rings && |free| == |lists.rings[FreeHead]|
      ensures |inMap| + |free| == max_size <==> forall n :: n in free ==> n < max_size
    {
      hide Rings, LinksOk, Buckets, Inverse, KeysOk, FreeOk, PoolOk;
      AllDistinct(lists.next, lists.prev, lists.rings, lists.owner);
      inMap, free := PoolConserved(lists.rings[FreeHead], live, key.Keys, place, max_size);
    }

    /** A round of clean: the first node of the link list leaves the map. */
    method CleanRound()
      requires ValidBut({}) && LinkHead in lists.rings && lists.rings[LinkHead] != []
      modifies `live, `at, `key, `val, `place, lists
      ensures ValidBut({}) && LinkHead in lists.rings
      ensures |lists.rings[LinkHead]| < |old(lists.rings[LinkHead])|
      ensures old(State()).order[0].Link? && State() == old(State()).Gone(old(State()).order[0].node)
    {
      hide Rings, Structure, PoolOk, KeysOk, Inverse, Index, Pow2, TakenForPool, Dropped;
      var node := UnhookFirst();
      Discard(node);
    }

    /** What Valid says of the nodes. */
    lemma StateOk()
      requires Valid()
      ensures State().Ok()
      ensures key.Keys == place.Keys
    {
      hide Ring, Buckets, Inverse, LinksOk, KeysOk, Pow2, Distinct;
      AllDistinct(lists.next, lists.prev, lists.rings, lists.owner);
    }

    method Clean()
      requires Valid()
      modifies this, lists
      ensures Valid() && Contents() == map[] && num == 0
      ensures hash_size == old(hash_size) && max_size == old(max_size)
      ensures State() == old(State()).AfterClean()
      ensures State().Total() == old(State().Total()) + |Strays(old(State()))|
    {
      hide Rings, Structure, PoolOk, KeysOk, Inverse, Index, Pow2, TakenForPool, ContentsOf, Pool.Ok, Pool.Total,
        Strays,
        Pool.Gone;
      StateOk();
      CleanTotal(State());
      StructureLive(lists.rings, live, at, key.Keys, pow2, {});
      while true
        invariant ValidBut({}) && LinkHead in lists.rings
        invariant hash_size == old(hash_size) && max_size == old(max_size)
        invariant State().AfterClean() == old(State()).AfterClean()
        decreases |lists.rings[LinkHead]|
      {
        var empty := lists.ListEmpty(LinkHead);
        if empty { break; }
        CleanRound();
      }
      NothingLive(lists.rings, live, at, val, key.Keys, pow2);
      ghost var rings := lists.rings;
      label Emptied:
      var i := 0;
      while i < hash_size
        invariant unchanged@Emptied(this)
        invariant i <= hash_size && lists.Valid() && lists.rings == rings
      {
        AlreadyEmpty(rings, Bucket(i));
        lists.InitListHead(Bucket(i));
        i := i + 1;
      }
      num := 0;
      AlreadyEmpty(rings, LinkHead);
      lists.InitListHead(LinkHead);
    }

    /** The node at the front of the link list, or none. */
    method First() returns (node: Option<nat>)
      requires Valid()
      ensures if Order() == [] then node == None else node.Some? && Order()[0] == Link(node.value)
    {
      hide Rings, Inverse, FreeOk, Buckets, Index, Pow2, PoolOk, KeysOk;
      var empty := lists.ListEmpty(LinkHead);
      if empty { return None; }
      FirstOfRing(lists.next, lists.prev, lists.rings, lists.owner, LinkHead);
      node := Some(lists.next[LinkHead].node);
    }

    /** The node after the i-th of the link list, or none. */
    method Next(pre: nat, ghost i: nat) returns (node: Option<nat>)
      requires Valid() && i < |Order()| && Order()[i] == Link(pre)
      ensures if i + 1 == |Order()| then node == None
              else node.Some? && Order()[i + 1] == Link(node.value)
    {
      hide Rings, Inverse, FreeOk, Buckets, Index, Pow2, PoolOk, KeysOk;
      NextInRings(lists.next, lists.prev, lists.rings, lists.owner, LinkHead, i + 1);
      var pos := lists.next[Link(pre)];
      if pos == LinkHead { return None; }
      node := Some(pos.node);
    }

    /** Going from First through Next meets every node of the map once. */
    method Traverse() returns (nodes: seq<nat>)
      requires Valid()
      ensures |nodes| == |Contents()|
      ensures forall n :: n in nodes <==> n in live
      ensures forall i, j :: 0 <= i < j < |nodes| ==> nodes[i] != nodes[j]
    {
      hide Rings, Structure, PoolOk, KeysOk, Inverse, Index, Pow2, ContentsOf;
      StructureLive(lists.rings, live, at, key.Keys, pow2, {});
      AllDistinct(lists.next, lists.prev, lists.rings, lists.owner);
      nodes := [];
      var node := First();
      while node.Some?
        invariant |nodes| <= |Order()| && forall j :: 0 <= j < |nodes| ==> Order()[j] == Link(nodes[j])
        invariant if |nodes| == |Order()| then node == None
                  else node.Some? && Order()[|nodes|] == Link(node.value)
        decreases |Order()| - |nodes|
      {
        nodes := nodes + [node.value];
        node := Next(node.value, |nodes| - 1);
      }
      OrderIsLive(lists.rings, live, at, val, key.Keys, pow2, nodes);
    }

    method IsEmpty() returns (empty: bool)
      requires Valid()
      ensures empty <==> Contents() == map[]
    {
      hide Rings, Inverse, FreeOk, Buckets, Index, Pow2, PoolOk, KeysOk, ContentsOf;
      empty := lists.ListEmpty(LinkHead);
      EmptyMeans(lists.rings, live, at, val, key.Keys, pow2);
    }

    method Count() returns (n: nat)
      requires Valid()
      ensures n == |Contents()|
    {
      hide Lists.Valid, Structure, PoolOk, KeysOk, Inverse;
      StructureLive(lists.rings, live, at, key.Keys, pow2, {});
      ContentsSize(live, at, val);
      n := num;
    }
  }

  /** A new map, and then any calls. */
  method Replay(hashSize: int, maxSize: nat, ops: seq<Op>) returns (m: MyMap32)
    requires hashSize <= 0x4000_0000 && maxSize < 0x8000_0000 && Runs(Fresh(maxSize), ops)
    ensures m.Valid() && m.State() == After(Fresh(maxSize), ops)
    ensures (forall op :: op in ops && op.SetOp? && !(0 <= op.where < maxSize) ==> !TakenForPool(op.where, maxSize)) ==>
              m.State().Total() == maxSize
  {
    hide Lists.Valid, MyMap32.ValidBut, TakenForPool, Pool.Total, Pool.Ok, Fresh, Pool.AfterSet, Pool.AfterDel,
      Pool.AfterClean, Pool.Gains, Pool.Loses, Strays, ContentsOf;
    m := new MyMap32();
    m.Init(hashSize, maxSize);
    assert ops[..0] == [];
    for i := 0 to |ops|
      invariant fresh(m) && fresh(m.lists) && m.Valid() && Runs(Fresh(maxSize), ops[..i])
      invariant m.State() == After(Fresh(maxSize), ops[..i])
    {
      RunsPrefix(Fresh(maxSize), ops, i);
      m.StateOk();
      match ops[i]
      case SetOp(k, v, newNode, where) => var _ := m.Set(k, v, newNode, where);
      case DelOp(k) => var _ := m.Del(k);
      case CleanOp => m.Clean();
    }
    assert ops[..|ops|] == ops;
    if forall op :: op in ops && op.SetOp? && !(0 <= op.where < maxSize) ==> !TakenForPool(op.where, maxSize) {
      RunKeepsTotal(maxSize, ops);
    }
  }

  /** The map with a node too many: one key more than the pool has nodes, and that key deleted. */
  method OneTooMany(hashSize: int, maxSize: nat, where: int) returns (m: MyMap32)
    requires hashSize <= 0x4000_0000 && maxSize < 0x8000_0000
    requires !(0 <= where < maxSize) && TakenForPool(where, maxSize)
    ensures m.Valid() && m.State().Total() == maxSize + 1
  {
    hide MyMap32.ValidBut, TakenForPool, Pool.Total, Fresh, After;
    PassingGains(maxSize, where);
    m := Replay(hashSize, maxSize, Passing(maxSize, where));
  }

  lemma ContentsSize(live: map<nat, Key>, at: map<Key, nat>, val: map<nat, Key>)
    requires Inverse(live, at) && live.Keys <= val.Keys
    ensures |ContentsOf(at, val)| == |at| && ContentsOf(at, val).Keys == at.Keys
  {
    assert ContentsOf(at, val).Keys == at.Keys;
    assert |ContentsOf(at, val).Keys| == |at.Keys|;
  }

  lemma EmptyMeans(rings: map<Ptr, seq<Ptr>>, live: map<nat, Key>, at: map<Key, nat>, val: map<nat, Key>,
                   memory: set<nat>, pow2: nat)
    requires Structure(rings, live, at, memory, pow2, {}) && val.Keys == memory
    ensures rings[LinkHead] == [] <==> ContentsOf(at, val) == map[]
    ensures rings[LinkHead] == [] ==> at == map[] && live == map[]
  {
    hide Index, Pow2, Buckets;
    ContentsSize(live, at, val);
    if rings[LinkHead] != [] {
      var x := rings[LinkHead][0];
      assert x.node in live && live[x.node] in at;
    }
  }

  lemma BucketMember(ring: seq<Ptr>, b: nat, live: map<nat, Key>, pow2: nat)
    requires BucketOk(ring, b, live, pow2) && ring != []
    ensures ring[0].Hash? && ring[0].node in live
  {
  }

  lemma NothingLive(rings: map<Ptr, seq<Ptr>>, live: map<nat, Key>, at: map<Key, nat>, val: map<nat, Key>,
                    memory: set<nat>, pow2: nat)
    requires Structure(rings, live, at, memory, pow2, {}) && val.Keys == memory && rings[LinkHead] == []
    ensures |at| == 0 && ContentsOf(at, val) == map[]
    ensures forall b: nat :: b < Pow2(pow2) ==> Bucket(b) in rings && rings[Bucket(b)] == []
  {
    hide Index, Pow2;
    EmptyMeans(rings, live, at, val, memory, pow2);
    forall b: nat | b < Pow2(pow2) ensures rings[Bucket(b)] == [] {
      assert BucketOk(rings[Bucket(b)], b, live, pow2);
      if rings[Bucket(b)] != [] { BucketMember(rings[Bucket(b)], b, live, pow2); }
    }
  }

  lemma AlreadyEmpty(rings: map<Ptr, seq<Ptr>>, h: Ptr)
    requires h in rings && rings[h] == []
    ensures rings[h := []] == rings
  {
  }

  lemma OrderIsLive(rings: map<Ptr, seq<Ptr>>, live: map<nat, Key>, at: map<Key, nat>, val: map<nat, Key>,
                    memory: set<nat>, pow2: nat, nodes: seq<nat>)
    requires Structure(rings, live, at, memory, pow2, {}) && val.Keys == memory
    requires Distinct(LinkHead, rings[LinkHead]) && |nodes| == |rings[LinkHead]|
    requires forall j :: 0 <= j < |nodes| ==> rings[LinkHead][j] == Link(nodes[j])
    ensures forall n :: n in nodes <==> n in live
    ensures forall i, j :: 0 <= i < j < |nodes| ==> nodes[i] != nodes[j]
    ensures |nodes| == |ContentsOf(at, val)|
  {
    hide Index, Pow2, Buckets;
    forall n ensures n in nodes <==> n in live {
      if n in nodes {
        var j :| 0 <= j < |nodes| && nodes[j] == n;
        assert rings[LinkHead][j] in rings[LinkHead];
      }
      if n in live {
        var j :| 0 <= j < |nodes| && rings[LinkHead][j] == Link(n);
        assert nodes[j] == n;
      }
    }
    ContentsSize(live, at, val);
    InverseSize(live, at);
    DistinctSize(nodes, live.Keys);
  }

  lemma {:induction false} InverseSize(live: map<nat, Key>, at: map<Key, nat>)
    requires Inverse(live, at)
    ensures |live| == |at|
    decreases |at|
  {
    if at != map[] {
      var k :| k in at;
      InverseRemove(live, at, k);
      OneLess(at, k);
      assert (live - {at[k]})[at[k] := k] == live;
      InverseSize(live - {at[k]}, at - {k});
    } else {
      assert live.Keys == {};
    }
  }

  lemma {:induction false} DistinctSize(nodes: seq<nat>, all: set<nat>)
    requires forall n :: n in nodes <==> n in all
    requires forall i, j :: 0 <= i < j < |nodes| ==> nodes[i] != nodes[j]
    ensures |nodes| == |all|
  {
    if nodes == [] {
      assert all == {};
    } else {
      var n := nodes[0];
      forall m ensures m in nodes[1..] <==> m in all - {n} {
        if m in all && m != n {
          var i :| 0 <= i < |nodes| && nodes[i] == m;
          assert nodes[1..][i - 1] == m;
        }
      }
      DistinctSize(nodes[1..], all - {n});
    }
  }

  /** Where the first node of the link list is in its bucket. */
  lemma FirstLive(rings: map<Ptr, seq<Ptr>>, live: map<nat, Key>, at: map<Key, nat>, memory: set<nat>, pow2: nat)
    returns (i: nat)
    requires Structure(rings, live, at, memory, pow2, {}) && rings[LinkHead] != []
    ensures rings[LinkHead][0].Link?
    ensures var n := rings[LinkHead][0].node;
      && n in live && live[n] in at && at[live[n]] == n
      && var b := Bucket(Index(live[n], pow2));
        b in rings && i < |rings[b]| && rings[b][i] == Hash(n)
  {
    hide Index, Pow2, FreeOk;
    var n := rings[LinkHead][0].node;
    StructureFinds(rings, live, at, memory, pow2, live[n]);
    i :| 0 <= i < |rings[Bucket(Index(live[n], pow2))]| && rings[Bucket(Index(live[n], pow2))][i] == Hash(n);
  }

  predicate LinkSide(p: Ptr) {
    p.Link? || p == LinkHead
  }

  /** The neighbours of the first link are links or the head, those of a hash entry are not. */
  lemma NeighbourKinds(rings: map<Ptr, seq<Ptr>>, live: map<nat, Key>, at: map<Key, nat>, memory: set<nat>, pow2: nat,
                       b: nat, i: nat)
    requires Structure(rings, live, at, memory, pow2, {}) && Bucket(b) in rings
    ensures var s := rings[LinkHead];
      LinkSide(Ith(LinkHead, s, 0)) && LinkSide(Ith(LinkHead, s, 2))
    ensures var s := rings[Bucket(b)];
      !LinkSide(Ith(Bucket(b), s, i)) && !LinkSide(Ith(Bucket(b), s, i + 2))
  {
    hide Index, Pow2, FreeOk, Ith;
    assert BucketOk(rings[Bucket(b)], b, live, pow2);
    IthMember(LinkHead, rings[LinkHead], 0);
    IthMember(LinkHead, rings[LinkHead], 2);
    IthMember(Bucket(b), rings[Bucket(b)], i);
    IthMember(Bucket(b), rings[Bucket(b)], i + 2);
  }

  // ---------- conservation ----------

  /** The nodes of the free list. */
  function Nodes(ring: seq<Ptr>, live: map<nat, Key>, memory: set<nat>): (nodes: seq<nat>)
    requires FreeOk(ring, live, memory, {})
    ensures |nodes| == |ring| && forall i :: 0 <= i < |ring| ==> ring[i] == Link(nodes[i])
  {
    seq(|ring|, i requires 0 <= i < |ring| => ring[i].node)
  }

  /** Every node of the pool is either in the map or on the free list. The two counts make up
      max_size exactly while no node from the allocator is on the free list; NodePool says when
      one gets there and when it leaves again. */
  lemma PoolConserved(ring: seq<Ptr>, live: map<nat, Key>, memory: set<nat>, place: map<nat, int>, maxSize: nat)
    returns (inMap: set<nat>, free: set<nat>)
    requires FreeOk(ring, live, memory, {}) && PoolOk(place, memory, maxSize) && Distinct(FreeHead, ring)
    ensures inMap == OfPool(live.Keys, maxSize) && forall n :: n in free <==> Link(n) in ring
    ensures inMap !! free && Below(maxSize) <= inMap + free
    ensures |free| == |ring|
    ensures |inMap| + |free| == maxSize <==> forall n :: n in free ==> n < maxSize
  {
    hide Distinct, PoolOk, FreeOk;
    var nodes := Nodes(ring, live, memory);
    inMap := OfPool(live.Keys, maxSize);
    free := set n | n in nodes;
    ListedNodes(ring, nodes, free);
    Everywhere(ring, live, memory, place, maxSize, free);
    Counted(inMap, free, maxSize);
  }

  lemma Everywhere(ring: seq<Ptr>, live: map<nat, Key>, memory: set<nat>, place: map<nat, int>, maxSize: nat,
                   free: set<nat>)
    requires FreeOk(ring, live, memory, {}) && PoolOk(place, memory, maxSize)
    requires forall n :: n in free <==> Link(n) in ring
    ensures OfPool(live.Keys, maxSize) !! free && Below(maxSize) <= OfPool(live.Keys, maxSize) + free
  {
  }

  lemma Counted(a: set<nat>, b: set<nat>, n: nat)
    requires a !! b && Below(n) <= a + b && a <= Below(n)
    ensures |a| + |b| == n <==> forall m :: m in b ==> m < n
  {
    if forall m :: m in b ==> m < n {
      assert a + b == Below(n);
    } else {
      var m :| m in b && m >= n;
      ProperSubset(Below(n), a + b, m);
    }
  }

  lemma IthMember(h: Ptr, s: seq<Ptr>, i: int)
    ensures Ith(h, s, i) == h || Ith(h, s, i) in s
  {
  }

  lemma ListedNodes(ring: seq<Ptr>, nodes: seq<nat>, free: set<nat>)
    requires Distinct(FreeHead, ring) && |nodes| == |ring| && free == (set n | n in nodes)
    requires forall i :: 0 <= i < |ring| ==> ring[i] == Link(nodes[i])
    ensures |free| == |ring| && forall n :: n in free <==> Link(n) in ring
  {
    forall n ensures n in nodes <==> Link(n) in ring {
      if n in nodes {
        var i :| 0 <= i < |nodes| && nodes[i] == n;
        assert ring[i] in ring;
      }
    }
    DistinctSize(nodes, free);
  }

  lemma ProperSubset(a: set<nat>, b: set<nat>, n: nat)
    requires a <= b && n in b && n !in a
    ensures |a| < |b|
  {
    SubsetSize(a, b - {n});
  }

  lemma {:induction false} SubsetSize(a: set<nat>, b: set<nat>)
    requires a <= b
    ensures |a| <= |b|
    decreases a
  {
    if a != {} {
      var n :| n in a;
      SubsetSize(a - {n}, b - {n});
    }
  }

  lemma AllDistinct(next: Field, prev: Field, rings: map<Ptr, seq<Ptr>>, owner: map<Ptr, Ptr>)
    requires Rings(next, prev, rings, owner)
    ensures forall h :: h in rings ==> Distinct(h, rings[h])
  {
    hide Ring, Distinct;
  }

  lemma Owned(next: Field, prev: Field, rings: map<Ptr, seq<Ptr>>, owner: map<Ptr, Ptr>, h: Ptr, i: nat)
    requires Rings(next, prev, rings, owner) && h in rings && i < |rings[h]|
    ensures rings[h][i] in owner
  {
    hide Ring, Distinct;
  }

  lemma NotContained(at: map<Key, nat>, val: map<nat, Key>, k: Key)
    requires k !in at
    ensures ContentsOf(at, val) - {k} == ContentsOf(at, val) && k !in ContentsOf(at, val)
  {
  }

  lemma OneLess(at: map<Key, nat>, k: Key)
    requires k in at
    ensures |at - {k}| == |at| - 1
  {
    assert (at - {k})[k := at[k]] == at;
  }

  lemma FirstOfRing(next: Field, prev: Field, rings: map<Ptr, seq<Ptr>>, owner: map<Ptr, Ptr>, h: Ptr)
    requires Rings(next, prev, rings, owner) && h in rings && rings[h] != []
    ensures h in next && next[h] == rings[h][0] && rings[h][0] in owner && Distinct(h, rings[h])
  {
    NextInRing(next, prev, h, rings[h], 0);
  }
}
