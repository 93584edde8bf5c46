/** The intrusive doubly linked lists of map/mylist.h. */
module MyList {

  /** A list_head, named by where it is embedded: in a map node (twice), in a hash table, or
      in the map object itself. */
  datatype Ptr = Link(node: nat) | Hash(node: nat) | Bucket(index: nat) | LinkHead | FreeHead

  type Field = map<Ptr, Ptr>

  // ---------- rings ----------

  /** Going round the ring of h: h itself, the elements of s, h again. */
  function Ith(h: Ptr, s: seq<Ptr>, i: int): Ptr {
    if 1 <= i <= |s| then s[i - 1] else h
  }

  predicate Distinct(h: Ptr, s: seq<Ptr>) {
    h !in s && forall i, j :: 0 <= i < j < |s| ==> s[i] != s[j]
  }

  /** next and prev run round the ring in the two directions. */
  predicate Ring(next: Field, prev: Field, h: Ptr, s: seq<Ptr>) {
    && (forall i {:trigger Ith(h, s, i)} :: 0 <= i <= |s| ==> Ith(h, s, i) in next && Ith(h, s, i) in prev)
    && (forall i {:trigger Ith(h, s, i)} :: 0 <= i <= |s| ==> next[Ith(h, s, i)] == Ith(h, s, i + 1))
    && (forall i {:trigger Ith(h, s, i)} :: 0 < i <= |s| + 1 ==>
          Ith(h, s, i) in prev && prev[Ith(h, s, i)] == Ith(h, s, i - 1))
  }

  function Inserted(s: seq<Ptr>, k: nat, it: Ptr): seq<Ptr>
    requires k <= |s|
  {
    s[..k] + [it] + s[k..]
  }

  function Removed(s: seq<Ptr>, k: nat): seq<Ptr>
    requires k < |s|
  {
    s[..k] + s[k + 1..]
  }

  lemma IthDistinct(h: Ptr, s: seq<Ptr>, i: int, j: int)
    requires Distinct(h, s) && 0 <= i <= |s| && 0 <= j <= |s| && i != j
    ensures Ith(h, s, i) != Ith(h, s, j)
  {
  }

  lemma IthInserted(h: Ptr, s: seq<Ptr>, k: nat, it: Ptr, i: nat)
    requires k <= |s| && i <= |s| + 2
    ensures Ith(h, Inserted(s, k, it), i) ==
            if i <= k then Ith(h, s, i) else if i == k + 1 then it else Ith(h, s, i - 1)
  {
  }

  lemma IthRemoved(h: Ptr, s: seq<Ptr>, k: nat, i: nat)
    requires k < |s| && i <= |s|
    ensures Ith(h, Removed(s, k), i) == if i <= k then Ith(h, s, i) else Ith(h, s, i + 1)
  {
  }

  lemma RingInsert(next: Field, prev: Field, h: Ptr, s: seq<Ptr>, k: nat, it: Ptr)
    requires Ring(next, prev, h, s) && Distinct(h, s) && k <= |s| && it != h && it !in s
    ensures var p, n := Ith(h, s, k), Ith(h, s, k + 1);
      && Ring(next[it := n][p := it], prev[n := it][it := p], h, Inserted(s, k, it))
      && Distinct(h, Inserted(s, k, it))
  {
    hide Inserted;
    var p, n, s' := Ith(h, s, k), Ith(h, s, k + 1), Inserted(s, k, it);
    var next', prev' := next[it := n][p := it], prev[n := it][it := p];
    InsertedDistinct(h, s, k, it);
    forall i | 0 <= i <= |s'|
      ensures Ith(h, s', i) in next' && Ith(h, s', i) in prev' && next'[Ith(h, s', i)] == Ith(h, s', i + 1)
    {
      assert Ith(h, s, if i <= k then i else i - 1) in next;
      InsertNext(next, h, s, k, it, i);
      IthInserted(h, s, k, it, i);
    }
    forall i | 0 < i <= |s'| + 1
      ensures Ith(h, s', i) in prev' && prev'[Ith(h, s', i)] == Ith(h, s', i - 1)
    {
      assert Ith(h, s, if i <= k then i else i - 1) in prev;
      InsertPrev(prev, h, s, k, it, i);
    }
  }

  lemma InsertNext(next: Field, h: Ptr, s: seq<Ptr>, k: nat, it: Ptr, i: nat)
    requires Distinct(h, s) && k <= |s| && i <= |s| + 1 && it != h && it !in s
    requires var j := if i <= k then i else i - 1;
      Ith(h, s, j) in next && next[Ith(h, s, j)] == Ith(h, s, j + 1)
    ensures var next' := next[it := Ith(h, s, k + 1)][Ith(h, s, k) := it];
      Ith(h, Inserted(s, k, it), i) in next'
      && next'[Ith(h, Inserted(s, k, it), i)] == Ith(h, Inserted(s, k, it), i + 1)
  {
    hide Inserted;
    IthInserted(h, s, k, it, i);
    IthInserted(h, s, k, it, i + 1);
    if i < k { IthDistinct(h, s, i, k); }
    if i > k + 1 { IthDistinct(h, s, i - 1, k); }
  }

  lemma InsertPrev(prev: Field, h: Ptr, s: seq<Ptr>, k: nat, it: Ptr, i: nat)
    requires Distinct(h, s) && k <= |s| && 0 < i <= |s| + 2 && it != h && it !in s
    requires i > 1 || k > 0 ==>
      var j := if i <= k then i else i - 1;
      Ith(h, s, j) in prev && prev[Ith(h, s, j)] == Ith(h, s, j - 1)
    ensures var prev' := prev[Ith(h, s, k + 1) := it][it := Ith(h, s, k)];
      Ith(h, Inserted(s, k, it), i) in prev'
      && prev'[Ith(h, Inserted(s, k, it), i)] == Ith(h, Inserted(s, k, it), i - 1)
  {
    hide Inserted;
    IthInserted(h, s, k, it, i);
    IthInserted(h, s, k, it, i - 1);
    if i <= k { IthDistinct(h, s, i, if k == |s| then 0 else k + 1); }
    if i > k + 2 { IthDistinct(h, s, if i == |s| + 2 then 0 else i - 1, if k == |s| then 0 else k + 1); }
  }

  lemma InsertedDistinct(h: Ptr, s: seq<Ptr>, k: nat, it: Ptr)
    requires Distinct(h, s) && k <= |s| && it != h && it !in s
    ensures |Inserted(s, k, it)| == |s| + 1 && Distinct(h, Inserted(s, k, it))
  {
  }

  lemma RingRemove(next: Field, prev: Field, h: Ptr, s: seq<Ptr>, k: nat)
    requires Ring(next, prev, h, s) && Distinct(h, s) && k < |s|
    ensures var p, n := Ith(h, s, k), Ith(h, s, k + 2);
      && s[k] in next && s[k] in prev && next[s[k]] == n && prev[s[k]] == p
      && Ring(next[p := n], prev[n := p], h, Removed(s, k))
      && Distinct(h, Removed(s, k)) && s[k] !in Removed(s, k)
  {
    hide Removed;
    var p, n, s' := Ith(h, s, k), Ith(h, s, k + 2), Removed(s, k);
    var next', prev' := next[p := n], prev[n := p];
    assert Ith(h, s, k + 1) == s[k];
    RemovedDistinct(h, s, k);
    forall i | 0 <= i <= |s'|
      ensures Ith(h, s', i) in next' && Ith(h, s', i) in prev' && next'[Ith(h, s', i)] == Ith(h, s', i + 1)
    {
      RemoveNext(next, h, s, k, i);
      IthRemoved(h, s, k, i);
    }
    forall i | 0 < i <= |s'| + 1
      ensures Ith(h, s', i) in prev' && prev'[Ith(h, s', i)] == Ith(h, s', i - 1)
    {
      assert Ith(h, s, if i <= k then i else i + 1) in prev;
      RemovePrev(prev, h, s, k, i);
    }
  }

  lemma RemoveNext(next: Field, h: Ptr, s: seq<Ptr>, k: nat, i: nat)
    requires Distinct(h, s) && k < |s| && i < |s|
    requires var j := if i <= k then i else i + 1;
      Ith(h, s, j) in next && next[Ith(h, s, j)] == Ith(h, s, j + 1)
    ensures var next' := next[Ith(h, s, k) := Ith(h, s, k + 2)];
      Ith(h, Removed(s, k), i) in next' && next'[Ith(h, Removed(s, k), i)] == Ith(h, Removed(s, k), i + 1)
  {
    hide Removed;
    IthRemoved(h, s, k, i);
    IthRemoved(h, s, k, i + 1);
    if i < k { IthDistinct(h, s, i, k); }
    if i > k { IthDistinct(h, s, i + 1, k); }
  }

  lemma RemovePrev(prev: Field, h: Ptr, s: seq<Ptr>, k: nat, i: nat)
    requires Distinct(h, s) && k < |s| && 0 < i <= |s|
    requires var j := if i <= k then i else i + 1;
      Ith(h, s, j) in prev && prev[Ith(h, s, j)] == Ith(h, s, j - 1)
    ensures var prev' := prev[Ith(h, s, k + 2) := Ith(h, s, k)];
      Ith(h, Removed(s, k), i) in prev' && prev'[Ith(h, Removed(s, k), i)] == Ith(h, Removed(s, k), i - 1)
  {
    hide Removed;
    IthRemoved(h, s, k, i);
    IthRemoved(h, s, k, i - 1);
    if i <= k { IthDistinct(h, s, i, if k + 1 == |s| then 0 else k + 2); }
    if i > k + 1 { IthDistinct(h, s, if i == |s| then 0 else i + 1, if k + 1 == |s| then 0 else k + 2); }
  }

  lemma RemovedDistinct(h: Ptr, s: seq<Ptr>, k: nat)
    requires Distinct(h, s) && k < |s|
    ensures |Removed(s, k)| == |s| - 1 && Distinct(h, Removed(s, k)) && s[k] !in Removed(s, k)
  {
  }

  /** Writing outside a ring leaves it alone. */
  lemma RingKept(next: Field, prev: Field, next': Field, prev': Field, h: Ptr, s: seq<Ptr>)
    requires Ring(next, prev, h, s)
    requires forall x :: (x == h || x in s) && x in next ==> x in next' && next'[x] == next[x]
    requires forall x :: (x == h || x in s) && x in prev ==> x in prev' && prev'[x] == prev[x]
    ensures Ring(next', prev', h, s)
  {
    forall i | 0 <= i <= |s| + 1 ensures Ith(h, s, i) == h || Ith(h, s, i) in s {}
  }

  // ---------- many rings in one memory ----------

  /** Every head owns a ring, and nothing is in two rings. */
  predicate Rings(next: Field, prev: Field, rings: map<Ptr, seq<Ptr>>, owner: map<Ptr, Ptr>) {
    && (forall h :: h in rings ==>
          && Ring(next, prev, h, rings[h]) && Distinct(h, rings[h])
          && h in owner && owner[h] == h
          && forall x :: x in rings[h] ==> x in owner && owner[x] == h)
    && (forall x :: x in owner ==> owner[x] in rings && (x == owner[x] || x in rings[owner[x]]))
  }

  lemma RingsInsert(next: Field, prev: Field, rings: map<Ptr, seq<Ptr>>, owner: map<Ptr, Ptr>, h: Ptr, k: nat, it: Ptr)
    requires Rings(next, prev, rings, owner) && h in rings && k <= |rings[h]| && it !in owner
    ensures var p, n := Ith(h, rings[h], k), Ith(h, rings[h], k + 1);
      Rings(next[it := n][p := it], prev[n := it][it := p], rings[h := Inserted(rings[h], k, it)], owner[it := h])
  {
    hide Ring, Distinct, Inserted;
    var s := rings[h];
    var p, n := Ith(h, s, k), Ith(h, s, k + 1);
    var next', prev' := next[it := n][p := it], prev[n := it][it := p];
    RingInsert(next, prev, h, s, k, it);
    InsertedMembers(s, k, it);
    assert (p == h || p in s) && (n == h || n in s);
    forall g | g in rings && g != h ensures Ring(next', prev', g, rings[g]) {
      RingKept(next, prev, next', prev', g, rings[g]);
    }
  }

  lemma InsertedMembers(s: seq<Ptr>, k: nat, it: Ptr)
    requires k <= |s|
    ensures forall x :: x in Inserted(s, k, it) <==> x == it || x in s
  {
    assert s == s[..k] + s[k..];
  }

  lemma RingsRemove(next: Field, prev: Field, rings: map<Ptr, seq<Ptr>>, owner: map<Ptr, Ptr>, h: Ptr, k: nat)
    requires Rings(next, prev, rings, owner) && h in rings && k < |rings[h]|
    ensures var p, n, x := Ith(h, rings[h], k), Ith(h, rings[h], k + 2), rings[h][k];
      && x in next && x in prev && next[x] == n && prev[x] == p && p in next && n in prev && p != x && n != x
      && Rings(next[p := n], prev[n := p], rings[h := Removed(rings[h], k)], owner - {x})
  {
    hide Ring, Distinct, Removed;
    var s := rings[h];
    var p, n, x := Ith(h, s, k), Ith(h, s, k + 2), s[k];
    var next', prev' := next[p := n], prev[n := p];
    RingRemove(next, prev, h, s, k);
    RemovedMembers(h, s, k);
    Neighbours(next, prev, h, s, k);
    forall g | g in rings && g != h ensures Ring(next', prev', g, rings[g]) {
      RingKept(next, prev, next', prev', g, rings[g]);
    }
  }

  lemma RemovedMembers(h: Ptr, s: seq<Ptr>, k: nat)
    requires Distinct(h, s) && k < |s|
    ensures s[k] != h && forall x :: x in Removed(s, k) <==> x in s && x != s[k]
  {
    assert s == s[..k] + [s[k]] + s[k + 1..];
  }

  lemma Neighbours(next: Field, prev: Field, h: Ptr, s: seq<Ptr>, k: nat)
    requires Ring(next, prev, h, s) && Distinct(h, s) && k < |s|
    ensures var p, n := Ith(h, s, k), Ith(h, s, k + 2);
      && (p == h || p in s) && (n == h || n in s) && p in next && n in prev && p != s[k] && n != s[k]
  {
  }

  lemma RingsAddEmpty(next: Field, prev: Field, rings: map<Ptr, seq<Ptr>>, owner: map<Ptr, Ptr>, h: Ptr)
    requires Rings(next, prev, rings, owner) && (h !in owner || (h in rings && rings[h] == []))
    ensures Rings(next[h := h], prev[h := h], rings[h := []], owner[h := h])
  {
    hide Ring, Distinct;
    RingAlone(next, prev, h);
    forall g | g in rings && g != h ensures Ring(next[h := h], prev[h := h], g, rings[g]) {
      RingKept(next, prev, next[h := h], prev[h := h], g, rings[g]);
    }
  }

  lemma RingAlone(next: Field, prev: Field, h: Ptr)
    ensures Ring(next[h := h], prev[h := h], h, []) && Distinct(h, [])
  {
  }

  /** The memory that holds all list_heads. */
  class Lists {
    var next: Field
    var prev: Field
    ghost var rings: map<Ptr, seq<Ptr>>
    ghost var owner: map<Ptr, Ptr>

    ghost predicate Valid()
      reads this
    {
      Rings(next, prev, rings, owner)
    }

    /** Out of every ring, its neighbours still next to each other. */
    ghost predicate Unlinked(entry: Ptr)
      reads this
    {
      && entry !in owner && entry in next && entry in prev
      && prev[entry] in next && next[prev[entry]] == next[entry]
      && next[entry] in prev && prev[next[entry]] == prev[entry]
    }

    lemma HeadsOnly()
      requires Valid() && forall h :: h in rings ==> rings[h] == []
      ensures owner.Keys == rings.Keys
    {
      hide Ring, Distinct;
      assert forall x :: x in owner ==> x in rings;
    }

    constructor ()
      ensures Valid() && rings == map[] && owner == map[]
    {
      next, prev, rings, owner := map[], map[], map[], map[];
    }

    method InitListHead(ptr: Ptr)
      requires Valid() && (ptr !in owner || (ptr in rings && rings[ptr] == []))
      modifies this
      ensures Valid() && rings == old(rings)[ptr := []] && owner == old(owner)[ptr := ptr]
    {
      hide Rings;
      RingsAddEmpty(next, prev, rings, owner, ptr);
      next := next[ptr := ptr];
      prev := prev[ptr := ptr];
      rings, owner := rings[ptr := []], owner[ptr := ptr];
    }

    /** __list_add, between two neighbours of the ring of head. */
    method ListAddBetween(it: Ptr, p: Ptr, n: Ptr, ghost head: Ptr, ghost k: nat)
      requires Valid() && it !in owner && head in rings && k <= |rings[head]|
      requires p == Ith(head, rings[head], k) && n == Ith(head, rings[head], k + 1)
      modifies this
      ensures Valid() && rings == old(rings)[head := Inserted(old(rings)[head], k, it)]
      ensures owner == old(owner)[it := head]
    {
      hide Rings, Inserted;
      RingsInsert(next, prev, rings, owner, head, k, it);
      prev := prev[n := it];
      next := next[it := n];
      prev := prev[it := p];
      next := next[p := it];
      rings, owner := rings[head := Inserted(rings[head], k, it)], owner[it := head];
    }

    method ListAdd(it: Ptr, head: Ptr)
      requires Valid() && it !in owner && head in rings
      modifies this
      ensures Valid() && rings == old(rings)[head := [it] + old(rings)[head]] && owner == old(owner)[it := head]
    {
      hide Distinct;
      ghost var s := rings[head];
      assert Ith(head, s, 0) == head;
      ListAddBetween(it, head, next[head], head, 0);
      assert Inserted(s, 0, it) == [it] + s;
    }

    method ListAddTail(it: Ptr, head: Ptr)
      requires Valid() && it !in owner && head in rings
      modifies this
      ensures Valid() && rings == old(rings)[head := old(rings)[head] + [it]] && owner == old(owner)[it := head]
    {
      hide Distinct;
      ghost var s := rings[head];
      assert Ith(head, s, |s| + 1) == head;
      ListAddBetween(it, prev[head], head, head, |s|);
      assert Inserted(s, |s|, it) == s + [it];
    }

    /** list_del, of a member of a ring or, once more, of an entry just deleted. */
    method ListDel(entry: Ptr, ghost head: Ptr, ghost k: nat)
      requires Valid()
      requires if entry in owner then head in rings && k < |rings[head]| && rings[head][k] == entry else Unlinked(entry)
      modifies this
      ensures Valid() && Unlinked(entry)
      ensures if entry in old(owner)
              then rings == old(rings)[head := Removed(old(rings)[head], k)] && owner == old(owner) - {entry}
              else rings == old(rings) && owner == old(owner)
      ensures entry in old(next) && entry in old(prev)
      ensures entry in old(owner) ==>
                && old(prev)[entry] == Ith(head, old(rings)[head], k)
                && old(next)[entry] == Ith(head, old(rings)[head], k + 2)
      ensures next == old(next)[old(prev)[entry] := old(next)[entry]]
      ensures prev == old(prev)[old(next)[entry] := old(prev)[entry]]
    {
      hide Rings, Removed;
      if entry in owner { RingsRemove(next, prev, rings, owner, head, k); }
      var p, n := prev[entry], next[entry];
      prev := prev[n := p];
      next := next[p := n];
      if entry in owner {
        rings, owner := rings[head := Removed(rings[head], k)], owner - {entry};
      } else {
        assert next == old(next) && prev == old(prev);
      }
    }

    method ListEmpty(head: Ptr) returns (empty: bool)
      requires Valid() && head in rings
      ensures empty <==> rings[head] == []
    {
      ghost var s := rings[head];
      assert Ith(head, s, 0) == head && next[head] == Ith(head, s, 1);
      empty := next[head] == head;
    }
  }
}
